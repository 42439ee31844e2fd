/** State kept as a stack of full copies: one map per open checkpoint, for accounts, code and storage. */
module SimpleStateManagers {
  import opened Base
  import CopyStack

  type Address = Bytes

  datatype Account = Account(nonce: nat, balance: nat, codeHash: Bytes)

  /** A storage location: an address and a slot of it. */
  datatype Location = Location(address: Address, slot: Bytes)

  class SimpleStateManager {
    const keccak: Bytes -> Bytes
    var accountStack: seq<map<Address, Option<Account>>>
    var codeStack: seq<map<Address, Bytes>>
    var storageStack: seq<map<Location, Bytes>>

    ghost predicate Valid()
      reads this
    {
      |accountStack| == |codeStack| == |storageStack| > 0
    }

    constructor (keccak: Bytes -> Bytes)
      ensures Valid() && this.keccak == keccak
      ensures accountStack == [map[]] && codeStack == [map[]] && storageStack == [map[]]
    {
      this.keccak := keccak;
      accountStack, codeStack, storageStack := [], [], [];
      new;
      CheckpointSync();
    }

    method CheckpointSync()
      modifies this
      ensures accountStack == CopyStack.Checkpoint(old(accountStack))
      ensures codeStack == CopyStack.Checkpoint(old(codeStack))
      ensures storageStack == CopyStack.Checkpoint(old(storageStack))
      ensures old(Valid()) ==>
                var n := |old(accountStack)|;
                && accountStack == old(accountStack) + [old(accountStack)[n - 1]]
                && codeStack == old(codeStack) + [old(codeStack)[n - 1]]
                && storageStack == old(storageStack) + [old(storageStack)[n - 1]]
    {
      accountStack := accountStack + [CopyStack.Top(accountStack)];
      codeStack := codeStack + [CopyStack.Top(codeStack)];
      storageStack := storageStack + [CopyStack.Top(storageStack)];
    }

    /** splice(-2, 1) on one of the stacks. */
    static method DropBelowTop<K, V>(stack: seq<map<K, V>>) returns (r: seq<map<K, V>>)
      ensures r == CopyStack.Commit(stack)
    {
      var start := if |stack| >= 2 then |stack| - 2 else 0;
      r := if start < |stack| then stack[..start] + stack[start + 1..] else stack;
    }

    method Commit()
      modifies this
      ensures accountStack == CopyStack.Commit(old(accountStack))
      ensures codeStack == CopyStack.Commit(old(codeStack))
      ensures storageStack == CopyStack.Commit(old(storageStack))
      ensures old(Valid()) && |old(accountStack)| >= 2 ==>
                var n := |old(accountStack)|;
                && accountStack == old(accountStack)[..n - 2] + [old(accountStack)[n - 1]]
                && codeStack == old(codeStack)[..n - 2] + [old(codeStack)[n - 1]]
                && storageStack == old(storageStack)[..n - 2] + [old(storageStack)[n - 1]]
    {
      accountStack := DropBelowTop(accountStack);
      codeStack := DropBelowTop(codeStack);
      storageStack := DropBelowTop(storageStack);
    }

    method Revert()
      modifies this
      ensures accountStack == CopyStack.Revert(old(accountStack))
      ensures codeStack == CopyStack.Revert(old(codeStack))
      ensures storageStack == CopyStack.Revert(old(storageStack))
      ensures old(Valid()) ==>
                var n := |old(accountStack)|;
                && accountStack == old(accountStack)[..n - 1] && codeStack == old(codeStack)[..n - 1]
                && storageStack == old(storageStack)[..n - 1]
    {
      if accountStack != [] {
        accountStack := accountStack[..|accountStack| - 1];
      }
      if codeStack != [] {
        codeStack := codeStack[..|codeStack| - 1];
      }
      if storageStack != [] {
        storageStack := storageStack[..|storageStack| - 1];
      }
    }

    method GetAccount(address: Address) returns (account: Option<Account>)
      requires Valid()
      ensures account == if address in CopyStack.Top(accountStack) then CopyStack.Top(accountStack)[address] else None
      ensures var top := accountStack[|accountStack| - 1]; account == if address in top then top[address] else None
    {
      account := if address in CopyStack.Top(accountStack) then CopyStack.Top(accountStack)[address] else None;
    }

    method PutAccount(address: Address, account: Option<Account>)
      requires Valid()
      modifies this`accountStack
      ensures Valid() && accountStack == CopyStack.Set(old(accountStack), address, account)
      ensures var n := |old(accountStack)|;
              accountStack == old(accountStack)[..n - 1] + [old(accountStack)[n - 1][address := account]]
    {
      accountStack := accountStack[|accountStack| - 1 := accountStack[|accountStack| - 1][address := account]];
    }

    method DeleteAccount(address: Address)
      requires Valid()
      modifies this`accountStack
      ensures Valid() && accountStack == CopyStack.Set(old(accountStack), address, None)
    {
      PutAccount(address, None);
    }

    method GetCode(address: Address) returns (code: Bytes)
      requires Valid()
      ensures code == if address in CopyStack.Top(codeStack) then CopyStack.Top(codeStack)[address] else []
    {
      code := if address in CopyStack.Top(codeStack) then CopyStack.Top(codeStack)[address] else [];
    }

    /** Code is stored beside the account, whose code hash follows it; a missing account is created. */
    method PutCode(address: Address, value: Bytes)
      requires Valid()
      modifies this`codeStack, this`accountStack
      ensures Valid() && codeStack == CopyStack.Set(old(codeStack), address, value)
      ensures |accountStack| == |old(accountStack)|
      ensures accountStack[..|accountStack| - 1] == old(accountStack)[..|accountStack| - 1]
      ensures var top := CopyStack.Top(old(accountStack));
              var before := if address in top then top[address] else None;
              var account := if before.Some? then before.value else Account(0, 0, keccak([]));
              CopyStack.Top(accountStack) == top[address := Some(account.(codeHash := keccak(value)))]
    {
      codeStack := codeStack[|codeStack| - 1 := codeStack[|codeStack| - 1][address := value]];
      var account := GetAccount(address);
      if account.None? {
        PutAccount(address, Some(Account(0, 0, keccak([]))));
      }
      account := GetAccount(address);
      PutAccount(address, Some(account.value.(codeHash := keccak(value))));
    }

    method GetStorage(address: Address, slot: Bytes) returns (value: Bytes)
      requires Valid()
      ensures var top, at := CopyStack.Top(storageStack), Location(address, slot);
              value == if at in top then top[at] else []
      ensures var top, at := storageStack[|storageStack| - 1], Location(address, slot);
              value == if at in top then top[at] else []
    {
      var at := Location(address, slot);
      value := if at in CopyStack.Top(storageStack) then CopyStack.Top(storageStack)[at] else [];
    }

    method PutStorage(address: Address, slot: Bytes, value: Bytes)
      requires Valid()
      modifies this`storageStack
      ensures Valid() && storageStack == CopyStack.Set(old(storageStack), Location(address, slot), value)
      ensures var n := |old(storageStack)|;
              storageStack == old(storageStack)[..n - 1] + [old(storageStack)[n - 1][Location(address, slot) := value]]
    {
      var top := |storageStack| - 1;
      storageStack := storageStack[top := storageStack[top][Location(address, slot) := value]];
    }
  }
}

/** Message frames as the machine runs them: checkpoints on a state manager, a cached contract account. */
module Evms {
  import opened Base
  import opened SimpleStateManagers
  import opened EvmModel
  import CopyStack

  datatype EvmError =
    | InsufficientBalance
    | ValueOverflow
    | InitcodeSizeViolation
    | CreateCollision
    | CodestoreOutOfGas
    | ExecutionError

  /** The accounts as they are now. */
  function Now(stack: seq<World>): World {
    CopyStack.Top(stack)
  }

  /** Only the accounts as they are now differ between the two stacks. */
  ghost predicate SameBelow(stack: seq<World>, was: seq<World>) {
    stack != [] && |stack| == |was| && stack[..|stack| - 1] == was[..|was| - 1]
  }

  function CodeSize(code: Code): nat {
    if code.Bytecode? then 1 + RunSize(code.run) else 0
  }

  function RunSize(run: Run): nat {
    match run
    case Calls(_, _, _, callee, ifOk, ifFailed) => 1 + CodeSize(callee) + RunSize(ifOk) + RunSize(ifFailed)
    case Creates(_, _, init, ifOk, ifFailed) => 1 + InitSize(init) + RunSize(ifOk) + RunSize(ifFailed)
    case _ => 0
  }

  function InitSize(init: Option<Run>): nat {
    if init.Some? then 1 + RunSize(init.value) else 0
  }

  function MessageSize(m: Message): nat {
    if m.to.Some? then CodeSize(m.code) else InitSize(m.init)
  }

  // ------------------------------------------------------------------------ one step of a frame

  lemma {:induction false} CreateStep(r: Rules, w: World, f: Frame, run: Run, ok: bool, burned: nat, w': World)
    requires run.Creates?
    requires var own := Get(r, w, f.address);
             if f.depth >= r.stackLimit || own.balance < run.value || own.nonce >= MAX_UINT64 then !ok && burned == 0 &&
               w' == w
             else
               var w1 := Put(w, f.address, own.(nonce := own.nonce + 1));
               if run.creation.oversized then !ok && burned == 0 && w' == w1
               else Outcome(w', ok, burned) ==
                    CreateMessage(r, w1, f.address, run.value, run.creation, run.init, f.depth + 1)
    ensures Executed(r, w, f, run) == After(Executed(r, w', f, if ok then run.ifOk else run.ifFailed), burned)
  {
    hide CallMessage, CreateMessage;
  }

  lemma {:induction false} Ending(r: Rules, w: World, f: Frame, run: Run)
    requires run.Halts? || run.Fails?
    ensures Executed(r, w, f, run) == Outcome(w, run.Halts?, 0)
  {
  }

  class EVM {
    const stateManager: SimpleStateManager
    const rules: Rules

    ghost predicate Valid()
      reads stateManager
    {
      rules.keccak == stateManager.keccak && stateManager.Valid()
    }

    constructor (stateManager: SimpleStateManager, rules: Rules)
      requires rules.keccak == stateManager.keccak && stateManager.Valid()
      ensures this.stateManager == stateManager && this.rules == rules && Valid()
    {
      this.stateManager, this.rules := stateManager, rules;
    }

    /** The account at an address, or an empty one. */
    method Load(address: Address) returns (account: Account)
      requires Valid()
      ensures account == Get(rules, Now(stateManager.accountStack), address)
    {
      var found := stateManager.GetAccount(address);
      account := if found.Some? then found.value else Account(0, 0, rules.keccak([]));
    }

    method ReduceSenderBalance(account: Account, caller: Address, value: nat) returns (r: Result<(), EvmError>)
      requires Valid()
      modifies stateManager`accountStack
      ensures Valid() && SameBelow(stateManager.accountStack, old(stateManager.accountStack))
      ensures r.Ok? <==> account.balance >= value
      ensures Now(stateManager.accountStack) ==
              if account.balance >= value then Put(Now(old(stateManager.accountStack)), caller, Paid(account, value))
              else Now(old(stateManager.accountStack))
    {
      var balance := account.balance - value;
      if balance < 0 {
        return Err(InsufficientBalance);
      }
      stateManager.PutAccount(caller, Some(account.(balance := balance)));
      r := Ok(());
    }

    method AddToBalance(toAccount: Account, to: Address, value: nat) returns (r: Result<(), EvmError>)
      requires Valid()
      modifies stateManager`accountStack
      ensures Valid() && SameBelow(stateManager.accountStack, old(stateManager.accountStack))
      ensures r.Ok? <==> toAccount.balance + value <= MAX_INTEGER
      ensures Now(stateManager.accountStack) ==
              if r.Ok? then Put(Now(old(stateManager.accountStack)), to, Received(toAccount, value))
              else Now(old(stateManager.accountStack))
    {
      var newBalance := toAccount.balance + value;
      if newBalance > MAX_INTEGER {
        return Err(ValueOverflow);
      }
      stateManager.PutAccount(to, Some(toAccount.(balance := newBalance)));
      r := Ok(());
    }

    /** The debit and the credit of a call; the credit runs even when the debit failed. */
    method TransferValue(caller: Address, to: Address, value: nat) returns (error: Option<EvmError>)
      requires Valid()
      modifies stateManager`accountStack
      ensures Valid() && SameBelow(stateManager.accountStack, old(stateManager.accountStack))
      ensures var transferred := Transferred(rules, Now(old(stateManager.accountStack)), caller, to, value);
              && (error.None? <==> transferred.Some?) && error != Some(CodestoreOutOfGas)
              && (transferred.Some? ==>
                    Now(stateManager.accountStack) == transferred.value && Exists(transferred.value, to))
    {
      error := None;
      var account := Load(caller);
      var reduced := ReduceSenderBalance(account, caller, value);
      if reduced.Err? {
        error := Some(InsufficientBalance);
      }
      var toAccount := Load(to);
      var added := AddToBalance(toAccount, to, value);
      if added.Err? {
        error := Some(ValueOverflow);
      }
    }

    method ExecuteCall(message: Message) returns (error: Option<EvmError>, ghost burned: nat)
      requires Valid() && message.to.Some?
      requires message.delegatecall ==> Exists(Now(stateManager.accountStack), message.to.value)
      modifies stateManager
      ensures Valid() && SameBelow(stateManager.accountStack, old(stateManager.accountStack))
      ensures var o := CallMessage(rules, Now(old(stateManager.accountStack)), message.caller, message.to.value,
                                   message.value, message.delegatecall, message.code, message.depth);
              && (error.None? <==> o.ok) && error != Some(CodestoreOutOfGas)
              && (o.ok ==> Now(stateManager.accountStack) == o.world && burned == o.burned)
      decreases MessageSize(message), 2
    {
      hide Executed, Transferred;
      error, burned := None, 0;
      var to := message.to.value;
      if !message.delegatecall {
        error := TransferValue(message.caller, to, message.value);
      }
      if error.Some? || message.code.NoCode? {
        return;
      }
      if message.code.Precompile? {
        error := if message.code.succeeds then None else Some(ExecutionError);
      } else {
        var ok;
        ok, burned := RunInterpreter(to, message.caller, message.depth, message.code.run);
        error := if ok then None else Some(ExecutionError);
      }
    }

    /** Refuse oversized code or a taken address, else give birth to the account with the value. */
    method Welcome(c: Creation, value: nat) returns (error: Option<EvmError>)
      requires Valid()
      modifies stateManager`accountStack
      ensures Valid() && SameBelow(stateManager.accountStack, old(stateManager.accountStack))
      ensures var welcomed := Welcomed(rules, Now(old(stateManager.accountStack)), value, c);
              && (error.None? <==> welcomed.Some?) && error != Some(CodestoreOutOfGas)
              && (welcomed.Some? ==>
                    Now(stateManager.accountStack) == welcomed.value && Exists(welcomed.value, c.address))
    {
      ghost var paid := Now(stateManager.accountStack);
      var to := c.address;
      if c.oversized {
        return Some(InitcodeSizeViolation);
      }
      var toAccount := Load(to);
      if toAccount.nonce > 0 || toAccount.codeHash != rules.keccak([]) || c.hasStorage {
        return Some(CreateCollision);
      }
      stateManager.PutAccount(to, Some(toAccount));
      toAccount := Load(to);
      if rules.spuriousDragon {
        toAccount := toAccount.(nonce := toAccount.nonce + 1);
      }
      var added := AddToBalance(toAccount, to, value);
      error := if added.Err? then Some(ValueOverflow) else None;
      assert added.Ok? ==> Now(stateManager.accountStack) == Put(paid, to, Received(toAccount, value));
    }

    /** Nothing catches a failing debit here: it throws. */
    method MoveToNewborn(message: Message) returns (thrown: bool, error: Option<EvmError>)
      requires Valid()
      modifies stateManager`accountStack
      ensures Valid() && SameBelow(stateManager.accountStack, old(stateManager.accountStack))
      ensures thrown <==> Get(rules, Now(old(stateManager.accountStack)), message.caller).balance < message.value
      ensures thrown ==> Now(stateManager.accountStack) == Now(old(stateManager.accountStack))
      ensures !thrown ==>
              var born :=
                Born(rules, Now(old(stateManager.accountStack)), message.caller, message.value, message.creation);
              && (error.None? <==> born.Some?) && error != Some(CodestoreOutOfGas)
              && (born.Some? ==>
                    Now(stateManager.accountStack) == born.value && Exists(born.value, message.creation.address))
    {
      hide Welcomed;
      var account := Load(message.caller);
      var reduced := ReduceSenderBalance(account, message.caller, message.value);
      if reduced.Err? {
        return true, None;
      }
      thrown := false;
      error := Welcome(message.creation, message.value);
    }

    method ExecuteCreate(message: Message) returns (thrown: bool, error: Option<EvmError>, ghost burned: nat)
      requires Valid()
      modifies stateManager
      ensures Valid() && SameBelow(stateManager.accountStack, old(stateManager.accountStack))
      ensures thrown <==> Get(rules, Now(old(stateManager.accountStack)), message.caller).balance < message.value
      ensures thrown ==> Now(stateManager.accountStack) == Now(old(stateManager.accountStack))
      ensures !thrown ==>
              var o := CreateMessage(rules, Now(old(stateManager.accountStack)), message.caller, message.value,
                                     message.creation, message.init, message.depth);
              && (o.ok <==> error.None? || error == Some(CodestoreOutOfGas)) &&
                (error == Some(CodestoreOutOfGas) ==> rules.chainstart)
              && (o.ok ==> Now(stateManager.accountStack) == o.world && burned == o.burned)
      decreases InitSize(message.init), 2
    {
      hide Executed, Born, Deposited;
      burned := 0;
      var to := message.creation.address;
      thrown, error := MoveToNewborn(message);
      if thrown || error.Some? || message.init.None? {
        return;
      }
      var ok;
      ok, burned := RunInterpreter(to, message.caller, message.depth, message.init.value);
      if !ok {
        return false, Some(ExecutionError), 0;
      }
      error := StoreCode(to, message.creation.deposit);
    }

    /** Once the code of a creation has run, what it returned is paid for and stored, or not. */
    method StoreCode(to: Address, deposit: Deposit) returns (error: Option<EvmError>)
      requires Valid()
      modifies stateManager
      ensures Valid() && SameBelow(stateManager.accountStack, old(stateManager.accountStack))
      ensures var deposited := Deposited(rules, Now(old(stateManager.accountStack)), to, deposit);
              && (deposited.Some? <==> error.None? || error == Some(CodestoreOutOfGas))
              && (error == Some(CodestoreOutOfGas) ==> rules.chainstart)
              && (deposited.Some? ==> Now(stateManager.accountStack) == deposited.value)
    {
      match deposit {
        case Rejected =>
          error := Some(ExecutionError);
        case Unpaid =>
          error := Some(ExecutionError);
          if rules.chainstart {
            error := Some(CodestoreOutOfGas);
            var created := Load(to);
            stateManager.PutAccount(to, Some(created));
          }
        case Stored(code) =>
          error := None;
          if code != [] {
            stateManager.PutCode(to, code);
          }
      }
    }

    /**
      * runCall: whatever the checkpoints, the credit after a failed debit and the stale caches do on the
      * way, the accounts end as the model without checkpoints says, and older copies are untouched. Only a
      * creation whose sender cannot afford it throws, which leaves the nonce spent and the checkpoint open.
      */
    method RunCall(message: Message) returns (thrown: bool, error: Option<EvmError>, ghost burned: nat)
      requires Valid()
      requires message.delegatecall && message.to.Some? ==> Exists(Now(stateManager.accountStack), message.to.value)
      modifies stateManager
      ensures Valid()
      ensures thrown <==> message.to.None? &&
                          Get(rules, Now(old(stateManager.accountStack)), message.caller).balance < message.value
      ensures thrown ==>
                var was := old(stateManager.accountStack);
                stateManager.accountStack ==
                CopyStack.Checkpoint(was[|was| - 1 := Started(rules, Now(was), message)])
      ensures !thrown ==>
                var w := Now(old(stateManager.accountStack));
                var o := RunMessage(rules, w, message);
                && SameBelow(stateManager.accountStack, old(stateManager.accountStack))
                && (o.ok <==> error.None? || error == Some(CodestoreOutOfGas))
                && (error == Some(CodestoreOutOfGas) ==> rules.chainstart && message.to.None?)
                && Now(stateManager.accountStack) == o.world && burned == o.burned
      ensures !thrown && BurnFreeMessage(message) ==>
                burned == 0 && Total(Now(stateManager.accountStack)) == Total(Now(old(stateManager.accountStack)))
      ensures message.to.Some? && Quiet(message.code) && !message.delegatecall ==>
                !thrown && ValueMoved(message, error.None?, Now(old(stateManager.accountStack)))
      decreases MessageSize(message), 3
    {
      hide CallMessage, CreateMessage, Total, BurnFreeMessage, ValueMoved, Get, Started;
      ghost var w := Now(stateManager.accountStack);
      ChargeNonce(message);
      ghost var was := stateManager.accountStack;
      stateManager.CheckpointSync();
      thrown := false;
      if message.to.Some? {
        error, burned := ExecuteCall(message);
      } else {
        thrown, error, burned := ExecuteCreate(message);
        if thrown {
          return;
        }
      }
      FailureIsNothing(rules, w, message);
      CloseCheckpoint(error, was);
      burned := if error.Some? && error != Some(CodestoreOutOfGas) then 0 else burned;
      if BurnFreeMessage(message) {
        MessageKeepsTotal(rules, w, message);
      }
      if message.to.Some? && Quiet(message.code) && !message.delegatecall {
        MovedValue(message, error.None?, w);
      }
    }

    /** The sender of the outermost message is charged its nonce. */
    method ChargeNonce(message: Message)
      requires Valid()
      modifies stateManager`accountStack
      ensures Valid()
      ensures var was := old(stateManager.accountStack);
              && stateManager.accountStack == was[|was| - 1 := Started(rules, Now(was), message)]
              && Get(rules, Now(stateManager.accountStack), message.caller).balance ==
                 Get(rules, Now(was), message.caller).balance
              && (message.to.Some? && Exists(Now(was), message.to.value) ==>
                    Exists(Now(stateManager.accountStack), message.to.value))
    {
      if message.depth == 0 {
        var callerAccount := Load(message.caller);
        stateManager.PutAccount(message.caller, Some(callerAccount.(nonce := callerAccount.nonce + 1)));
      }
    }

    /**
      * A message to quiet code ended well exactly if its sender had the value, its receiver can hold it and the
      * code did not fail, and then moved it; the sender of an outermost one is charged its nonce, and nothing else
      * changed.
      */
    ghost predicate ValueMoved(m: Message, ok: bool, w: World)
      requires m.to.Some? && Quiet(m.code)
      reads stateManager
    {
      var to := m.to.value;
      && (ok <==> && Get(rules, w, m.caller).balance >= m.value
                  && Get(rules, w, to).balance - (if to == m.caller then m.value else 0) + m.value <= MAX_INTEGER
                  && EndsWell(m.code))
      && forall a ::
           var before, after := Get(rules, w, a), Get(rules, Now(stateManager.accountStack), a);
           && after.codeHash == before.codeHash
           && after.nonce == before.nonce + (if m.depth == 0 && a == m.caller then 1 else 0)
           && after.balance == before.balance - (if ok && a == m.caller then m.value else 0)
                                              + (if ok && a == to then m.value else 0)
    }

    lemma {:induction false} MovedValue(m: Message, ok: bool, w: World)
      requires m.to.Some? && Quiet(m.code) && !m.delegatecall
      requires var o := RunMessage(rules, w, m); ok == o.ok && Now(stateManager.accountStack) == o.world
      ensures ValueMoved(m, ok, w)
    {
      hide RunMessage, Get;
      PlainMessage(rules, w, m, m.caller);
      forall a { PlainMessage(rules, w, m, a); }
    }

    /** An error takes the state back to the checkpoint, except that Chainstart forgives unpaid code. */
    method CloseCheckpoint(error: Option<EvmError>, ghost was: seq<World>)
      requires Valid() && was != [] && SameBelow(stateManager.accountStack, CopyStack.Checkpoint(was))
      modifies stateManager
      ensures Valid() && SameBelow(stateManager.accountStack, was)
      ensures Now(stateManager.accountStack) ==
              if error.Some? && !(rules.chainstart && error == Some(CodestoreOutOfGas)) then Now(was)
              else Now(old(stateManager.accountStack))
    {
      CopyStack.AfterCheckpoint(was, stateManager.accountStack);
      if error.Some? && !(rules.chainstart && error == Some(CodestoreOutOfGas)) {
        stateManager.Revert();
      } else {
        stateManager.Commit();
      }
    }

    method RunInterpreter(address: Address, caller: Address, depth: nat, run: Run) returns (ok: bool, ghost burned: nat)
      requires Valid() && Exists(Now(stateManager.accountStack), address)
      modifies stateManager
      ensures Valid() && SameBelow(stateManager.accountStack, old(stateManager.accountStack))
      ensures var o := Executed(rules, Now(old(stateManager.accountStack)), Frame(address, caller, depth), run);
              ok == o.ok && Now(stateManager.accountStack) == o.world && burned == o.burned
      decreases RunSize(run), 5
    {
      var contract := Load(address);
      var interpreter := new Interpreter(this, address, caller, depth, contract);
      ok, burned := interpreter.Run(run);
    }
  }

  class Interpreter {
    const evm: EVM
    const address: Address
    const caller: Address
    const depth: nat
    /** The account of this frame as it was last read. */
    var contract: Account

    /** The cached account is the account. */
    ghost predicate Valid()
      reads this, evm.stateManager
    {
      && evm.Valid()
      && Exists(Now(evm.stateManager.accountStack), address)
      && contract == Get(evm.rules, Now(evm.stateManager.accountStack), address)
    }

    constructor (evm: EVM, address: Address, caller: Address, depth: nat, contract: Account)
      requires evm.Valid() && Exists(Now(evm.stateManager.accountStack), address)
      requires contract == Get(evm.rules, Now(evm.stateManager.accountStack), address)
      ensures Valid() && this.evm == evm && this.address == address && this.caller == caller && this.depth == depth
    {
      this.evm, this.address, this.caller, this.depth, this.contract := evm, address, caller, depth, contract;
    }

    ghost function TheFrame(): Frame {
      Frame(address, caller, depth)
    }

    /** All four kinds of call: check the cached balance, run the message, read the account again. */
    method BaseCall(kind: CallKind, target: Address, value: nat, callee: Code) returns (ok: bool, ghost burned: nat)
      requires Valid()
      modifies this`contract, evm.stateManager
      ensures Valid() && SameBelow(evm.stateManager.accountStack, old(evm.stateManager.accountStack))
      ensures var w, f := Now(old(evm.stateManager.accountStack)), TheFrame();
              if depth >= evm.rules.stackLimit || (!kind.DelegateCall? && old(contract).balance < value) then
                !ok && burned == 0 && Now(evm.stateManager.accountStack) == w
              else
                var o := CallMessage(evm.rules, w, Sender(kind, f), Receiver(kind, f, target), value,
                                     kind.DelegateCall?, callee, depth + 1);
                ok == o.ok && burned == o.burned && Now(evm.stateManager.accountStack) == o.world
      decreases CodeSize(callee), 4
    {
      hide CallMessage;
      if depth >= evm.rules.stackLimit || (!kind.DelegateCall? && contract.balance < value) {
        return false, 0;
      }
      var from := if kind.DelegateCall? then caller else address;
      var to := if kind.CallCode? || kind.DelegateCall? then address else target;
      var nothing := Creation([], false, false, Rejected);
      var message := Message(from, Some(to), value, kind.DelegateCall?, callee, nothing, None, depth + 1);
      ghost var w := Now(evm.stateManager.accountStack);
      CallKeeps(evm.rules, w, from, to, value, kind.DelegateCall?, callee, depth + 1);
      FailureIsNothing(evm.rules, w, message);
      var thrown, error;
      thrown, error, burned := evm.RunCall(message);
      ok := error.None?;
      assert Exists(w, address) && Exists(Now(evm.stateManager.accountStack), address);
      if ok {
        var account := evm.stateManager.GetAccount(address);
        contract := account.value;
      }
    }

    /** create: the nonce is spent before the checkpoint, through the cached account. */
    method Create(value: nat, creation: Creation, init: Option<Run>) returns (ok: bool, ghost burned: nat)
      requires Valid()
      modifies this`contract, evm.stateManager
      ensures Valid() && SameBelow(evm.stateManager.accountStack, old(evm.stateManager.accountStack))
      ensures var w, own := Now(old(evm.stateManager.accountStack)), old(contract);
              if depth >= evm.rules.stackLimit || own.balance < value || own.nonce >= MAX_UINT64 then
                !ok && burned == 0 && Now(evm.stateManager.accountStack) == w
              else
                var w1 := Put(w, address, own.(nonce := own.nonce + 1));
                if creation.oversized then !ok && burned == 0 && Now(evm.stateManager.accountStack) == w1
                else
                  var o := CreateMessage(evm.rules, w1, address, value, creation, init, depth + 1);
                  ok == o.ok && burned == o.burned && Now(evm.stateManager.accountStack) == o.world
      decreases InitSize(init), 4
    {
      hide CreateMessage;
      if depth >= evm.rules.stackLimit || contract.balance < value {
        return false, 0;
      }
      if contract.nonce >= MAX_UINT64 {
        return false, 0;
      }
      contract := contract.(nonce := contract.nonce + 1);
      evm.stateManager.PutAccount(address, Some(contract));
      if creation.oversized {
        return false, 0;
      }
      var message := Message(address, None, value, false, NoCode, creation, init, depth + 1);
      ghost var w := Now(evm.stateManager.accountStack);
      CreateKeeps(evm.rules, w, address, value, creation, init, depth + 1);
      FailureIsNothing(evm.rules, w, message);
      var thrown, error;
      thrown, error, burned := evm.RunCall(message);
      assert !thrown;
      ok := error.None? || error == Some(CodestoreOutOfGas);
      assert Exists(w, address) && Exists(Now(evm.stateManager.accountStack), address);
      if ok {
        var account := evm.stateManager.GetAccount(address);
        contract := account.value;
      }
    }

    /** Give the cached balance to the beneficiary and clear the account; with itself as beneficiary, maybe burn it. */
    method SelfDestruct(beneficiary: Address, burns: bool) returns (ghost burned: nat)
      requires Valid()
      modifies evm.stateManager
      ensures evm.Valid() && SameBelow(evm.stateManager.accountStack, old(evm.stateManager.accountStack))
      ensures var o :=
                Executed(evm.rules, Now(old(evm.stateManager.accountStack)), TheFrame(), Destroys(beneficiary, burns));
              o.ok && Now(evm.stateManager.accountStack) == o.world && burned == o.burned
    {
      var toSelf := beneficiary == address;
      burned := 0;
      if !toSelf {
        var toAccount := evm.Load(beneficiary);
        evm.stateManager.PutAccount(beneficiary, Some(Received(toAccount, contract.balance)));
      }
      if burns || !toSelf {
        burned := if toSelf then contract.balance else 0;
        var own := evm.Load(address);
        evm.stateManager.PutAccount(address, Some(own.(balance := 0)));
      }
    }

    method Run(run0: Run) returns (ok: bool, ghost burned: nat)
      requires Valid()
      modifies this`contract, evm.stateManager
      ensures evm.Valid() && SameBelow(evm.stateManager.accountStack, old(evm.stateManager.accountStack))
      ensures var o := Executed(evm.rules, Now(old(evm.stateManager.accountStack)), TheFrame(), run0);
              ok == o.ok && Now(evm.stateManager.accountStack) == o.world && burned == o.burned
      decreases RunSize(run0), 4
    {
      hide CallMessage, CreateMessage, Executed;
      var run := run0;
      burned := 0;
      while run.Calls? || run.Creates?
        invariant Valid() && SameBelow(evm.stateManager.accountStack, old(evm.stateManager.accountStack))
        invariant RunSize(run) <= RunSize(run0)
        invariant Executed(evm.rules, Now(old(evm.stateManager.accountStack)), TheFrame(), run0) ==
                  After(Executed(evm.rules, Now(evm.stateManager.accountStack), TheFrame(), run), burned)
        decreases run
      {
        var answer;
        ghost var more;
        ghost var w := Now(evm.stateManager.accountStack);
        match run {
          case Calls(kind, target, value, callee, ifOk, ifFailed) =>
            answer, more := BaseCall(kind, target, value, callee);
            CallStep(evm.rules, w, TheFrame(), run, answer, more, Now(evm.stateManager.accountStack));
            run := if answer then ifOk else ifFailed;
          case Creates(value, creation, init, ifOk, ifFailed) =>
            answer, more := Create(value, creation, init);
            CreateStep(evm.rules, w, TheFrame(), run, answer, more, Now(evm.stateManager.accountStack));
            run := if answer then ifOk else ifFailed;
        }
        burned := burned + more;
      }
      ghost var last := 0;
      if run.Destroys? {
        last := SelfDestruct(run.beneficiary, run.burns);
      } else {
        Ending(evm.rules, Now(evm.stateManager.accountStack), TheFrame(), run);
      }
      ok := !run.Fails?;
      burned := burned + last;
    }
  }
}

/**
  * What a tree of message frames does to the accounts, told without checkpoints: a frame that fails
  * gives back the world it started from. Bytecode is not interpreted; a frame is the calls, creates
  * and the ending it comes to, with a continuation for either answer.
  */
module EvmModel {
  import opened Base
  import opened SimpleStateManagers

  type World = map<Address, Option<Account>>

  const MAX_INTEGER: nat := 0xffffffff_ffffffff_ffffffff_ffffffff_ffffffff_ffffffff_ffffffff_ffffffff
  const MAX_UINT64: nat := 0xffffffff_ffffffff

  /** What the hardfork decides. */
  datatype Rules = Rules(keccak: Bytes -> Bytes, stackLimit: nat, chainstart: bool, spuriousDragon: bool)

  datatype CallKind = Call | CallCode | DelegateCall | StaticCall

  /** How paying for the returned code ends. */
  datatype Deposit = Stored(code: Bytes) | Rejected | Unpaid

  /** What a creation comes to besides running its code. */
  datatype Creation = Creation(address: Address, oversized: bool, hasStorage: bool, deposit: Deposit)

  datatype Code = NoCode | Precompile(succeeds: bool) | Bytecode(run: Run)

  datatype Run =
    | Halts
    | Fails
    | Destroys(beneficiary: Address, burns: bool)
    | Calls(kind: CallKind, address: Address, value: nat, callee: Code, ifOk: Run, ifFailed: Run)
    | Creates(value: nat, creation: Creation, init: Option<Run>, ifOk: Run, ifFailed: Run)

  datatype Frame = Frame(address: Address, caller: Address, depth: nat)

  datatype Outcome = Outcome(world: World, ok: bool, burned: nat)

  function Get(r: Rules, w: World, a: Address): Account {
    if a in w && w[a].Some? then w[a].value else Account(0, 0, r.keccak([]))
  }

  function Put(w: World, a: Address, account: Account): World {
    w[a := Some(account)]
  }

  function Paid(account: Account, value: nat): Account
    requires account.balance >= value
  {
    account.(balance := account.balance - value)
  }

  function Received(account: Account, value: nat): Account {
    account.(balance := account.balance + value)
  }

  function Debited(r: Rules, w: World, a: Address, value: nat): World
    requires Get(r, w, a).balance >= value
  {
    Put(w, a, Paid(Get(r, w, a), value))
  }

  function Credited(r: Rules, w: World, a: Address, value: nat): World {
    Put(w, a, Received(Get(r, w, a), value))
  }

  /** The sender must afford the value and the receiver must be able to hold it. */
  function Transferred(r: Rules, w: World, from: Address, to: Address, value: nat): Option<World> {
    if Get(r, w, from).balance < value then None
    else
      var paid := Debited(r, w, from, value);
      if Get(r, paid, to).balance + value > MAX_INTEGER then None else Some(Credited(r, paid, to, value))
  }

  function Sender(kind: CallKind, f: Frame): Address {
    if kind.DelegateCall? then f.caller else f.address
  }

  function Receiver(kind: CallKind, f: Frame, address: Address): Address {
    if kind.CallCode? || kind.DelegateCall? then f.address else address
  }

  function CallMessage(r: Rules, w: World, caller: Address, to: Address, value: nat, delegate: bool, code: Code,
                       depth: nat): Outcome
    decreases code, 1
  {
    var transferred := if delegate then Some(w) else Transferred(r, w, caller, to, value);
    if transferred.None? then Outcome(w, false, 0)
    else
      match code
      case NoCode => Outcome(transferred.value, true, 0)
      case Precompile(succeeds) => if succeeds then Outcome(transferred.value, true, 0) else Outcome(w, false, 0)
      case Bytecode(run) =>
        var o := Executed(r, transferred.value, Frame(to, caller, depth), run);
        if o.ok then o else Outcome(w, false, 0)
  }

  function Occupied(r: Rules, account: Account, c: Creation): bool {
    account.nonce > 0 || account.codeHash != r.keccak([]) || c.hasStorage
  }

  /** A new account at the creation's address with the value, if that address is free. */
  function Welcomed(r: Rules, paid: World, value: nat, c: Creation): Option<World> {
    var account := Get(r, paid, c.address);
    if c.oversized || Occupied(r, account, c) || account.balance + value > MAX_INTEGER then None
    else
      Some(Put(paid, c.address, Received(account.(nonce := account.nonce + if r.spuriousDragon then 1 else 0), value)))
  }

  /** The value moved from the creator to the new account. */
  function Born(r: Rules, w: World, caller: Address, value: nat, c: Creation): Option<World>
    requires Get(r, w, caller).balance >= value
  {
    Welcomed(r, Debited(r, w, caller, value), value, c)
  }

  /** The world once the returned code is paid for and stored; None when that fails the creation. */
  function Deposited(r: Rules, w: World, to: Address, deposit: Deposit): Option<World> {
    match deposit
    case Rejected => None
    case Unpaid => if r.chainstart then Some(Put(w, to, Get(r, w, to))) else None
    case Stored(code) =>
      Some(if code == [] then w else Put(w, to, Get(r, w, to).(codeHash := r.keccak(code))))
  }

  function CreateMessage(r: Rules, w: World, caller: Address, value: nat, c: Creation, init: Option<Run>,
                         depth: nat): Outcome
    requires Get(r, w, caller).balance >= value
    decreases init, 1
  {
    var born := Born(r, w, caller, value, c);
    if born.None? then Outcome(w, false, 0)
    else if init.None? then Outcome(born.value, true, 0)
    else
      var o := Executed(r, born.value, Frame(c.address, caller, depth), init.value);
      var deposited := Deposited(r, o.world, c.address, c.deposit);
      if !o.ok || deposited.None? then Outcome(w, false, 0) else o.(world := deposited.value)
  }

  /** The rest of a frame, after something already burned. */
  function After(o: Outcome, burned: nat): Outcome {
    o.(burned := o.burned + burned)
  }

  /** What is left of a frame from a world on; a failing run leaves its world to the caller to discard. */
  function Executed(r: Rules, w: World, f: Frame, run: Run): Outcome
    decreases run, 0
  {
    var own := Get(r, w, f.address);
    match run
    case Halts => Outcome(w, true, 0)
    case Fails => Outcome(w, false, 0)
    case Destroys(beneficiary, burns) =>
      if beneficiary == f.address then
        if burns then Outcome(Put(w, f.address, own.(balance := 0)), true, own.balance) else Outcome(w, true, 0)
      else
        var given := Credited(r, w, beneficiary, own.balance);
        Outcome(Put(given, f.address, Get(r, given, f.address).(balance := 0)), true, 0)
    case Calls(kind, address, value, callee, ifOk, ifFailed) =>
      if f.depth >= r.stackLimit || (!kind.DelegateCall? && own.balance < value) then Executed(r, w, f, ifFailed)
      else
        var o := CallMessage(r, w, Sender(kind, f), Receiver(kind, f, address), value, kind.DelegateCall?, callee,
                             f.depth + 1);
        After(Executed(r, o.world, f, if o.ok then ifOk else ifFailed), o.burned)
    case Creates(value, creation, init, ifOk, ifFailed) =>
      if f.depth >= r.stackLimit || own.balance < value || own.nonce >= MAX_UINT64 then Executed(r, w, f, ifFailed)
      else
        var w1 := Put(w, f.address, own.(nonce := own.nonce + 1));
        if creation.oversized then Executed(r, w1, f, ifFailed)
        else
          var o := CreateMessage(r, w1, f.address, value, creation, init, f.depth + 1);
          After(Executed(r, o.world, f, if o.ok then ifOk else ifFailed), o.burned)
  }

  /** A message: a call when it has a receiver, else a creation. */
  datatype Message =
    Message(caller: Address, to: Option<Address>, value: nat, delegatecall: bool, code: Code,
            creation: Creation, init: Option<Run>, depth: nat)

  /** The sender of the outermost message is charged its nonce, and that is never taken back. */
  function Started(r: Rules, w: World, m: Message): World {
    if m.depth == 0 then Put(w, m.caller, Get(r, w, m.caller).(nonce := Get(r, w, m.caller).nonce + 1)) else w
  }

  function RunMessage(r: Rules, w: World, m: Message): Outcome
    requires m.to.None? ==> Get(r, w, m.caller).balance >= m.value
  {
    var w0 := Started(r, w, m);
    if m.to.Some? then CallMessage(r, w0, m.caller, m.to.value, m.value, m.delegatecall, m.code, m.depth)
    else CreateMessage(r, w0, m.caller, m.value, m.creation, m.init, m.depth)
  }

  // -------------------------------------------------------------------------------- conservation

  function BalanceOf(account: Option<Account>): nat {
    if account.Some? then account.value.balance else 0
  }

  ghost function Total(w: World): nat {
    if w == map[] then 0
    else
      var a :| a in w;
      BalanceOf(w[a]) + Total(w - {a})
  }

  lemma {:induction false} TotalWithout(w: World, a: Address)
    requires a in w
    ensures Total(w) == BalanceOf(w[a]) + Total(w - {a})
    decreases |w|
  {
    var b :| b in w && Total(w) == BalanceOf(w[b]) + Total(w - {b});
    if a != b {
      TotalWithout(w - {b}, a);
      TotalWithout(w - {a}, b);
      assert w - {a} - {b} == w - {b} - {a};
    }
  }

  lemma {:induction false} TotalPut(r: Rules, w: World, a: Address, account: Account)
    ensures Total(Put(w, a, account)) == Total(w) - Get(r, w, a).balance + account.balance
    ensures Total(w) >= Get(r, w, a).balance
  {
    TotalWithout(Put(w, a, account), a);
    assert Put(w, a, account) - {a} == w - {a};
    if a in w {
      TotalWithout(w, a);
    } else {
      assert w - {a} == w;
    }
  }

  lemma {:induction false} TransferKeepsTotal(r: Rules, w: World, from: Address, to: Address, value: nat)
    requires Transferred(r, w, from, to, value).Some?
    ensures Total(Transferred(r, w, from, to, value).value) == Total(w)
  {
    TotalPut(r, w, from, Paid(Get(r, w, from), value));
    var paid := Debited(r, w, from, value);
    TotalPut(r, paid, to, Received(Get(r, paid, to), value));
  }

  /** However the frames nest, succeed and fail, ether is moved and never made; only a burn takes some away. */
  lemma {:induction false} CallConserves(r: Rules, w: World, caller: Address, to: Address, value: nat, delegate: bool,
                                         code: Code, depth: nat)
    ensures var o := CallMessage(r, w, caller, to, value, delegate, code, depth);
            Total(o.world) + o.burned == Total(w) && (!o.ok ==> o.world == w)
    decreases code, 1
  {
    var transferred := if delegate then Some(w) else Transferred(r, w, caller, to, value);
    if transferred.Some? {
      if !delegate {
        TransferKeepsTotal(r, w, caller, to, value);
      }
      if code.Bytecode? {
        RunConserves(r, transferred.value, Frame(to, caller, depth), code.run);
      }
    }
  }

  lemma {:induction false} BornKeepsTotal(r: Rules, w: World, caller: Address, value: nat, c: Creation)
    requires Get(r, w, caller).balance >= value && Born(r, w, caller, value, c).Some?
    ensures Total(Born(r, w, caller, value, c).value) == Total(w)
  {
    hide Total;
    TotalPut(r, w, caller, Paid(Get(r, w, caller), value));
    var paid := Debited(r, w, caller, value);
    var account := Get(r, paid, c.address);
    TotalPut(r, paid, c.address, Received(account.(nonce := account.nonce + if r.spuriousDragon then 1 else 0), value));
  }

  lemma {:induction false} DepositKeepsTotal(r: Rules, w: World, to: Address, deposit: Deposit)
    requires Deposited(r, w, to, deposit).Some?
    ensures Total(Deposited(r, w, to, deposit).value) == Total(w)
  {
    hide Total;
    TotalPut(r, w, to, Get(r, w, to));
    if deposit.Stored? {
      TotalPut(r, w, to, Get(r, w, to).(codeHash := r.keccak(deposit.code)));
    }
  }

  lemma {:induction false} CreateConserves(r: Rules, w: World, caller: Address, value: nat, c: Creation,
                                           init: Option<Run>, depth: nat)
    requires Get(r, w, caller).balance >= value
    ensures var o := CreateMessage(r, w, caller, value, c, init, depth);
            Total(o.world) + o.burned == Total(w) && (!o.ok ==> o.world == w)
    decreases init, 1
  {
    hide Total, Executed, Born, Deposited;
    var born := Born(r, w, caller, value, c);
    if born.Some? {
      BornKeepsTotal(r, w, caller, value, c);
      if init.Some? {
        RunConserves(r, born.value, Frame(c.address, caller, depth), init.value);
        var o := Executed(r, born.value, Frame(c.address, caller, depth), init.value);
        if Deposited(r, o.world, c.address, c.deposit).Some? {
          DepositKeepsTotal(r, o.world, c.address, c.deposit);
        }
      }
    }
  }

  lemma {:induction false} RunConserves(r: Rules, w: World, f: Frame, run: Run)
    ensures var o := Executed(r, w, f, run); Total(o.world) + o.burned == Total(w)
    decreases run, 0
  {
    hide Total, CallMessage, CreateMessage;
    var own := Get(r, w, f.address);
    match run
    case Halts =>
    case Fails =>
    case Destroys(beneficiary, burns) =>
      TotalPut(r, w, f.address, own.(balance := 0));
      TotalPut(r, w, beneficiary, Received(Get(r, w, beneficiary), own.balance));
      var given := Credited(r, w, beneficiary, own.balance);
      TotalPut(r, given, f.address, Get(r, given, f.address).(balance := 0));
    case Calls(kind, address, value, callee, ifOk, ifFailed) =>
      if f.depth >= r.stackLimit || (!kind.DelegateCall? && own.balance < value) {
        RunConserves(r, w, f, ifFailed);
      } else {
        CallConserves(r, w, Sender(kind, f), Receiver(kind, f, address), value,
                      kind.DelegateCall?, callee, f.depth + 1);
        var o := CallMessage(r, w, Sender(kind, f), Receiver(kind, f, address), value, kind.DelegateCall?, callee,
                             f.depth + 1);
        RunConserves(r, o.world, f, if o.ok then ifOk else ifFailed);
      }
    case Creates(value, creation, init, ifOk, ifFailed) =>
      if f.depth >= r.stackLimit || own.balance < value || own.nonce >= MAX_UINT64 {
        RunConserves(r, w, f, ifFailed);
      } else {
        var w1 := Put(w, f.address, own.(nonce := own.nonce + 1));
        TotalPut(r, w, f.address, own.(nonce := own.nonce + 1));
        if creation.oversized {
          RunConserves(r, w1, f, ifFailed);
        } else {
          CreateConserves(r, w1, f.address, value, creation, init, f.depth + 1);
          var o := CreateMessage(r, w1, f.address, value, creation, init, f.depth + 1);
          RunConserves(r, o.world, f, if o.ok then ifOk else ifFailed);
        }
      }
  }

  lemma {:induction false} FailureIsNothing(r: Rules, w: World, m: Message)
    requires m.to.None? ==> Get(r, w, m.caller).balance >= m.value
    ensures var o := RunMessage(r, w, m); !o.ok ==> o == Outcome(Started(r, w, m), false, 0)
  {
    hide Executed;
  }

  /** A whole message conserves ether, and when it fails only the nonce of the outermost sender moves. */
  lemma {:induction false} MessageConserves(r: Rules, w: World, m: Message)
    requires m.to.None? ==> Get(r, w, m.caller).balance >= m.value
    ensures var o := RunMessage(r, w, m);
            Total(o.world) + o.burned == Total(w) && (!o.ok ==> o.world == Started(r, w, m))
  {
    hide Total, CallMessage, CreateMessage;
    var w0 := Started(r, w, m);
    TotalPut(r, w, m.caller, Get(r, w0, m.caller));
    if m.to.Some? {
      CallConserves(r, w0, m.caller, m.to.value, m.value, m.delegatecall, m.code, m.depth);
    } else {
      CreateConserves(r, w0, m.caller, m.value, m.creation, m.init, m.depth);
    }
  }

  // -------------------------------------------------------------------- accounts are never dropped

  predicate Exists(w: World, a: Address) {
    a in w && w[a].Some?
  }

  ghost predicate Keeps(w: World, w': World) {
    forall a :: Exists(w, a) ==> Exists(w', a)
  }

  lemma {:induction false} CallKeeps(r: Rules, w: World, caller: Address, to: Address, value: nat, delegate: bool,
                                     code: Code, depth: nat)
    ensures Keeps(w, CallMessage(r, w, caller, to, value, delegate, code, depth).world)
    decreases code, 1
  {
    var transferred := if delegate then Some(w) else Transferred(r, w, caller, to, value);
    if transferred.Some? && code.Bytecode? {
      RunKeeps(r, transferred.value, Frame(to, caller, depth), code.run);
    }
  }

  lemma {:induction false} CreateKeeps(r: Rules, w: World, caller: Address, value: nat, c: Creation, init: Option<Run>,
                                       depth: nat)
    requires Get(r, w, caller).balance >= value
    ensures Keeps(w, CreateMessage(r, w, caller, value, c, init, depth).world)
    decreases init, 1
  {
    hide Executed;
    var born := Born(r, w, caller, value, c);
    if born.Some? {
      assert Keeps(w, born.value);
      if init.Some? {
        RunKeeps(r, born.value, Frame(c.address, caller, depth), init.value);
        var o := Executed(r, born.value, Frame(c.address, caller, depth), init.value);
        var deposited := Deposited(r, o.world, c.address, c.deposit);
        assert deposited.Some? ==> Keeps(o.world, deposited.value);
      }
    }
  }

  lemma {:induction false} RunKeeps(r: Rules, w: World, f: Frame, run: Run)
    ensures Keeps(w, Executed(r, w, f, run).world)
    decreases run, 0
  {
    hide CallMessage, CreateMessage;
    var own := Get(r, w, f.address);
    match run
    case Halts =>
    case Fails =>
    case Destroys(_, _) =>
    case Calls(kind, address, value, callee, ifOk, ifFailed) =>
      if f.depth >= r.stackLimit || (!kind.DelegateCall? && own.balance < value) {
        RunKeeps(r, w, f, ifFailed);
      } else {
        CallKeeps(r, w, Sender(kind, f), Receiver(kind, f, address), value, kind.DelegateCall?, callee, f.depth + 1);
        var o := CallMessage(r, w, Sender(kind, f), Receiver(kind, f, address), value, kind.DelegateCall?, callee,
                             f.depth + 1);
        RunKeeps(r, o.world, f, if o.ok then ifOk else ifFailed);
      }
    case Creates(value, creation, init, ifOk, ifFailed) =>
      if f.depth >= r.stackLimit || own.balance < value || own.nonce >= MAX_UINT64 {
        RunKeeps(r, w, f, ifFailed);
      } else {
        var w1 := Put(w, f.address, own.(nonce := own.nonce + 1));
        if creation.oversized {
          RunKeeps(r, w1, f, ifFailed);
        } else {
          CreateKeeps(r, w1, f.address, value, creation, init, f.depth + 1);
          var o := CreateMessage(r, w1, f.address, value, creation, init, f.depth + 1);
          RunKeeps(r, o.world, f, if o.ok then ifOk else ifFailed);
        }
      }
  }

  // ------------------------------------------------------------------------ nothing ever burns

  /** No selfdestruct in the tree of frames burns the balance of the account it names as beneficiary. */
  predicate BurnFreeCode(code: Code, self: Address)
    decreases code
  {
    code.Bytecode? ==> BurnFree(code.run, self)
  }

  predicate BurnFree(run: Run, self: Address)
    decreases run
  {
    match run
    case Halts => true
    case Fails => true
    case Destroys(beneficiary, burns) => beneficiary == self ==> !burns
    case Calls(kind, address, _, callee, ifOk, ifFailed) =>
      && BurnFreeCode(callee, if kind.CallCode? || kind.DelegateCall? then self else address)
      && BurnFree(ifOk, self) && BurnFree(ifFailed, self)
    case Creates(_, creation, init, ifOk, ifFailed) =>
      && (init.Some? ==> BurnFree(init.value, creation.address))
      && BurnFree(ifOk, self) && BurnFree(ifFailed, self)
  }

  predicate BurnFreeMessage(m: Message) {
    if m.to.Some? then BurnFreeCode(m.code, m.to.value)
    else m.init.Some? ==> BurnFree(m.init.value, m.creation.address)
  }

  lemma {:induction false} NothingBurned(r: Rules, w: World, f: Frame, run: Run)
    requires BurnFree(run, f.address)
    ensures Executed(r, w, f, run).burned == 0
    decreases run, 0
  {
    hide CallMessage, CreateMessage;
    var own := Get(r, w, f.address);
    match run
    case Halts =>
    case Fails =>
    case Destroys(_, _) =>
    case Calls(kind, address, value, callee, ifOk, ifFailed) =>
      if f.depth >= r.stackLimit || (!kind.DelegateCall? && own.balance < value) {
        NothingBurned(r, w, f, ifFailed);
      } else {
        CallBurnsNothing(r, w, Sender(kind, f), Receiver(kind, f, address), value,
                         kind.DelegateCall?, callee, f.depth + 1);
        var o := CallMessage(r, w, Sender(kind, f), Receiver(kind, f, address), value, kind.DelegateCall?, callee,
                             f.depth + 1);
        NothingBurned(r, o.world, f, if o.ok then ifOk else ifFailed);
      }
    case Creates(value, creation, init, ifOk, ifFailed) =>
      if f.depth >= r.stackLimit || own.balance < value || own.nonce >= MAX_UINT64 {
        NothingBurned(r, w, f, ifFailed);
      } else {
        var w1 := Put(w, f.address, own.(nonce := own.nonce + 1));
        if creation.oversized {
          NothingBurned(r, w1, f, ifFailed);
        } else {
          CreateBurnsNothing(r, w1, f.address, value, creation, init, f.depth + 1);
          var o := CreateMessage(r, w1, f.address, value, creation, init, f.depth + 1);
          NothingBurned(r, o.world, f, if o.ok then ifOk else ifFailed);
        }
      }
  }

  lemma {:induction false} CallBurnsNothing(r: Rules, w: World, caller: Address, to: Address, value: nat,
                                            delegate: bool, code: Code, depth: nat)
    requires BurnFreeCode(code, to)
    ensures CallMessage(r, w, caller, to, value, delegate, code, depth).burned == 0
    decreases code, 1
  {
    var transferred := if delegate then Some(w) else Transferred(r, w, caller, to, value);
    if transferred.Some? && code.Bytecode? {
      NothingBurned(r, transferred.value, Frame(to, caller, depth), code.run);
    }
  }

  lemma {:induction false} CreateBurnsNothing(r: Rules, w: World, caller: Address, value: nat, c: Creation,
                                              init: Option<Run>, depth: nat)
    requires Get(r, w, caller).balance >= value && (init.Some? ==> BurnFree(init.value, c.address))
    ensures CreateMessage(r, w, caller, value, c, init, depth).burned == 0
    decreases init, 1
  {
    var born := Born(r, w, caller, value, c);
    if init.Some? && born.Some? {
      NothingBurned(r, born.value, Frame(c.address, caller, depth), init.value);
    }
  }

  /** Without such a selfdestruct a whole message, its failures and nested frames included, keeps the sum. */
  lemma {:induction false} MessageKeepsTotal(r: Rules, w: World, m: Message)
    requires (m.to.None? ==> Get(r, w, m.caller).balance >= m.value) && BurnFreeMessage(m)
    ensures RunMessage(r, w, m).burned == 0
    ensures Total(RunMessage(r, w, m).world) == Total(w)
  {
    hide Total, CallMessage, CreateMessage;
    MessageConserves(r, w, m);
    var w0 := Started(r, w, m);
    if m.to.Some? {
      CallBurnsNothing(r, w0, m.caller, m.to.value, m.value, m.delegatecall, m.code, m.depth);
    } else {
      CreateBurnsNothing(r, w0, m.caller, m.value, m.creation, m.init, m.depth);
    }
  }

  // ------------------------------------------------------------ what each step does to each account

  lemma {:induction false} GetForm(r: Rules, w: World, a: Address)
    ensures a in w && w[a].Some? ==> Get(r, w, a) == w[a].value
    ensures !(a in w && w[a].Some?) ==>
              Get(r, w, a).nonce == 0 && Get(r, w, a).balance == 0 && Get(r, w, a).codeHash == r.keccak([])
  {
  }

  /** 256 and 64 bits. */
  lemma {:induction false} LimitsForm()
    ensures MAX_INTEGER + 1 == 0x1_00000000_00000000 * 0x1_00000000_00000000
                                * 0x1_00000000_00000000 * 0x1_00000000_00000000
    ensures MAX_UINT64 + 1 == 0x1_00000000_00000000
  {
  }

  /** The account of a in w' has the given balance and is otherwise that of w. */
  ghost predicate OnlyBalance(r: Rules, w: World, w': World, a: Address, balance: int) {
    var before, after := Get(r, w, a), Get(r, w', a);
    after.balance == balance && after.nonce == before.nonce && after.codeHash == before.codeHash
  }

  /**
    * A transfer takes the value from the sender, gives it to the receiver and leaves all else, exactly if
    * the sender has it and the receiver can hold it.
    */
  lemma {:induction false} TransferMoves(r: Rules, w: World, from: Address, to: Address, value: nat, a: Address)
    ensures Transferred(r, w, from, to, value).Some? <==>
            && Get(r, w, from).balance >= value
            && Get(r, w, to).balance - (if to == from then value else 0) + value <= MAX_INTEGER
    ensures Transferred(r, w, from, to, value).Some? ==>
              OnlyBalance(r, w, Transferred(r, w, from, to, value).value, a,
                          Get(r, w, a).balance - (if a == from then value else 0) + (if a == to then value else 0))
  {
  }

  /**
    * A creation takes the value from the creator and gives it to the new account, exactly if its code is not
    * oversized and the address was never used and can hold the value. The new nonce is 1 from Spurious Dragon on.
    */
  lemma {:induction false} BirthMoves(r: Rules, w: World, caller: Address, value: nat, c: Creation, a: Address)
    requires Get(r, w, caller).balance >= value
    ensures var before := Get(r, w, c.address);
            Born(r, w, caller, value, c).Some? <==>
            && !c.oversized && !c.hasStorage && before.nonce == 0 && before.codeHash == r.keccak([])
            && before.balance - (if c.address == caller then value else 0) + value <= MAX_INTEGER
    ensures Born(r, w, caller, value, c).Some? ==>
              var before, after := Get(r, w, a), Get(r, Born(r, w, caller, value, c).value, a);
              && after.balance == before.balance - (if a == caller then value else 0)
                                  + (if a == c.address then value else 0)
              && after.nonce == (if a == c.address && r.spuriousDragon then 1 else before.nonce)
              && after.codeHash == before.codeHash
  {
  }

  /** Returned code that is paid for is stored; unpaid code fails the creation, but for Chainstart. */
  lemma {:induction false} DepositStores(r: Rules, w: World, to: Address, deposit: Deposit, a: Address)
    ensures Deposited(r, w, to, deposit).Some? <==> deposit.Stored? || (deposit.Unpaid? && r.chainstart)
    ensures Deposited(r, w, to, deposit).Some? ==>
              var before, after := Get(r, w, a), Get(r, Deposited(r, w, to, deposit).value, a);
              && after.balance == before.balance && after.nonce == before.nonce
              && after.codeHash ==
                 (if a == to && deposit.Stored? && deposit.code != [] then r.keccak(deposit.code) else before.codeHash)
  {
  }

  /** A selfdestruct gives the whole balance to the beneficiary, or burns or keeps it when that is itself. */
  lemma {:induction false} DestroyMoves(r: Rules, w: World, f: Frame, beneficiary: Address, burns: bool, a: Address)
    ensures var own, toSelf := Get(r, w, f.address).balance, beneficiary == f.address;
            var o := Executed(r, w, f, Destroys(beneficiary, burns));
            && o.ok && o.burned == (if toSelf && burns then own else 0)
            && OnlyBalance(r, w, o.world, a,
                           if a == f.address then if toSelf && !burns then own else 0
                           else Get(r, w, a).balance + if a == beneficiary then own else 0)
  {
  }

  /** The account a call pays, and whose account the called code works on. */
  lemma {:induction false} CalledAccount(kind: CallKind, f: Frame, address: Address)
    ensures Receiver(kind, f, address) == if kind.CallCode? || kind.DelegateCall? then f.address else address
    ensures !kind.DelegateCall? ==> Sender(kind, f) == f.address
  {
  }

  /** A frame goes on after a call with the answer and the world of its message. */
  lemma {:induction false} CallStep(r: Rules, w: World, f: Frame, run: Run, ok: bool, burned: nat, w': World)
    requires run.Calls?
    requires if f.depth >= r.stackLimit || (!run.kind.DelegateCall? && Get(r, w, f.address).balance < run.value) then
               !ok && burned == 0 && w' == w
             else
               Outcome(w', ok, burned) ==
               CallMessage(r, w, Sender(run.kind, f), Receiver(run.kind, f, run.address), run.value,
                           run.kind.DelegateCall?, run.callee, f.depth + 1)
    ensures Executed(r, w, f, run) == After(Executed(r, w', f, if ok then run.ifOk else run.ifFailed), burned)
  {
    hide CallMessage, CreateMessage;
  }

  /** Between w and w' the value went from one account to the other, and nothing else changed. */
  ghost predicate Moved(r: Rules, w: World, w': World, from: Address, to: Address, value: nat) {
    forall a :: OnlyBalance(r, w, w', a, Get(r, w, a).balance - (if a == from then value else 0)
                                                              + (if a == to then value else 0))
  }

  lemma {:induction false} TransferIsMove(r: Rules, w: World, from: Address, to: Address, value: nat)
    requires Transferred(r, w, from, to, value).Some?
    ensures Moved(r, w, Transferred(r, w, from, to, value).value, from, to, value)
  {
    hide Transferred, OnlyBalance, Get;
    forall a { TransferMoves(r, w, from, to, value, a); }
  }

  /** Code that moves nothing by itself: there is none, it is a precompile, or it ends at once. */
  predicate Quiet(code: Code) {
    code.Bytecode? ==> code.run.Halts? || code.run.Fails?
  }

  predicate EndsWell(code: Code)
    requires Quiet(code)
  {
    (code.Precompile? ==> code.succeeds) && (code.Bytecode? ==> code.run.Halts?)
  }

  /** A call to quiet code only moves the value, and a delegated one moves nothing. */
  lemma {:induction false} PlainCall(r: Rules, w: World, f: Frame, kind: CallKind, address: Address, value: nat,
                                     callee: Code, ifOk: Run, ifFailed: Run) returns (ok: bool, w': World)
    requires Quiet(callee)
    ensures var own, paid := Get(r, w, f.address).balance, if kind.CallCode? then f.address else address;
            var fits := Get(r, w, paid).balance - (if paid == f.address then value else 0) + value <= MAX_INTEGER;
            ok <==> f.depth < r.stackLimit && (kind.DelegateCall? || (own >= value && fits)) &&
                    EndsWell(callee)
    ensures Executed(r, w, f, Calls(kind, address, value, callee, ifOk, ifFailed)) ==
            Executed(r, w', f, if ok then ifOk else ifFailed)
    ensures !ok || kind.DelegateCall? ==> w' == w
    ensures ok && !kind.DelegateCall? ==>
              Moved(r, w, w', f.address, if kind.CallCode? then f.address else address, value)
  {
    hide Transferred, Moved, OnlyBalance, Get, CallMessage, Executed, EndsWell;
    var to := Receiver(kind, f, address);
    assert to == if kind.CallCode? || kind.DelegateCall? then f.address else address;
    ok, w' := false, w;
    if f.depth < r.stackLimit && (kind.DelegateCall? || Get(r, w, f.address).balance >= value) {
      PlainCallee(r, w, Sender(kind, f), to, value, kind.DelegateCall?, callee, f.depth + 1);
      var o := CallMessage(r, w, Sender(kind, f), to, value, kind.DelegateCall?, callee, f.depth + 1);
      ok, w' := o.ok, o.world;
      TransferMoves(r, w, f.address, to, value, to);
      if ok && !kind.DelegateCall? {
        TransferIsMove(r, w, f.address, to, value);
      }
    }
    CallStep(r, w, f, Calls(kind, address, value, callee, ifOk, ifFailed), ok, 0, w');
  }

  lemma {:induction false} PlainCallee(r: Rules, w: World, caller: Address, to: Address, value: nat, delegate: bool,
                                       code: Code, depth: nat)
    requires Quiet(code)
    ensures var moved := if delegate then Some(w) else Transferred(r, w, caller, to, value);
            CallMessage(r, w, caller, to, value, delegate, code, depth) ==
            if moved.Some? && EndsWell(code) then Outcome(moved.value, true, 0)
            else Outcome(w, false, 0)
  {
    hide Transferred;
  }

  /** Code reached by a callcode or a delegated call works on the caller's account, any other on the called one. */
  lemma {:induction false} CalledCodeDestroys(r: Rules, w: World, f: Frame, kind: CallKind, address: Address,
                                              beneficiary: Address, ifOk: Run, ifFailed: Run) returns (w': World)
    requires f.depth < r.stackLimit
    requires Get(r, w, f.address).balance <= MAX_INTEGER && Get(r, w, address).balance <= MAX_INTEGER
    requires beneficiary != f.address && beneficiary != address
    ensures Executed(r, w, f, Calls(kind, address, 0, Bytecode(Destroys(beneficiary, false)), ifOk, ifFailed)) ==
            Executed(r, w', f, ifOk)
    ensures var victim := if kind.CallCode? || kind.DelegateCall? then f.address else address;
            forall a :: Get(r, w', a).balance ==
                        if a == victim then 0
                        else Get(r, w, a).balance + if a == beneficiary then Get(r, w, victim).balance else 0
  {
    var to := Receiver(kind, f, address);
    var w1 := w;
    if !kind.DelegateCall? {
      TransferMoves(r, w, f.address, to, 0, to);
      forall a { TransferMoves(r, w, f.address, to, 0, a); }
      w1 := Transferred(r, w, f.address, to, 0).value;
    }
    assert forall a :: Get(r, w1, a).balance == Get(r, w, a).balance;
    var inner := Frame(to, Sender(kind, f), f.depth + 1);
    var o := Executed(r, w1, inner, Destroys(beneficiary, false));
    forall a { DestroyMoves(r, w1, inner, beneficiary, false, a); }
    w' := o.world;
    DestroyMoves(r, w1, inner, beneficiary, false, to);
    DestroyingCall(r, w, w1, f, kind, address, beneficiary, ifOk, ifFailed);
  }

  lemma {:induction false} DestroyingCall(r: Rules, w: World, w1: World, f: Frame, kind: CallKind, address: Address,
                                          beneficiary: Address, ifOk: Run, ifFailed: Run)
    requires f.depth < r.stackLimit
    requires var to := Receiver(kind, f, address);
             if kind.DelegateCall? then w1 == w else Transferred(r, w, f.address, to, 0) == Some(w1)
    requires var o := Executed(r, w1, Frame(Receiver(kind, f, address), Sender(kind, f), f.depth + 1),
                               Destroys(beneficiary, false));
             o.ok && o.burned == 0
    ensures var o := Executed(r, w1, Frame(Receiver(kind, f, address), Sender(kind, f), f.depth + 1),
                              Destroys(beneficiary, false));
            Executed(r, w, f, Calls(kind, address, 0, Bytecode(Destroys(beneficiary, false)), ifOk, ifFailed)) ==
            Executed(r, o.world, f, ifOk)
  {
    hide Transferred, Get;
    CallCodeRuns(r, w, w1, Sender(kind, f), Receiver(kind, f, address), 0, kind.DelegateCall?,
                 Destroys(beneficiary, false), f.depth + 1);
  }

  lemma {:induction false} CallCodeRuns(r: Rules, w: World, w1: World, caller: Address, to: Address, value: nat,
                                        delegate: bool, run: Run, depth: nat)
    requires if delegate then w1 == w else Transferred(r, w, caller, to, value) == Some(w1)
    ensures var o := Executed(r, w1, Frame(to, caller, depth), run);
            CallMessage(r, w, caller, to, value, delegate, Bytecode(run), depth) ==
            if o.ok then o else Outcome(w, false, 0)
  {
    hide Transferred, Executed;
  }

  /** Delegated calls nested n deep, each of which fails when the one inside it does. */
  ghost function Tower(n: nat, address: Address): Run {
    if n == 0 then Halts else Calls(DelegateCall, address, 0, Bytecode(Tower(n - 1, address)), Halts, Fails)
  }

  /** Nested calls run to their end exactly if the innermost still fits the stack limit. */
  lemma {:induction false} TowerFits(r: Rules, w: World, f: Frame, n: nat, address: Address)
    ensures var o := Executed(r, w, f, Tower(n, address));
            o.world == w && o.burned == 0 && (o.ok <==> n == 0 || f.depth + n <= r.stackLimit)
    decreases n
  {
    hide Get;
    if n > 0 {
      var inner := Tower(n - 1, address);
      TowerFits(r, w, Frame(f.address, f.caller, f.depth + 1), n - 1, address);
      CallCodeRuns(r, w, w, f.caller, f.address, 0, true, inner, f.depth + 1);
      DelegatedCall(r, w, f, address, inner);
    }
  }

  lemma {:induction false} DelegatedCall(r: Rules, w: World, f: Frame, address: Address, inner: Run)
    requires var o := CallMessage(r, w, f.caller, f.address, 0, true, Bytecode(inner), f.depth + 1);
             o.world == w && o.burned == 0
    ensures var o := CallMessage(r, w, f.caller, f.address, 0, true, Bytecode(inner), f.depth + 1);
            Executed(r, w, f, Calls(DelegateCall, address, 0, Bytecode(inner), Halts, Fails)) ==
            Outcome(w, f.depth < r.stackLimit && o.ok, 0)
  {
    hide CallMessage, Get;
  }

  /** The same for a message: its own depth counts. */
  lemma {:induction false} MessageDepth(r: Rules, w: World, m: Message, n: nat, address: Address)
    requires m.to.Some? && m.code == Bytecode(Tower(n, address)) && m.value == 0
    requires !m.delegatecall ==> Get(r, w, m.to.value).balance <= MAX_INTEGER
    ensures RunMessage(r, w, m).ok <==> n == 0 || m.depth + n <= r.stackLimit
  {
    var w0, to := Started(r, w, m), m.to.value;
    StartRaisesNonce(r, w, m, to);
    TransferMoves(r, w0, m.caller, to, 0, to);
    var w1 := if m.delegatecall then w0 else Transferred(r, w0, m.caller, to, 0).value;
    hide Transferred, Started, Get;
    TowerFits(r, w1, Frame(to, m.caller, m.depth), n, address);
    CallCodeRuns(r, w0, w1, m.caller, to, 0, m.delegatecall, Tower(n, address), m.depth);
  }

  /** The nonce of the outermost sender rises by one, whatever comes of its message. */
  lemma {:induction false} StartRaisesNonce(r: Rules, w: World, m: Message, a: Address)
    ensures var before, after := Get(r, w, a), Get(r, Started(r, w, m), a);
            && after.nonce == before.nonce + (if m.depth == 0 && a == m.caller then 1 else 0)
            && after.balance == before.balance && after.codeHash == before.codeHash
  {
  }

  /** What a message to quiet code comes to, account by account. */
  lemma {:induction false} PlainMessage(r: Rules, w: World, m: Message, a: Address)
    requires m.to.Some? && Quiet(m.code) && !m.delegatecall
    ensures var o, to := RunMessage(r, w, m), m.to.value;
            var before, after := Get(r, w, a), Get(r, o.world, a);
            && (o.ok <==> && Get(r, w, m.caller).balance >= m.value
                          && Get(r, w, to).balance - (if to == m.caller then m.value else 0) + m.value <= MAX_INTEGER
                          && EndsWell(m.code))
            && o.burned == 0 && after.codeHash == before.codeHash
            && after.nonce == before.nonce + (if m.depth == 0 && a == m.caller then 1 else 0)
            && after.balance == (if !o.ok then before.balance
                                 else before.balance - (if a == m.caller then m.value else 0)
                                                     + (if a == to then m.value else 0))
  {
    var w0 := Started(r, w, m);
    StartRaisesNonce(r, w, m, a);
    StartRaisesNonce(r, w, m, m.caller);
    StartRaisesNonce(r, w, m, m.to.value);
    TransferMoves(r, w0, m.caller, m.to.value, m.value, a);
    hide Transferred, Started, Get;
    PlainCallee(r, w0, m.caller, m.to.value, m.value, false, m.code, m.depth);
    hide CallMessage;
  }

  /** The code of a creation runs for the new account, from the world in which that is born. */
  lemma {:induction false} CreateCodeRuns(r: Rules, w: World, born: World, caller: Address, value: nat, c: Creation,
                                          init: Run, depth: nat)
    requires Get(r, w, caller).balance >= value && Born(r, w, caller, value, c) == Some(born)
    ensures var o := Executed(r, born, Frame(c.address, caller, depth), init);
            var kept := Deposited(r, o.world, c.address, c.deposit);
            CreateMessage(r, w, caller, value, c, Some(init), depth) ==
            if o.ok && kept.Some? then Outcome(kept.value, true, o.burned) else Outcome(w, false, 0)
  {
    hide Born, Deposited, Executed, Get;
  }

  lemma {:induction false} QuietCreation(r: Rules, w: World, caller: Address, value: nat, c: Creation,
                                         init: Option<Run>, depth: nat)
    requires Get(r, w, caller).balance >= value && (init.Some? ==> init.value.Halts? || init.value.Fails?)
    ensures var born, o := Born(r, w, caller, value, c), CreateMessage(r, w, caller, value, c, init, depth);
            && o.burned == 0 && (!o.ok ==> o.world == w)
            && (o.ok <==> born.Some? && (init.Some? ==> init.value.Halts? &&
                                                        Deposited(r, born.value, c.address, c.deposit).Some?))
            && (o.ok ==> o.world == if init.None? then born.value
                                    else Deposited(r, born.value, c.address, c.deposit).value)
  {
    hide Born, Deposited, Get;
    var born := Born(r, w, caller, value, c);
    if born.Some? && init.Some? {
      CreateCodeRuns(r, w, born.value, caller, value, c, init.value, depth);
    }
  }

  /**
    * What a creation comes to, account by account, when its code is missing or does nothing before it ends: the
    * code it returns is stored if it is paid for, and whatever fails undoes all but the sender's nonce.
    */
  lemma {:induction false} PlainCreation(r: Rules, w: World, m: Message, a: Address)
    requires m.to.None? && Get(r, w, m.caller).balance >= m.value && m.creation.address != m.caller
    requires m.init.Some? ==> m.init.value.Halts? || m.init.value.Fails?
    ensures var o, c := RunMessage(r, w, m), m.creation;
            var before, after, newborn := Get(r, w, a), Get(r, o.world, a), Get(r, w, c.address);
            && (o.ok <==> && !c.oversized && !c.hasStorage && newborn.nonce == 0 && newborn.codeHash == r.keccak([])
                          && newborn.balance + m.value <= MAX_INTEGER
                          && (m.init.Some? ==> m.init.value.Halts? &&
                                               (c.deposit.Stored? || (c.deposit.Unpaid? && r.chainstart))))
            && o.burned == 0
            && after.codeHash == (if o.ok && m.init.Some? && a == c.address && c.deposit.Stored? && c.deposit.code != []
                                  then r.keccak(c.deposit.code) else before.codeHash)
            && after.nonce == before.nonce + (if m.depth == 0 && a == m.caller then 1 else 0)
                              + (if o.ok && a == c.address && r.spuriousDragon then 1 else 0)
            && after.balance == (if !o.ok then before.balance
                                 else before.balance - (if a == m.caller then m.value else 0)
                                                     + (if a == c.address then m.value else 0))
  {
    var w0 := Started(r, w, m);
    StartRaisesNonce(r, w, m, a);
    StartRaisesNonce(r, w, m, m.caller);
    StartRaisesNonce(r, w, m, m.creation.address);
    BirthMoves(r, w0, m.caller, m.value, m.creation, a);
    var born := Born(r, w0, m.caller, m.value, m.creation);
    if born.Some? {
      DepositStores(r, born.value, m.creation.address, m.creation.deposit, a);
    }
    hide Born, Started, Get, Deposited;
    QuietCreation(r, w0, m.caller, m.value, m.creation, m.init, m.depth);
    hide CreateMessage;
  }
}

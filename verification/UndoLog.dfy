/** One map, a log of the values it lost, and the length of the log at each open checkpoint. */
module UndoLog {
  import opened Base
  import opened SimpleStateManagers
  import CopyStack

  type Storage = map<Address, map<Bytes, Bytes>>

  datatype Modification = Modification(at: Location, prevValue: Bytes)

  function Read(s: Storage, at: Location): Bytes {
    if at.address in s && at.slot in s[at.address] then s[at.address][at.slot] else Zeros(32)
  }

  function Write(s: Storage, at: Location, value: Bytes): Storage {
    s[at.address := (if at.address in s then s[at.address] else map[])[at.slot := value]]
  }

  lemma {:induction false} ReadWritten(s: Storage, at: Location, value: Bytes, q: Location)
    ensures Read(Write(s, at, value), q) == if q == at then value else Read(s, q)
  {
  }

  /** The fields of the transient storage. */
  datatype Log = Log(storage: Storage, changes: seq<Modification>, indices: seq<nat>)

  function Empty(): Log {
    Log(map[], [], [0])
  }

  function Put(l: Log, at: Location, value: Bytes): Log {
    Log(Write(l.storage, at, value), l.changes + [Modification(at, Read(l.storage, at))], l.indices)
  }

  function Checkpoint(l: Log): Log {
    l.(indices := l.indices + [|l.changes|])
  }

  function Commit(l: Log): Log
    requires l.indices != []
  {
    l.(indices := l.indices[..|l.indices| - 1])
  }

  /** The storage once the changes from the given index on are undone, the latest first. */
  function Undone(s: Storage, changes: seq<Modification>, from: nat): Storage
    decreases |changes|
  {
    if |changes| <= from then s
    else
      var m := changes[|changes| - 1];
      Undone(Write(s, m.at, m.prevValue), changes[..|changes| - 1], from)
  }

  function Revert(l: Log): Log
    requires l.indices != []
  {
    var n := |l.indices| - 1;
    var last := l.indices[n];
    Log(Undone(l.storage, l.changes, last),
        if last <= |l.changes| then l.changes[..last] else l.changes, l.indices[..n])
  }

  /** The index stack is left as it is. */
  function Clear(l: Log): Log {
    Log(map[], [], l.indices)
  }

  /** Every address in the log has a map in the storage. */
  ghost predicate Logged(s: Storage, changes: seq<Modification>) {
    forall m :: m in changes ==> m.at.address in s
  }

  // ----------------------------------------------------------------- the log against a stack of copies

  type Copies = seq<map<Location, Bytes>>

  function ReadCopy(c: map<Location, Bytes>, at: Location): Bytes {
    if at in c then c[at] else Zeros(32)
  }

  ghost predicate Same(s: Storage, t: Storage) {
    forall at :: Read(s, at) == Read(t, at)
  }

  ghost predicate Shows(s: Storage, c: map<Location, Bytes>) {
    forall at :: Read(s, at) == ReadCopy(c, at)
  }

  /** The indices rise and stay within the log. */
  ghost predicate Sorted(l: Log) {
    && (forall i, j :: 0 <= i < j < |l.indices| ==> l.indices[i] <= l.indices[j])
    && (forall i :: 0 <= i < |l.indices| ==> l.indices[i] <= |l.changes|)
  }

  /** The log means the stack: undoing back to a checkpoint shows the copy taken there. */
  ghost predicate Means(l: Log, copies: Copies) {
    && |copies| == |l.indices| + 1 && Sorted(l) && Logged(l.storage, l.changes)
    && Shows(l.storage, copies[|l.indices|])
    && forall i :: 0 <= i < |l.indices| ==> Shows(Undone(l.storage, l.changes, l.indices[i]), copies[i])
  }

  lemma {:induction false} UndoneSame(s: Storage, t: Storage, changes: seq<Modification>, from: nat)
    requires Same(s, t)
    ensures Same(Undone(s, changes, from), Undone(t, changes, from))
    decreases |changes|
  {
    if |changes| > from {
      var m := changes[|changes| - 1];
      forall q ensures Read(Write(s, m.at, m.prevValue), q) == Read(Write(t, m.at, m.prevValue), q) {
        ReadWritten(s, m.at, m.prevValue, q);
        ReadWritten(t, m.at, m.prevValue, q);
      }
      UndoneSame(Write(s, m.at, m.prevValue), Write(t, m.at, m.prevValue), changes[..|changes| - 1], from);
    }
  }

  lemma {:induction false} UndoneTwice(s: Storage, changes: seq<Modification>, from: nat, to: nat)
    requires from <= to <= |changes|
    ensures Undone(Undone(s, changes, to), changes[..to], from) == Undone(s, changes, from)
    decreases |changes|
  {
    if |changes| == to {
      assert changes[..to] == changes;
    } else {
      var m, front := changes[|changes| - 1], changes[..|changes| - 1];
      assert front[..to] == changes[..to];
      UndoneTwice(Write(s, m.at, m.prevValue), front, from, to);
    }
  }

  lemma {:induction false} UndoneLogged(s: Storage, changes: seq<Modification>, all: seq<Modification>, from: nat)
    requires Logged(s, all)
    ensures Logged(Undone(s, changes, from), all)
    decreases |changes|
  {
    if |changes| > from {
      var m := changes[|changes| - 1];
      UndoneLogged(Write(s, m.at, m.prevValue), changes[..|changes| - 1], all, from);
    }
  }

  lemma {:induction false} PutMeans(l: Log, copies: Copies, at: Location, value: Bytes)
    requires Means(l, copies)
    ensures Means(Put(l, at, value), CopyStack.Set(copies, at, value))
  {
    hide Read;
    var l', copies' := Put(l, at, value), CopyStack.Set(copies, at, value);
    var before := Read(l.storage, at);
    assert l'.changes[..|l.changes|] == l.changes;
    forall q ensures Read(l'.storage, q) == if q == at then value else Read(l.storage, q)
             ensures Read(Write(l'.storage, at, before), q) == Read(l.storage, q) {
      ReadWritten(l.storage, at, value, q);
      ReadWritten(l'.storage, at, before, q);
    }
    hide Write;
    forall i | 0 <= i < |l.indices| ensures Shows(Undone(l'.storage, l'.changes, l'.indices[i]), copies'[i]) {
      UndoneSame(l.storage, Write(l'.storage, at, before), l.changes, l.indices[i]);
    }
    assert Shows(l'.storage, copies'[|l.indices|]);
  }

  lemma {:induction false} CheckpointMeans(l: Log, copies: Copies)
    requires Means(l, copies)
    ensures Means(Checkpoint(l), CopyStack.Checkpoint(copies))
  {
  }

  lemma {:induction false} CommitMeans(l: Log, copies: Copies)
    requires Means(l, copies) && l.indices != []
    ensures Means(Commit(l), CopyStack.Commit(copies))
  {
  }

  lemma {:induction false} RevertMeans(l: Log, copies: Copies)
    requires Means(l, copies) && l.indices != []
    ensures Means(Revert(l), CopyStack.Revert(copies))
  {
    var n := |l.indices| - 1;
    forall i | 0 <= i < n {
      UndoneTwice(l.storage, l.changes, l.indices[i], l.indices[n]);
    }
    UndoneLogged(l.storage, l.changes, l.changes, l.indices[n]);
  }

  type Op = CopyStack.Op<Location, Bytes>

  /** What a run makes of a log. */
  function RunFrom(l: Log, ops: seq<Op>): (r: Log)
    requires CopyStack.Bracketed(ops, |l.indices| + 1, 1)
    ensures |r.indices| + 1 == CopyStack.Depth(ops, |l.indices| + 1)
  {
    if ops == [] then l
    else
      var r := RunFrom(l, ops[..|ops| - 1]);
      match ops[|ops| - 1]
      case Put(at, value) => Put(r, at, value)
      case CheckpointOp => Checkpoint(r)
      case CommitOp => Commit(r)
      case RevertOp => Revert(r)
  }

  function Run(ops: seq<Op>): Log
    requires CopyStack.Bracketed(ops, 2, 1)
  {
    RunFrom(Empty(), ops)
  }

  lemma {:induction false} RunFromMeans(l: Log, copies: Copies, ops: seq<Op>)
    requires Means(l, copies) && CopyStack.Bracketed(ops, |copies|, 1)
    ensures Means(RunFrom(l, ops), CopyStack.Run(copies, ops))
  {
    if ops != [] {
      hide Means;
      var front := ops[..|ops| - 1];
      assert |copies| == |l.indices| + 1 by { MeansSize(l, copies); }
      RunFromMeans(l, copies, front);
      var l', copies' := RunFrom(l, front), CopyStack.Run(copies, front);
      match ops[|ops| - 1] {
        case Put(at, value) => PutMeans(l', copies', at, value);
        case CheckpointOp => CheckpointMeans(l', copies');
        case CommitOp => CommitMeans(l', copies');
        case RevertOp => RevertMeans(l', copies');
      }
    }
  }

  lemma {:induction false} MeansSize(l: Log, copies: Copies)
    requires Means(l, copies)
    ensures |copies| == |l.indices| + 1
  {
  }

  /** On every bracketed run the undo log means what a stack of full copies means. */
  lemma {:induction false} RunMeans(ops: seq<Op>)
    requires CopyStack.Bracketed(ops, 2, 1)
    ensures Means(Run(ops), CopyStack.Run([map[], map[]], ops))
  {
    RunFromMeans(Empty(), [map[], map[]], ops);
  }

  /** What get answers after a bracketed run. */
  lemma {:induction false} GetAgrees(ops: seq<Op>, at: Location)
    requires CopyStack.Bracketed(ops, 2, 1)
    ensures Read(Run(ops).storage, at) == ReadCopy(CopyStack.Top(CopyStack.Run([map[], map[]], ops)), at)
  {
    RunMeans(ops);
  }

  /** Whatever happens between a checkpoint and its revert, every location reads as it did before. */
  lemma {:induction false} RevertRestoresReads(before: seq<Op>, inside: seq<Op>, at: Location)
    requires CopyStack.Bracketed(before, 2, 1) && CopyStack.Balanced(inside, CopyStack.Depth(before, 2) + 1)
    ensures var all := before + [CopyStack.CheckpointOp] + inside + [CopyStack.RevertOp];
            CopyStack.Bracketed(all, 2, 1) && Read(Run(all).storage, at) == Read(Run(before).storage, at)
  {
    CopyStack.UndoneRun([map[], map[]], before, inside);
    GetAgrees(before, at);
    GetAgrees(before + [CopyStack.CheckpointOp] + inside + [CopyStack.RevertOp], at);
  }

  // -------------------------------------------------------------------------------------- clearing

  function Blank(n: nat): (copies: Copies)
    ensures |copies| == n && forall i :: 0 <= i < n ==> copies[i] == map[]
  {
    seq(n, _ => map[])
  }

  /** Every run after a clear reads as if all copies had been cleared. */
  ghost predicate ClearsAll(l: Log) {
    forall ops, at :: CopyStack.Bracketed(ops, |l.indices| + 1, 1) ==>
      Read(RunFrom(Clear(l), ops).storage, at) ==
      ReadCopy(CopyStack.Top(CopyStack.Run(Blank(|l.indices| + 1), ops)), at)
  }

  /** With a change below the last checkpoint, a write after a clear outlives the revert to that checkpoint. */
  lemma {:induction false} WriteOutlivesRevert(l: Log, at: Location, w: Bytes)
    requires l.indices != [] && l.indices[|l.indices| - 1] > 0
    ensures Read(Revert(Put(Clear(l), at, w)).storage, at) == w
  {
    ReadWritten(map[], at, w, at);
  }

  lemma {:induction false} WriteAndRevert(l: Log, at: Location, w: Bytes)
    requires l.indices != []
    ensures var ops := [CopyStack.Put(at, w), CopyStack.RevertOp];
            && CopyStack.Bracketed(ops, |l.indices| + 1, 1)
            && RunFrom(Clear(l), ops) == Revert(Put(Clear(l), at, w))
            && CopyStack.Top(CopyStack.Run(Blank(|l.indices| + 1), ops)) == map[]
  {
    var put: seq<Op>, ops: seq<Op> := [CopyStack.Put(at, w)], [CopyStack.Put(at, w), CopyStack.RevertOp];
    assert put[..0] == [] && ops[..1] == put;
    var copies: Copies := Blank(|l.indices| + 1);
    assert CopyStack.Depth(put[..0], |copies|) == |copies| && CopyStack.Depth(put, |copies|) == |copies|;
    assert CopyStack.Run(copies, []) == copies;
    assert CopyStack.Run(copies, put) == CopyStack.Set(copies, at, w);
    assert RunFrom(Clear(l), []) == Clear(l);
    assert RunFrom(Clear(l), put) == Put(Clear(l), at, w);
  }

  lemma {:induction false} ClearWorks(l: Log)
    requires forall i :: 0 <= i < |l.indices| ==> l.indices[i] == 0
    ensures ClearsAll(l)
  {
    BlankMeans(l);
    hide Means, Clear;
    forall ops, at | CopyStack.Bracketed(ops, |l.indices| + 1, 1)
      ensures Read(RunFrom(Clear(l), ops).storage, at) ==
              ReadCopy(CopyStack.Top(CopyStack.Run(Blank(|l.indices| + 1), ops)), at) {
      RunFromMeans(Clear(l), Blank(|l.indices| + 1), ops);
      TopShown(RunFrom(Clear(l), ops), CopyStack.Run(Blank(|l.indices| + 1), ops), at);
    }
  }

  lemma {:induction false} ClearFails(l: Log)
    requires l.indices != [] && l.indices[|l.indices| - 1] > 0
    ensures !ClearsAll(l)
  {
    hide Revert, Put, RunFrom, CopyStack.Run;
    var at, w := Location([], []), [1];
    WriteOutlivesRevert(l, at, w);
    WriteAndRevert(l, at, w);
    var ops := [CopyStack.Put(at, w), CopyStack.RevertOp];
    assert ReadCopy(map[], at) == Zeros(32) != w;
    assert Read(RunFrom(Clear(l), ops).storage, at) !=
           ReadCopy(CopyStack.Top(CopyStack.Run(Blank(|l.indices| + 1), ops)), at);
  }

  /** Clearing clears what every later run can read exactly when no open checkpoint has a change below it. */
  lemma {:induction false} ClearMeans(l: Log, copies: Copies)
    requires Means(l, copies)
    ensures ClearsAll(l) <==> forall i :: 0 <= i < |l.indices| ==> l.indices[i] == 0
  {
    hide ClearsAll;
    if i :| 0 <= i < |l.indices| && l.indices[i] != 0 {
      ClearFails(l);
    } else {
      ClearWorks(l);
    }
  }

  lemma {:induction false} BlankMeans(l: Log)
    requires forall i :: 0 <= i < |l.indices| ==> l.indices[i] == 0
    ensures Means(Clear(l), Blank(|l.indices| + 1))
  {
    assert forall i :: 0 <= i < |l.indices| ==> Undone(map[], [], l.indices[i]) == map[];
    assert forall at :: Read(map[], at) == ReadCopy(map[], at);
  }

  lemma {:induction false} TopShown(l: Log, copies: Copies, at: Location)
    requires Means(l, copies)
    ensures Read(l.storage, at) == ReadCopy(CopyStack.Top(copies), at)
  {
  }

  /** A change, a checkpoint, a clear and another change: the revert that follows undoes nothing. */
  lemma {:induction false} ClearInsideCheckpoint(at: Location, v: Bytes, w: Bytes)
    requires w != Zeros(32)
    ensures var l := Put(Clear(Checkpoint(Put(Empty(), at, v))), at, w);
            Read(Revert(l).storage, at) == w
  {
  }

  // --------------------------------------------------------------------- the clear of a transaction

  lemma {:induction false} IndicesKept(l: Log, ops: seq<Op>, n: nat)
    requires n <= |l.indices| && CopyStack.Bracketed(ops, |l.indices| + 1, n + 1)
    ensures CopyStack.Bracketed(ops, |l.indices| + 1, 1)
    ensures |RunFrom(l, ops).indices| >= n && RunFrom(l, ops).indices[..n] == l.indices[..n]
  {
    CopyStack.LowerFloor(ops, |l.indices| + 1, n + 1, 1);
    if ops != [] {
      IndicesKept(l, ops[..|ops| - 1], n);
    }
  }

  lemma {:induction false} Closing(inside: seq<Op>)
    requires CopyStack.Balanced(inside, 3)
    ensures CopyStack.Bracketed(inside, 3, 3) && CopyStack.Bracketed(inside, 3, 1) && CopyStack.Depth(inside, 3) == 3
  {
    CopyStack.LowerFloor(inside, 3, 3, 1);
  }

  /**
    * The outermost message opens a checkpoint, runs frames that close what they open, clears, and commits
    * or reverts. Its clear always comes where it means clearing every copy, and the log is as at first.
    */
  lemma {:induction false} OutermostMessage(inside: seq<Op>, reverts: bool)
    requires CopyStack.Balanced(inside, 3)
    ensures CopyStack.Bracketed(inside, 3, 1)
    ensures var l := RunFrom(Checkpoint(Empty()), inside);
            && ClearsAll(l) && (if reverts then Revert(Clear(l)) else Commit(Clear(l))) == Empty()
  {
    hide ClearsAll, CopyStack.Bracketed, CopyStack.Balanced, RunFrom;
    var start := Checkpoint(Empty());
    Closing(inside);
    IndicesKept(start, inside, 2);
    var l := RunFrom(start, inside);
    assert l.indices[..2] == l.indices;
    ClearWorks(l);
  }
}

/** A stack of full copies of a map: the meaning every checkpoint mechanism is held to. */
module CopyStack {
  function Top<K, V>(stack: seq<map<K, V>>): map<K, V> {
    if stack == [] then map[] else stack[|stack| - 1]
  }

  function Set<K, V>(stack: seq<map<K, V>>, key: K, value: V): seq<map<K, V>>
    requires stack != []
  {
    stack[|stack| - 1 := stack[|stack| - 1][key := value]]
  }

  function Checkpoint<K, V>(stack: seq<map<K, V>>): seq<map<K, V>> {
    stack + [Top(stack)]
  }

  /** The copy below the top goes; with no checkpoint open, that is the top itself. */
  function Commit<K, V>(stack: seq<map<K, V>>): seq<map<K, V>> {
    if |stack| >= 2 then stack[..|stack| - 2] + [Top(stack)] else []
  }

  function Revert<K, V>(stack: seq<map<K, V>>): seq<map<K, V>> {
    if stack == [] then [] else stack[..|stack| - 1]
  }

  /** Between a checkpoint and its end only the top copy changes: a commit keeps it, a revert drops it. */
  lemma {:induction false} AfterCheckpoint<K, V>(was: seq<map<K, V>>, now: seq<map<K, V>>)
    requires was != [] && |now| == |was| + 1 && now[..|was|] == Checkpoint(was)[..|was|]
    ensures Commit(now) == was[..|was| - 1] + [Top(now)] && Revert(now) == was
  {
    assert now[..|was|][..|was| - 1] == now[..|was| - 1];
  }

  datatype Op<K, V> = Put(key: K, value: V) | CheckpointOp | CommitOp | RevertOp

  function Apply<K, V>(stack: seq<map<K, V>>, op: Op<K, V>): seq<map<K, V>>
    requires stack != []
  {
    match op
    case Put(key, value) => Set(stack, key, value)
    case CheckpointOp => Checkpoint(stack)
    case CommitOp => Commit(stack)
    case RevertOp => Revert(stack)
  }

  /** How many checkpoints are open after a run that starts with depth of them. */
  function Depth<K, V>(ops: seq<Op<K, V>>, depth: int): int {
    if ops == [] then depth
    else
      var d := Depth(ops[..|ops| - 1], depth);
      match ops[|ops| - 1]
      case Put(_, _) => d
      case CheckpointOp => d + 1
      case _ => d - 1
  }

  /** Every commit and revert of the run closes a checkpoint upTo above the given floor. */
  predicate Bracketed<K, V>(ops: seq<Op<K, V>>, depth: int, floor: int) {
    depth >= floor &&
    (ops != [] ==> Bracketed(ops[..|ops| - 1], depth, floor) && Depth(ops, depth) >= floor)
  }

  function Run<K, V>(stack: seq<map<K, V>>, ops: seq<Op<K, V>>): (r: seq<map<K, V>>)
    requires Bracketed(ops, |stack|, 1)
    ensures |r| == Depth(ops, |stack|)
  {
    if ops == [] then stack else Apply(Run(stack, ops[..|ops| - 1]), ops[|ops| - 1])
  }

  lemma {:induction false} LowerFloor<K, V>(ops: seq<Op<K, V>>, depth: int, floor: int, lower: int)
    requires Bracketed(ops, depth, floor) && lower <= floor
    ensures Bracketed(ops, depth, lower)
  {
    if ops != [] {
      LowerFloor(ops[..|ops| - 1], depth, floor, lower);
    }
  }

  /** A run leaves alone every copy below its floor. */
  lemma {:induction false} CopiesKept<K, V>(stack: seq<map<K, V>>, ops: seq<Op<K, V>>, floor: nat)
    requires 1 <= floor && Bracketed(ops, |stack|, floor) && Bracketed(ops, |stack|, 1)
    ensures Depth(ops, |stack|) >= floor && Run(stack, ops)[..floor - 1] == stack[..floor - 1]
  {
    if ops != [] {
      CopiesKept(stack, ops[..|ops| - 1], floor);
    }
  }

  lemma {:induction false} DepthAppend<K, V>(ops: seq<Op<K, V>>, more: seq<Op<K, V>>, depth: int, floor: int)
    ensures Depth(ops + more, depth) == Depth(more, Depth(ops, depth))
    ensures Bracketed(ops, depth, floor) && Bracketed(more, Depth(ops, depth), floor) ==>
              Bracketed(ops + more, depth, floor)
  {
    if more == [] {
      assert ops + more == ops;
    } else {
      var front, last := more[..|more| - 1], more[|more| - 1];
      assert (ops + more)[..|ops + more| - 1] == ops + front && (ops + more)[|ops + more| - 1] == last;
      DepthAppend(ops, front, depth, floor);
    }
  }

  lemma {:induction false} RunAppend<K, V>(stack: seq<map<K, V>>, ops: seq<Op<K, V>>, more: seq<Op<K, V>>)
    requires Bracketed(ops, |stack|, 1) && Bracketed(more, Depth(ops, |stack|), 1)
    ensures Bracketed(ops + more, |stack|, 1)
    ensures Run(stack, ops + more) == Run(Run(stack, ops), more)
  {
    DepthAppend(ops, more, |stack|, 1);
    if more == [] {
      assert ops + more == ops;
    } else {
      var front, last := more[..|more| - 1], more[|more| - 1];
      assert (ops + more)[..|ops + more| - 1] == ops + front && (ops + more)[|ops + more| - 1] == last;
      RunAppend(stack, ops, front);
    }
  }

  /** Between a checkpoint and its revert anything may happen that closes what it opens. */
  predicate Balanced<K, V>(ops: seq<Op<K, V>>, depth: int) {
    Bracketed(ops, depth, depth) && Depth(ops, depth) == depth
  }

  /** A run that opens a checkpoint, does anything balanced, and reverts, ends where it began. */
  lemma {:induction false} UndoneRun<K, V>(stack: seq<map<K, V>>, before: seq<Op<K, V>>, inside: seq<Op<K, V>>)
    requires Bracketed(before, |stack|, 1) && Balanced(inside, Depth(before, |stack|) + 1)
    ensures var all := before + [CheckpointOp] + inside + [RevertOp];
            Bracketed(all, |stack|, 1) && Run(stack, all) == Run(stack, before)
  {
    var d := Depth(before, |stack|);
    DepthKept(before, |stack|, 1);
    var upTo := before + [CheckpointOp];
    assert upTo[..|upTo| - 1] == before;
    LowerFloor(inside, d + 1, d + 1, 1);
    RunAppend(stack, upTo, inside);
    var all := upTo + inside + [RevertOp];
    assert all[..|all| - 1] == upTo + inside;
    DepthAppend(upTo, inside, |stack|, 1);
    RevertRestores(Run(stack, before), inside);
  }

  lemma {:induction false} DepthKept<K, V>(ops: seq<Op<K, V>>, depth: int, floor: int)
    requires Bracketed(ops, depth, floor)
    ensures Depth(ops, depth) >= floor
  {
  }

  /** Whatever a bracketed run does in between, revert brings back the stack at the checkpoint. */
  lemma {:induction false} RevertRestores<K, V>(stack: seq<map<K, V>>, ops: seq<Op<K, V>>)
    requires stack != [] && Bracketed(ops, |stack| + 1, |stack| + 1) && Bracketed(ops, |stack| + 1, 1)
    requires Depth(ops, |stack| + 1) == |stack| + 1
    ensures Revert(Run(Checkpoint(stack), ops)) == stack
  {
    CopiesKept(Checkpoint(stack), ops, |stack| + 1);
  }

  /** Commit keeps what the run left on top and forgets only the checkpoint. */
  lemma {:induction false} CommitKeeps<K, V>(stack: seq<map<K, V>>, ops: seq<Op<K, V>>)
    requires stack != [] && Bracketed(ops, |stack| + 1, |stack| + 1) && Bracketed(ops, |stack| + 1, 1)
    requires Depth(ops, |stack| + 1) == |stack| + 1
    ensures Commit(Run(Checkpoint(stack), ops)) == stack[..|stack| - 1] + [Top(Run(Checkpoint(stack), ops))]
  {
    CopiesKept(Checkpoint(stack), ops, |stack| + 1);
    var r := Run(Checkpoint(stack), ops);
    assert r[..|stack|] == Checkpoint(stack)[..|stack|] == stack;
    assert r[..|stack| - 1] == r[..|stack|][..|stack| - 1];
  }
}

/** Transient storage: an undo log kept by a class that changes its fields in place. */
module TransientStorages {
  import opened Base
  import opened SimpleStateManagers
  import UndoLog

  datatype TransientError = KeyLength | ValueLength | NothingToCommit | NothingToRevert

  class TransientStorage {
    var storage: UndoLog.Storage
    var changeJournal: seq<UndoLog.Modification>
    var indices: seq<nat>

    ghost function State(): UndoLog.Log
      reads this
    {
      UndoLog.Log(storage, changeJournal, indices)
    }

    ghost predicate Valid()
      reads this
    {
      UndoLog.Logged(storage, changeJournal)
    }

    constructor ()
      ensures Valid() && State() == UndoLog.Empty()
    {
      storage, changeJournal, indices := map[], [], [0];
    }

    method Get(address: Address, key: Bytes) returns (value: Bytes)
      ensures value == UndoLog.Read(storage, Location(address, key))
      ensures value == if address in storage && key in storage[address] then storage[address][key] else Zeros(32)
    {
      if address !in storage {
        return Zeros(32);
      }
      value := if key in storage[address] then storage[address][key] else Zeros(32);
    }

    method Put(address: Address, key: Bytes, value: Bytes) returns (r: Result<(), TransientError>)
      requires Valid()
      modifies this
      ensures Valid()
      ensures |key| != 32 ==> r == Err(KeyLength)
      ensures |key| == 32 && |value| > 32 ==> r == Err(ValueLength)
      ensures r.Err? ==> State() == old(State())
      ensures |key| == 32 && |value| <= 32 ==>
                r == Ok(()) && State() == UndoLog.Put(old(State()), Location(address, key), value)
      ensures |key| == 32 && |value| <= 32 ==>
                var values := if address in old(storage) then old(storage)[address] else map[];
                var before := if key in values then values[key] else Zeros(32);
                && storage == old(storage)[address := values[key := value]] && indices == old(indices)
                && changeJournal == old(changeJournal) + [UndoLog.Modification(Location(address, key), before)]
    {
      if |key| != 32 {
        return Err(KeyLength);
      }
      if |value| > 32 {
        return Err(ValueLength);
      }
      if address !in storage {
        storage := storage[address := map[]];
      }
      var values := storage[address];
      var prevValue := if key in values then values[key] else Zeros(32);
      changeJournal := changeJournal + [UndoLog.Modification(Location(address, key), prevValue)];
      storage := storage[address := values[key := value]];
      r := Ok(());
    }

    method Commit() returns (r: Result<(), TransientError>)
      requires Valid()
      modifies this
      ensures Valid()
      ensures old(indices) == [] ==> r == Err(NothingToCommit) && State() == old(State())
      ensures old(indices) != [] ==> r == Ok(()) && State() == UndoLog.Commit(old(State()))
      ensures old(indices) != [] ==> indices == old(indices)[..|old(indices)| - 1]
      ensures storage == old(storage) && changeJournal == old(changeJournal)
    {
      if |indices| == 0 {
        return Err(NothingToCommit);
      }
      indices := indices[..|indices| - 1];
      r := Ok(());
    }

    method Checkpoint()
      requires Valid()
      modifies this
      ensures Valid()
      ensures State() == UndoLog.Checkpoint(old(State()))
      ensures indices == old(indices) + [|changeJournal|]
      ensures storage == old(storage) && changeJournal == old(changeJournal)
    {
      indices := indices + [|changeJournal|];
    }

    method Revert() returns (r: Result<(), TransientError>)
      requires Valid()
      modifies this
      ensures Valid()
      ensures old(indices) == [] ==> r == Err(NothingToRevert) && State() == old(State())
      ensures old(indices) != [] ==> r == Ok(()) && State() == UndoLog.Revert(old(State()))
      ensures old(indices) != [] ==>
                var last := old(indices)[|old(indices)| - 1];
                && indices == old(indices)[..|old(indices)| - 1]
                && changeJournal ==
                   (if last <= |old(changeJournal)| then old(changeJournal)[..last] else old(changeJournal))
    {
      if indices == [] {
        return Err(NothingToRevert);
      }
      var lastCheckpoint := indices[|indices| - 1];
      indices := indices[..|indices| - 1];
      var i := |changeJournal|;
      assert changeJournal[..i] == changeJournal;
      while i > lastCheckpoint
        invariant 0 <= i <= |changeJournal| && (lastCheckpoint <= |changeJournal| ==> lastCheckpoint <= i)
        invariant changeJournal == old(changeJournal) && indices == old(indices)[..|old(indices)| - 1]
        invariant UndoLog.Logged(storage, changeJournal)
        invariant UndoLog.Undone(storage, changeJournal[..i], lastCheckpoint) ==
                  UndoLog.Undone(old(storage), old(changeJournal), lastCheckpoint)
      {
        i := i - 1;
        var m := changeJournal[i];
        assert m in changeJournal;
        assert changeJournal[..i + 1][..i] == changeJournal[..i];
        storage := storage[m.at.address := storage[m.at.address][m.at.slot := m.prevValue]];
      }
      if lastCheckpoint <= |changeJournal| {
        changeJournal := changeJournal[..lastCheckpoint];
      }
      r := Ok(());
    }

    method Clear()
      requires Valid()
      modifies this
      ensures Valid()
      ensures State() == UndoLog.Clear(old(State()))
      ensures storage == map[] && changeJournal == [] && indices == old(indices)
    {
      storage, changeJournal := map[], [];
    }
  }
}

/** The journal of a message run, changed in place. */
module Journals {
  import opened Base
  import M = JournalModel

  class Journal {
    var journal: M.Warm
    var alwaysWarmJournal: M.Warm
    var touched: set<M.AddressString>
    var journalDiff: seq<M.Entry>
    var journalHeight: int

    ghost predicate Valid()
      reads this
    {
      journalDiff != []
    }

    ghost function State(): M.Journaled
      reads this
    {
      M.Journaled(journal, touched, journalDiff, journalHeight)
    }

    constructor ()
      ensures Valid() && State() == M.Clean() && alwaysWarmJournal == map[]
    {
      journal, alwaysWarmJournal, touched := map[], map[], {};
      journalDiff, journalHeight := [M.Entry(0, M.NoDiff())], 0;
    }

    method CleanJournal()
      modifies this
      ensures Valid() && State() == M.Clean() && alwaysWarmJournal == map[]
    {
      journalHeight := 0;
      journal := map[];
      alwaysWarmJournal := map[];
      touched := {};
      journalDiff := [M.Entry(0, M.NoDiff())];
    }

    method TouchAddress(address: Bytes)
      requires Valid()
      modifies this`touched, this`journalDiff
      ensures Valid() && State() == M.Touch(old(State()), UnprefixedHex(address))
      ensures touched == old(touched) + {UnprefixedHex(address)}
    {
      var a := UnprefixedHex(address);
      if a !in touched {
        touched := touched + {a};
        var last := |journalDiff| - 1;
        var diff := journalDiff[last].diff;
        journalDiff := journalDiff[last := journalDiff[last].(diff := diff.(touched := diff.touched + {a}))];
      }
    }

    method Checkpoint()
      requires Valid()
      modifies this`journalHeight, this`journalDiff
      ensures Valid() && State() == M.Open(old(State()))
      ensures journalHeight == old(journalHeight) + 1
      ensures journalDiff == old(journalDiff) + [M.Entry(journalHeight, M.Diff({}, map[], {}))]
    {
      journalHeight := journalHeight + 1;
      journalDiff := journalDiff + [M.Entry(journalHeight, M.NoDiff())];
    }

    method Commit()
      requires Valid()
      modifies this`journalHeight, this`journalDiff
      ensures Valid() && State() == M.Commit(old(State()))
      ensures journalHeight == old(journalHeight) - 1
      ensures journalDiff == old(journalDiff) + [M.Entry(journalHeight, M.Diff({}, map[], {}))]
    {
      journalHeight := journalHeight - 1;
      journalDiff := journalDiff + [M.Entry(journalHeight, M.NoDiff())];
    }

    method ForgetAddresses(addresses: set<M.AddressString>)
      modifies this`journal
      ensures journal == old(journal) - addresses
    {
      var rest := addresses;
      while rest != {}
        invariant rest <= addresses && journal == old(journal) - (addresses - rest)
        decreases |rest|
      {
        var address :| address in rest;
        if address in journal {
          journal := journal - {address};
        }
        rest := rest - {address};
      }
    }

    method ForgetSlots(slots: M.Warm)
      modifies this`journal
      ensures journal == map a | a in old(journal) :: old(journal)[a] - M.SlotsOf(slots, a)
    {
      var rest := slots.Keys;
      while rest != {}
        invariant rest <= slots.Keys && journal.Keys == old(journal).Keys
        invariant forall a :: a in journal ==>
                    journal[a] == if a in rest then old(journal)[a] else old(journal)[a] - M.SlotsOf(slots, a)
        decreases |rest|
      {
        var address :| address in rest;
        if address in journal {
          journal := journal[address := journal[address] - slots[address]];
        }
        rest := rest - {address};
      }
    }

    method ForgetTouches(touches: set<M.AddressString>)
      modifies this`touched
      ensures touched == old(touched) - (touches - {M.RIPEMD160_ADDRESS_STRING})
    {
      var rest := touches;
      while rest != {}
        invariant rest <= touches
        invariant touched == old(touched) - (touches - rest - {M.RIPEMD160_ADDRESS_STRING})
        decreases |rest|
      {
        var address :| address in rest;
        if address != M.RIPEMD160_ADDRESS_STRING {
          touched := touched - {address};
        }
        rest := rest - {address};
      }
    }

    /** Take the addresses, slots and touches of one diff back. */
    method UndoDiff(diff: M.Diff)
      modifies this`journal, this`touched
      ensures journal == M.Cooled(old(journal), diff) && touched == M.Untouched(old(touched), diff)
    {
      ForgetAddresses(diff.addresses);
      ForgetSlots(diff.slots);
      ForgetTouches(diff.touched);
    }

    method Revert()
      requires Valid()
      modifies this
      ensures Valid() && State() == M.Revert(old(State()))
      ensures alwaysWarmJournal == old(alwaysWarmJournal) && journalHeight == old(journalHeight) - 1
    {
      var finalI, i := 0, |journalDiff| - 1;
      assert journalDiff[..i + 1] == journalDiff;
      while i >= 0
        invariant -1 <= i < |journalDiff| && finalI == if i + 1 < |journalDiff| then i + 1 else 0
        invariant journalDiff == old(journalDiff) && journalHeight == old(journalHeight)
        invariant alwaysWarmJournal == old(alwaysWarmJournal)
        invariant M.CooledTo(journal, journalDiff[..i + 1], journalHeight) ==
                  M.CooledTo(old(journal), old(journalDiff), journalHeight)
        invariant M.UntouchedTo(touched, journalDiff[..i + 1], journalHeight) ==
                  M.UntouchedTo(old(touched), old(journalDiff), journalHeight)
        invariant M.KeptBelow(journalDiff[..i + 1], journalHeight) == M.KeptBelow(journalDiff, journalHeight)
      {
        finalI := i;
        assert journalDiff[..i + 1][..i] == journalDiff[..i];
        if journalDiff[i].height < journalHeight {
          break;
        }
        UndoDiff(journalDiff[i].diff);
        i := i - 1;
      }
      journalDiff := journalDiff[..finalI + 1];
      journalHeight := journalHeight - 1;
    }

    method AddAlwaysWarmAddress(address: M.AddressString)
      modifies this`alwaysWarmJournal
      ensures alwaysWarmJournal == old(alwaysWarmJournal)[address := M.SlotsOf(old(alwaysWarmJournal), address)]
    {
      if address !in alwaysWarmJournal {
        alwaysWarmJournal := alwaysWarmJournal[address := {}];
      }
    }

    method AddAlwaysWarmSlot(address: M.AddressString, slot: M.SlotString)
      modifies this`alwaysWarmJournal
      ensures alwaysWarmJournal ==
              old(alwaysWarmJournal)[address := M.SlotsOf(old(alwaysWarmJournal), address) + {slot}]
      ensures address in alwaysWarmJournal && slot in alwaysWarmJournal[address]
    {
      AddAlwaysWarmAddress(address);
      alwaysWarmJournal := alwaysWarmJournal[address := alwaysWarmJournal[address] + {slot}];
    }

    method IsWarmedAddress(address: Bytes) returns (warm: bool)
      ensures warm <==> UnprefixedHex(address) in journal.Keys + alwaysWarmJournal.Keys
    {
      var addressHex := UnprefixedHex(address);
      warm := addressHex in journal || addressHex in alwaysWarmJournal;
    }

    method AddWarmedAddress(address: Bytes)
      requires Valid()
      modifies this`journal, this`journalDiff
      ensures Valid() && State() == M.WarmAddress(old(State()), UnprefixedHex(address))
      ensures var a := UnprefixedHex(address);
              journal == if a in old(journal) then old(journal) else old(journal)[a := {}]
    {
      var a := UnprefixedHex(address);
      if a !in journal {
        journal := journal[a := {}];
        var last := |journalDiff| - 1;
        var diff := journalDiff[last].diff;
        journalDiff := journalDiff[last := journalDiff[last].(diff := diff.(addresses := diff.addresses + {a}))];
      }
    }

    /** A slot is warm when it was warmed in this run or is always warm. */
    method IsWarmedStorage(address: Bytes, slot: Bytes) returns (warm: bool)
      ensures var a, s := UnprefixedHex(address), UnprefixedHex(slot);
              warm <==> (a in journal && s in journal[a]) || (a in alwaysWarmJournal && s in alwaysWarmJournal[a])
    {
      var addressHex, slotHex := UnprefixedHex(address), UnprefixedHex(slot);
      if addressHex !in journal {
        if addressHex in alwaysWarmJournal {
          return slotHex in alwaysWarmJournal[addressHex];
        }
        return false;
      }
      if slotHex in journal[addressHex] {
        return true;
      } else if addressHex in alwaysWarmJournal {
        return slotHex in alwaysWarmJournal[addressHex];
      }
      warm := false;
    }

    method AddWarmedStorage(address: Bytes, slot: Bytes)
      requires Valid()
      modifies this`journal, this`journalDiff
      ensures Valid() && State() == M.WarmSlot(old(State()), UnprefixedHex(address), UnprefixedHex(slot))
      ensures var a, s := UnprefixedHex(address), UnprefixedHex(slot);
              journal == old(journal)[a := (if a in old(journal) then old(journal)[a] else {}) + {s}]
    {
      var a, s := UnprefixedHex(address), UnprefixedHex(slot);
      if a !in journal {
        AddWarmedAddress(address);
      }
      if s !in journal[a] {
        journal := journal[a := journal[a] + {s}];
        var last := |journalDiff| - 1;
        var diff := journalDiff[last].diff;
        var slots := if a in diff.slots then diff.slots[a] else {};
        journalDiff := journalDiff[last := journalDiff[last].(diff := diff.(slots := diff.slots[a := slots + {s}]))];
      }
      assert journal[a] == (if a in old(journal) then old(journal)[a] else {}) + {s};
    }
  }
}

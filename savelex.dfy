/** The dictionary `savelex` of `check_mwe`, updated in place by the three
    helpers of Swectors/contract.py that fill and pop its keys. Each method
    walks the keys in ascending order, as the source does with
    `sorted(savelex)`, and is proved to compute the corresponding
    specification function of modules `Materialise` and `Peeling`. A method
    returns `ok == false` where the Python code would raise. */
module Savelex {
  import opened Seqs
  import opened Lexes
  import opened Materialise
  import opened Peeling

  function Prefixed(out: seq<Str>, f: Option<Fill>): Option<Fill>
  {
    match f
    case None => None
    case Some(g) => Some(Fill(g.slots, out + g.out, g.rest))
  }

  function PrependFound(acc: (seq<nat>, Comb), r: Option<(seq<nat>, Comb)>): Option<(seq<nat>, Comb)>
  {
    match r
    case None => None
    case Some(x) => Some((acc.0 + x.0, acc.1 + x.1))
  }

  /** Lines 39-51 for one candidate `x` at a `None` key: whether the
      reference pattern fails to match it (lines 44-47), whether the key it
      refers to is still `None` (line 51 raises), and otherwise whether the
      slot is popped. */
  method CheckReference(x: Str, t: seq<Entry>) returns (unmatched: bool, pending: bool, contract: bool)
    ensures unmatched == Unmatched(x)
    ensures pending == RefersToPending(x, t)
    ensures unmatched ==> !pending && !contract
    ensures !pending ==> contract == ContractsInto(x, t)
  {
    unmatched, pending, contract := false, false, false;
    if ':' in x {
      var digits := RefDigits(x);
      if digits.None? {
        return true, false, false;
      } else {
        var key := DigitsValue(digits.value) - 1;
        if 0 <= key < |t| && t[key] != Deleted {
          if t[key] == Unresolved {
            return false, true, false;
          }
          contract := StripRefs(x) == StripRefs(t[key].lex);
        }
      }
    }
  }

  lemma PrefixedSteps(out: seq<Str>, v: Str, f: Option<Fill>)
    ensures Prefixed([], f) == f
    ensures Prefixed(out, Emit(v, f)) == Prefixed(out + [v], f)
  {
    if f.Some? {
      assert [] + f.value.out == f.value.out;
      assert out + ([v] + f.value.out) == (out + [v]) + f.value.out;
    }
  }

  lemma PrependFoundSteps(acc: (seq<nat>, Comb), p: nat, l: Str, r: Option<(seq<nat>, Comb)>)
    ensures PrependFound(([], []), r) == r
    ensures PrependFound(acc, PrependFound(([p], [l]), r)) == PrependFound((acc.0 + [p], acc.1 + [l]), r)
  {
    if r.Some? {
      assert [] + r.value.0 == r.value.0 && [] + r.value.1 == r.value.1;
      assert acc.0 + ([p] + r.value.0) == (acc.0 + [p]) + r.value.0;
      assert acc.1 + ([l] + r.value.1) == (acc.1 + [l]) + r.value.1;
    }
  }

  class PositionMap {
    /** Entry `i` is what `savelex[i]` holds, or `Deleted` once key `i` was popped. */
    var slots: seq<Entry>

    constructor (init: seq<Entry>)
      ensures slots == init
    {
      slots := init;
    }

    /** `combination_to_out` (lines 17-60): fills the `None` slots from the
        combination, popping a slot instead when its candidate refers to a
        key that holds the same candidate up to `:\d+`, and returns the
        values in key order. */
    method CombinationToOut(combination: Comb) returns (ok: bool, out: seq<Option<Str>>)
      modifies this
      ensures ok == Materialised(old(slots), combination).Some?
      ensures ok ==> slots == Materialised(old(slots), combination).value.slots
      ensures ok ==> out == Materialised(old(slots), combination).value.out
      ensures combination == [] ==> ok && slots == old(slots) && out == Values(slots)
    {
      if combination == [] {
        return true, Values(slots);
      }
      var comb := combination;
      var lexesOut: seq<Str> := [];
      var i := 0;
      PrefixedSteps([], [], FillFrom(slots, comb, i));
      while i < |slots|
        invariant 0 <= i <= |slots| == |old(slots)|
        invariant FillFrom(old(slots), combination, 0) == Prefixed(lexesOut, FillFrom(slots, comb, i))
        decreases |slots| - i
      {
        if slots[i] == Unresolved {
          if comb == [] {
            return false, [];
          }
          var x := comb[0];
          var unmatched, pending, contract := CheckReference(x, slots);
          if pending {
            return false, [];
          }
          PrefixedSteps(lexesOut, x, FillFrom(slots[i := Resolved(x)], comb[1..], i + 1));
          if unmatched {
            slots := slots[i := Resolved(x)];
          } else if contract {
            slots := slots[i := Deleted];
          } else {
            slots := slots[i := Resolved(x)];
            lexesOut := lexesOut + [x];
          }
          comb := comb[1..];
        } else if slots[i].Resolved? {
          PrefixedSteps(lexesOut, slots[i].lex, FillFrom(slots, comb, i + 1));
          lexesOut := lexesOut + [slots[i].lex];
        }
        i := i + 1;
      }
      out := SomeAll(lexesOut);
      ok := true;
    }

    /** `remove_leading_non_mwes` (lines 244-285): moves the entries that
        precede the first multi-word entry (as counted by `mincounter`) from
        the combinations into the first `None` slots. */
    method RemoveLeadingNonMwes(combinations: seq<Comb>, sep: char) returns (ok: bool, reduced: seq<Comb>)
      modifies this
      ensures ok == LeadingPeeled(combinations, old(slots), sep).Some?
      ensures ok ==> reduced == LeadingPeeled(combinations, old(slots), sep).value.combos
      ensures ok ==> slots == LeadingPeeled(combinations, old(slots), sep).value.slots
    {
      if combinations == [] {
        return true, combinations;
      }
      var mincounter := ComputeMinCounter(combinations, sep);
      if mincounter == 0 {
        return true, combinations;
      }
      if |combinations[0]| < mincounter {
        return false, [];
      }
      var remwords := combinations[0][..mincounter];
      reduced := DropLeading(combinations, mincounter);
      FillLeadingSlots(remwords);
      ok := true;
    }

    /** Lines 278-284: the first `None` slots, in key order, take `remwords`. */
    method FillLeadingSlots(remwords: Comb)
      modifies this
      ensures slots == FillLeading(old(slots), remwords, 0)
    {
      var savecount := 0;
      var i := 0;
      assert remwords[0..] == remwords;
      while i < |slots|
        invariant 0 <= i <= |slots| == |old(slots)|
        invariant 0 <= savecount <= |remwords|
        invariant FillLeading(old(slots), remwords, 0) == FillLeading(slots, remwords[savecount..], i)
        decreases |slots| - i
      {
        if savecount == |remwords| {
          break;
        }
        if slots[i] == Unresolved {
          slots := slots[i := Resolved(remwords[savecount])];
          assert remwords[savecount..][1..] == remwords[savecount + 1..];
          savecount := savecount + 1;
        }
        i := i + 1;
      }
    }

    /** Lines 367-373: one more than the first `None` key, or 0 if none. */
    method FirstPendingRef() returns (ref: nat)
      ensures ref == PendingRef(slots)
    {
      ref := 0;
      var i := 0;
      while i < |slots|
        invariant 0 <= i <= |slots|
        invariant forall j :: 0 <= j < i ==> slots[j] != Unresolved
        invariant ref == 0
      {
        if slots[i] == Unresolved {
          ref := i + 1;
          break;
        }
        i := i + 1;
      }
    }

    /** `save_first_mwe` (lines 348-417): resolves the first `None` slot to the
        head of the first combination, pops the `None` slots of the other
        members of that multi-word expression, and deletes those members
        from every combination. */
    method SaveFirstMwe(combinations: seq<Comb>) returns (ok: bool, reduced: seq<Comb>)
      modifies this
      ensures ok == FirstMweSaved(combinations, old(slots)).Some?
      ensures ok ==> reduced == FirstMweSaved(combinations, old(slots)).value.combos
      ensures ok ==> slots == FirstMweSaved(combinations, old(slots)).value.slots
    {
      if combinations == [] {
        return true, combinations;
      }
      if combinations[0] == [] {
        return false, [];
      }
      var first := combinations[0][0];
      var ref := FirstPendingRef();
      var found, mwePositions, toBeRemoved := FindMweMembers(first, combinations[0][1..], ref);
      if !found {
        return false, [];
      }
      reduced := RemoveMatchedAll(combinations, [first] + toBeRemoved);
      CommitSlots([0] + mwePositions, first);
      ok := true;
    }

    /** Lines 398-416: the first `None` key takes `first`; the `None` keys
        whose running count appears in `ps` are popped. */
    method CommitSlots(ps0: seq<nat>, first: Str)
      modifies this
      ensures slots == Commit(old(slots), ps0, first, 0, 0)
    {
      var ps := ps0;
      var counter := 0;
      var i := 0;
      while i < |slots|
        invariant 0 <= i <= |slots| == |old(slots)|
        invariant Commit(old(slots), ps0, first, 0, 0) == Commit(slots, ps, first, counter, i)
        decreases |slots| - i
      {
        if ps == [] {
          break;
        }
        if counter == 0 && slots[i] == Unresolved {
          slots := slots[i := Resolved(first)];
          ps := ps[1..];
          counter := counter + 1;
        } else if counter == ps[0] && slots[i] == Unresolved {
          slots := slots[i := Deleted];
          ps := ps[1..];
          counter := counter + 1;
        } else if slots[i] == Unresolved {
          counter := counter + 1;
        }
        i := i + 1;
      }
    }
  }

  /** Lines 257-262: counts the entries before the first one holding the
      separator other than at its start. */
  method CountLeadingNonMwes(c: Comb, sep: char) returns (counter: nat)
    ensures counter == LeadingNonMwes(c, sep)
    ensures forall j :: 0 <= j < counter ==> !HasInnerSep(c[j], sep)
    ensures counter < |c| ==> HasInnerSep(c[counter], sep)
  {
    counter := 0;
    while counter < |c| && !HasInnerSep(c[counter], sep)
      invariant 0 <= counter <= |c|
      invariant forall j :: 0 <= j < counter ==> !HasInnerSep(c[j], sep)
      invariant LeadingNonMwes(c, sep) == counter + LeadingNonMwes(c[counter..], sep)
    {
      assert c[counter..][1..] == c[counter + 1..];
      counter := counter + 1;
    }
  }

  /** Lines 253-264: `mincounter`, with 0 treated as unset. */
  method ComputeMinCounter(combinations: seq<Comb>, sep: char) returns (mincounter: nat)
    ensures mincounter == MinCounter(combinations, sep, 0)
  {
    mincounter := 0;
    var k := 0;
    while k < |combinations|
      invariant 0 <= k <= |combinations|
      invariant MinCounter(combinations, sep, 0) == MinCounter(combinations[k..], sep, mincounter)
    {
      var counter := CountLeadingNonMwes(combinations[k], sep);
      if mincounter == 0 || counter < mincounter {
        mincounter := counter;
      }
      assert combinations[k..][1..] == combinations[k + 1..];
      k := k + 1;
    }
  }

  /** Lines 268-276: every combination without its first `m` entries, the
      ones left empty dropped. */
  method DropLeading(combinations: seq<Comb>, m: nat) returns (reduced: seq<Comb>)
    ensures reduced == Filter(DroppedAll(combinations, m), NonEmpty)
  {
    ghost var dropped := DroppedAll(combinations, m);
    reduced := [];
    var k := 0;
    while k < |combinations|
      invariant 0 <= k <= |combinations|
      invariant |dropped| == |combinations|
      invariant reduced == Filter(dropped[..k], NonEmpty)
    {
      var c := DropFront(combinations[k], m);
      assert c == dropped[k];
      DropStep(dropped, k);
      if c != [] {
        reduced := reduced + [c];
      }
      k := k + 1;
    }
    assert dropped[..k] == dropped;
  }

  lemma DropStep(dropped: seq<Comb>, k: nat)
    requires k < |dropped|
    ensures Filter(dropped[..k + 1], NonEmpty) ==
            Filter(dropped[..k], NonEmpty) + (if dropped[k] != [] then [dropped[k]] else [])
  {
    FilterSnoc(dropped[..k], dropped[k], NonEmpty);
    assert dropped[..k + 1] == dropped[..k] + [dropped[k]];
  }

  /** Lines 378-382: the positions and the entries of `rest` (the first
      combination after its head) that are further members of the first MWE;
      `found == false` where `int()` would raise. */
  method FindMweMembers(first: Str, rest: Comb, ref: int) returns (found: bool, positions: seq<nat>, members: Comb)
    ensures found == MweMembers(first, rest, ref, 1).Some?
    ensures found ==> (positions, members) == MweMembers(first, rest, ref, 1).value
  {
    positions, members := [], [];
    var k := 0;
    PrependFoundSteps(([], []), 0, [], MweMembers(first, rest, ref, 1));
    assert rest[0..] == rest;
    while k < |rest|
      invariant 0 <= k <= |rest|
      invariant MweMembers(first, rest, ref, 1)
             == PrependFound((positions, members), MweMembers(first, rest[k..], ref, k + 1))
    {
      var l := rest[k];
      assert rest[k..][1..] == rest[k + 1..];
      PrependFoundSteps((positions, members), k + 1, l, MweMembers(first, rest[k + 1..], ref, k + 2));
      if StripRefs(l) == StripRefs(first) && ':' in l {
        var n := ParseInt(AfterLastColon(l));
        if n.None? {
          return false, [], [];
        }
        if n.value == ref {
          positions := positions + [k + 1];
          members := members + [l];
        }
      }
      k := k + 1;
    }
    assert rest[k..] == [];
    assert positions + [] == positions && members + [] == members;
    found := true;
  }

  /** Lines 385-396 for one combination. */
  method RemoveMatchedFrom(c: Comb, toBeRemoved: Comb) returns (redc: Comb)
    ensures redc == RemoveMatched(c, toBeRemoved)
  {
    redc := [];
    var remove := toBeRemoved;
    var j := 0;
    while j < |c|
      invariant 0 <= j <= |c|
      invariant RemoveMatched(c, toBeRemoved) == redc + RemoveMatched(c[j..], remove)
    {
      assert c[j..][1..] == c[j + 1..];
      if remove != [] && c[j] == remove[0] {
        remove := remove[1..];
      } else {
        redc := redc + [c[j]];
      }
      j := j + 1;
    }
    assert c[j..] == [];
  }

  /** Lines 385-396 for every combination. */
  method RemoveMatchedAll(combinations: seq<Comb>, toBeRemoved: Comb) returns (reduced: seq<Comb>)
    ensures reduced == RemoveMatchedEach(combinations, toBeRemoved)
  {
    reduced := [];
    var k := 0;
    while k < |combinations|
      invariant 0 <= k <= |combinations|
      invariant |reduced| == k
      invariant forall j :: 0 <= j < k ==> reduced[j] == RemoveMatched(combinations[j], toBeRemoved)
    {
      var redc := RemoveMatchedFrom(combinations[k], toBeRemoved);
      reduced := reduced + [redc];
      k := k + 1;
    }
  }
}

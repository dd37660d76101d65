/** The position map `savelex` of Swectors/contract.py and the materialiser
    `combination_to_out` (lines 17-60), as specification functions.

    `savelex` maps word positions 0..n-1 to a candidate or to `None`; keys are
    only ever popped, never added back, so it is a sequence indexed by
    position in which a popped key is `Deleted`. Walking `sorted(savelex)` is
    walking the sequence left to right and skipping `Deleted`. */
module Materialise {
  import opened Seqs
  import opened Lexes

  /** One key of `savelex`: popped, `None` (still pending), or a candidate. */
  datatype Entry = Deleted | Unresolved | Resolved(lex: Str)

  /** Number of keys still present. */
  function KeyCount(t: seq<Entry>): (n: nat)
    ensures n <= |t|
  {
    if t == [] then 0 else (if t[0] != Deleted then 1 else 0) + KeyCount(t[1..])
  }

  /** Number of `None` slots. */
  function UnresolvedCount(t: seq<Entry>): (n: nat)
    ensures n <= KeyCount(t)
  {
    if t == [] then 0 else (if t[0] == Unresolved then 1 else 0) + UnresolvedCount(t[1..])
  }

  /** `[savelex[l] for l in sorted(savelex)]` */
  function Values(t: seq<Entry>): (r: seq<Option<Str>>)
    ensures |r| == KeyCount(t)
  {
    if t == [] then []
    else
      (match t[0]
       case Deleted => []
       case Unresolved => [None]
       case Resolved(v) => [Some(v)]) + Values(t[1..])
  }

  /** The candidates of the resolved slots, in position order. */
  function ResolvedLexes(t: seq<Entry>): (r: seq<Str>)
    ensures |r| <= KeyCount(t)
  {
    if t == [] then []
    else (if t[0].Resolved? then [t[0].lex] else []) + ResolvedLexes(t[1..])
  }

  predicate NonePending(t: seq<Entry>)
  {
    forall j :: 0 <= j < |t| ==> t[j] != Unresolved
  }

  function SomeAll(xs: seq<Str>): (r: seq<Option<Str>>)
    ensures |r| == |xs| && forall k :: 0 <= k < |xs| ==> r[k] == Some(xs[k])
  {
    seq(|xs|, k requires 0 <= k < |xs| => Some(xs[k]))
  }

  /** The key that the `:N` suffix of a candidate names (lines 39-49):
      `N - 1`, or `None` when there is no `:` or the pattern `(.+:)(\d+)`
      does not match. */
  function RefKey(x: Str): Option<int>
  {
    if ':' !in x then None
    else
      match RefDigits(x)
      case None => None
      case Some(d) => Some(DigitsValue(d) - 1)
  }

  /** Lines 49-51: the referenced key is present and holds a candidate that
      equals `x` once `:\d+` is removed from both. */
  predicate ContractsInto(x: Str, t: seq<Entry>)
  {
    match RefKey(x)
    case None => false
    case Some(k) => 0 <= k < |t| && t[k].Resolved? && StripRefs(t[k].lex) == StripRefs(x)
  }

  /** The referenced key is present but still `None`: line 51 would apply
      `re.sub` to `None` and raise. */
  predicate RefersToPending(x: Str, t: seq<Entry>)
  {
    match RefKey(x)
    case None => false
    case Some(k) => 0 <= k < |t| && t[k] == Unresolved
  }

  /** The candidate holds a colon but `(.+:)(\d+)` does not match it: lines
      44-47 store it in the slot and `continue` past the append of line 59. */
  predicate Unmatched(x: Str)
  {
    ':' in x && RefDigits(x).None?
  }

  /** What lines 33-59 append to `lexes_out`, given the map `t` before the
      walk and `u` after it: the candidate of every key still present, in
      key order, except a `None` slot filled with an unmatched candidate. */
  function Returned(t: seq<Entry>, u: seq<Entry>): (r: seq<Str>)
    requires |t| == |u|
    ensures |r| <= KeyCount(u)
  {
    if t == [] then []
    else
      (if u[0].Resolved? && !(t[0] == Unresolved && Unmatched(u[0].lex)) then [u[0].lex] else [])
      + Returned(t[1..], u[1..])
  }

  /** State of the walk of lines 33-59 once it has passed the last key:
      the filled map, what was appended to `lexes_out`, and the unconsumed
      rest of the combination. */
  datatype Fill = Fill(slots: seq<Entry>, out: seq<Str>, rest: Comb)

  function Emit(v: Str, f: Option<Fill>): Option<Fill>
  {
    match f
    case None => None
    case Some(g) => Some(Fill(g.slots, [v] + g.out, g.rest))
  }

  /** Lines 33-59 from key `i` on; `None` when Python raises (`combination[0]`
      of an exhausted combination, or `re.sub` on a `None` slot). */
  function FillFrom(t: seq<Entry>, comb: Comb, i: nat): Option<Fill>
    requires i <= |t|
    decreases |t| - i
  {
    if i == |t| then Some(Fill(t, [], comb))
    else
      match t[i]
      case Deleted => FillFrom(t, comb, i + 1)
      case Resolved(v) => Emit(v, FillFrom(t, comb, i + 1))
      case Unresolved =>
        if comb == [] || RefersToPending(comb[0], t) then None
        else if Unmatched(comb[0]) then FillFrom(t[i := Resolved(comb[0])], comb[1..], i + 1)
        else if ContractsInto(comb[0], t) then FillFrom(t[i := Deleted], comb[1..], i + 1)
        else Emit(comb[0], FillFrom(t[i := Resolved(comb[0])], comb[1..], i + 1))
  }

  /** What `combination_to_out` leaves in `savelex` and returns. */
  datatype Materialisation = Materialisation(slots: seq<Entry>, out: seq<Option<Str>>)

  /** `combination_to_out(comb, savelex)`; `None` when it raises. */
  function Materialised(t: seq<Entry>, comb: Comb): Option<Materialisation>
  {
    if comb == [] then Some(Materialisation(t, Values(t)))
    else
      match FillFrom(t, comb, 0)
      case None => None
      case Some(f) => Some(Materialisation(f.slots, SomeAll(f.out)))
  }

  // ---------------------------------------------------------------- lemmas

  lemma UnresolvedCountStep(t: seq<Entry>, i: nat, j: nat)
    requires i < j <= |t|
    ensures UnresolvedCount(t[i..j]) == (if t[i] == Unresolved then 1 else 0) + UnresolvedCount(t[i + 1..j])
  {
    assert t[i..j][1..] == t[i + 1..j];
  }

  lemma SlicesAgree(t: seq<Entry>, i: nat, e: Entry, j: nat)
    requires i < j <= |t|
    ensures t[i := e][j..] == t[j..]
  {
  }

  /** The walk changes only `None` slots at or after `i`, leaves none of them
      `None`, and consumes exactly one element of the combination per `None`
      slot. */
  lemma {:induction false} FillFromFrame(t: seq<Entry>, comb: Comb, i: nat)
    requires i <= |t| && FillFrom(t, comb, i).Some?
    ensures var f := FillFrom(t, comb, i).value;
      && |f.slots| == |t|
      && (forall j :: 0 <= j < |t| && (j < i || t[j] != Unresolved) ==> f.slots[j] == t[j])
      && (forall j :: i <= j < |t| && t[j] == Unresolved ==> f.slots[j] != Unresolved)
      && UnresolvedCount(t[i..]) <= |comb|
      && f.rest == comb[UnresolvedCount(t[i..])..]
    decreases |t| - i, 1
  {
    if i < |t| {
      if t[i] == Unresolved {
        FillFromFrameTake(t, comb, i);
      } else {
        UnresolvedCountAt(t, i);
        FillFromFrame(t, comb, i + 1);
      }
    }
  }

  lemma {:induction false} FillFromFrameTake(t: seq<Entry>, comb: Comb, i: nat)
    requires i < |t| && t[i] == Unresolved && FillFrom(t, comb, i).Some?
    ensures var f := FillFrom(t, comb, i).value;
      && |f.slots| == |t|
      && (forall j :: 0 <= j < |t| && (j < i || t[j] != Unresolved) ==> f.slots[j] == t[j])
      && (forall j :: i <= j < |t| && t[j] == Unresolved ==> f.slots[j] != Unresolved)
      && UnresolvedCount(t[i..]) <= |comb|
      && f.rest == comb[UnresolvedCount(t[i..])..]
    decreases |t| - i, 0
  {
    TakeUnfold(t, comb, i);
    var e := TakeEntry(comb[0], t);
    var t' := t[i := e];
    FillFromFrame(t', comb[1..], i + 1);
    SlicesAgree(t, i, e, i + 1);
    UnresolvedCountAt(t, i);
    assert comb[1..][UnresolvedCount(t[i + 1..])..] == comb[UnresolvedCount(t[i..])..];
  }

  lemma UnresolvedCountAt(t: seq<Entry>, i: nat)
    requires i < |t|
    ensures UnresolvedCount(t[i..]) == (if t[i] == Unresolved then 1 else 0) + UnresolvedCount(t[i + 1..])
  {
    assert t[i..][0] == t[i] && t[i..][1..] == t[i + 1..];
  }

  /** What the walk appends to `lexes_out` is exactly the candidates present
      in the filled map from key `i` on, less the unmatched ones it filled. */
  lemma {:induction false} FillFromOut(t: seq<Entry>, comb: Comb, i: nat)
    requires i <= |t| && FillFrom(t, comb, i).Some?
    ensures var f := FillFrom(t, comb, i).value;
      |f.slots| == |t| && f.out == Returned(t[i..], f.slots[i..])
    decreases |t| - i
  {
    FillFromFrame(t, comb, i);
    if i < |t| {
      var f := FillFrom(t, comb, i).value;
      assert f.slots[i..][0] == f.slots[i] && f.slots[i..][1..] == f.slots[i + 1..];
      assert t[i..][0] == t[i] && t[i..][1..] == t[i + 1..];
      if t[i] == Unresolved {
        TakeUnfold(t, comb, i);
        var t' := t[i := TakeEntry(comb[0], t)];
        FillFromOut(t', comb[1..], i + 1);
        FillFromFrame(t', comb[1..], i + 1);
        SlicesAgree(t, i, TakeEntry(comb[0], t), i + 1);
      } else {
        FillFromOut(t, comb, i + 1);
      }
    }
  }

  /** The contraction rule from key `i` on: the `None` slot `j` holds the
      combination element `x` that falls to it, unless `x` names a key whose
      candidate in `u` equals `x` up to `:\d+`, in which case key `j` is popped. */
  ghost predicate ContractedFrom(t: seq<Entry>, comb: Comb, i: nat, u: seq<Entry>)
    requires |u| == |t|
  {
    forall j :: i <= j < |t| && t[j] == Unresolved ==>
      UnresolvedCount(t[i..j]) < |comb| &&
      var x := comb[UnresolvedCount(t[i..j])];
      if ContractsInto(x, u) then u[j] == Deleted else u[j] == Resolved(x)
  }

  lemma {:induction false} FillFromContracts(t: seq<Entry>, comb: Comb, i: nat)
    requires i <= |t| && FillFrom(t, comb, i).Some?
    ensures |FillFrom(t, comb, i).value.slots| == |t|
    ensures ContractedFrom(t, comb, i, FillFrom(t, comb, i).value.slots)
    decreases |t| - i, 1
  {
    FillFromFrame(t, comb, i);
    if i < |t| {
      if t[i] == Unresolved {
        FillFromContractsTake(t, comb, i);
      } else {
        FillFromContractsSkip(t, comb, i);
      }
    }
  }

  lemma {:induction false} FillFromContractsSkip(t: seq<Entry>, comb: Comb, i: nat)
    requires i < |t| && t[i] != Unresolved && FillFrom(t, comb, i).Some?
    ensures |FillFrom(t, comb, i).value.slots| == |t|
    ensures ContractedFrom(t, comb, i, FillFrom(t, comb, i).value.slots)
    decreases |t| - i, 0
  {
    FillFromFrame(t, comb, i);
    assert FillFrom(t, comb, i + 1).Some?;
    assert FillFrom(t, comb, i).value.slots == FillFrom(t, comb, i + 1).value.slots;
    FillFromContracts(t, comb, i + 1);
    forall j | i < j < |t| ensures UnresolvedCount(t[i..j]) == UnresolvedCount(t[i + 1..j]) {
      UnresolvedCountStep(t, i, j);
    }
  }

  /** The entry a `None` slot takes for the element `x`. */
  function TakeEntry(x: Str, t: seq<Entry>): Entry
  {
    if ContractsInto(x, t) then Deleted else Resolved(x)
  }

  /** One step of the walk at a `None` key: an unmatched or contracting
      candidate is not appended, any other is. */
  lemma TakeUnfold(t: seq<Entry>, comb: Comb, i: nat)
    requires i < |t| && t[i] == Unresolved && FillFrom(t, comb, i).Some?
    ensures comb != [] && !RefersToPending(comb[0], t)
    ensures Unmatched(comb[0]) ==> !ContractsInto(comb[0], t)
    ensures var t' := t[i := TakeEntry(comb[0], t)];
      var f, g := FillFrom(t, comb, i).value, FillFrom(t', comb[1..], i + 1).value;
      FillFrom(t', comb[1..], i + 1).Some? &&
      f.slots == g.slots && f.rest == g.rest &&
      f.out == (if Unmatched(comb[0]) || ContractsInto(comb[0], t) then [] else [comb[0]]) + g.out
  {
    if Unmatched(comb[0]) {
      assert RefKey(comb[0]).None?;
    } else if ContractsInto(comb[0], t) {
    } else {
    }
  }

  /** A key that is not pending keeps its value, so whether `x` contracts
      into it does not change. */
  lemma ContractsIntoKept(x: Str, t: seq<Entry>, u: seq<Entry>)
    requires |u| == |t| && !RefersToPending(x, t)
    requires forall j :: 0 <= j < |t| && t[j] != Unresolved ==> u[j] == t[j]
    ensures ContractsInto(x, u) == ContractsInto(x, t)
  {
    match RefKey(x)
    case None =>
    case Some(k) =>
      if 0 <= k < |t| {
        assert t[k] != Unresolved;
      }
  }

  lemma {:induction false} FillFromContractsTake(t: seq<Entry>, comb: Comb, i: nat)
    requires i < |t| && t[i] == Unresolved && FillFrom(t, comb, i).Some?
    ensures |FillFrom(t, comb, i).value.slots| == |t|
    ensures ContractedFrom(t, comb, i, FillFrom(t, comb, i).value.slots)
    decreases |t| - i, 0
  {
    TakeUnfold(t, comb, i);
    var u := FillFrom(t, comb, i).value.slots;
    var t' := t[i := TakeEntry(comb[0], t)];
    FillFromContracts(t', comb[1..], i + 1);
    FillFromFrame(t', comb[1..], i + 1);
    forall j | 0 <= j < |t| && t[j] != Unresolved ensures u[j] == t[j] {
      assert t'[j] == t[j];
    }
    ContractedTake(t, comb, i, u);
  }

  /** The contraction rule at a `None` key `i`, from the rule after it. */
  lemma ContractedTake(t: seq<Entry>, comb: Comb, i: nat, u: seq<Entry>)
    requires i < |t| == |u| && t[i] == Unresolved && comb != [] && !RefersToPending(comb[0], t)
    requires u[i] == TakeEntry(comb[0], t)
    requires forall j :: 0 <= j < |t| && t[j] != Unresolved ==> u[j] == t[j]
    requires ContractedFrom(t[i := TakeEntry(comb[0], t)], comb[1..], i + 1, u)
    ensures ContractedFrom(t, comb, i, u)
  {
    var x := comb[0];
    var t' := t[i := TakeEntry(x, t)];
    ContractsIntoKept(x, t, u);
    assert t[i..i] == [];
    forall j | i < j < |t| && t[j] == Unresolved
      ensures UnresolvedCount(t[i..j]) < |comb|
      ensures var y := comb[UnresolvedCount(t[i..j])];
        if ContractsInto(y, u) then u[j] == Deleted else u[j] == Resolved(y)
    {
      UnresolvedCountStep(t, i, j);
      assert t'[i + 1..j] == t[i + 1..j];
      assert t'[j] == t[j];
    }
  }

  /** The properties of `combination_to_out` for a non-empty combination:
      it pops or fills every `None` slot and changes nothing else, it
      consumes one element per `None` slot, a slot is popped exactly when its
      element refers to a present key holding the same candidate up to
      `:\d+`, and it returns the values of the resulting map in key order,
      except the `None` slots it filled with an unmatched candidate, so
      never more than there were keys. */
  lemma MaterialisedFacts(t: seq<Entry>, comb: Comb)
    requires comb != [] && Materialised(t, comb).Some?
    ensures var m := Materialised(t, comb).value;
      && |m.slots| == |t|
      && (forall j :: 0 <= j < |t| && t[j] != Unresolved ==> m.slots[j] == t[j])
      && NonePending(m.slots)
      && UnresolvedCount(t) <= |comb|
      && (forall j :: 0 <= j < |t| && t[j] == Unresolved ==>
            UnresolvedCount(t[..j]) < |comb| &&
            var x := comb[UnresolvedCount(t[..j])];
            if ContractsInto(x, m.slots) then m.slots[j] == Deleted else m.slots[j] == Resolved(x))
      && m.out == SomeAll(Returned(t, m.slots))
      && |m.out| <= KeyCount(t)
  {
    var f := FillFrom(t, comb, 0).value;
    FillFromFrame(t, comb, 0);
    FillFromOut(t, comb, 0);
    FillFromContracts(t, comb, 0);
    assert t[0..] == t;
    assert f.slots[0..] == f.slots;
    forall j | 0 <= j < |t| ensures t[0..j] == t[..j] { }
    KeyCountMono(t, f.slots);
  }

  /** Filling or popping `None` slots never adds keys. */
  lemma {:induction false} KeyCountMono(t: seq<Entry>, u: seq<Entry>)
    requires |t| == |u|
    requires forall j :: 0 <= j < |t| && t[j] != Unresolved ==> u[j] == t[j]
    ensures KeyCount(u) <= KeyCount(t)
  {
    if t != [] {
      assert u[0] == t[0] || t[0] == Unresolved;
      KeyCountMono(t[1..], u[1..]);
    }
  }

  /** With nothing pending, the values of the map are its candidates. */
  lemma {:induction false} ValuesResolved(t: seq<Entry>)
    requires NonePending(t)
    ensures Values(t) == SomeAll(ResolvedLexes(t))
  {
    if t != [] {
      assert t[0] != Unresolved;
      assert NonePending(t[1..]) by {
        forall j | 0 <= j < |t[1..]| ensures t[1..][j] != Unresolved {
          assert t[1..][j] == t[j + 1];
        }
      }
      ValuesResolved(t[1..]);
      if t[0].Resolved? {
        SomeAllCons(t[0].lex, ResolvedLexes(t[1..]));
      } else {
        assert [] + Values(t[1..]) == Values(t[1..]);
        assert [] + ResolvedLexes(t[1..]) == ResolvedLexes(t[1..]);
      }
    }
  }

  lemma SomeAllCons(v: Str, xs: seq<Str>)
    ensures SomeAll([v] + xs) == [Some(v)] + SomeAll(xs)
  {
    var l, r := SomeAll([v] + xs), [Some(v)] + SomeAll(xs);
    assert |l| == |r|;
    forall k | 0 <= k < |l| ensures l[k] == r[k] {
      if k > 0 {
        assert ([v] + xs)[k] == xs[k - 1];
      }
    }
  }
}

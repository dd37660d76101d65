/** `get_valid_combinations` (lines 63-128): the combinations of the pending
    candidates that are referentially invalid are removed. */
module Validity {
  import opened Seqs
  import opened Lexes
  import opened Materialise
  import opened Peeling
  import opened Savelex

  /** How many of `mwes` have the key `key` once the `..` tail is cut. */
  function MatchCount(mwes: Comb, key: Str): (n: nat)
    ensures n <= |mwes|
  {
    if mwes == [] then 0
    else (if CutDotsTail(mwes[0]) == key then 1 else 0) + MatchCount(mwes[1..], key)
  }

  /** Lines 79-85: some MWE candidate matches only itself. */
  predicate HasLonely(mwes: Comb)
  {
    exists i :: 0 <= i < |mwes| && MatchCount(mwes, CutDotsTail(mwes[i])) == 1
  }

  /** The MWE candidates of a combination (lines 73-74). */
  function MwesOf(c: Comb, sep: char): Comb
  {
    if c == [] then []
    else (if IsMwe(c[0], sep) then [c[0]] else []) + MwesOf(c[1..], sep)
  }

  /** The value at `i` carries a reference (lines 101-102). */
  predicate IsRef(tmp: seq<Entry>, i: nat, sep: char)
    requires i < |tmp|
  {
    tmp[i].Resolved? && HasInnerSep(tmp[i].lex, sep) && ':' in tmp[i].lex
  }

  /** The reference at `i` is not an integer, which ends the walk with the
      combination kept (lines 108-111). */
  predicate BreaksAt(tmp: seq<Entry>, i: nat, sep: char)
    requires i < |tmp|
  {
    IsRef(tmp, i, sep) && ParseInt(AfterLastColon(tmp[i].lex)).None?
  }

  /** The reference at `i` names a present key whose value has no colon and
      has the same base (lines 112-127). */
  predicate RefOk(tmp: seq<Entry>, i: nat, sep: char)
    requires i < |tmp|
  {
    IsRef(tmp, i, sep) && !BreaksAt(tmp, i, sep) ==>
      var v := tmp[i].lex;
      var key := ParseInt(AfterLastColon(v)).value - 1;
      && 0 <= key < |tmp| && tmp[key].Resolved?
      && ':' !in tmp[key].lex
      && BeforeDots(BeforeLastColon(v)) == BeforeDots(tmp[key].lex)
  }

  /** The walk of lines 99-127 from key `i` on: `true` keeps the combination. */
  function RefWalk(tmp: seq<Entry>, i: nat, sep: char): bool
    requires i <= |tmp| && NonePending(tmp)
    decreases |tmp| - i
  {
    if i == |tmp| then true
    else if !IsRef(tmp, i, sep) then RefWalk(tmp, i + 1, sep)
    else
      var v := tmp[i].lex;
      match ParseInt(AfterLastColon(v))
      case None => true
      case Some(n) =>
        var key := n - 1;
        if !(0 <= key < |tmp|) || tmp[key] == Deleted then false
        else if ':' in tmp[key].lex then false
        else if BeforeDots(BeforeLastColon(v)) != BeforeDots(tmp[key].lex) then false
        else RefWalk(tmp, i + 1, sep)
  }

  /** Whether `get_valid_combinations` keeps the combination `c`. */
  predicate ValidCombination(c: Comb, t: seq<Entry>, sep: char)
    requires UnresolvedCount(t) <= |c|
  {
    var mwes := MwesOf(c, sep);
    if mwes == [] then true
    else if HasLonely(mwes) then false
    else
      FillLeadingComplete(t, c, 0);
      RefWalk(FillLeading(t, c, 0), 0, sep)
  }

  /** Every combination has a candidate for each pending slot, as the
      cross product of the pending candidate lists guarantees. */
  predicate Covers(cs: seq<Comb>, t: seq<Entry>)
  {
    forall k :: 0 <= k < |cs| ==> UnresolvedCount(t) <= |cs[k]|
  }

  /** The combinations that are kept, in order. */
  function ValidOnes(cs: seq<Comb>, t: seq<Entry>, sep: char): (r: seq<Comb>)
    requires Covers(cs, t)
  {
    if cs == [] then []
    else if ValidCombination(cs[0], t, sep) then [cs[0]] + ValidOnes(cs[1..], t, sep)
    else ValidOnes(cs[1..], t, sep)
  }

  /** `get_valid_combinations(combinations, savelex)`, removing from a copy in
      place as the source does. */
  method GetValidCombinations(combinations: seq<Comb>, t: seq<Entry>, sep: char) returns (valid: seq<Comb>)
    requires Covers(combinations, t)
    ensures valid == ValidOnes(combinations, t, sep)
  {
    valid := combinations;
    var k := 0;
    while k < |combinations|
      invariant 0 <= k <= |combinations|
      invariant valid == ValidOnes(combinations[..k], t, sep) + combinations[k..]
    {
      var c := combinations[k];
      var keep := CombinationVerdict(c, t, sep);
      RemoveStep(combinations, k, t, sep);
      if !keep {
        valid := RemoveFirst(valid, c);
      }
      k := k + 1;
    }
    assert combinations[..k] == combinations;
  }

  /** The body of the loop at lines 71-127 for one combination. */
  method CombinationVerdict(c: Comb, t: seq<Entry>, sep: char) returns (keep: bool)
    requires UnresolvedCount(t) <= |c|
    ensures keep == ValidCombination(c, t, sep)
  {
    var mwes := CollectMwes(c, sep);
    if mwes == [] {
      return true;
    }
    var lonely := FindLonely(mwes);
    if lonely {
      return false;
    }
    var tmp := new PositionMap(t);
    tmp.FillLeadingSlots(c);
    FillLeadingComplete(t, c, 0);
    keep := WalkRefs(tmp.slots, sep);
  }

  /** Lines 73-74. */
  method CollectMwes(c: Comb, sep: char) returns (mwes: Comb)
    ensures mwes == MwesOf(c, sep)
  {
    mwes := [];
    var j := 0;
    while j < |c|
      invariant 0 <= j <= |c|
      invariant MwesOf(c, sep) == mwes + MwesOf(c[j..], sep)
    {
      MwesOfAt(c, j, sep);
      if IsMwe(c[j], sep) {
        assert mwes + ([c[j]] + MwesOf(c[j + 1..], sep)) == (mwes + [c[j]]) + MwesOf(c[j + 1..], sep);
        mwes := mwes + [c[j]];
      } else {
        assert [] + MwesOf(c[j + 1..], sep) == MwesOf(c[j + 1..], sep);
      }
      j := j + 1;
    }
    assert c[j..] == [];
    assert mwes + [] == mwes;
  }

  lemma MwesOfAt(c: Comb, j: nat, sep: char)
    requires j < |c|
    ensures MwesOf(c[j..], sep) == (if IsMwe(c[j], sep) then [c[j]] else []) + MwesOf(c[j + 1..], sep)
  {
    assert c[j..][0] == c[j] && c[j..][1..] == c[j + 1..];
  }

  /** Lines 79-85: the loop that stops at the first candidate matching only
      itself. */
  method FindLonely(mwes: Comb) returns (lonely: bool)
    ensures lonely == HasLonely(mwes)
  {
    var i := 0;
    while i < |mwes|
      invariant 0 <= i <= |mwes|
      invariant forall j :: 0 <= j < i ==> MatchCount(mwes, CutDotsTail(mwes[j])) != 1
    {
      var matches := CountMatches(mwes, CutDotsTail(mwes[i]));
      if matches == 1 {
        return true;
      }
      i := i + 1;
    }
    return false;
  }

  /** `len([l2 for l2 in mwes if ...])` at lines 80-82. */
  method CountMatches(mwes: Comb, key: Str) returns (n: nat)
    ensures n == MatchCount(mwes, key)
  {
    n := 0;
    var j := 0;
    while j < |mwes|
      invariant 0 <= j <= |mwes|
      invariant MatchCount(mwes, key) == n + MatchCount(mwes[j..], key)
    {
      assert mwes[j..][1..] == mwes[j + 1..];
      if CutDotsTail(mwes[j]) == key {
        n := n + 1;
      }
      j := j + 1;
    }
    assert mwes[j..] == [];
  }

  /** Lines 99-127 over the filled copy of `savelex`. */
  method WalkRefs(tmp: seq<Entry>, sep: char) returns (keep: bool)
    requires NonePending(tmp)
    ensures keep == RefWalk(tmp, 0, sep)
  {
    var i := 0;
    while i < |tmp|
      invariant 0 <= i <= |tmp|
      invariant RefWalk(tmp, 0, sep) == RefWalk(tmp, i, sep)
    {
      if IsRef(tmp, i, sep) {
        var stop;
        stop, keep := CheckRefAt(tmp, i, sep);
        if stop {
          return;
        }
      }
      i := i + 1;
    }
    return true;
  }

  /** Lines 105-127 for the reference at key `i`: whether the walk ends
      there, and with which verdict. */
  method CheckRefAt(tmp: seq<Entry>, i: nat, sep: char) returns (stop: bool, keep: bool)
    requires i < |tmp| && NonePending(tmp) && IsRef(tmp, i, sep)
    ensures stop ==> keep == RefWalk(tmp, i, sep)
    ensures !stop ==> RefWalk(tmp, i, sep) == RefWalk(tmp, i + 1, sep)
  {
    var v := tmp[i].lex;
    var lbase := BeforeDots(BeforeLastColon(v));
    var ref := ParseInt(AfterLastColon(v));
    if ref.None? {
      return true, true;
    }
    var key := ref.value - 1;
    if !(0 <= key < |tmp|) || tmp[key] == Deleted {
      return true, false;
    }
    var reflex := tmp[key].lex;
    if ':' in reflex {
      return true, false;
    } else if lbase != BeforeDots(reflex) {
      return true, false;
    }
    return false, true;
  }

  // ---------------------------------------------------------------- lemmas

  /** With at least as many words as `None` slots, filling leaves none. */
  lemma {:induction false} FillLeadingComplete(t: seq<Entry>, words: Comb, i: nat)
    requires i <= |t| && UnresolvedCount(t[i..]) <= |words|
    requires forall j :: 0 <= j < i ==> t[j] != Unresolved
    ensures NonePending(FillLeading(t, words, i))
    decreases |t| - i
  {
    if i < |t| {
      assert t[i..][1..] == t[i + 1..];
      if t[i] == Unresolved {
        var t' := t[i := Resolved(words[0])];
        assert t'[i + 1..] == t[i + 1..];
        FillLeadingComplete(t', words[1..], i + 1);
      } else {
        FillLeadingComplete(t, words, i + 1);
      }
    } else {
      assert t[i..] == [];
    }
  }

  /** One pass of the loop at lines 71-127: the combination at `k` stays
      where it is when valid and is the one `remove` takes out otherwise. */
  lemma RemoveStep(cs: seq<Comb>, k: nat, t: seq<Entry>, sep: char)
    requires Covers(cs, t) && k < |cs|
    ensures Covers(cs[..k], t) && Covers(cs[..k + 1], t)
    ensures var v := ValidOnes(cs[..k], t, sep) + cs[k..];
      && (ValidCombination(cs[k], t, sep) ==> v == ValidOnes(cs[..k + 1], t, sep) + cs[k + 1..])
      && (!ValidCombination(cs[k], t, sep) ==> RemoveFirst(v, cs[k]) == ValidOnes(cs[..k + 1], t, sep) + cs[k + 1..])
  {
    var c := cs[k];
    var pre := cs[..k];
    assert Covers(pre, t);
    assert cs[..k + 1] == pre + [c];
    assert cs[k..] == [c] + cs[k + 1..];
    if ValidCombination(c, t, sep) {
      KeptStep(pre, c, cs[k + 1..], t, sep);
    } else {
      DroppedStep(pre, c, cs[k + 1..], t, sep);
    }
  }

  lemma KeptStep(pre: seq<Comb>, c: Comb, rest: seq<Comb>, t: seq<Entry>, sep: char)
    requires Covers(pre, t) && UnresolvedCount(t) <= |c| && ValidCombination(c, t, sep)
    ensures Covers(pre + [c], t)
    ensures ValidOnes(pre, t, sep) + ([c] + rest) == ValidOnes(pre + [c], t, sep) + rest
  {
    ValidOnesSnoc(pre, c, t, sep);
  }

  lemma DroppedStep(pre: seq<Comb>, c: Comb, rest: seq<Comb>, t: seq<Entry>, sep: char)
    requires Covers(pre, t) && UnresolvedCount(t) <= |c| && !ValidCombination(c, t, sep)
    ensures Covers(pre + [c], t)
    ensures RemoveFirst(ValidOnes(pre, t, sep) + ([c] + rest), c) == ValidOnes(pre + [c], t, sep) + rest
  {
    ValidOnesSnoc(pre, c, t, sep);
    ValidOnesMembers(pre, t, sep);
    RemoveFirstAfter(ValidOnes(pre, t, sep), [c] + rest, c);
    assert RemoveFirst([c] + rest, c) == rest;
  }

  lemma {:induction false} ValidOnesSnoc(cs: seq<Comb>, c: Comb, t: seq<Entry>, sep: char)
    requires Covers(cs, t) && UnresolvedCount(t) <= |c|
    ensures Covers(cs + [c], t)
    ensures ValidOnes(cs + [c], t, sep) == ValidOnes(cs, t, sep) + (if ValidCombination(c, t, sep) then [c] else [])
  {
    if cs != [] {
      assert (cs + [c])[1..] == cs[1..] + [c];
      ValidOnesSnoc(cs[1..], c, t, sep);
    }
  }

  lemma {:induction false} ValidOnesMembers(cs: seq<Comb>, t: seq<Entry>, sep: char)
    requires Covers(cs, t)
    ensures forall c :: c in ValidOnes(cs, t, sep) ==> c in cs && ValidCombination(c, t, sep)
  {
    if cs != [] {
      ValidOnesMembers(cs[1..], t, sep);
    }
  }

  /** The result is the input with some combinations deleted. */
  lemma {:induction false} ValidOnesSubseq(cs: seq<Comb>, t: seq<Entry>, sep: char)
    requires Covers(cs, t)
    ensures IsSubseq(ValidOnes(cs, t, sep), cs)
  {
    if cs != [] {
      ValidOnesSubseq(cs[1..], t, sep);
      if !ValidCombination(cs[0], t, sep) {
        SubseqExtend(ValidOnes(cs[1..], t, sep), cs);
      }
    }
  }

  /** A combination is kept exactly when it is valid. */
  lemma {:induction false} ValidOnesExactly(cs: seq<Comb>, t: seq<Entry>, sep: char)
    requires Covers(cs, t)
    ensures forall k :: 0 <= k < |cs| ==> (cs[k] in ValidOnes(cs, t, sep) <==> ValidCombination(cs[k], t, sep))
  {
    ValidOnesMembers(cs, t, sep);
    if cs != [] {
      ValidOnesExactly(cs[1..], t, sep);
      forall k | 0 < k < |cs| ensures ValidCombination(cs[k], t, sep) ==> cs[k] in ValidOnes(cs, t, sep) {
        assert cs[k] == cs[1..][k - 1];
      }
    }
  }

  /** A combination without MWE candidates is kept. */
  lemma NoMweKept(c: Comb, t: seq<Entry>, sep: char)
    requires UnresolvedCount(t) <= |c|
    requires forall l :: l in c ==> !IsMwe(l, sep)
    ensures ValidCombination(c, t, sep)
  {
    NoMwes(c, sep);
  }

  lemma {:induction false} NoMwes(c: Comb, sep: char)
    requires forall l :: l in c ==> !IsMwe(l, sep)
    ensures MwesOf(c, sep) == []
  {
    if c != [] {
      assert c[0] in c;
      assert forall l :: l in c[1..] ==> l in c;
      NoMwes(c[1..], sep);
    }
  }

  /** A combination in which some MWE base occurs only once is dropped. */
  lemma LonelyDropped(c: Comb, t: seq<Entry>, sep: char)
    requires UnresolvedCount(t) <= |c|
    requires HasLonely(MwesOf(c, sep))
    ensures !ValidCombination(c, t, sep)
  {
  }

  /** The walk keeps the combination exactly when every reference it reaches
      before the first non-integer one is sound. */
  lemma {:induction false} RefWalkMeaning(tmp: seq<Entry>, i: nat, sep: char)
    requires i <= |tmp| && NonePending(tmp)
    ensures RefWalk(tmp, i, sep) <==>
      forall j :: i <= j < |tmp| && (forall m :: i <= m < j ==> !BreaksAt(tmp, m, sep)) ==> RefOk(tmp, j, sep)
    decreases |tmp| - i
  {
    if i < |tmp| {
      RefWalkMeaning(tmp, i + 1, sep);
      if BreaksAt(tmp, i, sep) {
        forall j | i <= j < |tmp| && (forall m :: i <= m < j ==> !BreaksAt(tmp, m, sep))
          ensures RefOk(tmp, j, sep)
        {
          assert j == i;
        }
      } else if RefWalk(tmp, i, sep) {
        assert RefOk(tmp, i, sep);
      } else if !RefOk(tmp, i, sep) {
        assert !RefOk(tmp, i, sep);
      } else {
        var j :| i + 1 <= j < |tmp| && (forall m :: i + 1 <= m < j ==> !BreaksAt(tmp, m, sep)) && !RefOk(tmp, j, sep);
        assert forall m :: i <= m < j ==> !BreaksAt(tmp, m, sep);
      }
    }
  }

  /** What `get_valid_combinations` decides for one combination: with MWE
      candidates, it is kept exactly when no MWE base occurs only once and
      every reference reached, once the `None` slots are filled from the
      combination, names a present key whose value has no colon and shares
      the base. */
  lemma ValidCombinationMeaning(c: Comb, t: seq<Entry>, sep: char)
    requires UnresolvedCount(t) <= |c| && MwesOf(c, sep) != []
    ensures NonePending(FillLeading(t, c, 0))
    ensures ValidCombination(c, t, sep) <==>
      && !HasLonely(MwesOf(c, sep))
      && var tmp := FillLeading(t, c, 0);
         forall j :: 0 <= j < |tmp| && (forall m :: 0 <= m < j ==> !BreaksAt(tmp, m, sep)) ==> RefOk(tmp, j, sep)
  {
    assert t[0..] == t;
    FillLeadingComplete(t, c, 0);
    RefWalkMeaning(FillLeading(t, c, 0), 0, sep);
  }
}

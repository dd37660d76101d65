/** The two steps of the narrowing loop that move candidates from the
    combinations into `savelex`: `remove_leading_non_mwes` (lines 244-285)
    and `save_first_mwe` (lines 348-417), as specification functions over
    the position map of module `Materialise`. */
module Peeling {
  import opened Seqs
  import opened Lexes
  import opened Materialise

  /** A narrowing step's result: the new combinations and the new map. */
  datatype Peeled = Peeled(combos: seq<Comb>, slots: seq<Entry>)

  // ------------------------------------------------- remove_leading_non_mwes

  /** Lines 257-262: how many entries precede the first one holding the
      separator other than at its start. */
  function LeadingNonMwes(c: Comb, sep: char): (n: nat)
    ensures n <= |c|
  {
    if c == [] || HasInnerSep(c[0], sep) then 0 else 1 + LeadingNonMwes(c[1..], sep)
  }

  /** Lines 253-264, with `m` the current `mincounter`. `not mincounter`
      holds for 0 as well as for `None`, so a count of 0 is overwritten by
      the next combination's count, as in the source. */
  function MinCounter(cs: seq<Comb>, sep: char, m: nat): nat
  {
    if cs == [] then m
    else
      var k := LeadingNonMwes(cs[0], sep);
      MinCounter(cs[1..], sep, if m == 0 || k < m then k else m)
  }

  /** `c[m:]` */
  function DropFront(c: Comb, m: nat): (r: Comb)
    ensures |r| == if m <= |c| then |c| - m else 0
  {
    if m <= |c| then c[m..] else []
  }

  /** Line 276: a combination that still has entries is kept. */
  predicate NonEmpty(c: Comb)
  {
    c != []
  }

  /** Lines 274-275: every combination without its first `m` entries. */
  function DroppedAll(cs: seq<Comb>, m: nat): (r: seq<Comb>)
    ensures |r| == |cs|
    ensures forall k :: 0 <= k < |cs| ==> r[k] == DropFront(cs[k], m)
  {
    seq(|cs|, k requires 0 <= k < |cs| => DropFront(cs[k], m))
  }

  /** Lines 278-284 from key `i` on: the `None` slots take `words` in order,
      until the words run out. */
  function FillLeading(t: seq<Entry>, words: Comb, i: nat): (r: seq<Entry>)
    requires i <= |t|
    ensures |r| == |t|
    decreases |t| - i
  {
    if i == |t| || words == [] then t
    else if t[i] == Unresolved then FillLeading(t[i := Resolved(words[0])], words[1..], i + 1)
    else FillLeading(t, words, i + 1)
  }

  /** `remove_leading_non_mwes(combinations, savelex)`; `None` when it raises
      (line 272 reads past the end of the first combination). */
  function LeadingPeeled(cs: seq<Comb>, t: seq<Entry>, sep: char): Option<Peeled>
  {
    if cs == [] then Some(Peeled(cs, t))
    else
      var m := MinCounter(cs, sep, 0);
      if m == 0 then Some(Peeled(cs, t))
      else if |cs[0]| < m then None
      else
        var reduced := DroppedAll(cs, m);
        Some(Peeled(Filter(reduced, NonEmpty), FillLeading(t, cs[0][..m], 0)))
  }

  // ---------------------------------------------------------- save_first_mwe

  /** Lines 370-373: the first `None` key. */
  function FirstUnresolved(t: seq<Entry>): (r: Option<nat>)
    ensures r.Some? ==> r.value < |t| && t[r.value] == Unresolved &&
                        forall j :: 0 <= j < r.value ==> t[j] != Unresolved
    ensures r.None? ==> NonePending(t)
  {
    if t == [] then None
    else if t[0] == Unresolved then Some(0)
    else match FirstUnresolved(t[1..])
      case None => None
      case Some(p) => Some(p + 1)
  }

  /** Lines 378-382 over `rest` (the first combination after its head, the
      element at index `k` being at position `k` of the combination): the
      positions and the entries that repeat `first` up to `:\d+` and whose
      final `:N` is `ref`. `None` when `int()` raises on a final segment. */
  function MweMembers(first: Str, rest: Comb, ref: int, k: nat): (r: Option<(seq<nat>, Comb)>)
    ensures r.Some? ==> |r.value.0| == |r.value.1|
    decreases |rest|
  {
    if rest == [] then Some(([], []))
    else
      var l := rest[0];
      var tail := MweMembers(first, rest[1..], ref, k + 1);
      if StripRefs(l) == StripRefs(first) && ':' in l then
        match ParseInt(AfterLastColon(l))
        case None => None
        case Some(n) =>
          if tail.None? then None
          else if n == ref then Some(([k] + tail.value.0, [l] + tail.value.1))
          else tail
      else tail
  }

  /** Lines 379-380: `l` repeats `first` up to `:\d+`, holds a colon, and
      its final `:N` is `ref`. */
  predicate Marked(first: Str, l: Str, ref: int)
  {
    StripRefs(l) == StripRefs(first) && ':' in l && ParseInt(AfterLastColon(l)) == Some(ref)
  }

  /** The positions from `i` on of the entries of `c` marked for `first`. */
  function MarkedFrom(first: Str, c: Comb, ref: int, i: nat): seq<nat>
    decreases |c| - i
  {
    if i >= |c| then []
    else (if Marked(first, c[i], ref) then [i] else []) + MarkedFrom(first, c, ref, i + 1)
  }

  /** The entries of `c` from `i` on marked for `first`, in order. */
  function MarkedEntries(first: Str, c: Comb, ref: int, i: nat): Comb
    decreases |c| - i
  {
    if i >= |c| then []
    else (if Marked(first, c[i], ref) then [c[i]] else []) + MarkedEntries(first, c, ref, i + 1)
  }

  predicate Increasing(ps: seq<nat>)
  {
    forall a, b :: 0 <= a < b < |ps| ==> ps[a] < ps[b]
  }

  /** Lines 385-396: drops from `c` the entries of `rm`, each matched in
      order against the first entry of `c` that equals it. */
  function RemoveMatched(c: Comb, rm: Comb): Comb
  {
    if c == [] then []
    else if rm != [] && c[0] == rm[0] then RemoveMatched(c[1..], rm[1..])
    else [c[0]] + RemoveMatched(c[1..], rm)
  }

  /** Lines 385-396: the removal applied to every combination. */
  function RemoveMatchedEach(cs: seq<Comb>, rm: Comb): (r: seq<Comb>)
    ensures |r| == |cs|
    ensures forall k :: 0 <= k < |cs| ==> r[k] == RemoveMatched(cs[k], rm)
  {
    seq(|cs|, k requires 0 <= k < |cs| => RemoveMatched(cs[k], rm))
  }

  /** Lines 398-416 from key `i` on: `counter` counts the `None` keys passed;
      the first `None` key takes `first`, and the `None` key whose count is
      the next of `ps` is popped. */
  function Commit(t: seq<Entry>, ps: seq<nat>, first: Str, counter: nat, i: nat): (r: seq<Entry>)
    requires i <= |t|
    ensures |r| == |t|
    decreases |t| - i
  {
    if i == |t| || ps == [] then t
    else if t[i] != Unresolved then Commit(t, ps, first, counter, i + 1)
    else if counter == 0 then Commit(t[i := Resolved(first)], ps[1..], first, 1, i + 1)
    else if counter == ps[0] then Commit(t[i := Deleted], ps[1..], first, counter + 1, i + 1)
    else Commit(t, ps, first, counter + 1, i + 1)
  }

  /** `save_first_mwe(combinations, savelex)`; `None` when it raises (an empty
      first combination, or `int()` on a final segment that is no integer). */
  function FirstMweSaved(cs: seq<Comb>, t: seq<Entry>): Option<Peeled>
  {
    if cs == [] then Some(Peeled(cs, t))
    else if cs[0] == [] then None
    else
      match MweMembers(cs[0][0], cs[0][1..], PendingRef(t), 1)
      case None => None
      case Some(found) => Some(SavedWith(cs, t, found))
  }

  /** Lines 367-373: `ref`, one more than the first `None` key, or 0. */
  function PendingRef(t: seq<Entry>): nat
  {
    match FirstUnresolved(t) case None => 0 case Some(p) => p + 1
  }

  /** Lines 385-417 once the members are known: the members are removed from
      every combination and committed into the slots. */
  function SavedWith(cs: seq<Comb>, t: seq<Entry>, found: (seq<nat>, Comb)): Peeled
    requires cs != [] && cs[0] != []
  {
    Peeled(RemoveMatchedEach(cs, [cs[0][0]] + found.1), Commit(t, [0] + found.0, cs[0][0], 0, 0))
  }

  // ---------------------------------------------------------------- lemmas

  /** The slots changed from `t` to `u` are `None` slots that became resolved. */
  ghost predicate OnlyFills(t: seq<Entry>, u: seq<Entry>)
  {
    |u| == |t| &&
    forall j :: 0 <= j < |t| && u[j] != t[j] ==> t[j] == Unresolved && u[j].Resolved?
  }

  /** Filling `None` slots keeps every key. */
  lemma {:induction false} OnlyFillsKeyCount(t: seq<Entry>, u: seq<Entry>)
    requires OnlyFills(t, u)
    ensures KeyCount(u) == KeyCount(t)
  {
    if t != [] {
      assert u[0] == t[0] || (t[0] == Unresolved && u[0].Resolved?);
      assert OnlyFills(t[1..], u[1..]) by {
        forall j | 0 <= j < |t[1..]| && u[1..][j] != t[1..][j]
          ensures t[1..][j] == Unresolved && u[1..][j].Resolved?
        {
          assert u[1..][j] == u[j + 1] && t[1..][j] == t[j + 1];
        }
      }
      OnlyFillsKeyCount(t[1..], u[1..]);
    }
  }

  /** The candidates that the `None` slots of `t` hold in `u`, in key order. */
  function NewlyFilled(t: seq<Entry>, u: seq<Entry>): seq<Str>
    requires |t| == |u|
  {
    if t == [] then []
    else (if t[0] == Unresolved && u[0].Resolved? then [u[0].lex] else []) + NewlyFilled(t[1..], u[1..])
  }

  function Min(a: nat, b: nat): nat { if a < b then a else b }

  /** Filling from key `i` on resolves the first `None` slots at or after `i`
      with `words`, in order, and changes nothing else. */
  lemma {:induction false} FillLeadingFacts(t: seq<Entry>, words: Comb, i: nat)
    requires i <= |t|
    ensures var r := FillLeading(t, words, i);
      && OnlyFills(t, r)
      && r[..i] == t[..i]
      && NewlyFilled(t[i..], r[i..]) == words[..Min(|words|, UnresolvedCount(t[i..]))]
    decreases |t| - i, 1
  {
    if i == |t| {
      assert t[i..] == [];
    } else if words == [] {
      NewlyFilledSame(t[i..]);
    } else if t[i] == Unresolved {
      FillLeadingTake(t, words, i);
    } else {
      FillLeadingSkip(t, words, i);
    }
  }

  lemma {:induction false} FillLeadingTake(t: seq<Entry>, words: Comb, i: nat)
    requires i < |t| && words != [] && t[i] == Unresolved
    ensures var r := FillLeading(t, words, i);
      && OnlyFills(t, r)
      && r[..i] == t[..i]
      && NewlyFilled(t[i..], r[i..]) == words[..Min(|words|, UnresolvedCount(t[i..]))]
    decreases |t| - i, 0
  {
    var t' := t[i := Resolved(words[0])];
    var r := FillLeading(t, words, i);
    assert r == FillLeading(t', words[1..], i + 1);
    FillLeadingFacts(t', words[1..], i + 1);
    assert r[i] == r[..i + 1][i] == t'[..i + 1][i] == t'[i];
    assert r[..i] == r[..i + 1][..i] == t'[..i + 1][..i] == t[..i];
    assert t'[i + 1..] == t[i + 1..];
    TakeNewlyFilled(t, r, words, i);
    forall j | 0 <= j < |t| && r[j] != t[j] ensures t[j] == Unresolved && r[j].Resolved? {
      if j != i {
        assert t'[j] == t[j];
      }
    }
  }

  /** The `NewlyFilled` step of `FillLeadingTake`. */
  lemma TakeNewlyFilled(t: seq<Entry>, r: seq<Entry>, words: Comb, i: nat)
    requires i < |t| == |r| && words != [] && t[i] == Unresolved && r[i] == Resolved(words[0])
    requires NewlyFilled(t[i + 1..], r[i + 1..]) == words[1..][..Min(|words| - 1, UnresolvedCount(t[i + 1..]))]
    ensures NewlyFilled(t[i..], r[i..]) == words[..Min(|words|, UnresolvedCount(t[i..]))]
  {
    NewlyFilledAt(t, r, i);
    UnresolvedCountAt(t, i);
    MinSliceCons(words, UnresolvedCount(t[i + 1..]));
  }

  lemma NewlyFilledAt(t: seq<Entry>, r: seq<Entry>, i: nat)
    requires i < |t| == |r|
    ensures NewlyFilled(t[i..], r[i..]) ==
      (if t[i] == Unresolved && r[i].Resolved? then [r[i].lex] else []) + NewlyFilled(t[i + 1..], r[i + 1..])
  {
    assert t[i..][0] == t[i] && t[i..][1..] == t[i + 1..];
    assert r[i..][0] == r[i] && r[i..][1..] == r[i + 1..];
  }

  lemma MinSliceCons(words: Comb, n: nat)
    requires words != []
    ensures words[..Min(|words|, n + 1)] == [words[0]] + words[1..][..Min(|words| - 1, n)]
  {
  }

  lemma {:induction false} FillLeadingSkip(t: seq<Entry>, words: Comb, i: nat)
    requires i < |t| && words != [] && t[i] != Unresolved
    ensures var r := FillLeading(t, words, i);
      && OnlyFills(t, r)
      && r[..i] == t[..i]
      && NewlyFilled(t[i..], r[i..]) == words[..Min(|words|, UnresolvedCount(t[i..]))]
    decreases |t| - i, 0
  {
    var r := FillLeading(t, words, i);
    assert r == FillLeading(t, words, i + 1);
    FillLeadingFacts(t, words, i + 1);
    assert r[i] == r[..i + 1][i] == t[..i + 1][i];
    assert r[..i] == r[..i + 1][..i] == t[..i + 1][..i];
    SkipNewlyFilled(t, r, words, i);
  }

  /** The `NewlyFilled` step of `FillLeadingSkip`. */
  lemma SkipNewlyFilled(t: seq<Entry>, r: seq<Entry>, words: Comb, i: nat)
    requires i < |t| == |r| && t[i] != Unresolved && r[i] == t[i]
    requires NewlyFilled(t[i + 1..], r[i + 1..]) == words[..Min(|words|, UnresolvedCount(t[i + 1..]))]
    ensures NewlyFilled(t[i..], r[i..]) == words[..Min(|words|, UnresolvedCount(t[i..]))]
  {
    NewlyFilledAt(t, r, i);
    UnresolvedCountAt(t, i);
  }

  lemma {:induction false} NewlyFilledSame(t: seq<Entry>)
    ensures NewlyFilled(t, t) == []
  {
    if t != [] {
      NewlyFilledSame(t[1..]);
    }
  }

  /** With no combination reporting zero leading entries, `mincounter` is the
      true minimum of the counts. */
  lemma {:induction false} MinCounterIsMin(cs: seq<Comb>, sep: char, m: nat)
    requires forall c :: c in cs ==> LeadingNonMwes(c, sep) > 0
    ensures var r := MinCounter(cs, sep, m);
      && (m > 0 ==> r <= m)
      && (forall c :: c in cs ==> r <= LeadingNonMwes(c, sep))
      && (r == m || exists c :: c in cs && r == LeadingNonMwes(c, sep))
  {
    if cs != [] {
      var k := LeadingNonMwes(cs[0], sep);
      var m' := if m == 0 || k < m then k else m;
      assert cs[0] in cs;
      assert k > 0 && m' > 0;
      assert forall c :: c in cs[1..] ==> c in cs;
      MinCounterIsMin(cs[1..], sep, m');
      var r := MinCounter(cs, sep, m);
      assert r == MinCounter(cs[1..], sep, m');
      forall c | c in cs ensures r <= LeadingNonMwes(c, sep) {
        assert cs == [cs[0]] + cs[1..];
        if c != cs[0] {
          assert c in cs[1..];
        }
      }
      if r != m && r != m' {
        var c :| c in cs[1..] && r == LeadingNonMwes(c, sep);
        assert c in cs;
      } else if r != m {
        assert r == k;
      }
    }
  }

  /** `remove_leading_non_mwes` leaves its inputs alone when there are no
      combinations, never adds a key, never changes a resolved slot, only
      fills `None` slots, and fills them in key order with the leading
      entries of the first combination. */
  lemma LeadingPeeledSlots(cs: seq<Comb>, t: seq<Entry>, sep: char)
    requires LeadingPeeled(cs, t, sep).Some?
    ensures var p := LeadingPeeled(cs, t, sep).value;
      && (cs == [] ==> p == Peeled(cs, t))
      && OnlyFills(t, p.slots)
      && (cs != [] ==>
            NewlyFilled(t, p.slots) == cs[0][..Min(MinCounter(cs, sep, 0), UnresolvedCount(t))])
  {
    if cs == [] {
      NewlyFilledSame(t);
    } else {
      var m := MinCounter(cs, sep, 0);
      var p := LeadingPeeled(cs, t, sep).value;
      if m == 0 {
        NewlyFilledSame(t);
        assert cs[0][..0] == [];
      } else {
        FillLeadingFacts(t, cs[0][..m], 0);
        assert t[0..] == t && p.slots[0..] == p.slots;
      }
    }
  }

  /** Every combination `remove_leading_non_mwes` returns is a tail of one
      it was given. */
  lemma LeadingPeeledCombos(cs: seq<Comb>, t: seq<Entry>, sep: char)
    requires LeadingPeeled(cs, t, sep).Some?
    ensures forall c :: c in LeadingPeeled(cs, t, sep).value.combos ==>
              exists d :: d in cs && |c| <= |d| && c == d[|d| - |c|..]
  {
    var p := LeadingPeeled(cs, t, sep).value;
    if cs == [] || MinCounter(cs, sep, 0) == 0 {
      forall c | c in p.combos ensures exists d :: d in cs && |c| <= |d| && c == d[|d| - |c|..] {
        assert c[0..] == c;
      }
    } else {
      DroppedAreTails(cs, MinCounter(cs, sep, 0));
    }
  }

  /** Every kept combination is a non-empty tail of an input combination. */
  lemma DroppedAreTails(cs: seq<Comb>, m: nat)
    ensures forall c :: c in Filter(DroppedAll(cs, m), NonEmpty) ==>
              c != [] && exists d :: d in cs && |c| <= |d| && c == d[|d| - |c|..]
  {
    var reduced := DroppedAll(cs, m);
    forall c | c in Filter(reduced, NonEmpty)
      ensures c != [] && exists d :: d in cs && |c| <= |d| && c == d[|d| - |c|..]
    {
      assert c in reduced && NonEmpty(c);
      var k :| 0 <= k < |cs| && reduced[k] == c;
      assert cs[k] in cs && |c| <= |cs[k]| && c == cs[k][|cs[k]| - |c|..];
    }
  }

  /** Removing the matched entries only deletes; when `rm` is a subsequence
      of `c`, exactly `|rm|` entries go. */
  lemma {:induction false} RemoveMatchedFacts(c: Comb, rm: Comb)
    ensures IsSubseq(RemoveMatched(c, rm), c)
    ensures IsSubseq(rm, c) ==> |RemoveMatched(c, rm)| == |c| - |rm|
  {
    if c != [] {
      RemoveMatchedFacts(c[1..], rm);
      if rm != [] && c[0] == rm[0] {
        RemoveMatchedFacts(c[1..], rm[1..]);
        SubseqExtend(RemoveMatched(c[1..], rm[1..]), c);
      }
    }
  }

  /** The entries `save_first_mwe` marks in `c[k..]` are exactly the
      entries that repeat `first` up to `:\d+`, hold a colon and end in
      `:ref`: their positions in `c` come in increasing order, each naming
      the entry found with it, and every such entry is found. */
  lemma MweMembersFacts(first: Str, c: Comb, ref: int, k: nat)
    requires k <= |c| && MweMembers(first, c[k..], ref, k).Some?
    ensures var found := MweMembers(first, c[k..], ref, k).value;
      && Increasing(found.0)
      && (forall j :: 0 <= j < |found.0| ==> k <= found.0[j] < |c| && found.1[j] == c[found.0[j]])
      && (forall q :: k <= q < |c| ==> (q in found.0 <==> Marked(first, c[q], ref)))
  {
    MweMembersMarked(first, c, ref, k);
    MarkedRange(first, c, ref, k);
    MarkedIncreasing(first, c, ref, k);
    MarkedComplete(first, c, ref, k);
    MarkedEntriesAt(first, c, ref, k);
  }

  /** When nothing raises, the search returns the marked positions and entries. */
  lemma {:induction false} MweMembersMarked(first: Str, c: Comb, ref: int, k: nat)
    requires k <= |c| && MweMembers(first, c[k..], ref, k).Some?
    ensures MweMembers(first, c[k..], ref, k).value == (MarkedFrom(first, c, ref, k), MarkedEntries(first, c, ref, k))
    decreases |c| - k
  {
    if k < |c| {
      assert c[k..][0] == c[k] && c[k..][1..] == c[k + 1..];
      var tail := MweMembers(first, c[k + 1..], ref, k + 1);
      assert tail.Some?;
      MweMembersMarked(first, c, ref, k + 1);
      var ps, ls := MarkedFrom(first, c, ref, k + 1), MarkedEntries(first, c, ref, k + 1);
      if Marked(first, c[k], ref) {
        assert MweMembers(first, c[k..], ref, k).value == ([k] + tail.value.0, [c[k]] + tail.value.1);
        assert MarkedFrom(first, c, ref, k) == [k] + ps;
        assert MarkedEntries(first, c, ref, k) == [c[k]] + ls;
      } else {
        assert MweMembers(first, c[k..], ref, k) == tail;
        assert MarkedFrom(first, c, ref, k) == [] + ps == ps;
        assert MarkedEntries(first, c, ref, k) == [] + ls == ls;
      }
    } else {
      assert c[k..] == [];
    }
  }

  lemma {:induction false} MarkedRange(first: Str, c: Comb, ref: int, i: nat)
    ensures forall p :: p in MarkedFrom(first, c, ref, i) ==> i <= p < |c| && Marked(first, c[p], ref)
    decreases |c| - i
  {
    if i < |c| {
      MarkedRange(first, c, ref, i + 1);
    }
  }

  lemma {:induction false} MarkedIncreasing(first: Str, c: Comb, ref: int, i: nat)
    ensures Increasing(MarkedFrom(first, c, ref, i))
    decreases |c| - i
  {
    if i < |c| {
      var tail := MarkedFrom(first, c, ref, i + 1);
      MarkedIncreasing(first, c, ref, i + 1);
      if Marked(first, c[i], ref) {
        MarkedRange(first, c, ref, i + 1);
        IncreasingCons(i, tail);
      } else {
        assert MarkedFrom(first, c, ref, i) == tail;
      }
    }
  }

  lemma IncreasingCons(x: nat, ps: seq<nat>)
    requires Increasing(ps) && forall p :: p in ps ==> x < p
    ensures Increasing([x] + ps)
  {
    var r := [x] + ps;
    forall a, b | 0 <= a < b < |r| ensures r[a] < r[b] {
      assert r[b] == ps[b - 1];
      if a == 0 {
        assert ps[b - 1] in ps;
      } else {
        assert r[a] == ps[a - 1];
      }
    }
  }

  lemma {:induction false} MarkedComplete(first: Str, c: Comb, ref: int, i: nat)
    ensures forall q :: i <= q < |c| ==> (q in MarkedFrom(first, c, ref, i) <==> Marked(first, c[q], ref))
    decreases |c| - i
  {
    if i < |c| {
      var tail := MarkedFrom(first, c, ref, i + 1);
      MarkedComplete(first, c, ref, i + 1);
      MarkedRange(first, c, ref, i + 1);
      assert i !in tail;
      var head: seq<nat> := if Marked(first, c[i], ref) then [i] else [];
      assert MarkedFrom(first, c, ref, i) == head + tail;
      forall q | i <= q < |c| ensures (q in head + tail <==> Marked(first, c[q], ref)) {
        assert q in head + tail <==> q in head || q in tail;
        if q == i {
          assert q in head <==> Marked(first, c[i], ref);
        } else {
          assert q !in head;
        }
      }
    }
  }

  lemma {:induction false} MarkedEntriesAt(first: Str, c: Comb, ref: int, i: nat)
    ensures var ps, ls := MarkedFrom(first, c, ref, i), MarkedEntries(first, c, ref, i);
      |ps| == |ls| && forall j :: 0 <= j < |ps| ==> ps[j] < |c| && ls[j] == c[ps[j]]
    decreases |c| - i
  {
    if i < |c| {
      var ps, ls := MarkedFrom(first, c, ref, i + 1), MarkedEntries(first, c, ref, i + 1);
      MarkedEntriesAt(first, c, ref, i + 1);
      if Marked(first, c[i], ref) {
        assert MarkedFrom(first, c, ref, i) == [i] + ps;
        assert MarkedEntries(first, c, ref, i) == [c[i]] + ls;
        EntriesAtCons(c, i, ps, ls);
      } else {
        assert MarkedFrom(first, c, ref, i) == [] + ps == ps;
        assert MarkedEntries(first, c, ref, i) == [] + ls == ls;
      }
    }
  }

  lemma EntriesAtCons(c: Comb, i: nat, ps: seq<nat>, ls: Comb)
    requires i < |c| && |ps| == |ls|
    requires forall j :: 0 <= j < |ps| ==> ps[j] < |c| && ls[j] == c[ps[j]]
    ensures var ps', ls' := [i] + ps, [c[i]] + ls;
      forall j :: 0 <= j < |ps'| ==> ps'[j] < |c| && ls'[j] == c[ps'[j]]
  {
    var ps', ls' := [i] + ps, [c[i]] + ls;
    forall j | 0 <= j < |ps'| ensures ps'[j] < |c| && ls'[j] == c[ps'[j]] {
      if j > 0 {
        assert ps'[j] == ps[j - 1] && ls'[j] == ls[j - 1];
      }
    }
  }

  /** `Commit` only fills `None` slots with `first` or pops them, and never
      touches a resolved or popped key. */
  lemma {:induction false} CommitFrame(t: seq<Entry>, ps: seq<nat>, first: Str, counter: nat, i: nat)
    requires i <= |t|
    ensures var r := Commit(t, ps, first, counter, i);
      forall j :: 0 <= j < |t| && r[j] != t[j] ==>
        i <= j && t[j] == Unresolved && (r[j] == Resolved(first) || r[j] == Deleted)
    decreases |t| - i
  {
    if i < |t| && ps != [] {
      if t[i] != Unresolved {
        CommitFrame(t, ps, first, counter, i + 1);
      } else if counter == 0 {
        CommitFrame(t[i := Resolved(first)], ps[1..], first, 1, i + 1);
      } else if counter == ps[0] {
        CommitFrame(t[i := Deleted], ps[1..], first, counter + 1, i + 1);
      } else {
        CommitFrame(t, ps, first, counter + 1, i + 1);
      }
    }
  }

  /** Once `counter` has left 0, `Commit` resolves no more slots. */
  lemma {:induction false} CommitNoMoreFirst(t: seq<Entry>, ps: seq<nat>, first: Str, counter: nat, i: nat)
    requires i <= |t| && counter > 0
    ensures var r := Commit(t, ps, first, counter, i);
      forall j :: 0 <= j < |t| && r[j] != t[j] ==> r[j] == Deleted
    decreases |t| - i
  {
    if i < |t| && ps != [] && t[i] == Unresolved {
      if counter == ps[0] {
        CommitNoMoreFirst(t[i := Deleted], ps[1..], first, counter + 1, i + 1);
      } else {
        CommitNoMoreFirst(t, ps, first, counter + 1, i + 1);
      }
    } else if i < |t| && ps != [] {
      CommitNoMoreFirst(t, ps, first, counter, i + 1);
    }
  }

  lemma IncreasingTail(ps: seq<nat>)
    requires ps != [] && Increasing(ps)
    ensures Increasing(ps[1..])
    ensures forall x :: x in ps[1..] ==> ps[0] < x
    ensures forall x :: x in ps ==> ps[0] <= x
  {
    forall x | x in ps[1..] ensures ps[0] < x {
      var m :| 0 <= m < |ps[1..]| && ps[1..][m] == x;
      assert ps[m + 1] == x;
    }
  }

  /** From `i` on, every `None` key of `t` is popped in `r` when its count
      (`counter` plus the `None` keys before it since `i`) is one of `ps`,
      and kept otherwise. */
  predicate PopsFrom(t: seq<Entry>, r: seq<Entry>, ps: seq<nat>, counter: nat, i: nat)
    requires i <= |t| == |r|
  {
    forall j :: i <= j < |t| && t[j] == Unresolved ==>
      r[j] == (if counter + UnresolvedCount(t[i..j]) in ps then Deleted else Unresolved)
  }

  lemma PopsSkip(t: seq<Entry>, r: seq<Entry>, ps: seq<nat>, counter: nat, i: nat)
    requires i < |t| == |r| && t[i] != Unresolved
    requires PopsFrom(t, r, ps, counter, i + 1)
    ensures PopsFrom(t, r, ps, counter, i)
  {
    forall j | i < j < |t| ensures UnresolvedCount(t[i..j]) == UnresolvedCount(t[i + 1..j]) {
      UnresolvedCountStep(t, i, j);
    }
  }

  lemma PopsShift(t: seq<Entry>, t2: seq<Entry>, r: seq<Entry>, ps: seq<nat>, ps2: seq<nat>, counter: nat, i: nat)
    requires i < |t| == |t2| == |r| && t[i] == Unresolved
    requires forall j :: i < j < |t| ==> t2[j] == t[j]
    requires PopsFrom(t2, r, ps2, counter + 1, i + 1)
    requires forall v :: counter < v ==> (v in ps <==> v in ps2)
    requires r[i] == (if counter in ps then Deleted else Unresolved)
    ensures PopsFrom(t, r, ps, counter, i)
  {
    forall j | i <= j < |t| && t[j] == Unresolved
      ensures r[j] == (if counter + UnresolvedCount(t[i..j]) in ps then Deleted else Unresolved)
    {
      if j == i {
        assert t[i..i] == [];
      } else {
        UnresolvedCountStep(t, i, j);
        assert t2[i + 1..j] == t[i + 1..j];
        assert t2[j] == Unresolved;
        var v := counter + UnresolvedCount(t[i..j]);
        assert v == counter + 1 + UnresolvedCount(t2[i + 1..j]);
        assert v in ps <==> v in ps2;
      }
    }
  }

  /** Once `counter` has left 0, `Commit` pops the `None` key whose count
      is one of `ps` and leaves every other `None` key as it is. */
  lemma {:induction false} CommitPops(t: seq<Entry>, ps: seq<nat>, first: Str, counter: nat, i: nat)
    requires i <= |t| && counter > 0 && Increasing(ps)
    requires forall x :: x in ps ==> counter <= x
    ensures PopsFrom(t, Commit(t, ps, first, counter, i), ps, counter, i)
    decreases |t| - i, 1
  {
    var r := Commit(t, ps, first, counter, i);
    if i == |t| {
    } else if ps == [] {
      assert r == t;
    } else if t[i] != Unresolved {
      CommitPops(t, ps, first, counter, i + 1);
      PopsSkip(t, r, ps, counter, i);
    } else if counter == ps[0] {
      CommitPopsHere(t, ps, first, counter, i);
    } else {
      assert ps[0] in ps;
      CommitPopsPass(t, ps, first, counter, i);
    }
  }

  lemma {:induction false} CommitPopsHere(t: seq<Entry>, ps: seq<nat>, first: Str, counter: nat, i: nat)
    requires i < |t| && t[i] == Unresolved && Increasing(ps) && ps != [] && 0 < counter == ps[0]
    ensures PopsFrom(t, Commit(t, ps, first, counter, i), ps, counter, i)
    decreases |t| - i, 0
  {
    var r := Commit(t, ps, first, counter, i);
    var t' := t[i := Deleted];
    assert r == Commit(t', ps[1..], first, counter + 1, i + 1);
    IncreasingTail(ps);
    CommitPops(t', ps[1..], first, counter + 1, i + 1);
    CommitFrame(t', ps[1..], first, counter + 1, i + 1);
    assert r[i] == Deleted;
    assert ps == [ps[0]] + ps[1..];
    PopsShift(t, t', r, ps, ps[1..], counter, i);
  }

  lemma {:induction false} CommitPopsPass(t: seq<Entry>, ps: seq<nat>, first: Str, counter: nat, i: nat)
    requires i < |t| && t[i] == Unresolved && Increasing(ps) && ps != [] && 0 < counter < ps[0]
    ensures PopsFrom(t, Commit(t, ps, first, counter, i), ps, counter, i)
    decreases |t| - i, 0
  {
    var r := Commit(t, ps, first, counter, i);
    assert r == Commit(t, ps, first, counter + 1, i + 1);
    IncreasingTail(ps);
    CommitPops(t, ps, first, counter + 1, i + 1);
    CommitFrame(t, ps, first, counter + 1, i + 1);
    assert r[i] == Unresolved;
    PopsShift(t, t, r, ps, ps, counter, i);
  }

  /** From `i` on, the first `None` key of `t` takes `first` in `r`, and a
      later one is popped when its rank among the `None` keys since `i` is
      one of `ps` and kept otherwise. */
  predicate RanksFrom(t: seq<Entry>, r: seq<Entry>, ps: seq<nat>, first: Str, i: nat)
    requires i <= |t| == |r|
  {
    forall j :: i <= j < |t| && t[j] == Unresolved ==>
      var n := UnresolvedCount(t[i..j]);
      r[j] == (if n == 0 then Resolved(first) else if n in ps then Deleted else Unresolved)
  }

  lemma RanksShift(t: seq<Entry>, t2: seq<Entry>, r: seq<Entry>, ps: seq<nat>, first: Str, i: nat)
    requires i < |t| == |t2| == |r| && t[i] == Unresolved && r[i] == Resolved(first)
    requires forall j :: i < j < |t| ==> t2[j] == t[j]
    requires PopsFrom(t2, r, ps, 1, i + 1)
    ensures RanksFrom(t, r, ps, first, i)
  {
    forall j | i <= j < |t| && t[j] == Unresolved
      ensures var n := UnresolvedCount(t[i..j]);
        r[j] == (if n == 0 then Resolved(first) else if n in ps then Deleted else Unresolved)
    {
      if j == i {
        assert t[i..i] == [];
      } else {
        UnresolvedCountStep(t, i, j);
        assert t2[i + 1..j] == t[i + 1..j];
        assert t2[j] == Unresolved;
      }
    }
  }

  lemma RanksSkip(t: seq<Entry>, r: seq<Entry>, ps: seq<nat>, first: Str, i: nat)
    requires i < |t| == |r| && t[i] != Unresolved
    requires RanksFrom(t, r, ps, first, i + 1)
    ensures RanksFrom(t, r, ps, first, i)
  {
    forall j | i < j < |t| ensures UnresolvedCount(t[i..j]) == UnresolvedCount(t[i + 1..j]) {
      UnresolvedCountStep(t, i, j);
    }
  }

  /** Starting with `counter == 0`: the first `None` key at or after `i`
      takes `first`, and a later `None` key is popped exactly when its rank
      among the `None` keys from `i` on is one of `ps[1..]`. */
  lemma {:induction false} CommitRanks(t: seq<Entry>, ps: seq<nat>, first: Str, i: nat)
    requires i <= |t| && ps != [] && Increasing(ps[1..])
    requires forall x :: x in ps[1..] ==> 1 <= x
    ensures RanksFrom(t, Commit(t, ps, first, 0, i), ps[1..], first, i)
    decreases |t| - i
  {
    if i < |t| {
      var r := Commit(t, ps, first, 0, i);
      if t[i] != Unresolved {
        CommitRanks(t, ps, first, i + 1);
        RanksSkip(t, r, ps[1..], first, i);
      } else {
        var t' := t[i := Resolved(first)];
        assert r == Commit(t', ps[1..], first, 1, i + 1);
        CommitPops(t', ps[1..], first, 1, i + 1);
        CommitFrame(t', ps[1..], first, 1, i + 1);
        assert r[i] == Resolved(first);
        RanksShift(t, t', r, ps[1..], first, i);
      }
    }
  }

  /** `save_first_mwe` leaves its inputs alone when there are no combinations;
      otherwise it resolves the first `None` key to the head of the first
      combination, never changes a resolved key or adds one, and only deletes
      entries from each combination. Among the `None` keys, counted from 0
      in key order, the one of rank n > 0 is popped exactly when entry n of
      the first combination is marked, and is kept otherwise. */
  lemma FirstMweSavedFacts(cs: seq<Comb>, t: seq<Entry>)
    requires FirstMweSaved(cs, t).Some?
    ensures var p := FirstMweSaved(cs, t).value;
      && (cs == [] ==> p == Peeled(cs, t))
      && |p.slots| == |t|
      && |p.combos| == |cs|
      && (forall j :: 0 <= j < |t| && p.slots[j] != t[j] ==> t[j] == Unresolved)
      && (forall j :: 0 <= j < |t| && p.slots[j] != t[j] && p.slots[j] != Deleted ==>
            cs != [] && p.slots[j] == Resolved(cs[0][0]) && FirstUnresolved(t) == Some(j))
      && (cs != [] && FirstUnresolved(t).Some? ==> p.slots[FirstUnresolved(t).value] == Resolved(cs[0][0]))
      && (forall k :: 0 <= k < |cs| ==> IsSubseq(p.combos[k], cs[k]))
      && (cs != [] ==> forall j :: 0 <= j < |t| && t[j] == Unresolved ==>
            var n := UnresolvedCount(t[..j]);
            p.slots[j] == (if n == 0 then Resolved(cs[0][0])
                           else if n < |cs[0]| && Marked(cs[0][0], cs[0][n], PendingRef(t)) then Deleted
                           else Unresolved))
  {
    if cs != [] {
      SavedPops(cs, t);
      var first := cs[0][0];
      var found := MweMembers(first, cs[0][1..], PendingRef(t), 1).value;
      var rm := [first] + found.1;
      var p := FirstMweSaved(cs, t).value;
      forall k | 0 <= k < |cs| ensures IsSubseq(p.combos[k], cs[k]) {
        RemoveMatchedFacts(cs[k], rm);
      }
      CommitFrame(t, [0] + found.0, first, 0, 0);
      CommitHead(t, [0] + found.0, first, 0);
    }
  }

  /** The `None` key of rank `n` (counting from 0) is resolved to the head
      when `n == 0`, popped when member `n` of the first combination is
      marked, and kept otherwise. */
  lemma SavedPops(cs: seq<Comb>, t: seq<Entry>)
    requires cs != [] && FirstMweSaved(cs, t).Some?
    ensures var p := FirstMweSaved(cs, t).value;
      forall j :: 0 <= j < |t| && t[j] == Unresolved ==>
        var n := UnresolvedCount(t[..j]);
        p.slots[j] == (if n == 0 then Resolved(cs[0][0])
                       else if n < |cs[0]| && Marked(cs[0][0], cs[0][n], PendingRef(t)) then Deleted
                       else Unresolved)
  {
    var c := cs[0];
    var first := c[0];
    var ref := PendingRef(t);
    var found := MweMembers(first, c[1..], ref, 1).value;
    MweMembersFacts(first, c, ref, 1);
    var ps := [0] + found.0;
    assert ps[1..] == found.0;
    forall x | x in found.0 ensures 1 <= x {
      var m :| 0 <= m < |found.0| && found.0[m] == x;
    }
    CommitRanks(t, ps, first, 0);
    var r := Commit(t, ps, first, 0, 0);
    assert FirstMweSaved(cs, t).value.slots == r;
    forall j | 0 <= j < |t| && t[j] == Unresolved
      ensures var n := UnresolvedCount(t[..j]);
        r[j] == (if n == 0 then Resolved(first)
                 else if n < |c| && Marked(first, c[n], ref) then Deleted
                 else Unresolved)
    {
      assert t[0..j] == t[..j];
      var n := UnresolvedCount(t[..j]);
      if n != 0 && n !in found.0 {
        assert !(n < |c| && Marked(first, c[n], ref));
      }
      if n != 0 && n in found.0 {
        var m :| 0 <= m < |found.0| && found.0[m] == n;
        assert n < |c| && Marked(first, c[n], ref);
      }
    }
  }

  /** Starting with `counter == 0`, the first `None` key at or after `i`
      receives `first`, and no other key is resolved. */
  lemma {:induction false} CommitHead(t: seq<Entry>, ps: seq<nat>, first: Str, i: nat)
    requires i <= |t| && ps != []
    requires forall j :: 0 <= j < i ==> t[j] != Unresolved
    ensures var r := Commit(t, ps, first, 0, i);
      && (FirstUnresolved(t).Some? ==> r[FirstUnresolved(t).value] == Resolved(first))
      && (forall j :: 0 <= j < |t| && r[j] != t[j] && r[j] != Deleted ==> FirstUnresolved(t) == Some(j))
    decreases |t| - i
  {
    if i == |t| {
    } else if t[i] != Unresolved {
      CommitHead(t, ps, first, i + 1);
    } else {
      var t' := t[i := Resolved(first)];
      CommitNoMoreFirst(t', ps[1..], first, 1, i + 1);
      CommitFrame(t', ps[1..], first, 1, i + 1);
      assert FirstUnresolved(t) == Some(i);
    }
  }
}

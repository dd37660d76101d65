/** The filters that narrow the list of combinations: `get_max_mwe_words`
    (lines 217-241), `get_best_leftmost` (lines 288-311) and
    `remove_identicals` (lines 185-214). */
module Selection {
  import opened Seqs
  import opened Lexes

  // ------------------------------------------------------ keeping the best

  /** The largest score among `cs`, starting from `-1` as the source does. */
  function MaxScore(cs: seq<Comb>, score: Comb -> nat): (m: int)
    ensures cs == [] ==> m == -1
    ensures forall c :: c in cs ==> score(c) <= m
    ensures cs != [] ==> exists c :: c in cs && score(c) == m
  {
    if cs == [] then -1
    else
      var rest := MaxScore(cs[1..], score);
      assert forall c :: c in cs[1..] ==> c in cs;
      if score(cs[0]) > rest then score(cs[0]) else rest
  }

  /** The combinations whose score is `m`, in order. */
  function KeepScore(cs: seq<Comb>, score: Comb -> nat, m: int): (r: seq<Comb>)
    ensures forall c :: c in r <==> c in cs && score(c) == m
  {
    if cs == [] then []
    else if score(cs[0]) == m then [cs[0]] + KeepScore(cs[1..], score, m)
    else KeepScore(cs[1..], score, m)
  }

  /** The two loops of `get_max_mwe_words` and `get_best_leftmost`: find the
      maximal score, then keep the combinations that reach it. */
  function KeepBest(cs: seq<Comb>, score: Comb -> nat): seq<Comb>
  {
    KeepScore(cs, score, MaxScore(cs, score))
  }

  /** Lines 226-230: the number of separators in the base of each MWE
      candidate with a part-of-speech tag. */
  function MweWords(c: Comb, sep: char): nat
  {
    if c == [] then 0
    else
      var l := c[0];
      (if HasDoubleDot(l) && !StartsWith(l, [sep]) && !StartsWith(l, "http")
       then CountChar(BeforeDots(l), sep) else 0) + MweWords(c[1..], sep)
  }

  /** `get_max_mwe_words(combinations)` */
  function GetMaxMweWords(cs: seq<Comb>, sep: char): seq<Comb>
  {
    KeepBest(cs, c => MweWords(c, sep))
  }

  /** Lines 300-301: how many entries of `c` equal its first entry once the
      references are stripped. An empty combination counts 0, because the
      comprehension never evaluates `c[0]` then. */
  function FirstMweLength(c: Comb): nat
  {
    if c == [] then 0 else CountIf(c, l => StripRefs(l) == StripRefs(c[0]))
  }

  /** `get_best_leftmost(combinations)` */
  function GetBestLeftmost(cs: seq<Comb>): seq<Comb>
  {
    KeepBest(cs, FirstMweLength)
  }

  lemma {:induction false} KeepScoreSubseq(cs: seq<Comb>, score: Comb -> nat, m: int)
    ensures IsSubseq(KeepScore(cs, score, m), cs)
  {
    if cs != [] {
      KeepScoreSubseq(cs[1..], score, m);
      if score(cs[0]) != m {
        SubseqExtend(KeepScore(cs[1..], score, m), cs);
      }
    }
  }

  /** What both filters promise: an order-preserving selection, non-empty
      when the input is, holding exactly the combinations of maximal score. */
  lemma KeepBestFacts(cs: seq<Comb>, score: Comb -> nat)
    ensures IsSubseq(KeepBest(cs, score), cs)
    ensures cs != [] ==> KeepBest(cs, score) != []
    ensures forall c :: c in KeepBest(cs, score) <==>
              c in cs && forall d :: d in cs ==> score(d) <= score(c)
  {
    KeepScoreSubseq(cs, score, MaxScore(cs, score));
    if cs != [] {
      var c :| c in cs && score(c) == MaxScore(cs, score);
      assert c in KeepBest(cs, score);
    }
  }

  lemma GetMaxMweWordsFacts(cs: seq<Comb>, sep: char)
    ensures IsSubseq(GetMaxMweWords(cs, sep), cs)
    ensures cs != [] ==> GetMaxMweWords(cs, sep) != []
    ensures forall c :: c in GetMaxMweWords(cs, sep) <==>
              c in cs && forall d :: d in cs ==> MweWords(d, sep) <= MweWords(c, sep)
  {
    KeepBestFacts(cs, c => MweWords(c, sep));
  }

  lemma GetBestLeftmostFacts(cs: seq<Comb>)
    ensures IsSubseq(GetBestLeftmost(cs), cs)
    ensures cs != [] ==> GetBestLeftmost(cs) != []
    ensures forall c :: c in GetBestLeftmost(cs) <==>
              c in cs && forall d :: d in cs ==> FirstMweLength(d) <= FirstMweLength(c)
  {
    KeepBestFacts(cs, FirstMweLength);
  }

  /** A combination whose entries all belong to its first MWE scores its
      full length. */
  lemma {:induction false} FirstMweLengthFull(c: Comb)
    requires c != [] && forall l :: l in c ==> StripRefs(l) == StripRefs(c[0])
    ensures FirstMweLength(c) == |c|
  {
    CountAll(c, l => StripRefs(l) == StripRefs(c[0]));
  }

  lemma {:induction false} CountAll(s: seq<Str>, p: Str -> bool)
    requires forall l :: l in s ==> p(l)
    ensures CountIf(s, p) == |s|
  {
    if s != [] {
      assert s[0] in s;
      assert forall l :: l in s[1..] ==> l in s;
      CountAll(s[1..], p);
    }
  }

  // ---------------------------------------------------- the SALDO stripper

  /** The first index at or after `i` that is not a digit. */
  function DigitRunEnd(s: Str, i: nat): (e: nat)
    requires i <= |s|
    ensures i <= e <= |s|
    ensures forall j :: i <= j < e ==> IsDigit(s[j])
    ensures e < |s| ==> !IsDigit(s[e])
    decreases |s| - i
  {
    if i < |s| && IsDigit(s[i]) then DigitRunEnd(s, i + 1) else i
  }

  /** The first digit at or after `i`. */
  function FirstDigitFrom(s: Str, i: nat): (r: Option<nat>)
    requires i <= |s|
    ensures r.Some? ==> i <= r.value < |s| && IsDigit(s[r.value])
    ensures r.None? ==> forall j :: i <= j < |s| ==> !IsDigit(s[j])
    decreases |s| - i
  {
    if i == |s| then None
    else if IsDigit(s[i]) then Some(i)
    else FirstDigitFrom(s, i + 1)
  }

  /** The end of a match of `\.{2}.+?\d+:?\d*` at the start of `s`: two
      dots, at least one character, the first digit run after them, then
      an optional colon and digits. */
  function SaldoMatchEnd(s: Str): (r: Option<nat>)
    ensures r.Some? ==> 4 <= r.value <= |s|
  {
    if |s| >= 4 && s[0] == '.' && s[1] == '.' then
      match FirstDigitFrom(s, 3)
      case None => None
      case Some(q) =>
        var e := DigitRunEnd(s, q);
        if e < |s| && s[e] == ':' then Some(DigitRunEnd(s, e + 1)) else Some(e)
    else None
  }

  /** `re.sub('\.{2}.+?\d+:?\d*', '', s)`: the SALDO part-of-speech tag,
      sense number and reference are cut out of every candidate. */
  function StripSaldo(s: Str): (r: Str)
    ensures |r| <= |s|
    decreases |s|
  {
    if s == [] then []
    else
      match SaldoMatchEnd(s)
      case Some(e) => StripSaldo(s[e..])
      case None => [s[0]] + StripSaldo(s[1..])
  }

  /** A combination's key for `remove_identicals`: its entries joined with
      spaces, then stripped. */
  function ComboKey(c: Comb): Str
  {
    StripSaldo(JoinWith(c, ' '))
  }

  // --------------------------------------------- remove_identicals as written

  /** An element of `full_list`: the function is written for strings, lists
      and tuples. */
  datatype Item = Text(s: Str) | Tuple(parts: seq<Str>) | List(elems: seq<Str>)

  /** Lines 197-198: tuples and lists are joined with spaces. */
  function Flat(it: Item): Str
  {
    match it
    case Text(s) => s
    case Tuple(p) => JoinWith(p, ' ')
    case List(p) => JoinWith(p, ' ')
  }

  /** The inner loop (lines 206-213) for the element at `i`, from `j` on.
      Line 208 tests `type(c)`, which is a string by then, so a tuple `c2`
      is joined into a string (that `c2 in reduced_list` then compares with
      the tuples there) and a list `c2` reaches `re.sub` unjoined, which
      raises (`None`). */
  function InnerPass(full: seq<Item>, j: nat, cstrip: Str, reduced: seq<Item>): Option<seq<Item>>
    requires j <= |full|
    decreases |full| - j
  {
    if j == |full| then Some(reduced)
    else
      var c2 := full[j];
      if c2.List? then None
      else
        var c2s := Text(Flat(c2));
        var reduced' := if StripSaldo(Flat(c2)) == cstrip && c2s in reduced
                        then RemoveFirst(reduced, c2s) else reduced;
        InnerPass(full, j + 1, cstrip, reduced')
  }

  function OuterPass(full: seq<Item>, i: nat, reduced: seq<Item>): Option<seq<Item>>
    requires i <= |full|
    decreases |full| - i
  {
    if i == |full| then Some(reduced)
    else
      match InnerPass(full, i + 1, StripSaldo(Flat(full[i])), reduced)
      case None => None
      case Some(r) => OuterPass(full, i + 1, r)
  }

  /** `remove_identicals(full_list)` as written. */
  function RemoveIdenticalsAsWritten(full: seq<Item>): Option<seq<Item>>
  {
    OuterPass(full, 0, full)
  }

  lemma {:induction false} InnerPassSubseq(full: seq<Item>, j: nat, cstrip: Str, reduced: seq<Item>, orig: seq<Item>)
    requires j <= |full| && IsSubseq(reduced, orig)
    ensures InnerPass(full, j, cstrip, reduced).Some? ==> IsSubseq(InnerPass(full, j, cstrip, reduced).value, orig)
    decreases |full| - j
  {
    if j < |full| && !full[j].List? {
      var c2s := Text(Flat(full[j]));
      if StripSaldo(Flat(full[j])) == cstrip && c2s in reduced {
        RemoveFirstIsSubseq(reduced, c2s);
        SubseqTrans(RemoveFirst(reduced, c2s), reduced, orig);
        InnerPassSubseq(full, j + 1, cstrip, RemoveFirst(reduced, c2s), orig);
      } else {
        InnerPassSubseq(full, j + 1, cstrip, reduced, orig);
      }
    }
  }

  lemma {:induction false} OuterPassSubseq(full: seq<Item>, i: nat, reduced: seq<Item>)
    requires i <= |full| && IsSubseq(reduced, full)
    ensures OuterPass(full, i, reduced).Some? ==> IsSubseq(OuterPass(full, i, reduced).value, full)
    decreases |full| - i
  {
    if i < |full| {
      var r := InnerPass(full, i + 1, StripSaldo(Flat(full[i])), reduced);
      InnerPassSubseq(full, i + 1, StripSaldo(Flat(full[i])), reduced, full);
      if r.Some? {
        OuterPassSubseq(full, i + 1, r.value);
      }
    }
  }

  /** As written, the function only ever deletes elements. */
  lemma RemoveIdenticalsAsWrittenSubseq(full: seq<Item>)
    ensures RemoveIdenticalsAsWritten(full).Some? ==> IsSubseq(RemoveIdenticalsAsWritten(full).value, full)
  {
    SubseqRefl(full);
    OuterPassSubseq(full, 0, full);
  }

  predicate AllTuples(s: seq<Item>)
  {
    forall k :: 0 <= k < |s| ==> s[k].Tuple?
  }

  lemma {:induction false} InnerPassTuples(full: seq<Item>, j: nat, cstrip: Str, reduced: seq<Item>)
    requires j <= |full| && AllTuples(full) && AllTuples(reduced)
    ensures InnerPass(full, j, cstrip, reduced) == Some(reduced)
    decreases |full| - j
  {
    if j < |full| {
      var c2s := Text(Flat(full[j]));
      assert c2s !in reduced;
      InnerPassTuples(full, j + 1, cstrip, reduced);
    }
  }

  lemma {:induction false} OuterPassTuples(full: seq<Item>, i: nat)
    requires i <= |full| && AllTuples(full)
    ensures OuterPass(full, i, full) == Some(full)
    decreases |full| - i
  {
    if i < |full| {
      var cstrip := StripSaldo(Flat(full[i]));
      InnerPassTuples(full, i + 1, cstrip, full);
      OuterPassTuples(full, i + 1);
      assert OuterPass(full, i, full) == OuterPass(full, i + 1, full);
    }
  }

  /** On a list of tuples, which is what `check_mwe` passes at line 584, the
      function as written returns its input unchanged: every tuple `c2` is
      joined into a string before `c2 in reduced_list` is asked. */
  lemma RemoveIdenticalsAsWrittenOnTuples(full: seq<Item>)
    requires AllTuples(full)
    ensures RemoveIdenticalsAsWritten(full) == Some(full)
  {
    OuterPassTuples(full, 0);
  }

  // ---------------------------------------------- remove_identicals corrected

  /** Keeps each combination whose key has not been seen before. */
  function DedupFrom(cs: seq<Comb>, seen: set<Str>): (r: seq<Comb>)
    ensures |r| <= |cs|
  {
    if cs == [] then []
    else if ComboKey(cs[0]) in seen then DedupFrom(cs[1..], seen)
    else [cs[0]] + DedupFrom(cs[1..], seen + {ComboKey(cs[0])})
  }

  /** What the documentation of `remove_identicals` promises: of the
      combinations that differ only in their SALDO numbers, the first is
      kept and the others are removed. */
  function RemoveIdenticals(cs: seq<Comb>): seq<Comb>
  {
    DedupFrom(cs, {})
  }

  lemma {:induction false} DedupFromFacts(cs: seq<Comb>, seen: set<Str>)
    ensures var r := DedupFrom(cs, seen);
      && IsSubseq(r, cs)
      && (forall k :: 0 <= k < |r| ==> ComboKey(r[k]) !in seen)
      && (forall i, j :: 0 <= i < j < |r| ==> ComboKey(r[i]) != ComboKey(r[j]))
      && (forall i :: (0 <= i < |cs| && ComboKey(cs[i]) !in seen &&
                       forall j :: 0 <= j < i ==> ComboKey(cs[j]) != ComboKey(cs[i]))
                      ==> cs[i] in r)
  {
    if cs != [] {
      var k := ComboKey(cs[0]);
      var r := DedupFrom(cs, seen);
      if k in seen {
        DedupFromFacts(cs[1..], seen);
        SubseqExtend(r, cs);
        forall i | 0 < i < |cs| && ComboKey(cs[i]) !in seen &&
                   (forall j :: 0 <= j < i ==> ComboKey(cs[j]) != ComboKey(cs[i]))
          ensures cs[i] in r
        {
          assert cs[i] == cs[1..][i - 1];
          forall j | 0 <= j < i - 1 ensures ComboKey(cs[1..][j]) != ComboKey(cs[1..][i - 1]) {
            assert cs[1..][j] == cs[j + 1];
          }
        }
      } else {
        var seen' := seen + {k};
        DedupFromFacts(cs[1..], seen');
        var tail := DedupFrom(cs[1..], seen');
        assert r == [cs[0]] + tail;
        forall i, j | 0 <= i < j < |r| ensures ComboKey(r[i]) != ComboKey(r[j]) {
          assert r[j] == tail[j - 1];
          if i > 0 { assert r[i] == tail[i - 1]; }
        }
        forall i | 0 < i < |cs| && ComboKey(cs[i]) !in seen &&
                   (forall j :: 0 <= j < i ==> ComboKey(cs[j]) != ComboKey(cs[i]))
          ensures cs[i] in r
        {
          assert ComboKey(cs[0]) != ComboKey(cs[i]);
          assert cs[i] == cs[1..][i - 1];
          forall j | 0 <= j < i - 1 ensures ComboKey(cs[1..][j]) != ComboKey(cs[1..][i - 1]) {
            assert cs[1..][j] == cs[j + 1];
          }
        }
      }
    }
  }

  /** The corrected function deletes only, keeps no two combinations with the
      same key, and keeps the first combination of every key. */
  lemma RemoveIdenticalsFacts(cs: seq<Comb>)
    ensures IsSubseq(RemoveIdenticals(cs), cs)
    ensures forall i, j :: 0 <= i < j < |RemoveIdenticals(cs)| ==>
              ComboKey(RemoveIdenticals(cs)[i]) != ComboKey(RemoveIdenticals(cs)[j])
    ensures forall i :: 0 <= i < |cs| && (forall j :: 0 <= j < i ==> ComboKey(cs[j]) != ComboKey(cs[i])) ==>
              cs[i] in RemoveIdenticals(cs)
  {
    DedupFromFacts(cs, {});
  }

  /** Two combinations that differ only in their SALDO numbers: the function
      as written keeps both, the corrected one keeps the first. */
  lemma RemoveIdenticalsDiscrepancy(a: Comb, b: Comb)
    requires ComboKey(a) == ComboKey(b)
    ensures RemoveIdenticalsAsWritten([Tuple(a), Tuple(b)]) == Some([Tuple(a), Tuple(b)])
    ensures RemoveIdenticals([a, b]) == [a]
  {
    RemoveIdenticalsAsWrittenOnTuples([Tuple(a), Tuple(b)]);
    var k := ComboKey(a);
    assert [a, b][1..] == [b];
    assert DedupFrom([b], {k}) == [] by {
      assert ComboKey([b][0]) in {k};
      assert DedupFrom([b], {k}) == DedupFrom([b][1..], {k});
      assert [b][1..] == [];
    }
    assert DedupFrom([a, b], {}) == [a] + DedupFrom([b], {} + {k});
    assert {} + {k} == {k};
  }
}

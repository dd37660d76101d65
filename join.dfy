/** `comp_lex` (lines 131-153) and `join_identicals` (lines 156-182): the
    candidates of one word that differ only in their part-of-speech tag or
    sense number are merged into one `|`-joined candidate. */
module Join {
  import opened Seqs
  import opened Lexes

  /** `comp_lex`: the base before the first `..`, followed by the reference
      digits when the candidate ends in `:digits`. */
  function CompLex(lex: Str): Str
  {
    match TrailingRef(lex)
    case Some(ref) => BeforeDots(lex) + ref
    case None => BeforeDots(lex)
  }

  /** The candidates of `s` whose key is `k`, in order. */
  function SameComp(s: seq<Str>, k: Str): (r: seq<Str>)
    ensures |r| <= |s|
    ensures forall x :: x in r <==> x in s && CompLex(x) == k
  {
    if s == [] then []
    else if CompLex(s[0]) == k then [s[0]] + SameComp(s[1..], k)
    else SameComp(s[1..], k)
  }

  /** The candidates of `s` whose key is not `k`, in order. */
  function OtherComp(s: seq<Str>, k: Str): (r: seq<Str>)
    ensures |r| <= |s|
    ensures s != [] && CompLex(s[0]) == k ==> |r| < |s|
    ensures forall x :: x in r <==> x in s && CompLex(x) != k
  {
    if s == [] then []
    else if CompLex(s[0]) == k then OtherComp(s[1..], k)
    else [s[0]] + OtherComp(s[1..], k)
  }

  /** The groups `join_identicals` forms: the first candidate with every
      later one of the same key, then the groups of what is left. */
  function Groups(s: seq<Str>): seq<seq<Str>>
    decreases |s|
  {
    if s == [] then []
    else
      var k := CompLex(s[0]);
      [SameComp(s, k)] + Groups(OtherComp(s, k))
  }

  /** Each group written as `'|'.join(group)`. */
  function JoinAll(gs: seq<seq<Str>>): (r: seq<Str>)
    ensures |r| == |gs|
    ensures forall i :: 0 <= i < |gs| ==> r[i] == JoinWith(gs[i], '|')
  {
    if gs == [] then [] else [JoinWith(gs[0], '|')] + JoinAll(gs[1..])
  }

  function Joined(s: seq<Str>): seq<Str>
  {
    JoinAll(Groups(s))
  }

  function Concat(gs: seq<seq<Str>>): seq<Str>
  {
    if gs == [] then [] else gs[0] + Concat(gs[1..])
  }

  function Heads(gs: seq<seq<Str>>): seq<Str>
    requires forall i :: 0 <= i < |gs| ==> gs[i] != []
  {
    if gs == [] then [] else [gs[0][0]] + Heads(gs[1..])
  }

  /** `join_identicals(lexes)` (lines 156-182), consuming a copy of its input
      with `pop` and `remove` as the source does. */
  method JoinIdenticals(lexes0: seq<Str>) returns (newlexes: seq<Str>)
    ensures newlexes == Joined(lexes0)
  {
    var lexes := lexes0;
    newlexes := [];
    while lexes != []
      invariant Joined(lexes0) == newlexes + Joined(lexes)
      decreases |lexes|
    {
      JoinedStep(lexes);
      var joined, rest := JoinFirstGroup(lexes);
      assert newlexes + ([joined] + Joined(rest)) == (newlexes + [joined]) + Joined(rest);
      newlexes := newlexes + [joined];
      lexes := rest;
    }
  }

  /** One pass of the loop at lines 164-181: the first candidate's group,
      joined, and the candidates left in `lexes` afterwards. */
  method JoinFirstGroup(lexes: seq<Str>) returns (joined: Str, rest: seq<Str>)
    requires lexes != []
    ensures joined == JoinWith(SameComp(lexes, CompLex(lexes[0])), '|')
    ensures rest == OtherComp(lexes, CompLex(lexes[0]))
  {
    var fl, rl := lexes[0], lexes[1..];
    var fcomp := CompLex(fl);
    if !(exists j :: 0 <= j < |rl| && CompLex(rl[j]) == fcomp) {
      JoinedSingle(lexes);
      return fl, rl;
    }
    assert lexes == [fl] + rl;
    var tojoin := CollectSameComp(fl, rl);
    rest := RemoveEach(lexes, tojoin, fcomp);
    joined := JoinWith(tojoin, '|');
  }

  /** Lines 174-178: the first candidate and every later one of its key. */
  method CollectSameComp(fl: Str, rl: seq<Str>) returns (tojoin: seq<Str>)
    ensures tojoin == SameComp([fl] + rl, CompLex(fl))
  {
    var fcomp := CompLex(fl);
    tojoin := [fl];
    var j := 0;
    while j < |rl|
      invariant 0 <= j <= |rl|
      invariant tojoin == [fl] + SameComp(rl[..j], fcomp)
    {
      tojoin := CollectOne(fl, rl, j, tojoin);
      j := j + 1;
    }
    assert rl[..j] == rl;
    SameCompCons(fl, rl);
  }

  /** One pass of the loop at lines 175-178: `l` joins the group when it
      has the first candidate's key. */
  method CollectOne(fl: Str, rl: seq<Str>, j: nat, tojoin: seq<Str>) returns (tojoin': seq<Str>)
    requires j < |rl| && tojoin == [fl] + SameComp(rl[..j], CompLex(fl))
    ensures tojoin' == [fl] + SameComp(rl[..j + 1], CompLex(fl))
  {
    var k := CompLex(fl);
    var a := SameComp(rl[..j], k);
    SameCompPrefix(rl, j, k);
    if CompLex(rl[j]) == k {
      assert SameComp(rl[..j + 1], k) == a + [rl[j]];
      assert ([fl] + a) + [rl[j]] == [fl] + (a + [rl[j]]);
      tojoin' := tojoin + [rl[j]];
    } else {
      assert SameComp(rl[..j + 1], k) == a;
      tojoin' := tojoin;
    }
  }

  lemma SameCompPrefix(s: seq<Str>, j: nat, k: Str)
    requires j < |s|
    ensures SameComp(s[..j + 1], k) == SameComp(s[..j], k) + (if CompLex(s[j]) == k then [s[j]] else [])
  {
    SameCompSnoc(s[..j], s[j], k);
    assert s[..j + 1] == s[..j] + [s[j]];
  }

  lemma SameCompCons(x: Str, s: seq<Str>)
    ensures SameComp([x] + s, CompLex(x)) == [x] + SameComp(s, CompLex(x))
  {
    assert ([x] + s)[1..] == s;
  }

  /** Lines 179-180: `lexes.remove(l)` for each `l` of the group leaves the
      candidates of the other keys. */
  method RemoveEach(lexes0: seq<Str>, tojoin: seq<Str>, k: Str) returns (lexes: seq<Str>)
    requires multiset(SameComp(lexes0, k)) == multiset(tojoin)
    ensures lexes == OtherComp(lexes0, k)
  {
    lexes := lexes0;
    var r := 0;
    assert tojoin[0..] == tojoin;
    while r < |tojoin|
      invariant 0 <= r <= |tojoin|
      invariant OtherComp(lexes, k) == OtherComp(lexes0, k)
      invariant multiset(SameComp(lexes, k)) == multiset(tojoin[r..])
    {
      RemoveEachStep(lexes, tojoin, r, k);
      lexes := RemoveFirst(lexes, tojoin[r]);
      r := r + 1;
    }
    assert |SameComp(lexes, k)| == |multiset(SameComp(lexes, k))| == 0;
    OnlyOtherComp(lexes, k);
  }

  /** One `lexes.remove(l)` of the loop at lines 179-180. */
  lemma RemoveEachStep(lexes: seq<Str>, tojoin: seq<Str>, r: nat, k: Str)
    requires r < |tojoin| && multiset(SameComp(lexes, k)) == multiset(tojoin[r..])
    ensures OtherComp(RemoveFirst(lexes, tojoin[r]), k) == OtherComp(lexes, k)
    ensures multiset(SameComp(RemoveFirst(lexes, tojoin[r]), k)) == multiset(tojoin[r + 1..])
  {
    var l := tojoin[r];
    assert tojoin[r..] == [l] + tojoin[r + 1..];
    assert l in multiset(SameComp(lexes, k));
    assert l in SameComp(lexes, k);
    RemoveSameComp(lexes, l, k);
  }

  // ---------------------------------------------------------------- lemmas

  lemma JoinedStep(s: seq<Str>)
    requires s != []
    ensures Joined(s) == [JoinWith(SameComp(s, CompLex(s[0])), '|')] + Joined(OtherComp(s, CompLex(s[0])))
  {
    var k := CompLex(s[0]);
    assert Groups(s) == [SameComp(s, k)] + Groups(OtherComp(s, k));
    assert Groups(s)[1..] == Groups(OtherComp(s, k));
  }

  lemma JoinedSingle(s: seq<Str>)
    requires s != [] && !(exists j :: 0 <= j < |s| - 1 && CompLex(s[1..][j]) == CompLex(s[0]))
    ensures SameComp(s, CompLex(s[0])) == [s[0]] && OtherComp(s, CompLex(s[0])) == s[1..]
  {
    NoneOfKey(s[1..], CompLex(s[0]));
  }

  lemma {:induction false} SameCompSnoc(s: seq<Str>, x: Str, k: Str)
    ensures SameComp(s + [x], k) == SameComp(s, k) + (if CompLex(x) == k then [x] else [])
  {
    if s != [] {
      assert (s + [x])[1..] == s[1..] + [x];
      SameCompSnoc(s[1..], x, k);
    }
  }

  /** When no candidate has key `k`, its group is empty (the `fcomp not in
      rcomps` branch). */
  lemma {:induction false} NoneOfKey(s: seq<Str>, k: Str)
    requires forall j :: 0 <= j < |s| ==> CompLex(s[j]) != k
    ensures SameComp(s, k) == [] && OtherComp(s, k) == s
  {
    if s != [] {
      NoneOfKey(s[1..], k);
    }
  }

  /** `lexes.remove(l)` for a candidate `l` of key `k` leaves the other keys'
      candidates alone and takes one `l` out of the key-`k` candidates. */
  lemma {:induction false} RemoveSameComp(s: seq<Str>, x: Str, k: Str)
    requires x in s && CompLex(x) == k
    ensures OtherComp(RemoveFirst(s, x), k) == OtherComp(s, k)
    ensures multiset(SameComp(RemoveFirst(s, x), k)) == multiset(SameComp(s, k)) - multiset{x}
  {
    if s[0] != x {
      RemoveSameComp(s[1..], x, k);
      assert RemoveFirst(s, x) == [s[0]] + RemoveFirst(s[1..], x);
      assert RemoveFirst(s, x)[1..] == RemoveFirst(s[1..], x);
      if CompLex(s[0]) == k {
        assert s[0] != x;
        assert multiset{s[0]} + (multiset(SameComp(s[1..], k)) - multiset{x})
            == (multiset{s[0]} + multiset(SameComp(s[1..], k))) - multiset{x};
      }
    }
  }

  /** Once every key-`k` candidate is removed, the rest is the list of the
      other keys' candidates. */
  lemma {:induction false} OnlyOtherComp(s: seq<Str>, k: Str)
    requires SameComp(s, k) == []
    ensures s == OtherComp(s, k)
  {
    if s != [] {
      assert s[0] in s;
      assert CompLex(s[0]) != k;
      assert SameComp(s[1..], k) == SameComp(s, k);
      OnlyOtherComp(s[1..], k);
      assert OtherComp(s, k) == [s[0]] + OtherComp(s[1..], k);
      assert s == [s[0]] + s[1..];
    }
  }

  lemma {:induction false} SameOtherSplit(s: seq<Str>, k: Str)
    ensures multiset(SameComp(s, k)) + multiset(OtherComp(s, k)) == multiset(s)
  {
    if s != [] {
      var t := s[1..];
      SameOtherSplit(t, k);
      assert s == [s[0]] + t;
      assert multiset(s) == multiset{s[0]} + multiset(t);
      if CompLex(s[0]) == k {
        assert SameComp(s, k) == [s[0]] + SameComp(t, k);
        assert OtherComp(s, k) == OtherComp(t, k);
        assert multiset(SameComp(s, k)) == multiset{s[0]} + multiset(SameComp(t, k));
      } else {
        assert SameComp(s, k) == SameComp(t, k);
        assert OtherComp(s, k) == [s[0]] + OtherComp(t, k);
        assert multiset(OtherComp(s, k)) == multiset{s[0]} + multiset(OtherComp(t, k));
      }
    }
  }

  lemma {:induction false} SameOfOther(s: seq<Str>, k: Str, k2: Str)
    requires k != k2
    ensures SameComp(OtherComp(s, k), k2) == SameComp(s, k2)
  {
    if s != [] {
      SameOfOther(s[1..], k, k2);
    }
  }

  lemma {:induction false} OtherIsSubseq(s: seq<Str>, k: Str)
    ensures IsSubseq(OtherComp(s, k), s)
  {
    if s != [] {
      OtherIsSubseq(s[1..], k);
      if CompLex(s[0]) == k {
        SubseqExtend(OtherComp(s[1..], k), s);
      }
    }
  }

  /** Every input candidate appears exactly once in the groups. */
  lemma {:induction false} GroupsPartition(s: seq<Str>)
    ensures multiset(Concat(Groups(s))) == multiset(s)
    decreases |s|
  {
    if s != [] {
      var k := CompLex(s[0]);
      GroupsPartition(OtherComp(s, k));
      SameOtherSplit(s, k);
      assert Groups(s)[1..] == Groups(OtherComp(s, k));
    }
  }

  /** Every group is non-empty and is exactly the subsequence of the input
      with its head's key. */
  lemma {:induction false} GroupsKeyed(s: seq<Str>)
    ensures forall i :: 0 <= i < |Groups(s)| ==>
              Groups(s)[i] != [] && Groups(s)[i] == SameComp(s, CompLex(Groups(s)[i][0]))
    decreases |s|
  {
    if s != [] {
      var k := CompLex(s[0]);
      var o := OtherComp(s, k);
      GroupsKeyed(o);
      forall i | 0 < i < |Groups(s)|
        ensures Groups(s)[i] != [] && Groups(s)[i] == SameComp(s, CompLex(Groups(s)[i][0]))
      {
        var g := Groups(o)[i - 1];
        assert Groups(s)[i] == g;
        assert g[0] in g;
        assert CompLex(g[0]) != k;
        SameOfOther(s, k, CompLex(g[0]));
      }
    }
  }

  /** Every group is non-empty and holds only input candidates. */
  lemma {:induction false} GroupsFromInput(s: seq<Str>)
    ensures forall i :: 0 <= i < |Groups(s)| ==> Groups(s)[i] != []
    ensures forall i, x :: 0 <= i < |Groups(s)| && x in Groups(s)[i] ==> x in s
    decreases |s|
  {
    if s != [] {
      var k := CompLex(s[0]);
      GroupsFromInput(OtherComp(s, k));
      assert Groups(s) == [SameComp(s, k)] + Groups(OtherComp(s, k));
    }
  }

  /** No two groups share a key. */
  lemma {:induction false} GroupsDistinct(s: seq<Str>)
    ensures forall i :: 0 <= i < |Groups(s)| ==> Groups(s)[i] != []
    ensures forall i, j :: 0 <= i < j < |Groups(s)| ==>
              CompLex(Groups(s)[i][0]) != CompLex(Groups(s)[j][0])
    decreases |s|
  {
    GroupsFromInput(s);
    if s != [] {
      var k := CompLex(s[0]);
      var o := OtherComp(s, k);
      var gs := Groups(s);
      var go := Groups(o);
      GroupsDistinct(o);
      GroupsFromInput(o);
      assert gs == [SameComp(s, k)] + go;
      assert gs[0][0] == s[0];
      forall j | 0 <= j < |go| ensures go[j] != [] && CompLex(go[j][0]) != k {
        HeadNotKey(o, go[j], k);
      }
      DistinctCons(SameComp(s, k), go, k);
    }
  }

  /** Putting a group of key `k` in front of groups with distinct keys other
      than `k` keeps the keys distinct. */
  lemma DistinctCons(g0: seq<Str>, go: seq<seq<Str>>, k: Str)
    requires g0 != [] && CompLex(g0[0]) == k
    requires forall j :: 0 <= j < |go| ==> go[j] != [] && CompLex(go[j][0]) != k
    requires forall i, j :: 0 <= i < j < |go| ==> CompLex(go[i][0]) != CompLex(go[j][0])
    ensures forall i, j :: 0 <= i < j < |[g0] + go| ==>
              CompLex(([g0] + go)[i][0]) != CompLex(([g0] + go)[j][0])
  {
    var gs := [g0] + go;
    forall i, j | 0 <= i < j < |gs| ensures CompLex(gs[i][0]) != CompLex(gs[j][0]) {
      assert gs[j] == go[j - 1];
      if i > 0 {
        assert gs[i] == go[i - 1];
      }
    }
  }

  /** A group of the candidates left after key `k` does not start with key `k`. */
  lemma HeadNotKey(o: seq<Str>, g: seq<Str>, k: Str)
    requires g != [] && (forall x :: x in g ==> x in o)
    requires forall x :: x in o ==> CompLex(x) != k
    ensures CompLex(g[0]) != k
  {
    assert g[0] in g;
  }

  /** The groups come in the order in which their heads occur in the input. */
  lemma {:induction false} GroupHeadsInOrder(s: seq<Str>)
    ensures forall i :: 0 <= i < |Groups(s)| ==> Groups(s)[i] != []
    ensures IsSubseq(Heads(Groups(s)), s)
    decreases |s|
  {
    GroupsKeyed(s);
    if s != [] {
      var k := CompLex(s[0]);
      var o := OtherComp(s, k);
      GroupHeadsInOrder(o);
      assert Groups(s)[1..] == Groups(o);
      assert o == OtherComp(s[1..], k);
      OtherIsSubseq(s[1..], k);
      SubseqTrans(Heads(Groups(o)), o, s[1..]);
      assert Heads(Groups(s)) == [s[0]] + Heads(Groups(o));
    }
  }

  /** The head of a key's group is the first candidate with that key. */
  lemma {:induction false} SameCompHead(s: seq<Str>, k: Str)
    requires SameComp(s, k) != []
    ensures exists i :: 0 <= i < |s| && s[i] == SameComp(s, k)[0] && CompLex(s[i]) == k &&
                        forall j :: 0 <= j < i ==> CompLex(s[j]) != k
  {
    if CompLex(s[0]) != k {
      SameCompHead(s[1..], k);
      var i :| 0 <= i < |s[1..]| && s[1..][i] == SameComp(s[1..], k)[0] && CompLex(s[1..][i]) == k &&
               forall j :: 0 <= j < i ==> CompLex(s[1..][j]) != k;
      assert s[i + 1] == SameComp(s, k)[0];
      forall j | 0 <= j < i + 1 ensures CompLex(s[j]) != k {
        if j > 0 { assert s[j] == s[1..][j - 1]; }
      }
    }
  }

  // ---------------------------------------------------- comp_lex examples

  lemma {:induction false} BeforeDotsAfterBase(b: Str, x: Str)
    requires '.' !in b
    ensures BeforeDots(b + ".." + x) == b
  {
    if b != [] {
      assert (b + ".." + x)[1..] == b[1..] + ".." + x;
      BeforeDotsAfterBase(b[1..], x);
    }
  }

  lemma {:induction false} LastColonBeforeDigits(s: Str, r: Str)
    requires ':' !in r
    ensures LastColon(s + ":" + r) == Some(|s|)
    decreases |r|
  {
    var w := s + ":" + r;
    if r != [] {
      assert w[|w| - 1] == r[|r| - 1];
      assert w[..|w| - 1] == s + ":" + r[..|r| - 1];
      LastColonBeforeDigits(s, r[..|r| - 1]);
    }
  }

  lemma TrailingRefOf(s: Str, r: Str)
    requires s != [] && r != [] && AllDigits(r)
    ensures TrailingRef(s + ":" + r) == Some(r)
  {
    assert ':' !in r by {
      forall i | 0 <= i < |r| ensures r[i] != ':' { assert IsDigit(r[i]); }
    }
    LastColonBeforeDigits(s, r);
    assert (s + ":" + r)[|s| + 1..] == r;
  }

  /** Two candidates with the same base and reference number share the key
      whatever their part-of-speech tag and sense number. */
  lemma CompLexIgnoresTag(b: Str, tag: Str, r: Str)
    requires '.' !in b && r != [] && AllDigits(r)
    ensures CompLex(b + ".." + tag + ":" + r) == b + r
  {
    TrailingRefOf(b + ".." + tag, r);
    assert b + ".." + tag + ":" + r == b + ".." + (tag + ":" + r);
    BeforeDotsAfterBase(b, tag + ":" + r);
  }

  /** Without a trailing reference the key is the base. */
  lemma CompLexNoRef(b: Str, tag: Str)
    requires '.' !in b && ':' !in b && ':' !in tag
    ensures CompLex(b + ".." + tag) == b
  {
    var w := b + ".." + tag;
    assert ':' !in w by {
      forall i | 0 <= i < |w| ensures w[i] != ':' {
        if i >= |b| + 2 { assert w[i] == tag[i - |b| - 2] && tag[i - |b| - 2] in tag; }
        else if i >= |b| { assert w[i] == '.'; }
        else { assert w[i] == b[i] && b[i] in b; }
      }
    }
    BeforeDotsAfterBase(b, tag);
  }
}

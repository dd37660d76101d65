/** `check_mwe(sentence, mode)` (lines 420-658): one sentence of a Korp
    corpus in, one entry per kept word position out, every multi-word
    expression written only at the position of its first word. */
module Contract {
  import opened Seqs
  import opened Lexes
  import opened Materialise
  import opened Peeling
  import opened Savelex
  import opened Join
  import opened Selection
  import opened Validity

  /** A child element of the sentence: whether it is a `w` element, its
      annotation attribute for the mode, and its text. */
  datatype Word = Word(isWord: bool, attr: Str, text: Option<Str>)

  /** `None` returned on purpose (a non-`w` element, too many combinations),
      an exception raised on the way, or the list of entries. */
  datatype Outcome = Inapplicable | Crashed | Lexes(out: seq<Option<Str>>)

  /** Line 552: the largest number of combinations that is tried. */
  const Cutoff: nat := 500000

  predicate AllWords(sentence: seq<Word>)
  {
    forall i :: 0 <= i < |sentence| ==> sentence[i].isWord
  }

  /** Line 450: the non-empty `|`-separated candidates. */
  function Candidates(attr: Str): seq<Str>
  {
    SplitNonEmpty(attr, '|')
  }

  /** Lines 450-467: the candidate list of one word. A word with MWE
      candidates keeps all of them (merged by `join_identicals` unless in
      lemma mode); otherwise the word text, or the `|`-join of the
      candidates, is its only entry. */
  function LexList(w: Word, mode: Str, sep: char): (r: seq<Str>)
  {
    var lexes := Candidates(w.attr);
    if MwesOf(lexes, sep) != [] then
      (if mode != "lemma" then Joined(lexes) else lexes)
    else if lexes == [] then
      [match w.text case None => "noword" case Some(s) => s]
    else [JoinWith(lexes, '|')]
  }

  function LexLists(sentence: seq<Word>, mode: Str, sep: char): (r: seq<seq<Str>>)
    ensures |r| == |sentence|
    ensures forall i :: 0 <= i < |sentence| ==> r[i] == LexList(sentence[i], mode, sep)
  {
    seq(|sentence|, i requires 0 <= i < |sentence| => LexList(sentence[i], mode, sep))
  }

  /** `[lex for wlexes in lexlists for lex in wlexes]` */
  function Flatten(ls: seq<seq<Str>>): seq<Str>
  {
    if ls == [] then [] else ls[0] + Flatten(ls[1..])
  }

  /** Line 472: some attribute holds the separator other than at its start. */
  predicate AnyMweAttr(sentence: seq<Word>, sep: char)
  {
    exists i :: 0 <= i < |sentence| && HasInnerSep(sentence[i].attr, sep)
  }

  /** Lines 509-511: every candidate of every other word, without `:\d+`. */
  function FlatStrippedExcept(ls: seq<seq<Str>>, i: nat): seq<Str>
    requires i < |ls|
  {
    var others := ls[..i] + ls[i + 1..];
    StripAll(Flatten(others))
  }

  function StripAll(xs: seq<Str>): (r: seq<Str>)
    ensures |r| == |xs|
  {
    if xs == [] then [] else [StripRefs(xs[0])] + StripAll(xs[1..])
  }

  /** Lines 514-518: some MWE candidate, without `:\d+`, is also a candidate
      of another word. */
  predicate Identicals(mwes: seq<Str>, flat: seq<Str>)
  {
    exists k :: 0 <= k < |mwes| && StripRefs(mwes[k]) in flat
  }

  /** The candidates that are not MWE candidates (line 523). */
  function NonMwes(lexes: seq<Str>, sep: char): seq<Str>
  {
    if lexes == [] then []
    else (if !IsMwe(lexes[0], sep) then [lexes[0]] else []) + NonMwes(lexes[1..], sep)
  }

  /** Lines 485-533: the initial `savelex` entry of word `i`. */
  function EntryFor(ls: seq<seq<Str>>, i: nat, sep: char): Entry
    requires i < |ls|
  {
    var lexes := ls[i];
    var mwes := MwesOf(lexes, sep);
    if |lexes| == 1 && !IsMwe(lexes[0], sep) then Resolved(lexes[0])
    else if lexes == [] then Resolved("")
    else if mwes == [] then Resolved(JoinWith(lexes, '|'))
    else if !Identicals(mwes, FlatStrippedExcept(ls, i)) then
      var nonMwes := NonMwes(lexes, sep);
      Resolved(if nonMwes != [] then nonMwes[0] else lexes[0])
    else Unresolved
  }

  function InitialSlots(ls: seq<seq<Str>>, sep: char): (r: seq<Entry>)
    ensures |r| == |ls|
    ensures forall i :: 0 <= i < |ls| ==> r[i] == EntryFor(ls, i, sep)
  {
    seq(|ls|, i requires 0 <= i < |ls| => EntryFor(ls, i, sep))
  }

  /** `uslist`: the candidate lists of the words left `None`, in order. */
  function Pending(ls: seq<seq<Str>>, sep: char, n: nat): seq<seq<Str>>
    requires n <= |ls|
  {
    if n == 0 then []
    else Pending(ls, sep, n - 1) + (if EntryFor(ls, n - 1, sep) == Unresolved then [ls[n - 1]] else [])
  }

  /** Lines 547-550: the number of combinations. */
  function ProductSize(ls: seq<seq<Str>>): nat
  {
    if ls == [] then 1 else |ls[0]| * ProductSize(ls[1..])
  }

  function PrependEach(x: Str, ps: seq<Comb>): (r: seq<Comb>)
    ensures |r| == |ps|
    ensures forall k :: 0 <= k < |ps| ==> r[k] == [x] + ps[k]
  {
    seq(|ps|, k requires 0 <= k < |ps| => [x] + ps[k])
  }

  function ProductRow(xs: seq<Str>, ps: seq<Comb>): seq<Comb>
  {
    if xs == [] then [] else PrependEach(xs[0], ps) + ProductRow(xs[1..], ps)
  }

  /** `list(itertools.product(*ls))`, the last list varying fastest. */
  function Product(ls: seq<seq<Str>>): seq<Comb>
  {
    if ls == [] then [[]] else ProductRow(ls[0], Product(ls[1..]))
  }

  /** Lines 598-607: a combination that is one MWE spanning all of its
      entries. */
  predicate FullSpan(c: Comb, sep: char)
  {
    c != [] && !StartsWith(c[0], [sep]) && CountChar(c[0], sep) + 1 == |c| && FirstMweLength(c) == |c|
  }

  // --------------------------------------------------------------- methods

  /** `check_mwe(sentence, mode)`. */
  method CheckMwe(sentence: seq<Word>, mode: Str) returns (outcome: Outcome)
    ensures !AllWords(sentence) ==> outcome == Inapplicable
    ensures AllWords(sentence) && !AnyMweAttr(sentence, SepFor(mode)) ==>
              outcome == Lexes(SomeAll(Flatten(LexLists(sentence, mode, SepFor(mode)))))
    ensures var sep := SepFor(mode);
            var ls := LexLists(sentence, mode, sep);
            AllWords(sentence) && AnyMweAttr(sentence, sep) && Pending(ls, sep, |ls|) == [] ==>
              outcome == Lexes(Values(InitialSlots(ls, sep)))
    ensures var sep := SepFor(mode);
            var ls := LexLists(sentence, mode, sep);
            outcome == Inapplicable <==>
              !AllWords(sentence) ||
              (AnyMweAttr(sentence, sep) && Pending(ls, sep, |ls|) != [] &&
               ProductSize(Pending(ls, sep, |ls|)) > Cutoff)
    ensures var sep := SepFor(mode);
            outcome.Lexes? && AllWords(sentence) && AnyMweAttr(sentence, sep) ==> |outcome.out| <= |sentence|
  {
    var sep := SepFor(mode);
    var ok, ls := BuildLexLists(sentence, mode, sep);
    if !ok {
      return Inapplicable;
    }
    var anyMwe := HasMweAttr(sentence, sep);
    if !anyMwe {
      return Lexes(SomeAll(Flatten(ls)));
    }
    var slots, uslist := Classify(ls, sep);
    if uslist == [] {
      return Lexes(Values(slots));
    }
    var comblength := CombLength(uslist);
    if comblength > Cutoff {
      return Inapplicable;
    }
    var combinations := Product(uslist);
    ProductCovers(uslist);
    var valid := GetValidCombinations(combinations, slots, sep);
    var pm := new PositionMap(slots);
    if valid == [] {
      var c := FirstWithMwe(combinations, sep);
      if c.None? {
        if combinations == [] {
          return Crashed;
        }
        c := Some(combinations[0]);
      }
      outcome := ToOutcome(pm, c.value);
      return;
    }
    outcome := Narrow(pm, valid, sep);
  }

  /** Lines 439-467: `ok == false` where the loop returns `None`. */
  method BuildLexLists(sentence: seq<Word>, mode: Str, sep: char) returns (ok: bool, ls: seq<seq<Str>>)
    ensures ok == AllWords(sentence)
    ensures ok ==> ls == LexLists(sentence, mode, sep)
  {
    ls := [];
    var i := 0;
    while i < |sentence|
      invariant 0 <= i <= |sentence|
      invariant AllWords(sentence[..i])
      invariant ls == LexLists(sentence[..i], mode, sep)
    {
      if !sentence[i].isWord {
        assert !AllWords(sentence) by { assert !sentence[i].isWord; }
        return false, [];
      }
      var lexes := WordLexes(sentence[i], mode, sep);
      LexListsSnoc(sentence, i, mode, sep);
      ls := ls + [lexes];
      i := i + 1;
    }
    assert sentence[..i] == sentence;
    ok := true;
  }

  lemma LexListsSnoc(sentence: seq<Word>, i: nat, mode: Str, sep: char)
    requires i < |sentence|
    ensures AllWords(sentence[..i]) && sentence[i].isWord ==> AllWords(sentence[..i + 1])
    ensures LexLists(sentence[..i + 1], mode, sep) ==
            LexLists(sentence[..i], mode, sep) + [LexList(sentence[i], mode, sep)]
  {
    var a := LexLists(sentence[..i + 1], mode, sep);
    var b := LexLists(sentence[..i], mode, sep) + [LexList(sentence[i], mode, sep)];
    assert |a| == |b|;
    forall j | 0 <= j < |a| ensures a[j] == b[j] {
      assert sentence[..i + 1][j] == sentence[j];
    }
  }

  /** The body of the loop at lines 439-467 for a `w` element. */
  method WordLexes(w: Word, mode: Str, sep: char) returns (lexes: seq<Str>)
    ensures lexes == LexList(w, mode, sep)
  {
    var text := if w.text.None? then "noword" else w.text.value;
    lexes := Candidates(w.attr);
    var mwes := CollectMwes(lexes, sep);
    if mwes != [] {
      if mode != "lemma" {
        lexes := JoinIdenticals(lexes);
      }
    } else if lexes == [] {
      lexes := [text];
    } else {
      lexes := [JoinWith(lexes, '|')];
    }
  }

  /** Line 472. */
  method HasMweAttr(sentence: seq<Word>, sep: char) returns (any: bool)
    ensures any == AnyMweAttr(sentence, sep)
  {
    var i := 0;
    while i < |sentence|
      invariant 0 <= i <= |sentence|
      invariant forall j :: 0 <= j < i ==> !HasInnerSep(sentence[j].attr, sep)
    {
      if HasInnerSep(sentence[i].attr, sep) {
        return true;
      }
      i := i + 1;
    }
    return false;
  }

  /** Lines 482-533: the initial `savelex` and `uslist`. */
  method Classify(ls: seq<seq<Str>>, sep: char) returns (slots: seq<Entry>, uslist: seq<seq<Str>>)
    ensures slots == InitialSlots(ls, sep)
    ensures uslist == Pending(ls, sep, |ls|)
    ensures UnresolvedCount(slots) == |uslist|
  {
    slots, uslist := [], [];
    var i := 0;
    while i < |ls|
      invariant 0 <= i <= |ls|
      invariant slots == InitialSlots(ls, sep)[..i]
      invariant uslist == Pending(ls, sep, i)
      invariant UnresolvedCount(slots) == |uslist|
    {
      var e := ClassifyWord(ls, i, sep);
      ClassifyStep(ls, sep, i, slots, uslist);
      slots := slots + [e];
      if e == Unresolved {
        uslist := uslist + [ls[i]];
      }
      i := i + 1;
    }
    assert InitialSlots(ls, sep)[..i] == InitialSlots(ls, sep);
  }

  /** One pass of the loop at lines 485-533: the word's entry is appended,
      and its candidate list too when the entry is `None`. */
  lemma ClassifyStep(ls: seq<seq<Str>>, sep: char, i: nat, slots: seq<Entry>, uslist: seq<seq<Str>>)
    requires i < |ls| && slots == InitialSlots(ls, sep)[..i]
    requires uslist == Pending(ls, sep, i) && UnresolvedCount(slots) == |uslist|
    ensures var e := EntryFor(ls, i, sep);
      && InitialSlots(ls, sep)[..i + 1] == slots + [e]
      && Pending(ls, sep, i + 1) == uslist + (if e == Unresolved then [ls[i]] else [])
      && UnresolvedCount(slots + [e]) == |Pending(ls, sep, i + 1)|
  {
    UnresolvedCountSnoc(slots, EntryFor(ls, i, sep));
  }

  /** The body of the loop at lines 485-533 for word `i`. */
  method ClassifyWord(ls: seq<seq<Str>>, i: nat, sep: char) returns (e: Entry)
    requires i < |ls|
    ensures e == EntryFor(ls, i, sep)
  {
    var lexes := ls[i];
    var mwes := CollectMwes(lexes, sep);
    if |lexes| == 1 && !IsMwe(lexes[0], sep) {
      return Resolved(lexes[0]);
    } else if lexes == [] {
      return Resolved("");
    } else if mwes == [] {
      return Resolved(JoinWith(lexes, '|'));
    }
    var allFlat := FlatStrippedExcept(ls, i);
    var identicals := false;
    var k := 0;
    while k < |mwes|
      invariant 0 <= k <= |mwes|
      invariant forall j :: 0 <= j < k ==> StripRefs(mwes[j]) !in allFlat
    {
      if StripRefs(mwes[k]) in allFlat {
        identicals := true;
        break;
      }
      k := k + 1;
    }
    if !identicals {
      var nonMwes := NonMwes(lexes, sep);
      e := Resolved(if nonMwes != [] then nonMwes[0] else lexes[0]);
    } else {
      e := Unresolved;
    }
  }

  /** Lines 547-550. */
  method CombLength(uslist: seq<seq<Str>>) returns (n: nat)
    ensures n == ProductSize(uslist)
  {
    n := 1;
    var i := |uslist|;
    while i > 0
      invariant 0 <= i <= |uslist|
      invariant n == ProductSize(uslist[i..])
    {
      i := i - 1;
      assert uslist[i..][1..] == uslist[i + 1..];
      n := |uslist[i]| * n;
    }
  }

  /** The combination at `k` is the first whose first entry holds the
      separator other than at its start. */
  predicate FirstMweAt(combinations: seq<Comb>, k: nat, sep: char)
    requires k < |combinations|
  {
    && combinations[k] != [] && HasInnerSep(combinations[k][0], sep)
    && forall j :: 0 <= j < k && combinations[j] != [] ==> !HasInnerSep(combinations[j][0], sep)
  }

  /** Lines 573-575: the first combination whose first entry holds the
      separator other than at its start. */
  method FirstWithMwe(combinations: seq<Comb>, sep: char) returns (c: Option<Comb>)
    ensures c.Some? ==> exists k :: 0 <= k < |combinations| && combinations[k] == c.value && FirstMweAt(combinations, k, sep)
    ensures c.None? ==> forall k :: 0 <= k < |combinations| && combinations[k] != [] ==>
                          !HasInnerSep(combinations[k][0], sep)
  {
    var k := 0;
    while k < |combinations|
      invariant 0 <= k <= |combinations|
      invariant forall j :: 0 <= j < k && combinations[j] != [] ==> !HasInnerSep(combinations[j][0], sep)
    {
      if combinations[k] != [] && HasInnerSep(combinations[k][0], sep) {
        assert FirstMweAt(combinations, k, sep);
        return Some(combinations[k]);
      }
      k := k + 1;
    }
    return None;
  }

  /** `return combination_to_out(c, savelex)`. */
  method ToOutcome(pm: PositionMap, c: Comb) returns (outcome: Outcome)
    modifies pm
    ensures outcome == match Materialised(old(pm.slots), c)
                       case None => Crashed
                       case Some(m) => Lexes(m.out)
    ensures outcome.Lexes? ==> |outcome.out| <= KeyCount(old(pm.slots))
  {
    var ok, out := pm.CombinationToOut(c);
    if !ok {
      return Crashed;
    }
    if c != [] {
      MaterialisedFacts(old(pm.slots), c);
    }
    return Lexes(out);
  }

  /** Lines 584-658: narrowing the valid combinations down to one. */
  method Narrow(pm: PositionMap, valid0: seq<Comb>, sep: char) returns (outcome: Outcome)
    modifies pm
    ensures outcome != Inapplicable
    ensures outcome.Lexes? ==> |outcome.out| <= KeyCount(old(pm.slots))
  {
    ghost var n := |pm.slots|;
    var valid := Filter(RemoveIdenticals(valid0), NonEmpty);
    if FirstUnresolved(pm.slots).None? {
      return Lexes(Values(pm.slots));
    }
    if |valid| == 1 {
      outcome := ToOutcome(pm, valid[0]);
      return;
    }
    var k := 0;
    while k < |valid|
      invariant 0 <= k <= |valid|
    {
      assert valid[k] in valid;
      if FullSpan(valid[k], sep) {
        outcome := ToOutcome(pm, valid[k]);
        return;
      }
      k := k + 1;
    }
    var maxc := GetMaxMweWords(valid, sep);
    if |maxc| == 1 {
      outcome := ToOutcome(pm, maxc[0]);
      return;
    }
    var last := |maxc| + 1;
    while |maxc| < last
      invariant |pm.slots| == n
      invariant KeyCount(pm.slots) <= KeyCount(old(pm.slots))
      decreases last
    {
      if |maxc| == 1 {
        outcome := ToOutcome(pm, maxc[0]);
        return;
      } else if |maxc| == 0 {
        outcome := ToOutcome(pm, []);
        return;
      }
      last := |maxc|;
      var ok;
      ok, maxc := RemoveLeadingStep(pm, maxc, sep);
      if !ok {
        return Crashed;
      }
      maxc := GetBestLeftmost(maxc);
      ok, maxc := SaveFirstStep(pm, maxc);
      if !ok {
        return Crashed;
      }
    }
    if maxc == [] {
      return Crashed;
    }
    last := |maxc[0]| + 1;
    while maxc != [] && |maxc[0]| < last
      invariant |pm.slots| == n
      invariant KeyCount(pm.slots) <= KeyCount(old(pm.slots))
      decreases last
    {
      if maxc[0] == [] {
        outcome := ToOutcome(pm, []);
        return;
      }
      last := |maxc[0]|;
      var ok;
      ok, maxc := RemoveLeadingStep(pm, maxc, sep);
      if !ok {
        return Crashed;
      }
      ok, maxc := SaveFirstStep(pm, maxc);
      if !ok {
        return Crashed;
      }
    }
    if maxc == [] {
      outcome := ToOutcome(pm, []);
    } else {
      outcome := ToOutcome(pm, maxc[0]);
    }
  }

  /** `remove_leading_non_mwes`, which only fills `None` slots and so keeps
      the number of keys. */
  method RemoveLeadingStep(pm: PositionMap, cs: seq<Comb>, sep: char) returns (ok: bool, reduced: seq<Comb>)
    modifies pm
    ensures ok == LeadingPeeled(cs, old(pm.slots), sep).Some?
    ensures ok ==> pm.slots == LeadingPeeled(cs, old(pm.slots), sep).value.slots
    ensures ok ==> reduced == LeadingPeeled(cs, old(pm.slots), sep).value.combos
    ensures ok ==> |pm.slots| == |old(pm.slots)| && KeyCount(pm.slots) == KeyCount(old(pm.slots))
  {
    ghost var t := pm.slots;
    ok, reduced := pm.RemoveLeadingNonMwes(cs, sep);
    if ok {
      LeadingPeeledSlots(cs, t, sep);
      OnlyFillsKeyCount(t, pm.slots);
    } else {
      reduced := [];
    }
  }

  /** `save_first_mwe`, which pops keys and never adds one. */
  method SaveFirstStep(pm: PositionMap, cs: seq<Comb>) returns (ok: bool, reduced: seq<Comb>)
    modifies pm
    ensures ok == FirstMweSaved(cs, old(pm.slots)).Some?
    ensures ok ==> pm.slots == FirstMweSaved(cs, old(pm.slots)).value.slots
    ensures ok ==> reduced == FirstMweSaved(cs, old(pm.slots)).value.combos
    ensures ok ==> |pm.slots| == |old(pm.slots)| && KeyCount(pm.slots) <= KeyCount(old(pm.slots))
  {
    ghost var t := pm.slots;
    ok, reduced := pm.SaveFirstMwe(cs);
    if ok {
      FirstMweSavedFacts(cs, t);
      KeyCountMono(t, pm.slots);
    } else {
      reduced := [];
    }
  }

  // ---------------------------------------------------------------- lemmas

  lemma {:induction false} UnresolvedCountSnoc(t: seq<Entry>, e: Entry)
    ensures UnresolvedCount(t + [e]) == UnresolvedCount(t) + (if e == Unresolved then 1 else 0)
  {
    if t != [] {
      assert (t + [e])[1..] == t[1..] + [e];
      UnresolvedCountSnoc(t[1..], e);
    }
  }

  /** `c` takes its `j`-th entry from the `j`-th list, for every `j`. */
  predicate Picks(c: Comb, ls: seq<seq<Str>>)
  {
    |c| == |ls| && forall j :: 0 <= j < |ls| ==> c[j] in ls[j]
  }

  lemma {:induction false} ProductRowShape(xs: seq<Str>, ps: seq<Comb>)
    ensures forall c :: c in ProductRow(xs, ps) ==> c != [] && c[0] in xs && c[1..] in ps
  {
    if xs != [] {
      ProductRowShape(xs[1..], ps);
      var a := PrependEach(xs[0], ps);
      forall c | c in ProductRow(xs, ps) ensures c != [] && c[0] in xs && c[1..] in ps {
        if c in a {
          var k :| 0 <= k < |a| && a[k] == c;
          assert c[1..] == ps[k];
        } else {
          assert c in ProductRow(xs[1..], ps);
        }
      }
    }
  }

  lemma {:induction false} ProductRowComplete(xs: seq<Str>, ps: seq<Comb>, x: Str, p: Comb)
    requires x in xs && p in ps
    ensures [x] + p in ProductRow(xs, ps)
  {
    if xs[0] == x {
      var k :| 0 <= k < |ps| && ps[k] == p;
      assert PrependEach(x, ps)[k] == [x] + p;
    } else {
      ProductRowComplete(xs[1..], ps, x, p);
    }
  }

  /** The combinations are exactly the ways of picking one candidate per
      pending word. */
  lemma {:induction false} ProductExactly(ls: seq<seq<Str>>)
    ensures forall c :: c in Product(ls) <==> Picks(c, ls)
  {
    if ls != [] {
      var ps := Product(ls[1..]);
      ProductExactly(ls[1..]);
      ProductRowShape(ls[0], ps);
      forall c | Picks(c, ls) ensures c in Product(ls) {
        assert Picks(c[1..], ls[1..]) by {
          forall j | 0 <= j < |ls| - 1 ensures c[1..][j] in ls[1..][j] {
            assert c[j + 1] in ls[j + 1];
          }
        }
        ProductRowComplete(ls[0], ps, c[0], c[1..]);
        assert c == [c[0]] + c[1..];
      }
      forall c | c in Product(ls) ensures Picks(c, ls) {
        assert Picks(c[1..], ls[1..]);
        forall j | 0 <= j < |ls| ensures c[j] in ls[j] {
          if j > 0 {
            assert c[j] == c[1..][j - 1];
          }
        }
      }
    }
  }

  lemma ProductCovers(uslist: seq<seq<Str>>)
    ensures forall t: seq<Entry> :: UnresolvedCount(t) == |uslist| ==> Covers(Product(uslist), t)
  {
    ProductExactly(uslist);
    assert forall k :: 0 <= k < |Product(uslist)| ==> Product(uslist)[k] in Product(uslist);
  }

  lemma {:induction false} ProductRowSize(xs: seq<Str>, ps: seq<Comb>)
    ensures |ProductRow(xs, ps)| == |xs| * |ps|
  {
    if xs != [] {
      ProductRowSize(xs[1..], ps);
    }
  }

  /** The number of combinations is the product of the list lengths. */
  lemma {:induction false} ProductSizeIsCount(ls: seq<seq<Str>>)
    ensures |Product(ls)| == ProductSize(ls)
  {
    if ls != [] {
      ProductSizeIsCount(ls[1..]);
      ProductRowSize(ls[0], Product(ls[1..]));
    }
  }

  lemma {:induction false} FlattenSingletons(ls: seq<seq<Str>>)
    requires forall i :: 0 <= i < |ls| ==> |ls[i]| == 1
    ensures |Flatten(ls)| == |ls|
    ensures forall i :: 0 <= i < |ls| ==> Flatten(ls)[i] == ls[i][0]
  {
    if ls != [] {
      FlattenSingletons(ls[1..]);
    }
  }

  /** When no attribute holds the separator at all, every word has exactly
      one entry: its text when it has no candidates, else the `|`-join of its
      candidates. */
  lemma OneEntryPerWord(sentence: seq<Word>, mode: Str)
    requires forall i :: 0 <= i < |sentence| ==> SepFor(mode) !in sentence[i].attr
    ensures var ls := LexLists(sentence, mode, SepFor(mode));
      && |Flatten(ls)| == |sentence|
      && forall i :: 0 <= i < |sentence| ==>
           Flatten(ls)[i] == (if Candidates(sentence[i].attr) == []
                              then (match sentence[i].text case None => "noword" case Some(s) => s)
                              else JoinWith(Candidates(sentence[i].attr), '|'))
  {
    var sep := SepFor(mode);
    var ls := LexLists(sentence, mode, sep);
    forall i | 0 <= i < |sentence| ensures MwesOf(Candidates(sentence[i].attr), sep) == [] {
      CandidatesWithout(sentence[i].attr, sep);
      NoMwes(Candidates(sentence[i].attr), sep);
    }
    FlattenSingletons(ls);
  }

  /** A character missing from the attribute is missing from its candidates. */
  lemma CandidatesWithout(attr: Str, sep: char)
    requires sep !in attr
    ensures forall l :: l in Candidates(attr) ==> !IsMwe(l, sep)
  {
    SplitWithout(attr, '|', sep);
  }

  lemma {:induction false} SplitWithout(s: Str, d: char, x: char)
    requires x !in s
    ensures forall l :: l in Split(s, d) ==> x !in l
  {
    if s != [] {
      assert s[0] in s;
      assert forall c :: c in s[1..] ==> c in s;
      SplitWithout(s[1..], d, x);
    }
  }
}

/** Candidate strings `BASE[..TAG][:REF]` and the string operations that
    Swectors/contract.py performs on them with `str` methods and regular
    expressions. Each regular expression is written out as a function over
    characters; input strings are taken to hold no newline. */
module Lexes {
  import opened Seqs

  type Str = seq<char>

  /** One candidate per pending word position (an `itertools.product` tuple). */
  type Comb = seq<Str>

  /** The multi-word separator: a space in lemma mode, an underscore otherwise. */
  function SepFor(mode: Str): (sep: char)
    ensures mode == "lemma" ==> sep == ' '
    ensures mode != "lemma" ==> sep == '_'
  {
    if mode == "lemma" then ' ' else '_'
  }

  predicate IsDigit(c: char) { '0' <= c <= '9' }

  predicate AllDigits(s: Str) { forall i :: 0 <= i < |s| ==> IsDigit(s[i]) }

  predicate StartsWith(s: Str, p: Str) { |p| <= |s| && s[..|p|] == p }

  /** `sep in l and not l.startswith(sep)` */
  predicate HasInnerSep(l: Str, sep: char)
  {
    sep in l && !StartsWith(l, [sep])
  }

  /** A multi-word candidate: the separator occurs, not at the start, and the
      candidate is not a URL. */
  predicate IsMwe(l: Str, sep: char)
  {
    HasInnerSep(l, sep) && !StartsWith(l, "http")
  }

  /** `'..' in s` */
  predicate HasDoubleDot(s: Str)
  {
    exists i :: 0 <= i < |s| - 1 && s[i] == '.' && s[i + 1] == '.'
  }

  /** No `:` directly followed by a digit. */
  predicate NoRefs(s: Str)
  {
    forall i :: 0 <= i < |s| - 1 && s[i] == ':' ==> !IsDigit(s[i + 1])
  }

  /** The leading run of digits. */
  function TakeDigits(s: Str): (r: Str)
    ensures |r| <= |s| && r == s[..|r|] && AllDigits(r)
    ensures |r| < |s| ==> !IsDigit(s[|r|])
  {
    if s != [] && IsDigit(s[0]) then [s[0]] + TakeDigits(s[1..]) else []
  }

  /** What follows the leading run of digits. */
  function DropDigits(s: Str): (r: Str)
    ensures |r| <= |s| && r == s[|TakeDigits(s)|..]
  {
    if s != [] && IsDigit(s[0]) then DropDigits(s[1..]) else s
  }

  /** `re.sub(':\d+', '', s)`: deletes every `:` together with the maximal
      run of digits after it. */
  function StripRefs(s: Str): (r: Str)
    ensures |r| <= |s|
    decreases |s|
  {
    if s == [] then []
    else if s[0] == ':' && |s| > 1 && IsDigit(s[1]) then StripRefs(DropDigits(s[1..]))
    else [s[0]] + StripRefs(s[1..])
  }

  /** `s.split('..')[0]`: everything before the first `..`. */
  function BeforeDots(s: Str): Str
  {
    if |s| < 2 then s
    else if s[0] == '.' && s[1] == '.' then []
    else [s[0]] + BeforeDots(s[1..])
  }

  /** `re.sub('\.\..+', '', s)`: cuts at the first `..` that has at least one
      character after it (unlike `BeforeDots`, a trailing `..` stays). */
  function CutDotsTail(s: Str): Str
  {
    if |s| < 3 then s
    else if s[0] == '.' && s[1] == '.' then []
    else [s[0]] + CutDotsTail(s[1..])
  }

  /** Index of the last `:`. */
  function LastColon(s: Str): (r: Option<nat>)
    ensures r.Some? ==> r.value < |s| && s[r.value] == ':' && ':' !in s[r.value + 1..]
    ensures r.None? ==> ':' !in s
  {
    if s == [] then None
    else if s[|s| - 1] == ':' then Some(|s| - 1)
    else
      var r := LastColon(s[..|s| - 1]);
      assert r.Some? ==> s[r.value + 1..] == s[..|s| - 1][r.value + 1..] + [s[|s| - 1]];
      assert s == s[..|s| - 1] + [s[|s| - 1]];
      r
  }

  /** `s.split(':')[-1]` */
  function AfterLastColon(s: Str): Str
  {
    match LastColon(s)
    case None => s
    case Some(p) => s[p + 1..]
  }

  /** `':'.join(s.split(':')[:-1])` */
  function BeforeLastColon(s: Str): Str
  {
    match LastColon(s)
    case None => []
    case Some(p) => s[..p]
  }

  /** The digits after the final colon when `re.match('.+:\d+$', s)` holds. */
  function TrailingRef(s: Str): (r: Option<Str>)
    ensures r.Some? ==> r.value != [] && AllDigits(r.value) && |r.value| + 2 <= |s| && s[|s| - |r.value| - 1] == ':'
  {
    match LastColon(s)
    case None => None
    case Some(p) =>
      if 1 <= p && p + 1 < |s| && AllDigits(s[p + 1..]) then Some(s[p + 1..]) else None
  }

  /** The largest `q` in `1..p` with `s[q] == ':'` followed by a digit: the
      colon that the greedy group `(.+:)` of `(.+:)(\d+)` settles on. */
  function RefColon(s: Str, p: nat): (r: Option<nat>)
    requires p < |s|
    ensures r.Some? ==> 1 <= r.value <= p && r.value + 1 < |s| && s[r.value] == ':' && IsDigit(s[r.value + 1])
    decreases p
  {
    if p == 0 then None
    else if s[p] == ':' && p + 1 < |s| && IsDigit(s[p + 1]) then Some(p)
    else RefColon(s, p - 1)
  }

  /** Group 2 of `re.match('(.+:)(\d+)', s)`, or `None` when there is no match. */
  function RefDigits(s: Str): (r: Option<Str>)
    ensures r.Some? ==> r.value != [] && AllDigits(r.value)
  {
    if s == [] then None
    else
      match RefColon(s, |s| - 1)
      case None => None
      case Some(q) => Some(TakeDigits(s[q + 1..]))
  }

  /** `int(d)` for a string of decimal digits. */
  function DigitsValue(d: Str): nat
    requires AllDigits(d)
  {
    if d == [] then 0
    else DigitsValue(d[..|d| - 1]) * 10 + (d[|d| - 1] as int - '0' as int)
  }

  /** `int(t)`: an optional sign followed by decimal digits; `None` stands for
      the `ValueError` Python raises otherwise. */
  function ParseInt(t: Str): Option<int>
  {
    if |t| > 1 && (t[0] == '+' || t[0] == '-') && AllDigits(t[1..]) then
      var n: int := DigitsValue(t[1..]);
      Some(if t[0] == '-' then -n else n)
    else if t != [] && AllDigits(t) then Some(DigitsValue(t))
    else None
  }

  /** `s.count(c)`, which is `len(s.split(c)) - 1` for a single character. */
  function CountChar(s: Str, c: char): nat
  {
    if s == [] then 0 else (if s[0] == c then 1 else 0) + CountChar(s[1..], c)
  }

  /** `d.join(xs)` */
  function JoinWith(xs: seq<Str>, d: char): Str
  {
    if xs == [] then []
    else if |xs| == 1 then xs[0]
    else xs[0] + [d] + JoinWith(xs[1..], d)
  }

  /** `s.split(d)` */
  function Split(s: Str, d: char): (r: seq<Str>)
    ensures |r| >= 1
  {
    if s == [] then [[]]
    else
      var rest := Split(s[1..], d);
      if s[0] == d then [[]] + rest else [[s[0]] + rest[0]] + rest[1..]
  }

  /** `[l for l in s.split(d) if l]` */
  function SplitNonEmpty(s: Str, d: char): seq<Str>
  {
    Filter(Split(s, d), (x: Str) => x != [])
  }

  // ---------------------------------------------------------------- lemmas

  /** After `StripRefs`, no digit starts the text when none started it before. */
  lemma {:induction false} StripRefsHead(s: Str)
    requires s == [] || !IsDigit(s[0])
    ensures StripRefs(s) == [] || !IsDigit(StripRefs(s)[0])
    decreases |s|
  {
    if s != [] && s[0] == ':' && |s| > 1 && IsDigit(s[1]) {
      var t := DropDigits(s[1..]);
      StripRefsHead(t);
    }
  }

  /** `re.sub(':\d+', '', s)` leaves no `:` followed by a digit. */
  lemma {:induction false} StripRefsNoRefs(s: Str)
    ensures NoRefs(StripRefs(s))
    decreases |s|
  {
    if s == [] {
    } else if s[0] == ':' && |s| > 1 && IsDigit(s[1]) {
      StripRefsNoRefs(DropDigits(s[1..]));
    } else {
      StripRefsNoRefs(s[1..]);
      var r := StripRefs(s[1..]);
      if s[0] == ':' {
        StripRefsHead(s[1..]);
      }
      assert StripRefs(s) == [s[0]] + r;
      forall i | 0 <= i < |StripRefs(s)| - 1 && StripRefs(s)[i] == ':'
        ensures !IsDigit(StripRefs(s)[i + 1])
      {
        if i > 0 { assert StripRefs(s)[i] == r[i - 1] && StripRefs(s)[i + 1] == r[i]; }
      }
    }
  }

  /** A string with no reference suffix is left alone. */
  lemma {:induction false} StripRefsNoOp(s: Str)
    requires NoRefs(s)
    ensures StripRefs(s) == s
    decreases |s|
  {
    if s != [] {
      assert !(s[0] == ':' && |s| > 1 && IsDigit(s[1]));
      assert NoRefs(s[1..]) by {
        forall i | 0 <= i < |s[1..]| - 1 && s[1..][i] == ':' ensures !IsDigit(s[1..][i + 1]) {
          assert s[1..][i] == s[i + 1] && s[1..][i + 1] == s[i + 2];
        }
      }
      StripRefsNoOp(s[1..]);
    }
  }

  /** Stripping references twice is the same as stripping them once. */
  lemma StripRefsIdempotent(s: Str)
    ensures StripRefs(StripRefs(s)) == StripRefs(s)
  {
    StripRefsNoRefs(s);
    StripRefsNoOp(StripRefs(s));
  }

  /** `s.split('..')[0]` is a prefix of `s` holding no `..`, and is all of `s`
      when `s` holds none. */
  lemma {:induction false} BeforeDotsPrefix(s: Str)
    ensures StartsWith(s, BeforeDots(s))
    ensures !HasDoubleDot(BeforeDots(s))
    ensures !HasDoubleDot(s) ==> BeforeDots(s) == s
    decreases |s|
  {
    if |s| < 2 {
    } else if s[0] == '.' && s[1] == '.' {
    } else {
      BeforeDotsPrefix(s[1..]);
      var r := BeforeDots(s[1..]);
      assert BeforeDots(s) == [s[0]] + r;
      forall i | 0 <= i < |BeforeDots(s)| - 1
        ensures !(BeforeDots(s)[i] == '.' && BeforeDots(s)[i + 1] == '.')
      {
        if i == 0 {
          assert BeforeDots(s)[1] == r[0] == s[1];
        } else {
          assert BeforeDots(s)[i] == r[i - 1] && BeforeDots(s)[i + 1] == r[i];
        }
      }
      if !HasDoubleDot(s) {
        forall i | 0 <= i < |s[1..]| - 1 ensures !(s[1..][i] == '.' && s[1..][i + 1] == '.') {
          assert s[1..][i] == s[i + 1] && s[1..][i + 1] == s[i + 2];
        }
      }
    }
  }

  /** Splitting and re-joining on the same delimiter gives the string back,
      and no piece holds the delimiter. */
  lemma {:induction false} SplitJoin(s: Str, d: char)
    ensures JoinWith(Split(s, d), d) == s
    ensures forall k :: 0 <= k < |Split(s, d)| ==> d !in Split(s, d)[k]
    decreases |s|
  {
    if s != [] {
      SplitJoin(s[1..], d);
      var rest := Split(s[1..], d);
      if s[0] == d {
        assert Split(s, d) == [[]] + rest;
        assert Split(s, d)[1..] == rest;
      } else {
        var r := Split(s, d);
        assert r[1..] == rest[1..];
        if |rest| == 1 {
          assert r == [[s[0]] + rest[0]];
        } else {
          assert rest == [rest[0]] + rest[1..];
          assert JoinWith(rest, d) == rest[0] + [d] + JoinWith(rest[1..], d);
        }
        forall k | 0 <= k < |r| ensures d !in r[k] {
          if k > 0 { assert r[k] == rest[k]; }
        }
      }
    }
  }
}

/** The Python string built-ins that `check_breach` relies on: `str.strip()`,
    `str.join`, and `str(int)` / f-string rendering of integers, together with
    the small readers (`StripPrefix`, `ReadUntil`, `Split`, `ParseNat`,
    `ParseInt`) that undo them. */
module Strings {
  import opened Wrappers

  /** The characters for which Python's `str.isspace()` holds, which are the
      characters `str.strip()` removes when called without arguments. */
  predicate IsSpace(c: char) {
    ('\U{9}' <= c <= '\U{D}') || ('\U{1C}' <= c <= '\U{20}') ||
    c == '\U{85}' || c == '\U{A0}' || c == '\U{1680}' ||
    ('\U{2000}' <= c <= '\U{200A}') || c == '\U{2028}' || c == '\U{2029}' ||
    c == '\U{202F}' || c == '\U{205F}' || c == '\U{3000}'
  }

  /** Every character of `s` is whitespace. */
  predicate AllSpace(s: string) {
    forall k :: 0 <= k < |s| ==> IsSpace(s[k])
  }

  /** Every character of `s` outside the positions `lo..hi` is whitespace. */
  predicate SpaceOutside(s: string, lo: int, hi: int) {
    forall k :: 0 <= k < |s| && !(lo <= k < hi) ==> IsSpace(s[k])
  }

  /** `r` is what remains of `s` once all leading and all trailing whitespace
      is cut off: a slice of `s` with only whitespace around it, which neither
      starts nor ends with whitespace. */
  ghost predicate IsStripOf(s: string, r: string) {
    (exists i :: StripsAt(s, r, i)) && (r != [] ==> !IsSpace(r[0]) && !IsSpace(r[|r| - 1]))
  }

  /** `r` stands at position `i` of `s` with only whitespace around it. */
  predicate StripsAt(s: string, r: string, i: int) {
    0 <= i <= |s| - |r| && s[i..i + |r|] == r && SpaceOutside(s, i, i + |r|)
  }

  function StripStart(s: string): (r: string)
    ensures |r| <= |s| && r == s[|s| - |r|..]
    ensures SpaceOutside(s, |s| - |r|, |s|)
    ensures r != [] ==> !IsSpace(r[0])
  {
    if s != [] && IsSpace(s[0]) then StripStart(s[1..]) else s
  }

  function StripEnd(s: string): (r: string)
    ensures |r| <= |s| && r == s[..|r|]
    ensures SpaceOutside(s, 0, |r|)
    ensures r != [] ==> !IsSpace(r[|r| - 1])
  {
    if s != [] && IsSpace(s[|s| - 1]) then StripEnd(s[..|s| - 1]) else s
  }

  /** Python's `s.strip()`. */
  function Strip(s: string): (r: string)
    ensures IsStripOf(s, r)
  {
    StripBothEnds(s);
    StripEnd(StripStart(s))
  }

  lemma StripBothEnds(s: string)
    ensures IsStripOf(s, StripEnd(StripStart(s)))
  {
    var t := StripStart(s);
    var r := StripEnd(t);
    var i := |s| - |t|;
    assert t == s[i..];
    assert r == t[..|r|];
    assert s[i..i + |r|] == r;
    forall k | 0 <= k < |s| && !(i <= k < i + |r|)
      ensures IsSpace(s[k])
    {
      if k >= i + |r| {
        assert s[k] == t[k - i];
      }
    }
    assert StripsAt(s, r, i);
    if r != [] {
      assert r[0] == t[0];
    }
  }

  /** `IsStripOf` leaves no choice: `Strip` is the only function meeting it. */
  lemma StripIsUnique(s: string, r1: string, r2: string)
    requires IsStripOf(s, r1) && IsStripOf(s, r2)
    ensures r1 == r2
  {
    var i1 :| StripsAt(s, r1, i1);
    var i2 :| StripsAt(s, r2, i2);
    if r1 != [] && r2 != [] {
      assert s[i1] == r1[0] && s[i2] == r2[0];
      assert s[i1 + |r1| - 1] == r1[|r1| - 1] && s[i2 + |r2| - 1] == r2[|r2| - 1];
      assert i1 == i2 && |r1| == |r2|;
    }
  }

  /** Whitespace added around a text is removed again by `Strip`. */
  lemma StripPadded(pre: string, s: string, post: string)
    requires AllSpace(pre) && AllSpace(post)
    ensures Strip(pre + s + post) == Strip(s)
  {
    var r := Strip(s);
    var i :| StripsAt(s, r, i);
    var t := pre + s + post;
    StripsAtPadded(pre, s, post, r, i);
    assert IsStripOf(t, r);
    StripIsUnique(t, Strip(t), r);
  }

  lemma StripsAtPadded(pre: string, s: string, post: string, r: string, i: int)
    requires AllSpace(pre) && AllSpace(post) && StripsAt(s, r, i)
    ensures StripsAt(pre + s + post, r, |pre| + i)
  {
    var t := pre + s + post;
    var j := |pre| + i;
    assert t[j..j + |r|] == s[i..i + |r|];
    forall k | 0 <= k < |t| && !(j <= k < j + |r|)
      ensures IsSpace(t[k])
    {
      if k < |pre| {
        assert t[k] == pre[k];
      } else if k < |pre| + |s| {
        assert t[k] == s[k - |pre|];
      } else {
        assert t[k] == post[k - |pre| - |s|];
      }
    }
  }

  /** Python's `sep.join(xs)`: the elements in their order, `sep` between neighbours. */
  function Join(xs: seq<string>, sep: string): (r: string)
    ensures xs == [] ==> r == []
    ensures |xs| == 1 ==> r == xs[0]
    ensures |xs| > 1 ==> xs[0] + sep <= r
  {
    if |xs| == 0 then [] else if |xs| == 1 then xs[0] else xs[0] + sep + Join(xs[1..], sep)
  }

  /** A character that occurs in no element and not in the separator does not occur in the join. */
  lemma {:induction false} JoinAvoids(xs: seq<string>, sep: string, c: char)
    requires c !in sep
    requires forall i :: 0 <= i < |xs| ==> c !in xs[i]
    ensures c !in Join(xs, sep)
  {
    if |xs| > 1 {
      JoinAvoids(xs[1..], sep, c);
    }
  }

  /** Cuts `s` into the pieces between occurrences of `sep`, where the first
      character of `sep` is taken to start a separator wherever it occurs. */
  function Split(s: string, sep: string): (r: seq<string>)
    requires sep != []
    ensures r != []
    decreases |s|
  {
    match ReadUntil(s, sep[0])
    case None => [s]
    case Some((a, b)) =>
      if sep[1..] <= b then [a] + Split(b[|sep| - 1..], sep) else [s]
  }

  /** `Split` undoes `Join` when no element contains the separator's first
      character; the empty list is the one exception, since it joins to the
      same empty text as the list holding one empty string. */
  lemma {:induction false} SplitJoin(xs: seq<string>, sep: string)
    requires sep != [] && xs != []
    requires forall i :: 0 <= i < |xs| ==> sep[0] !in xs[i]
    ensures Split(Join(xs, sep), sep) == xs
  {
    if |xs| == 1 {
      assert Join(xs, sep) == xs[0];
    } else {
      var rest := Join(xs[1..], sep);
      assert Join(xs, sep) == xs[0] + [sep[0]] + (sep[1..] + rest);
      ReadUntilOf(xs[0], sep[0], sep[1..] + rest);
      assert (sep[1..] + rest)[|sep| - 1..] == rest;
      SplitJoin(xs[1..], sep);
    }
  }

  /** `s` with the prefix `p` removed, or None when `s` does not start with `p`. */
  function StripPrefix(p: string, s: string): (r: Option<string>)
    ensures r.Some? <==> p <= s
    ensures r.Some? ==> s == p + r.value
  {
    if p <= s then Some(s[|p|..]) else None
  }

  lemma StripPrefixOf(p: string, t: string)
    ensures StripPrefix(p, p + t) == Some(t)
  {
    assert (p + t)[|p|..] == t;
  }

  /** The text before the first `d` in `s` and the text after it, or None when
      `d` does not occur in `s`. */
  function ReadUntil(s: string, d: char): (r: Option<(string, string)>)
    ensures r.None? <==> d !in s
    ensures r.Some? ==> s == r.value.0 + [d] + r.value.1 && d !in r.value.0
  {
    if s == [] then None
    else if s[0] == d then Some(([], s[1..]))
    else
      match ReadUntil(s[1..], d)
      case None => None
      case Some((a, b)) => Some(([s[0]] + a, b))
  }

  lemma {:induction false} ReadUntilOf(a: string, d: char, b: string)
    requires d !in a
    ensures ReadUntil(a + [d] + b, d) == Some((a, b))
    ensures ReadUntil(a + ([d] + b), d) == Some((a, b))
  {
    assert a + [d] + b == a + ([d] + b);
    if a == [] {
      assert a + [d] + b == [d] + b;
    } else {
      assert (a + [d] + b)[1..] == a[1..] + [d] + b;
      ReadUntilOf(a[1..], d, b);
      assert [a[0]] + a[1..] == a;
    }
  }

  predicate IsDigit(c: char) {
    '0' <= c <= '9'
  }

  predicate AllDigits(s: string) {
    forall i :: 0 <= i < |s| ==> IsDigit(s[i])
  }

  function DigitChar(d: nat): (c: char)
    requires d < 10
    ensures IsDigit(c) && c as int - '0' as int == d
  {
    (d + '0' as int) as char
  }

  /** Python's `str(n)` for a non-negative integer: its decimal digits, most
      significant first, with no leading zero. */
  function NatToDecimal(n: nat): (r: string)
    ensures r != [] && AllDigits(r)
    ensures r[0] == '0' <==> n == 0
    ensures n == 0 ==> r == "0"
  {
    if n < 10 then [DigitChar(n)] else NatToDecimal(n / 10) + [DigitChar(n % 10)]
  }

  function DigitsValue(s: string): nat
    requires AllDigits(s)
  {
    if s == [] then 0 else DigitsValue(s[..|s| - 1]) * 10 + (s[|s| - 1] as int - '0' as int)
  }

  /** The number a non-empty run of decimal digits denotes. */
  function ParseNat(s: string): Option<nat> {
    if s != [] && AllDigits(s) then Some(DigitsValue(s)) else None
  }

  lemma {:induction false} ParseNatOf(n: nat)
    ensures ParseNat(NatToDecimal(n)) == Some(n)
  {
    if n >= 10 {
      var s, t := NatToDecimal(n / 10), NatToDecimal(n);
      assert t[..|t| - 1] == s;
      ParseNatOf(n / 10);
      assert DigitsValue(t) == DigitsValue(s) * 10 + n % 10;
    }
  }

  /** Python's `str(i)` for any integer: a minus sign before the digits of a negative number. */
  function IntToDecimal(i: int): (r: string)
    ensures r != [] && ' ' !in r
    ensures r[0] == '-' <==> i < 0
    ensures var d := if i < 0 then r[1..] else r;
      d != [] && AllDigits(d) && (d[0] == '0' <==> i == 0)
  {
    if i < 0 then "-" + NatToDecimal(-i) else NatToDecimal(i)
  }

  function ParseInt(s: string): Option<int> {
    if s != [] && s[0] == '-' then
      match ParseNat(s[1..])
      case Some(n) => Some(-(n as int))
      case None => None
    else
      match ParseNat(s)
      case Some(n) => Some(n)
      case None => None
  }

  lemma ParseIntOf(i: int)
    ensures ParseInt(IntToDecimal(i)) == Some(i)
  {
    var s := IntToDecimal(i);
    if i < 0 {
      var d := NatToDecimal(-i);
      assert s == "-" + d && s[0] == '-';
      assert s[1..] == d;
      ParseNatOf(-i);
    } else {
      assert s == NatToDecimal(i);
      assert IsDigit(s[0]);
      ParseNatOf(i);
    }
  }

  /** `(a + b) + c == a + (b + c)`, stated so that a proof can choose where to apply it. */
  lemma Assoc(a: string, b: string, c: string)
    ensures (a + b) + c == a + (b + c)
  {
  }
}

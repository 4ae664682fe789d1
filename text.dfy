/** String operations the modelled Python code relies on: decimal digits
    (`int()`, `str()`, `%02d`), `str.rstrip`, `str.endswith`, `str.join` and
    `str.find`. Only ASCII digits are digits here. */
module Text {
  import opened Wrappers

  predicate IsDigit(c: char) {
    '0' <= c <= '9'
  }

  predicate AllDigits(s: string) {
    forall i :: 0 <= i < |s| ==> IsDigit(s[i])
  }

  function DigitValue(c: char): (d: nat)
    requires IsDigit(c)
    ensures d < 10
  {
    c as int - '0' as int
  }

  function DigitChar(d: nat): (c: char)
    requires d < 10
    ensures IsDigit(c) && DigitValue(c) == d
  {
    ('0' as int + d) as char
  }

  /** The number a string of decimal digits denotes, as Python's `int()` reads it. */
  function DigitsValue(s: string): nat
    requires AllDigits(s)
  {
    if |s| == 0 then 0 else DigitsValue(s[..|s| - 1]) * 10 + DigitValue(s[|s| - 1])
  }

  function Pow10(w: nat): (p: nat)
    ensures p >= 1
  {
    if w == 0 then 1 else 10 * Pow10(w - 1)
  }

  /** The last `w` decimal digits of `n`, zero-padded, as `'%0*d' % (w, n)` writes a number below 10^w. */
  function PadDigits(n: nat, w: nat): (r: string)
    ensures |r| == w && AllDigits(r)
  {
    if w == 0 then "" else PadDigits(n / 10, w - 1) + [DigitChar(n % 10)]
  }

  lemma DigitsValueSnoc(s: string, c: char)
    requires AllDigits(s) && IsDigit(c)
    ensures AllDigits(s + [c]) && DigitsValue(s + [c]) == DigitsValue(s) * 10 + DigitValue(c)
  {
    assert (s + [c])[..|s|] == s;
  }

  /** The value of a two-digit string, digit by digit. */
  lemma DigitsValueTwo(a: char, b: char)
    requires IsDigit(a) && IsDigit(b)
    ensures AllDigits([a, b]) && DigitsValue([a, b]) == DigitValue(a) * 10 + DigitValue(b)
  {
    assert DigitsValue([a]) == DigitValue(a) by {
      assert [a][..0] == [];
    }
    assert [a, b][..1] == [a];
  }

  /** The value of a four-digit string, digit by digit. */
  lemma DigitsValueFour(a: char, b: char, c: char, d: char)
    requires IsDigit(a) && IsDigit(b) && IsDigit(c) && IsDigit(d)
    ensures AllDigits([a, b, c, d])
    ensures DigitsValue([a, b, c, d]) == ((DigitValue(a) * 10 + DigitValue(b)) * 10 + DigitValue(c)) * 10 + DigitValue(d)
  {
    DigitsValueTwo(a, b);
    DigitsValueSnoc([a, b], c);
    assert [a, b] + [c] == [a, b, c];
    DigitsValueSnoc([a, b, c], d);
    assert [a, b, c] + [d] == [a, b, c, d];
  }

  /** Zero-padding loses nothing when the number fits: reading the digits back gives `n`. */
  lemma {:induction false} PadDigitsValue(n: nat, w: nat)
    requires n < Pow10(w)
    ensures DigitsValue(PadDigits(n, w)) == n
  {
    if w > 0 {
      assert n / 10 < Pow10(w - 1);
      PadDigitsValue(n / 10, w - 1);
      DigitsValueSnoc(PadDigits(n / 10, w - 1), DigitChar(n % 10));
    }
  }

  /** `str(n)` for a natural number: no sign, no leading zero. */
  function NatToString(n: nat): (r: string)
    ensures |r| >= 1 && AllDigits(r)
    ensures r[0] == '0' ==> n == 0
  {
    if n < 10 then [DigitChar(n)] else NatToString(n / 10) + [DigitChar(n % 10)]
  }

  lemma {:induction false} NatToStringValue(n: nat)
    ensures DigitsValue(NatToString(n)) == n
  {
    if n >= 10 {
      NatToStringValue(n / 10);
      DigitsValueSnoc(NatToString(n / 10), DigitChar(n % 10));
    }
  }

  /** `str(i)` for a Python int. */
  function IntToString(i: int): (r: string)
    ensures |r| >= 1 && IsDigit(r[|r| - 1])
    ensures r[0] == '-' <==> i < 0
  {
    if i < 0 then "-" + NatToString(-i) else NatToString(i)
  }

  /** `s.rstrip(chars)`: the longest prefix of `s` that does not end in one of `chars`. */
  function RStrip(s: string, chars: set<char>): (r: string)
    ensures |r| <= |s| && r == s[..|r|]
    ensures |r| == 0 || r[|r| - 1] !in chars
    ensures forall k :: |r| <= k < |s| ==> s[k] in chars
  {
    if |s| > 0 && s[|s| - 1] in chars then RStrip(s[..|s| - 1], chars) else s
  }

  /** Stripping `p + t` where `t` is made of stripped characters and `p` does not end in one gives back `p`. */
  lemma {:induction false} RStripSuffix(p: string, t: string, chars: set<char>)
    requires |p| == 0 || p[|p| - 1] !in chars
    requires forall k :: 0 <= k < |t| ==> t[k] in chars
    ensures RStrip(p + t, chars) == p
  {
    if |t| == 0 {
      assert p + t == p;
    } else {
      assert (p + t)[..|p + t| - 1] == p + t[..|t| - 1];
      RStripSuffix(p, t[..|t| - 1], chars);
    }
  }

  /** Appending only stripped characters does not change what `rstrip` leaves. */
  lemma RStripAppendStripped(s: string, t: string, chars: set<char>)
    requires forall k :: 0 <= k < |t| ==> t[k] in chars
    ensures RStrip(s + t, chars) == RStrip(s, chars)
  {
    var p := RStrip(s, chars);
    var rest := s[|p|..] + t;
    assert s + t == p + rest;
    forall k | 0 <= k < |rest| ensures rest[k] in chars {
      if k < |s| - |p| {
        assert rest[k] == s[|p| + k];
      } else {
        assert rest[k] == t[k - (|s| - |p|)];
      }
    }
    RStripSuffix(p, rest, chars);
  }

  /** `rstrip` is idempotent. */
  lemma RStripIdempotent(s: string, chars: set<char>)
    ensures RStrip(RStrip(s, chars), chars) == RStrip(s, chars)
  {
    var p := RStrip(s, chars);
    RStripSuffix(p, "", chars);
    assert p + "" == p;
  }

  lemma ConcatAssoc(a: string, b: string, c: string)
    ensures a + b + c == a + (b + c)
  {
  }

  predicate EndsWith(s: string, suffix: string) {
    |suffix| <= |s| && s[|s| - |suffix|..] == suffix
  }

  /** A suffix survives text added in front, and grows by what is added behind. */
  lemma EndsWithAround(p: string, s: string, suffix: string, t: string)
    requires EndsWith(s, suffix)
    ensures EndsWith(p + s + t, suffix + t)
  {
    var w := p + s + t;
    assert w[|w| - |suffix + t|..] == s[|s| - |suffix|..] + t;
  }

  /** `sep.join(parts)`. */
  function Join(parts: seq<string>, sep: string): string {
    if |parts| == 0 then ""
    else if |parts| == 1 then parts[0]
    else Join(parts[..|parts| - 1], sep) + sep + parts[|parts| - 1]
  }

  /** A joined text starts with its first part. */
  lemma {:induction false} JoinFirst(parts: seq<string>, sep: string)
    requires |parts| > 0
    ensures |parts[0]| <= |Join(parts, sep)| && Join(parts, sep)[..|parts[0]|] == parts[0]
  {
    if |parts| > 1 {
      var init := parts[..|parts| - 1];
      JoinFirst(init, sep);
      var j := Join(init, sep);
      assert (j + sep + parts[|parts| - 1])[..|parts[0]|] == j[..|parts[0]|];
    }
  }

  /** A joined text ends with its last part. */
  lemma JoinLast(parts: seq<string>, sep: string)
    requires |parts| > 0
    ensures EndsWith(Join(parts, sep), parts[|parts| - 1])
  {
    if |parts| > 1 {
      var j := Join(parts[..|parts| - 1], sep);
      var last := parts[|parts| - 1];
      assert (j + sep + last)[|j + sep + last| - |last|..] == last;
    }
  }

  /** A suffix survives text added in front. */
  lemma EndsWithFront(p: string, s: string, suffix: string)
    requires EndsWith(s, suffix)
    ensures EndsWith(p + s, suffix)
  {
    assert (p + s)[|p + s| - |suffix|..] == s[|s| - |suffix|..];
  }

  /** The first position of `c` in `s`, as `s.find(c)` reports it (None for -1). */
  function IndexOf(s: string, c: char): (r: Option<nat>)
    ensures r.None? ==> c !in s
    ensures r.Some? ==> r.value < |s| && s[r.value] == c && c !in s[..r.value]
  {
    if |s| == 0 then None
    else if s[0] == c then Some(0)
    else match IndexOf(s[1..], c)
      case None => None
      case Some(i) =>
        assert s[..i + 1] == [s[0]] + s[1..][..i];
        Some(i + 1)
  }

  /** The first occurrence is unique: a position holding `c` with no `c` before it is what IndexOf finds. */
  lemma IndexOfAt(s: string, c: char, i: nat)
    requires i < |s| && s[i] == c && c !in s[..i]
    ensures IndexOf(s, c) == Some(i)
  {
    assert s[..i + 1][i] == c;
  }
}

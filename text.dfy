/**
 * String helpers the log analyser relies on: rendering an integer the way a
 * Python f-string does, parsing a string the way Python's `int()` does, and
 * `str.join`.
 */
module Text {
  import opened Wrappers

  predicate IsDigit(c: char) { '0' <= c <= '9' }

  predicate AllDigits(s: string) {
    forall i :: 0 <= i < |s| ==> IsDigit(s[i])
  }

  function DigitChar(d: nat): (c: char)
    requires d < 10
    ensures IsDigit(c)
  {
    ('0' as int + d) as char
  }

  function DigitValue(c: char): (d: nat)
    requires IsDigit(c)
    ensures d < 10 && DigitChar(d) == c
  {
    c as int - '0' as int
  }

  /** Decimal digits of `n`, most significant first, without leading zeros. */
  function NatToDigits(n: nat): (s: string)
    ensures |s| >= 1 && AllDigits(s)
    ensures s[0] == '0' ==> n == 0
    decreases n
  {
    if n < 10 then [DigitChar(n)] else NatToDigits(n / 10) + [DigitChar(n % 10)]
  }

  /** The number a string of decimal digits denotes. */
  function DigitsToNat(s: string): nat
    requires AllDigits(s)
  {
    if s == [] then 0 else DigitsToNat(s[..|s| - 1]) * 10 + DigitValue(s[|s| - 1])
  }

  lemma {:induction false} DigitsRoundTrip(n: nat)
    ensures DigitsToNat(NatToDigits(n)) == n
  {
    var s := NatToDigits(n);
    if n >= 10 {
      DigitsRoundTrip(n / 10);
      assert s[..|s| - 1] == NatToDigits(n / 10);
    }
  }

  /** `str(n)` / `f"{n}"` for a Python int. */
  function IntToString(n: int): (s: string)
    ensures |s| >= 1
    ensures s[0] == '-' <==> n < 0
    ensures AllDigits(s[1..])
  {
    if n < 0 then "-" + NatToDigits(-n) else NatToDigits(n)
  }

  /**
   * The ASCII characters Python's `str.strip()` and `int()` treat as
   * whitespace: space, tab, line feed, carriage return, vertical tab, form
   * feed, and the separators 0x1C to 0x1F.
   */
  predicate IsSpace(c: char) {
    c == ' ' || c == '\t' || c == '\n' || c == '\r' || c == '\U{B}' || c == '\U{C}'
      || ('\U{1C}' <= c <= '\U{1F}')
  }

  /** `s` with leading and trailing whitespace removed. */
  function Strip(s: string): (r: string)
    ensures |r| <= |s|
    ensures r != [] ==> !IsSpace(r[0]) && !IsSpace(r[|r| - 1])
    ensures (s == [] || (!IsSpace(s[0]) && !IsSpace(s[|s| - 1]))) ==> r == s
    decreases |s|
  {
    if s != [] && IsSpace(s[0]) then Strip(s[1..])
    else if s != [] && IsSpace(s[|s| - 1]) then Strip(s[..|s| - 1])
    else s
  }

  /** An optional sign followed by one or more decimal digits. */
  function ParseSigned(s: string): (r: Option<int>)
    ensures r.Some? ==> s != [] && (IsDigit(s[0]) || s[0] == '-' || s[0] == '+')
    ensures r.Some? ==> IsDigit(s[|s| - 1])
    ensures r.Some? && r.value < 0 ==> s[0] == '-'
  {
    if s != [] && (s[0] == '-' || s[0] == '+') then
      if |s| > 1 && AllDigits(s[1..]) then
        var magnitude: int := DigitsToNat(s[1..]);
        Some(if s[0] == '-' then -magnitude else magnitude)
      else None
    else if s != [] && AllDigits(s) then Some(DigitsToNat(s))
    else None
  }

  /**
   * The most digits Python's `int()` converts from a string, its default
   * `int_max_str_digits`; leading zeros count, the sign does not.
   */
  const MaxStrDigits := 4300

  /**
   * Python's `int(s)` on a string: surrounding whitespace is ignored, then an
   * optional sign and at least one digit, and at most `MaxStrDigits` digits;
   * anything else is an error (None).
   */
  function ParseInt(s: string): (r: Option<int>)
    ensures r.Some? ==> Strip(s) != [] && IsDigit(Strip(s)[|Strip(s)| - 1])
    ensures r.Some? && r.value < 0 ==> Strip(s)[0] == '-'
    ensures r.Some? ==> |Strip(s)| <= |SignOf(Strip(s))| + MaxStrDigits
  {
    var t := Strip(s);
    if |t| > |SignOf(t)| + MaxStrDigits then None else ParseSigned(t)
  }

  /**
   * Parsing what `IntToString` renders gives the number back, unless it has
   * more digits than `int()` converts.
   */
  lemma IntRoundTrip(n: int)
    ensures ParseInt(IntToString(n)) == if |NatToDigits(Abs(n))| <= MaxStrDigits then Some(n) else None
  {
    RenderedIsStripped(n);
    RenderedParses(n);
    var t := IntToString(n);
    if n < 0 {
      assert t == "-" + NatToDigits(-n) && SignOf(t) == "-";
    } else {
      assert SignOf(t) == "" by { assert IsDigit(t[0]); }
    }
  }

  lemma RenderedIsStripped(n: int)
    ensures Strip(IntToString(n)) == IntToString(n)
  {
    var s := IntToString(n);
    assert !IsSpace(s[0]);
    assert IsDigit(s[|s| - 1]);
  }

  lemma RenderedParses(n: int)
    ensures ParseSigned(IntToString(n)) == Some(n)
  {
    if n < 0 {
      var d := NatToDigits(-n);
      assert IntToString(n) == "-" + d;
      MinusDigitsParse(d);
      assert DigitsToNat(d) == -n by { DigitsRoundTrip(-n); }
    } else {
      var d := NatToDigits(n);
      assert IntToString(n) == d;
      DigitsParse(d);
      assert DigitsToNat(d) == n by { DigitsRoundTrip(n); }
    }
  }

  lemma DigitsParse(d: string)
    requires |d| >= 1 && AllDigits(d)
    ensures ParseSigned(d) == Some(DigitsToNat(d))
  {
    assert IsDigit(d[0]);
  }

  lemma MinusDigitsParse(d: string)
    requires |d| >= 1 && AllDigits(d)
    ensures ParseSigned("-" + d) == Some(0 - DigitsToNat(d) as int)
  {
    assert ("-" + d)[1..] == d;
  }

  /** A string holding only whitespace, or nothing. */
  predicate Blank(s: string) {
    forall i :: 0 <= i < |s| ==> IsSpace(s[i])
  }

  /** A string holding only spaces, or nothing, is not a number. */
  lemma BlankIsNotANumber(s: string)
    requires Blank(s)
    ensures ParseInt(s) == None
  {
    assert Strip(s) == [] by { StripBlank(s); }
  }

  lemma {:induction false} StripBlank(s: string)
    requires Blank(s)
    ensures Strip(s) == []
    decreases |s|
  {
    if s != [] {
      StripBlank(s[1..]);
    }
  }

  /** `k` zero digits. */
  function Zeros(k: nat): (z: string)
    ensures |z| == k && AllDigits(z)
  {
    seq(k, i => '0')
  }

  /** The sign `int()` reads at the front of a stripped string: "+", "-" or none. */
  function SignOf(t: string): string {
    if t != [] && (t[0] == '+' || t[0] == '-') then [t[0]] else ""
  }

  function Abs(n: int): nat {
    if n < 0 then -n else n
  }

  /** A numeral as `int()` reads it: a sign, `k` leading zeros and the canonical digits of `m`. */
  function Numeral(sign: string, k: nat, m: nat): string {
    sign + (Zeros(k) + NatToDigits(m))
  }

  /**
   * `int()` accepts any whitespace-padded, optionally signed, zero-padded
   * decimal numeral of at most `MaxStrDigits` digits, and reads its value;
   * it rejects a longer one.
   */
  lemma PaddedNumeralParses(a: string, sign: string, k: nat, m: nat, b: string)
    requires Blank(a) && Blank(b)
    requires sign == "" || sign == "+" || sign == "-"
    ensures ParseInt(a + Numeral(sign, k, m) + b)
              == if k + |NatToDigits(m)| <= MaxStrDigits then Some(if sign == "-" then -(m as int) else m as int)
                 else None
  {
    NumeralParses(sign, k, m);
    StripPadded(a, Numeral(sign, k, m), b);
  }

  lemma NumeralParses(sign: string, k: nat, m: nat)
    requires sign == "" || sign == "+" || sign == "-"
    ensures var core := Numeral(sign, k, m);
      && core != [] && !IsSpace(core[0]) && !IsSpace(core[|core| - 1])
      && SignOf(core) == sign && |core| == |sign| + k + |NatToDigits(m)|
      && ParseSigned(core) == Some(if sign == "-" then -(m as int) else m as int)
  {
    var digits := PaddedDigits(k, m);
    assert Numeral(sign, k, m) == sign + digits;
    SignedDigitsParse(sign, digits);
  }

  /** The digits of `m` after `k` zeros, with their value. */
  lemma PaddedDigits(k: nat, m: nat) returns (digits: string)
    ensures digits == Zeros(k) + NatToDigits(m)
    ensures |digits| >= 1 && AllDigits(digits) && DigitsToNat(digits) == m
  {
    digits := Zeros(k) + NatToDigits(m);
    DigitsAppend(Zeros(k), NatToDigits(m));
    LeadingZeros(k, NatToDigits(m));
    DigitsRoundTrip(m);
  }

  lemma SignedDigitsParse(sign: string, d: string)
    requires sign == "" || sign == "+" || sign == "-"
    requires |d| >= 1 && AllDigits(d)
    ensures var core := sign + d;
      && core != [] && !IsSpace(core[0]) && !IsSpace(core[|core| - 1]) && SignOf(core) == sign
      && ParseSigned(core) == Some(if sign == "-" then -(DigitsToNat(d) as int) else DigitsToNat(d) as int)
  {
    var core := sign + d;
    assert core[|core| - 1] == d[|d| - 1];
    assert IsDigit(d[0]);
    if sign == "" {
      assert core == d;
      DigitsParse(d);
    } else {
      assert core[0] == sign[0];
      assert SignOf(core) == [core[0]] == sign;
      if sign == "-" {
        MinusDigitsParse(d);
      } else {
        PlusDigitsParse(d);
      }
    }
  }

  lemma PlusDigitsParse(d: string)
    requires |d| >= 1 && AllDigits(d)
    ensures ParseSigned("+" + d) == Some(DigitsToNat(d) as int)
  {
    assert ("+" + d)[1..] == d;
  }

  lemma DigitsAppend(x: string, y: string)
    requires AllDigits(x) && AllDigits(y)
    ensures AllDigits(x + y)
  {
    forall i | 0 <= i < |x + y|
      ensures IsDigit((x + y)[i])
    {
      if i < |x| { assert (x + y)[i] == x[i]; } else { assert (x + y)[i] == y[i - |x|]; }
    }
  }

  /**
   * Conversely, every string `int()` accepts is, once stripped, a sign, some
   * leading zeros and the canonical digits of the value's magnitude.
   */
  lemma NumeralShape(s: string, n: int)
    requires ParseInt(s) == Some(n)
    ensures IsNumeralOf(Strip(s), n)
  {
    var t := Strip(s);
    assert ParseSigned(t) == Some(n);
    SignedShape(t, n);
  }

  /** `t` is a sign, some leading zeros and the canonical digits of `|n|`, and the sign agrees with `n`. */
  predicate IsNumeralOf(t: string, n: int) {
    var sign, c := SignOf(t), NatToDigits(Abs(n));
    && |sign| + |c| <= |t|
    && t == Numeral(sign, |t| - |sign| - |c|, Abs(n))
    && n == (if sign == "-" then -(Abs(n) as int) else Abs(n) as int)
  }

  lemma SignedShape(t: string, n: int)
    requires ParseSigned(t) == Some(n)
    ensures IsNumeralOf(t, n)
  {
    SignedParts(t, n);
    var sign := SignOf(t);
    var d := t[|sign|..];
    assert t == sign + d by { assert t[..|sign|] == sign; }
    CanonicalDigits(d);
  }

  /** What `ParseSigned` accepts is a sign and the digits of the magnitude. */
  lemma SignedParts(t: string, n: int)
    requires ParseSigned(t) == Some(n)
    ensures var sign := SignOf(t);
      && |sign| < |t| && AllDigits(t[|sign|..])
      && Abs(n) == DigitsToNat(t[|sign|..])
      && n == (if sign == "-" then -(Abs(n) as int) else Abs(n) as int)
  {
    if t[0] == '+' || t[0] == '-' {
      assert SignOf(t) == [t[0]];
      assert [t[0]] == "-" <==> t[0] == '-';
    } else {
      assert SignOf(t) == "";
      assert t[0..] == t;
    }
  }

  /** A digit string is some zeros followed by the canonical digits of its value. */
  lemma {:induction false} CanonicalDigits(d: string)
    requires |d| >= 1 && AllDigits(d)
    ensures var c := NatToDigits(DigitsToNat(d));
      |c| <= |d| && d == Zeros(|d| - |c|) + c
    decreases |d|
  {
    var p, last := d[..|d| - 1], d[|d| - 1];
    assert d == p + [last];
    if p == [] {
      assert DigitsToNat(d) == DigitValue(last);
      assert Zeros(0) + [last] == d;
    } else {
      CanonicalDigits(p);
      var np := DigitsToNat(p);
      var c := NatToDigits(DigitsToNat(d));
      if np == 0 {
        assert DigitsToNat(d) == DigitValue(last);
        assert c == [last];
        assert p == Zeros(|p| - 1) + "0";
        assert Zeros(|p| - 1) + "0" == Zeros(|p|);
      } else {
        assert c == NatToDigits(np) + [last] by { AppendDigit(np, last); }
        var cp := NatToDigits(np);
        assert d == (Zeros(|p| - |cp|) + cp) + [last];
      }
    }
  }

  /** Appending a digit to a positive number appends it to the canonical digits. */
  lemma AppendDigit(np: nat, last: char)
    requires np > 0 && IsDigit(last)
    ensures NatToDigits(np * 10 + DigitValue(last)) == NatToDigits(np) + [last]
  {
    var n := np * 10 + DigitValue(last);
    assert n / 10 == np && n % 10 == DigitValue(last);
  }

  /** Leading zeros do not change the value of a digit string. */
  lemma {:induction false} LeadingZeros(k: nat, d: string)
    requires AllDigits(d)
    ensures DigitsToNat(Zeros(k) + d) == DigitsToNat(d)
    decreases |d|
  {
    var z := Zeros(k) + d;
    if d == [] {
      assert z == Zeros(k);
      ZerosValue(k);
    } else {
      assert z[..|z| - 1] == Zeros(k) + d[..|d| - 1];
      LeadingZeros(k, d[..|d| - 1]);
    }
  }

  lemma {:induction false} ZerosValue(k: nat)
    ensures DigitsToNat(Zeros(k)) == 0
  {
    if k > 0 {
      assert Zeros(k)[..k - 1] == Zeros(k - 1);
      ZerosValue(k - 1);
    }
  }

  /** Stripping removes blank padding around a core that neither starts nor ends with whitespace. */
  lemma {:induction false} StripPadded(a: string, core: string, b: string)
    requires Blank(a) && Blank(b)
    requires core != [] && !IsSpace(core[0]) && !IsSpace(core[|core| - 1])
    ensures Strip(a + core + b) == core
    decreases |a| + |b|
  {
    var s := a + core + b;
    if a != [] {
      assert s[0] == a[0];
      assert s[1..] == a[1..] + core + b;
      StripPadded(a[1..], core, b);
    } else if b != [] {
      assert s[0] == core[0];
      assert s[|s| - 1] == b[|b| - 1];
      assert s[..|s| - 1] == a + core + b[..|b| - 1];
      StripPadded(a, core, b[..|b| - 1]);
    } else {
      assert s == core;
    }
  }

  /** Python's `sep.join(parts)`. */
  function Join(parts: seq<string>, sep: string): (r: string)
    ensures parts == [] ==> r == ""
  {
    if parts == [] then ""
    else if |parts| == 1 then parts[0]
    else parts[0] + sep + Join(parts[1..], sep)
  }

  /** Total number of characters in `parts`. */
  function Chars(parts: seq<string>): nat {
    if parts == [] then 0 else |parts[0]| + Chars(parts[1..])
  }

  /** A joined string is as long as all the parts plus one separator per gap between them. */
  lemma {:induction false} JoinLength(parts: seq<string>, sep: string)
    requires parts != []
    ensures |Join(parts, sep)| == Chars(parts) + (|parts| - 1) * |sep|
  {
    if |parts| > 1 {
      JoinLength(parts[1..], sep);
    }
  }

  /** Where part `k` starts in `Join(parts, sep)`: the parts before it and one separator after each. */
  function PartStart(parts: seq<string>, sep: string, k: nat): nat
    requires k <= |parts|
  {
    Chars(parts[..k]) + k * |sep|
  }

  /**
   * A joined string holds every part in order, each at its `PartStart`, and
   * the separator right after each part but the last.
   */
  lemma {:induction false} JoinContents(parts: seq<string>, sep: string, k: nat)
    requires k < |parts|
    ensures var j, o := Join(parts, sep), PartStart(parts, sep, k);
      && o + |parts[k]| <= |j|
      && j[o..o + |parts[k]|] == parts[k]
      && (k < |parts| - 1 ==> o + |parts[k]| + |sep| <= |j| && j[o + |parts[k]|..o + |parts[k]| + |sep|] == sep)
  {
    if k == 0 {
      assert PartStart(parts, sep, 0) == 0 by { assert parts[..0] == []; }
      JoinHead(parts, sep);
    } else {
      var rest := parts[1..];
      var pre := parts[0] + sep;
      var tail := Join(rest, sep);
      JoinContents(rest, sep, k - 1);
      assert Join(parts, sep) == pre + tail;
      PartStartStep(parts, sep, k);
      assert rest[k - 1] == parts[k];
      var o := PartStart(rest, sep, k - 1);
      SliceAfter(pre, tail, o, o + |parts[k]|);
      if k < |parts| - 1 {
        SliceAfter(pre, tail, o + |parts[k]|, o + |parts[k]| + |sep|);
      }
    }
  }

  /** A joined string starts with the first part, followed by the separator when more parts follow. */
  lemma JoinHead(parts: seq<string>, sep: string)
    requires parts != []
    ensures var j := Join(parts, sep);
      && |parts[0]| <= |j| && j[..|parts[0]|] == parts[0]
      && (|parts| > 1 ==> |parts[0]| + |sep| <= |j| && j[|parts[0]|..|parts[0]| + |sep|] == sep)
  {
    if |parts| > 1 {
      var tail := Join(parts[1..], sep);
      assert Join(parts, sep) == parts[0] + (sep + tail);
      SliceBefore(parts[0], sep + tail, 0, |parts[0]|);
      SliceAfter(parts[0], sep + tail, 0, |sep|);
      SliceBefore(sep, tail, 0, |sep|);
    }
  }

  /** Part `k` starts one part and one separator later than part `k - 1` of the tail. */
  lemma PartStartStep(parts: seq<string>, sep: string, k: nat)
    requires 1 <= k <= |parts|
    ensures PartStart(parts, sep, k) == |parts[0]| + |sep| + PartStart(parts[1..], sep, k - 1)
  {
    assert parts[..k][1..] == parts[1..][..k - 1];
    assert k * |sep| == (k - 1) * |sep| + |sep|;
  }

  lemma SliceBefore(a: string, b: string, lo: nat, hi: nat)
    requires lo <= hi <= |a|
    ensures (a + b)[lo..hi] == a[lo..hi]
  {
  }

  lemma SliceAfter(a: string, b: string, lo: nat, hi: nat)
    requires lo <= hi <= |b|
    ensures (a + b)[|a| + lo..|a| + hi] == b[lo..hi]
  {
  }

  /** Joining two non-empty lists is joining each and separating the halves once. */
  lemma {:induction false} JoinAppend(a: seq<string>, b: seq<string>, sep: string)
    requires a != [] && b != []
    ensures Join(a + b, sep) == Join(a, sep) + sep + Join(b, sep)
  {
    if |a| == 1 {
      assert (a + b)[1..] == b;
    } else {
      assert (a + b)[1..] == a[1..] + b;
      JoinAppend(a[1..], b, sep);
    }
  }
}

/** The three JavaScript string primitives the screens rely on:
    `String.prototype.trim` (output file name), `parseInt` (committing a
    page-number field) and `Number.prototype.toString` (page numbers shown
    back in the fields and in range names). */
module Text {
  import opened Wrappers

  /** White space and line terminators as JavaScript's `trim` and
      `parseInt` skip them (sections 12.2 and 12.3 of ECMA-262). */
  predicate IsJsSpace(c: char) {
    var k := c as int;
    k == 0x09 || k == 0x0A || k == 0x0B || k == 0x0C || k == 0x0D || k == 0x20
    || k == 0xA0 || k == 0x1680 || (0x2000 <= k <= 0x200A) || k == 0x2028
    || k == 0x2029 || k == 0x202F || k == 0x205F || k == 0x3000 || k == 0xFEFF
  }

  /** `s` without its leading white space. */
  function TrimStart(s: string): (r: string)
    ensures |r| <= |s| && r == s[|s| - |r|..]
    ensures forall i :: 0 <= i < |s| - |r| ==> IsJsSpace(s[i])
    ensures r == [] || !IsJsSpace(r[0])
    decreases |s|
  {
    if |s| > 0 && IsJsSpace(s[0]) then TrimStart(s[1..]) else s
  }

  /** `s` without its trailing white space. */
  function TrimEnd(s: string): (r: string)
    ensures |r| <= |s| && r == s[..|r|]
    ensures forall i :: |r| <= i < |s| ==> IsJsSpace(s[i])
    ensures r == [] || !IsJsSpace(r[|r| - 1])
    decreases |s|
  {
    if |s| > 0 && IsJsSpace(s[|s| - 1]) then TrimEnd(s[..|s| - 1]) else s
  }

  /** `String.prototype.trim`: the result is a slice of `s` with only
      white space before and after it, empty exactly when `s` is all white
      space, and otherwise neither starting nor ending with white space. */
  function Trim(s: string): (r: string)
    ensures exists i: nat :: Framed(s, r, i)
    ensures (r == []) <==> (forall i :: 0 <= i < |s| ==> IsJsSpace(s[i]))
    ensures r != [] ==> !IsJsSpace(r[0]) && !IsJsSpace(r[|r| - 1])
    ensures |r| <= |s|
  {
    TrimShape(s);
    TrimEnd(TrimStart(s))
  }

  lemma TrimShape(s: string)
    ensures var r := TrimEnd(TrimStart(s));
      && Framed(s, r, |s| - |TrimStart(s)|)
      && ((r == []) <==> (forall i :: 0 <= i < |s| ==> IsJsSpace(s[i])))
      && (r != [] ==> !IsJsSpace(r[0]) && !IsJsSpace(r[|r| - 1]))
  {
    var t := TrimStart(s);
    var r := TrimEnd(t);
    var i := |s| - |t|;
    FramedOf(s, t, r, i);
    assert r != [] ==> r[0] == t[0];
    FramedEmptyIff(s, r, i);
  }

  /** A framed slice that does not start with white space is empty exactly
      when the whole string is white space. */
  lemma FramedEmptyIff(s: string, r: string, i: nat)
    requires Framed(s, r, i) && (r != [] ==> !IsJsSpace(r[0]))
    ensures (r == []) <==> (forall k :: 0 <= k < |s| ==> IsJsSpace(s[k]))
  {
    if r != [] {
      assert s[i] == r[0];
    }
  }

  /** A prefix `r` of the tail `t` of `s` that starts at `i`, with white
      space before `t` and after `r`, is framed in `s`. */
  lemma FramedOf(s: string, t: string, r: string, i: nat)
    requires i + |t| == |s| && t == s[i..] && |r| <= |t| && r == t[..|r|]
    requires forall k :: 0 <= k < i ==> IsJsSpace(s[k])
    requires forall k :: |r| <= k < |t| ==> IsJsSpace(t[k])
    ensures Framed(s, r, i)
  {
    forall k | i + |r| <= k < |s|
      ensures IsJsSpace(s[k])
    {
      assert s[k] == t[k - i];
    }
    assert r == s[i..i + |r|];
  }

  /** `r` is the slice of `s` at `i`, with only white space before and
      after it. */
  predicate Framed(s: string, r: string, i: nat) {
    && i + |r| <= |s| && r == s[i..i + |r|]
    && (forall k :: 0 <= k < i ==> IsJsSpace(s[k]))
    && (forall k :: i + |r| <= k < |s| ==> IsJsSpace(s[k]))
  }

  /** A string that neither starts nor ends with white space is its own trim. */
  lemma TrimOfTrimmed(s: string)
    requires s == [] || (!IsJsSpace(s[0]) && !IsJsSpace(s[|s| - 1]))
    ensures Trim(s) == s
  {
  }

  /** `String.prototype.endsWith`. */
  predicate EndsWith(s: string, suffix: string) {
    |suffix| <= |s| && s[|s| - |suffix|..] == suffix
  }

  /** `endsWith` holds exactly when the string is something followed by
      the suffix. */
  lemma EndsWithIffAppended(s: string, suffix: string)
    ensures EndsWith(s, suffix) <==> exists p :: p + suffix == s
  {
    if EndsWith(s, suffix) {
      var p := s[..|s| - |suffix|];
      assert p + suffix == s;
    }
    if exists p :: p + suffix == s {
      var p :| p + suffix == s;
      assert s[|s| - |suffix|..] == suffix;
    }
  }

  predicate IsDigit(c: char) {
    '0' <= c <= '9'
  }

  predicate AllDigits(s: string) {
    forall i :: 0 <= i < |s| ==> IsDigit(s[i])
  }

  function DigitChar(d: nat): (c: char)
    requires d < 10
    ensures IsDigit(c) && DigitValue(c) == d
  {
    (48 + d) as char
  }

  function DigitValue(c: char): nat
    requires IsDigit(c)
  {
    c as int - 48
  }

  /** The decimal digits of `n`, most significant first, without leading zeros. */
  function NatDigits(n: nat): (r: string)
    ensures |r| > 0 && AllDigits(r)
    ensures |r| > 1 || n > 0 ==> r[0] != '0'
    decreases n
  {
    if n < 10 then [DigitChar(n)] else NatDigits(n / 10) + [DigitChar(n % 10)]
  }

  /** `Number.prototype.toString` on an integer-valued number. */
  function DecimalString(n: int): (r: string)
    ensures r != [] && !IsJsSpace(r[0]) && !IsJsSpace(r[|r| - 1])
    ensures n >= 0 ==> AllDigits(r)
    ensures n < 0 ==> r[0] == '-' && AllDigits(r[1..])
    ensures n >= 0 && |r| > 1 ==> r[0] != '0'
    ensures n < 0 ==> |r| > 1 && r[1] != '0'
  {
    if n < 0 then "-" + NatDigits(-n) else NatDigits(n)
  }

  /** The number a run of decimal digits denotes. */
  function DigitsValue(d: string): nat
    requires AllDigits(d)
    decreases |d|
  {
    if |d| == 0 then 0 else DigitsValue(d[..|d| - 1]) * 10 + DigitValue(d[|d| - 1])
  }

  /** The length of the run of decimal digits `s` starts with. */
  function LeadingDigits(s: string): (n: nat)
    ensures n <= |s| && AllDigits(s[..n])
    ensures n < |s| ==> !IsDigit(s[n])
    decreases |s|
  {
    if |s| > 0 && IsDigit(s[0]) then 1 + LeadingDigits(s[1..]) else 0
  }

  /** The value of the leading digit run, if there is one. */
  function ParseDigits(s: string): Option<nat> {
    var n := LeadingDigits(s);
    if n == 0 then None else Some(DigitsValue(s[..n]))
  }

  /** `s` reads as a number: `w` white-space characters, then `sl` sign
      characters (none or one), then a run of `n` decimal digits, at least
      one, that the next character (if any) does not continue. */
  predicate Numeral(s: string, w: nat, sl: nat, n: nat) {
    && sl <= 1 && 1 <= n && w + sl + n <= |s|
    && (forall i :: 0 <= i < w ==> IsJsSpace(s[i]))
    && (sl == 1 ==> s[w] == '-' || s[w] == '+')
    && AllDigits(s[w + sl..w + sl + n])
    && (w + sl + n == |s| || !IsDigit(s[w + sl + n]))
  }

  /** The number such a text denotes: its digit run, negated after a minus. */
  function NumeralValue(s: string, w: nat, sl: nat, n: nat): int
    requires Numeral(s, w, sl, n)
  {
    var v: int := DigitsValue(s[w + sl..w + sl + n]);
    if sl == 1 && s[w] == '-' then -v else v
  }

  /** `parseInt` in base ten: leading white space is skipped, one optional
      sign is read, then the longest run of decimal digits; anything after
      it is ignored, and no digits at all gives NaN (here `None`). So "007"
      gives 7, "-0" gives 0 and " 12px" gives 12. */
  function ParseInt(s: string): (r: Option<int>)
    ensures forall w: nat, sl: nat, n: nat :: Numeral(s, w, sl, n) ==> r == Some(NumeralValue(s, w, sl, n))
    ensures r.Some? ==> exists w: nat, sl: nat, n: nat :: Numeral(s, w, sl, n)
    ensures (forall i :: 0 <= i < |s| ==> !IsDigit(s[i])) ==> r == None
  {
    NumeralsRead(s);
    ReadNumeral(s);
    ReadNumber(TrimStart(s))
  }

  /** What `parseInt` reads once the white space is skipped: an optional
      sign, then the leading digit run. */
  function ReadNumber(t: string): Option<int> {
    if |t| > 0 && (t[0] == '-' || t[0] == '+') then
      match ParseDigits(t[1..])
      case None => None
      case Some(v) => var x: int := v; Some(if t[0] == '-' then -x else x)
    else
      match ParseDigits(t)
      case None => None
      case Some(v) => Some(v)
  }

  /** White space up to a character that is not white space is exactly
      what `TrimStart` skips. */
  lemma TrimStartAt(s: string, w: nat)
    requires w < |s| && !IsJsSpace(s[w])
    requires forall i :: 0 <= i < w ==> IsJsSpace(s[i])
    ensures TrimStart(s) == s[w..]
  {
    var t := TrimStart(s);
    var m := |s| - |t|;
    assert m <= w;
    assert t != [] ==> t[0] == s[m];
    assert m == w;
  }

  /** Digits and signs are not white space. */
  lemma NotSpace(c: char)
    requires IsDigit(c) || c == '-' || c == '+'
    ensures !IsJsSpace(c)
  {
  }

  /** A text that reads as a number is read as that number. */
  lemma NumeralRead(s: string, w: nat, sl: nat, n: nat)
    requires Numeral(s, w, sl, n)
    ensures ReadNumber(TrimStart(s)) == Some(NumeralValue(s, w, sl, n))
  {
    NumeralTrim(s, w, sl, n);
    NumeralReadTrimmed(s, w, sl, n);
  }

  /** The white space of such a text is what `TrimStart` skips. */
  lemma NumeralTrim(s: string, w: nat, sl: nat, n: nat)
    requires Numeral(s, w, sl, n)
    ensures TrimStart(s) == s[w..]
  {
    assert IsDigit(s[w + sl..w + sl + n][0]);
    NotSpace(s[w]);
    TrimStartAt(s, w);
  }

  lemma NumeralReadTrimmed(s: string, w: nat, sl: nat, n: nat)
    requires Numeral(s, w, sl, n)
    ensures ReadNumber(s[w..]) == Some(NumeralValue(s, w, sl, n))
  {
    var t := s[w..];
    var d := s[w + sl..w + sl + n];
    var tail := s[w + sl + n..];
    SliceSplit(s, w, sl, n);
    assert tail != [] ==> tail[0] == s[w + sl + n];
    ReadRun(t, sl, d, tail);
    assert sl == 1 ==> t[0] == s[w];
  }

  /** Cutting a slice in two. */
  lemma SliceSplit<T>(s: seq<T>, w: nat, sl: nat, n: nat)
    requires w + sl + n <= |s|
    ensures s[w..][sl..] == s[w + sl..w + sl + n] + s[w + sl + n..]
  {
  }

  /** Text made of an optional sign, a digit run and a tail that does not
      continue it reads as the run's value, negated after a minus. */
  lemma ReadRun(t: string, sl: nat, d: string, tail: string)
    requires sl <= 1 && sl <= |t| && t[sl..] == d + tail
    requires d != [] && AllDigits(d) && (tail == [] || !IsDigit(tail[0]))
    requires sl == 1 ==> t[0] == '-' || t[0] == '+'
    ensures var v: int := DigitsValue(d);
      ReadNumber(t) == Some(if sl == 1 && t[0] == '-' then -v else v)
  {
    ParseDigitsOfRun(d, tail);
    if sl == 0 {
      assert t == d + tail && t[0] == d[0];
    }
  }

  lemma NumeralsRead(s: string)
    ensures forall w: nat, sl: nat, n: nat :: Numeral(s, w, sl, n)
              ==> ReadNumber(TrimStart(s)) == Some(NumeralValue(s, w, sl, n))
  {
    forall w: nat, sl: nat, n: nat | Numeral(s, w, sl, n)
      ensures ReadNumber(TrimStart(s)) == Some(NumeralValue(s, w, sl, n))
    {
      NumeralRead(s, w, sl, n);
    }
  }

  /** Whatever `parseInt` reads a number from reads as a number, and holds
      a digit. */
  lemma ReadNumeral(s: string)
    ensures ReadNumber(TrimStart(s)).Some? ==> exists w: nat, sl: nat, n: nat :: Numeral(s, w, sl, n)
    ensures ReadNumber(TrimStart(s)).Some? ==> exists i :: 0 <= i < |s| && IsDigit(s[i])
  {
    var t := TrimStart(s);
    if ReadNumber(t).Some? {
      var w := |s| - |t|;
      var sl := if t[0] == '-' || t[0] == '+' then 1 else 0;
      assert t[sl..] == s[w + sl..];
      assert LeadingDigits(t[sl..]) > 0;
      assert sl == 1 ==> t[0] == s[w];
      NumeralAt(s, w, sl, LeadingDigits(s[w + sl..]));
    }
  }

  /** White space, an optional sign, then a non-empty leading digit run:
      a number. */
  lemma NumeralAt(s: string, w: nat, sl: nat, n: nat)
    requires sl <= 1 && w + sl <= |s| && n == LeadingDigits(s[w + sl..]) && n >= 1
    requires forall i :: 0 <= i < w ==> IsJsSpace(s[i])
    requires sl == 1 ==> s[w] == '-' || s[w] == '+'
    ensures Numeral(s, w, sl, n) && IsDigit(s[w + sl])
  {
    var u := s[w + sl..];
    assert u[..n] == s[w + sl..w + sl + n];
    assert n < |u| ==> u[n] == s[w + sl + n];
    assert u[0] == s[w + sl];
  }

  lemma {:induction false} DigitsValueOfNatDigits(n: nat)
    ensures DigitsValue(NatDigits(n)) == n
    decreases n
  {
    var d := NatDigits(n);
    if n >= 10 {
      DigitsValueOfNatDigits(n / 10);
      assert d[..|d| - 1] == NatDigits(n / 10);
    }
  }

  /** A digit run followed by something that is not a digit parses to the
      run's value: `parseInt` stops at the first non-digit. */
  lemma ParseDigitsOfRun(d: string, tail: string)
    requires d != [] && AllDigits(d)
    requires tail == [] || !IsDigit(tail[0])
    ensures ParseDigits(d + tail) == Some(DigitsValue(d))
  {
    var s := d + tail;
    var n := LeadingDigits(s);
    assert forall i :: 0 <= i < |d| ==> s[i] == d[i];
    assert |d| < |s| ==> s[|d|] == tail[0];
    assert n <= |d| ==> n == |d|;
    assert n >= |d| ==> s[..n][..|d|] == s[..|d|];
    assert n == |d|;
    assert s[..n] == d;
  }

  /** The decimal string of `n`, optionally followed by text that does not
      continue the number (a fraction, an exponent, a unit), parses back to
      `n`. With an empty tail this is the round trip between the text a
      committed field shows and the value stored for it. */
  lemma ParseIntOfDecimalString(n: int, tail: string)
    requires tail == [] || !IsDigit(tail[0])
    ensures ParseInt(DecimalString(n) + tail) == Some(n)
  {
    if n < 0 {
      ParseIntOfNegative(n, tail);
    } else {
      ParseIntOfNonNegative(n, tail);
    }
  }

  lemma ParseIntOfNegative(n: int, tail: string)
    requires n < 0 && (tail == [] || !IsDigit(tail[0]))
    ensures ParseInt(DecimalString(n) + tail) == Some(n)
  {
    var d := NatDigits(-n);
    var s := d + tail;
    assert DecimalString(n) + tail == ['-'] + s by {
      assert DecimalString(n) == ['-'] + d;
    }
    DigitsValueOfNatDigits(-n);
    ParseDigitsOfRun(d, tail);
    assert ParseDigits(s) == Some(-n);
    ParseIntOfSigned('-', s);
  }

  lemma ParseIntOfNonNegative(n: int, tail: string)
    requires n >= 0 && (tail == [] || !IsDigit(tail[0]))
    ensures ParseInt(DecimalString(n) + tail) == Some(n)
  {
    var d := NatDigits(n);
    var s := d + tail;
    assert DecimalString(n) + tail == s;
    DigitsValueOfNatDigits(n);
    ParseDigitsOfRun(d, tail);
    assert ParseDigits(s) == Some(n);
    ParseIntOfUnsigned(s);
  }

  /** Text starting with a digit parses as its leading digit run. */
  lemma ParseIntOfUnsigned(s: string)
    requires s != [] && IsDigit(s[0])
    ensures ParseDigits(s).Some? ==> ParseInt(s) == Some(ParseDigits(s).value)
  {
    var n := LeadingDigits(s);
    NumeralAt(s, 0, 0, n);
    assert s[0..n] == s[..n];
  }

  /** Text starting with a sign parses as the digit run after it, negated
      for a minus. */
  lemma ParseIntOfSigned(sign: char, s: string)
    requires sign == '-' || sign == '+'
    ensures ParseDigits(s).Some? ==>
              var v: int := ParseDigits(s).value;
              ParseInt([sign] + s) == Some(if sign == '-' then -v else v)
  {
    var t := [sign] + s;
    assert !IsJsSpace(t[0]);
    assert TrimStart(t) == t;
    assert t[0] == sign && t[1..] == s;
  }

  /** With nothing after it, the decimal string of `n` parses back to `n`. */
  lemma ParseIntRoundTrip(n: int)
    ensures ParseInt(DecimalString(n)) == Some(n)
  {
    ParseIntOfDecimalString(n, []);
    assert DecimalString(n) + [] == DecimalString(n);
  }
}

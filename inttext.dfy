/** `parseIntStrict`: the line validator of the input-file and directory modes.
    A line is trimmed of white space and of one leading byte order mark; what is
    left must be an optional `+` or `-` followed by decimal digits only, and is
    then converted as `strconv.Atoi` does on a 64-bit platform. */
module IntText {

  const MinInt64: int := -0x8000_0000_0000_0000
  const MaxInt64: int := 0x7fff_ffff_ffff_ffff

  /** The byte order mark U+FEFF. */
  const Bom: char := '\U{FEFF}'

  /** The four ways a line is refused. */
  datatype ParseError = Empty | SignWithoutDigits | NonDigit | OutOfRange

  datatype Result = Ok(value: int) | Err(error: ParseError)

  /** Go's `unicode.IsSpace`: the ASCII controls \t \n \v \f \r, space, U+0085, U+00A0
      and the Unicode space separators, line separator and paragraph separator. */
  predicate IsSpace(c: char) {
    || c == '\t' || c == '\n' || c == '\U{0B}' || c == '\U{0C}' || c == '\r' || c == ' '
    || c == '\U{85}' || c == '\U{A0}' || c == '\U{1680}'
    || ('\U{2000}' <= c <= '\U{200A}')
    || c == '\U{2028}' || c == '\U{2029}' || c == '\U{202F}' || c == '\U{205F}' || c == '\U{3000}'
  }

  predicate AllSpace(s: string) {
    forall i :: 0 <= i < |s| ==> IsSpace(s[i])
  }

  /** The number of white-space characters at the front of s. */
  function LeadingSpaces(s: string): (k: nat)
    ensures k <= |s|
    ensures forall i :: 0 <= i < k ==> IsSpace(s[i])
    ensures k < |s| ==> !IsSpace(s[k])
  {
    if s != [] && IsSpace(s[0]) then 1 + LeadingSpaces(s[1..]) else 0
  }

  /** The number of white-space characters at the back of s. */
  function TrailingSpaces(s: string): (k: nat)
    ensures k <= |s|
    ensures forall i :: |s| - k <= i < |s| ==> IsSpace(s[i])
    ensures k < |s| ==> !IsSpace(s[|s| - 1 - k])
  {
    if s != [] && IsSpace(s[|s| - 1]) then 1 + TrailingSpaces(s[..|s| - 1]) else 0
  }

  /** `strings.TrimSpace`: s without its leading and trailing white space. The
      result is empty exactly when s is all white space, and otherwise starts and
      ends with a character that is not white space. */
  function TrimSpace(s: string): (t: string)
    ensures |t| <= |s|
    ensures t == [] <==> AllSpace(s)
    ensures t != [] ==> !IsSpace(t[0]) && !IsSpace(t[|t| - 1])
  {
    var u := s[LeadingSpaces(s)..];
    u[..|u| - TrailingSpaces(u)]
  }

  /** `strings.TrimPrefix` with the byte order mark: drops one leading U+FEFF. */
  function TrimBom(s: string): (t: string)
    ensures s == t || s == [Bom] + t
    ensures s == t <==> s == [] || s[0] != Bom
  {
    if s != [] && s[0] == Bom then s[1..] else s
  }

  /** The text `parseIntStrict` goes on to examine. */
  function Clean(s: string): string {
    TrimBom(TrimSpace(s))
  }

  predicate IsDigit(c: char) {
    '0' <= c <= '9'
  }

  /** 1 when t opens with a sign, else 0: where the digits start. */
  function SignLen(t: string): nat {
    if t != [] && (t[0] == '+' || t[0] == '-') then 1 else 0
  }

  /** t is an optional sign followed by at least one digit and nothing else. */
  predicate SignedDigits(t: string) {
    SignLen(t) < |t| && forall i :: SignLen(t) <= i < |t| ==> IsDigit(t[i])
  }

  /** The number a string of decimal digits denotes; leading zeros are allowed. */
  function DigitsValue(ds: string): nat
    requires forall i :: 0 <= i < |ds| ==> IsDigit(ds[i])
  {
    if ds == [] then 0
    else
      assert IsDigit(ds[|ds| - 1]);
      10 * DigitsValue(ds[..|ds| - 1]) + (ds[|ds| - 1] as int - '0' as int)
  }

  /** `strconv.Atoi` on the strings that reach it: the signed value, or a range
      error when that value does not fit in 64 bits. */
  function Atoi(t: string): (r: Result)
    requires SignedDigits(t)
    ensures r.Ok? || r == Err(OutOfRange)
    ensures r.Ok? ==> MinInt64 <= r.value <= MaxInt64
    ensures r.Ok? && r.value < 0 ==> t[0] == '-'
  {
    var magnitude: int := DigitsValue(t[SignLen(t)..]);
    var v := if t[0] == '-' then -magnitude else magnitude;
    if MinInt64 <= v <= MaxInt64 then Ok(v) else Err(OutOfRange)
  }

  /** What `parseIntStrict` returns for s, in the order it checks. */
  function Parse(s: string): (r: Result)
    ensures r == Err(Empty) <==> Clean(s) == []
    ensures r == Err(SignWithoutDigits) <==> Clean(s) == "+" || Clean(s) == "-"
    ensures r.Ok? || r == Err(OutOfRange) <==> SignedDigits(Clean(s))
    ensures r.Ok? ==> MinInt64 <= r.value <= MaxInt64
  {
    var t := Clean(s);
    if t == [] then Err(Empty)
    else if (t[0] == '+' || t[0] == '-') && |t| == 1 then Err(SignWithoutDigits)
    else if !SignedDigits(t) then Err(NonDigit)
    else Atoi(t)
  }

  /** `parseIntStrict`: the per-character check after the optional sign, then the
      conversion. */
  method ParseIntStrict(s: string) returns (r: Result)
    ensures r == Parse(s)
  {
    var t := TrimSpace(s);
    t := TrimBom(t);
    if t == [] {
      return Err(Empty);
    }
    var start := 0;
    if t[0] == '+' || t[0] == '-' {
      start := 1;
      if |t| == 1 {
        return Err(SignWithoutDigits);
      }
    }
    for i := start to |t|
      invariant forall k :: start <= k < i ==> IsDigit(t[k])
    {
      if t[i] < '0' || t[i] > '9' {
        return Err(NonDigit);
      }
    }
    return Atoi(t);
  }

  /** The decimal digits of n, most significant first, without leading zeros. */
  function Digits(n: nat): (ds: string)
    ensures ds != []
    ensures forall i :: 0 <= i < |ds| ==> IsDigit(ds[i])
  {
    var d := ['0' + (n % 10) as char];
    if n < 10 then d else Digits(n / 10) + d
  }

  /** How `fmt.Fprintln` writes an integer, without the line break. */
  function FormatInt(v: int): string {
    if v < 0 then "-" + Digits(-v) else Digits(v)
  }

  /** Reading back the digits of n gives n. */
  lemma {:induction false} DigitsValueOf(n: nat)
    ensures DigitsValue(Digits(n)) == n
  {
    if n >= 10 {
      DigitsValueOf(n / 10);
      var ds := Digits(n);
      assert ds[..|ds| - 1] == Digits(n / 10);
    }
  }

  /** White space at either end of a line does not change how it is parsed: text
      with a non-space first and last character is what TrimSpace leaves of it
      once padded. */
  lemma TrimSpacePadded(a: string, t: string, b: string)
    requires AllSpace(a) && AllSpace(b)
    requires t != [] && !IsSpace(t[0]) && !IsSpace(t[|t| - 1])
    ensures TrimSpace(a + t + b) == t
  {
    LeadingPadded(a, t + b);
    assert (a + t + b)[|a|..] == t + b;
    TrailingPadded(t, b);
    assert (t + b)[..|t|] == t;
  }

  lemma {:induction false} LeadingPadded(a: string, u: string)
    requires AllSpace(a) && u != [] && !IsSpace(u[0])
    ensures LeadingSpaces(a + u) == |a|
  {
    if a != [] {
      assert (a + u)[1..] == a[1..] + u;
      LeadingPadded(a[1..], u);
    } else {
      assert a + u == u;
    }
  }

  lemma {:induction false} TrailingPadded(u: string, b: string)
    requires AllSpace(b) && u != [] && !IsSpace(u[|u| - 1])
    ensures TrailingSpaces(u + b) == |b|
  {
    if b != [] {
      assert (u + b)[..|u + b| - 1] == u + b[..|b| - 1];
      TrailingPadded(u, b[..|b| - 1]);
    } else {
      assert u + b == u;
    }
  }

  /** Round trip with the directory mode's output: every 64-bit integer, written
      as `fmt.Fprintln` writes it and surrounded by any white space, parses back
      to itself. */
  lemma ParseFormatInt(v: int, a: string, b: string)
    requires MinInt64 <= v <= MaxInt64
    requires AllSpace(a) && AllSpace(b)
    ensures Parse(a + FormatInt(v) + b) == Ok(v)
  {
    var f := FormatInt(v);
    FormatIntShape(v);
    assert Clean(a + f + b) == f by {
      TrimSpacePadded(a, f, b);
    }
  }

  /** The text FormatInt writes is a sign-and-digits string, has no white space
      or byte order mark at either end, and converts back to v. */
  lemma FormatIntShape(v: int)
    requires MinInt64 <= v <= MaxInt64
    ensures var f := FormatInt(v);
      && SignedDigits(f) && f[0] != Bom
      && !IsSpace(f[0]) && !IsSpace(f[|f| - 1])
      && Atoi(f) == Ok(v)
  {
    var f := FormatInt(v);
    assert SignedDigits(f) && Atoi(f) == Ok(v) by {
      var sign := if v < 0 then "-" else "";
      var m: nat := if v < 0 then -v else v;
      assert f == sign + Zeros(0) + Digits(m);
      AtoiDecimal(sign, 0, m);
    }
    SignedDigitsEnds(f);
  }

  /** A run of k zeros. */
  function Zeros(k: nat): (z: string)
    ensures |z| == k && forall i :: 0 <= i < k ==> z[i] == '0'
  {
    seq(k, _ => '0')
  }

  /** Leading zeros do not change the value of a digit string. */
  lemma {:induction false} ZerosValue(k: nat, ds: string)
    requires forall i :: 0 <= i < |ds| ==> IsDigit(ds[i])
    ensures DigitsValue(Zeros(k) + ds) == DigitsValue(ds)
  {
    var z := Zeros(k) + ds;
    if ds == [] {
      if k > 0 {
        ZerosValue(k - 1, []);
        assert z[..|z| - 1] == Zeros(k - 1) + [];
      }
    } else {
      ZerosValue(k, ds[..|ds| - 1]);
      assert z[..|z| - 1] == Zeros(k) + ds[..|ds| - 1];
    }
  }

  /** The integer a sign and a magnitude denote. */
  function SignedValue(sign: string, n: nat): int {
    if sign == "-" then -(n as int) else n
  }

  /** `strconv.Atoi` on every text it is handed: an optional sign, any number of
      leading zeros, then the digits of n. The value is n, negated after a `-`;
      it is a range error exactly when that value does not fit in 64 bits. */
  lemma AtoiDecimal(sign: string, k: nat, n: nat)
    requires sign == "" || sign == "+" || sign == "-"
    ensures var t, v := sign + Zeros(k) + Digits(n), SignedValue(sign, n);
      && SignedDigits(t)
      && (MinInt64 <= v <= MaxInt64 ==> Atoi(t) == Ok(v))
      && (v < MinInt64 || MaxInt64 < v ==> Atoi(t) == Err(OutOfRange))
  {
    var ds := Zeros(k) + Digits(n);
    assert sign + Zeros(k) + Digits(n) == sign + ds;
    ZerosValue(k, Digits(n));
    DigitsValueOf(n);
    AtoiSigned(sign, ds);
  }

  /** Atoi on a sign followed by a non-empty digit string. */
  lemma AtoiSigned(sign: string, ds: string)
    requires sign == "" || sign == "+" || sign == "-"
    requires ds != [] && forall i :: 0 <= i < |ds| ==> IsDigit(ds[i])
    ensures var t, v := sign + ds, SignedValue(sign, DigitsValue(ds));
      && SignedDigits(t)
      && Atoi(t) == if MinInt64 <= v <= MaxInt64 then Ok(v) else Err(OutOfRange)
  {
    var t := sign + ds;
    assert SignLen(t) == |sign| && t[|sign|..] == ds by {
      if sign == [] {
        assert t[0] == ds[0];
      }
    }
  }

  /** `parseIntStrict` on every line it accepts or range-rejects: white space,
      then at most one byte order mark, an optional sign, leading zeros, the
      digits of n, and white space again. The line gives the signed value of n,
      or OutOfRange exactly when that value does not fit in 64 bits. */
  lemma ParseDecimal(a: string, m: string, sign: string, k: nat, n: nat, b: string)
    requires AllSpace(a) && AllSpace(b) && (m == [] || m == [Bom])
    requires sign == "" || sign == "+" || sign == "-"
    ensures var t, v := sign + Zeros(k) + Digits(n), SignedValue(sign, n);
      && (MinInt64 <= v <= MaxInt64 ==> Parse(a + m + t + b) == Ok(v))
      && (v < MinInt64 || MaxInt64 < v ==> Parse(a + m + t + b) == Err(OutOfRange))
  {
    AtoiDecimal(sign, k, n);
    ParseSigned(a, m, sign + Zeros(k) + Digits(n), b);
  }

  /** A sign-and-digits text, behind white space and at most one byte order mark
      and followed by white space, is handed to Atoi as it stands. */
  lemma ParseSigned(a: string, m: string, t: string, b: string)
    requires AllSpace(a) && AllSpace(b) && (m == [] || m == [Bom])
    requires SignedDigits(t)
    ensures Parse(a + m + t + b) == Atoi(t)
  {
    CleanSigned(a, m, t, b);
  }

  lemma CleanSigned(a: string, m: string, t: string, b: string)
    requires AllSpace(a) && AllSpace(b) && (m == [] || m == [Bom])
    requires SignedDigits(t)
    ensures Clean(a + m + t + b) == t
  {
    SignedDigitsEnds(t);
    if m == [] {
      assert a + m + t + b == a + t + b;
      TrimSpacePadded(a, t, b);
    } else {
      var u := m + t;
      assert u[0] == Bom && u[|u| - 1] == t[|t| - 1] && u[1..] == t;
      assert a + m + t + b == a + u + b;
      TrimSpacePadded(a, u, b);
    }
  }

  /** A sign-and-digits text neither starts nor ends with white space and does
      not start with a byte order mark. */
  lemma SignedDigitsEnds(t: string)
    requires SignedDigits(t)
    ensures !IsSpace(t[0]) && t[0] != Bom && !IsSpace(t[|t| - 1])
  {
    assert IsDigit(t[|t| - 1]);
    assert SignLen(t) == 0 ==> IsDigit(t[0]);
  }

  /** Text beyond the 64-bit range, written out in full, is refused as out of
      range; one past either end is the first such text. */
  lemma ParseOutOfRange(v: int, a: string, b: string)
    requires v < MinInt64 || MaxInt64 < v
    requires AllSpace(a) && AllSpace(b)
    ensures Parse(a + FormatInt(v) + b) == Err(OutOfRange)
  {
    var sign := if v < 0 then "-" else "";
    var n: nat := if v < 0 then -v else v;
    assert sign + Zeros(0) + Digits(n) == FormatInt(v);
    assert a + [] == a;
    ParseDecimal(a, [], sign, 0, n, b);
  }
}

/**
 * The typed donation amount: the text is stripped of surrounding whitespace,
 * every decimal comma becomes a point, and the result must be a decimal
 * literal whose value is strictly greater than zero.
 *
 * Decimal literals are restricted to an optional sign, ASCII digits and at
 * most one point; exponents, `Infinity`, `NaN`, digit-group underscores and
 * non-ASCII digits are not part of this model.
 */
module Amount {
  import opened Wrappers

  // ---------------------------------------------------------------------
  // Normalisation: strip, then replace ',' by '.'
  // ---------------------------------------------------------------------

  /** The characters Python's `str.isspace()` accepts, which `str.strip()` removes. */
  predicate IsSpace(c: char) {
    || c == ' '
    || ('\t' <= c <= '\r')
    || ('\U{1C}' <= c <= '\U{1F}')
    || c == '\U{85}' || c == '\U{A0}' || c == '\U{1680}'
    || ('\U{2000}' <= c <= '\U{200A}')
    || c == '\U{2028}' || c == '\U{2029}' || c == '\U{202F}'
    || c == '\U{205F}' || c == '\U{3000}'
  }

  predicate AllSpace(s: string) {
    forall k :: 0 <= k < |s| ==> IsSpace(s[k])
  }

  /** The index of the first non-blank character, or `|s|` when there is none. */
  function FirstNonSpace(s: string): (i: nat)
    ensures i <= |s|
    ensures forall k :: 0 <= k < i ==> IsSpace(s[k])
    ensures i < |s| ==> !IsSpace(s[i])
    decreases |s|
  {
    if s == [] || !IsSpace(s[0]) then 0 else 1 + FirstNonSpace(s[1..])
  }

  /** One past the last non-blank character, or `0` when there is none. */
  function EndNonSpace(s: string): (j: nat)
    ensures j <= |s|
    ensures forall k :: j <= k < |s| ==> IsSpace(s[k])
    ensures j > 0 ==> !IsSpace(s[j - 1])
    decreases |s|
  {
    if s == [] || !IsSpace(s[|s| - 1]) then |s| else EndNonSpace(s[..|s| - 1])
  }

  /** Python's `str.strip()` with no argument. */
  function Strip(s: string): string {
    var i, j := FirstNonSpace(s), EndNonSpace(s);
    if i < j then s[i..j] else []
  }

  lemma {:induction false} FirstNonSpaceIs(s: string, i: nat)
    requires i <= |s| && (forall k :: 0 <= k < i ==> IsSpace(s[k])) && (i < |s| ==> !IsSpace(s[i]))
    ensures FirstNonSpace(s) == i
  {
  }

  lemma {:induction false} EndNonSpaceIs(s: string, j: nat)
    requires j <= |s| && (forall k :: j <= k < |s| ==> IsSpace(s[k])) && (j > 0 ==> !IsSpace(s[j - 1]))
    ensures EndNonSpace(s) == j
  {
  }

  /**
   * Strip keeps one slice of the text: everything before it and after it is
   * blank, and the slice is empty or starts and ends with a non-blank character.
   */
  lemma {:induction false} StripKeepsMiddle(s: string)
    ensures exists i, j :: (0 <= i <= j <= |s| && Strip(s) == s[i..j] &&
      (forall k :: 0 <= k < i ==> IsSpace(s[k])) && (forall k :: j <= k < |s| ==> IsSpace(s[k])))
    ensures Strip(s) == [] || (!IsSpace(Strip(s)[0]) && !IsSpace(Strip(s)[|Strip(s)| - 1]))
  {
    var i, j := FirstNonSpace(s), EndNonSpace(s);
    if i >= j {
      AllSpaceWhenNoMiddle(s);
      assert Strip(s) == s[0..0];
    } else {
      assert s[i..j][0] == s[i] && s[i..j][j - i - 1] == s[j - 1];
    }
  }

  lemma {:induction false} AllSpaceWhenNoMiddle(s: string)
    requires FirstNonSpace(s) >= EndNonSpace(s)
    ensures AllSpace(s)
  {
    forall k | 0 <= k < |s| ensures IsSpace(s[k]) {
    }
  }

  /** A non-blank character lies inside what strip keeps. */
  lemma {:induction false} NonSpaceIsKept(s: string, m: nat)
    requires m < |s| && !IsSpace(s[m])
    ensures FirstNonSpace(s) <= m < EndNonSpace(s)
    ensures Strip(s) == s[FirstNonSpace(s)..EndNonSpace(s)]
  {
  }

  lemma {:induction false} StripOfStripped(s: string)
    requires s == [] || (!IsSpace(s[0]) && !IsSpace(s[|s| - 1]))
    ensures Strip(s) == s
  {
    if s != [] {
      FirstNonSpaceIs(s, 0);
      EndNonSpaceIs(s, |s|);
      assert s[0..|s|] == s;
    }
  }

  lemma {:induction false} FirstNonSpaceAfterBlanks(pre: string, t: string)
    requires AllSpace(pre)
    ensures FirstNonSpace(pre + t) == |pre| + FirstNonSpace(t)
  {
    var s := pre + t;
    var i := FirstNonSpace(t);
    forall k | 0 <= k < |pre| + i ensures IsSpace(s[k]) {
      if k < |pre| { assert s[k] == pre[k]; } else { assert s[k] == t[k - |pre|]; }
    }
    if |pre| + i < |s| { assert s[|pre| + i] == t[i]; }
    FirstNonSpaceIs(s, |pre| + i);
  }

  lemma {:induction false} EndNonSpaceBeforeBlanks(t: string, post: string)
    requires AllSpace(post)
    ensures EndNonSpace(t + post) == EndNonSpace(t)
  {
    var s := t + post;
    var j := EndNonSpace(t);
    forall k | j <= k < |s| ensures IsSpace(s[k]) {
      if k < |t| { assert s[k] == t[k]; } else { assert s[k] == post[k - |t|]; }
    }
    if j > 0 { assert s[j - 1] == t[j - 1]; }
    EndNonSpaceIs(s, j);
  }

  lemma {:induction false} FirstNonSpaceBeforeAny(t: string, post: string)
    requires FirstNonSpace(t) < |t|
    ensures FirstNonSpace(t + post) == FirstNonSpace(t)
  {
    var s := t + post;
    var i := FirstNonSpace(t);
    forall k | 0 <= k < i ensures IsSpace(s[k]) {
      assert s[k] == t[k];
    }
    assert s[i] == t[i];
    FirstNonSpaceIs(s, i);
  }

  lemma {:induction false} EndNonSpaceAfterAny(pre: string, t: string)
    requires EndNonSpace(t) > 0
    ensures EndNonSpace(pre + t) == |pre| + EndNonSpace(t)
  {
    var s := pre + t;
    var j := EndNonSpace(t);
    forall k | |pre| + j <= k < |s| ensures IsSpace(s[k]) {
      assert s[k] == t[k - |pre|];
    }
    assert s[|pre| + j - 1] == t[j - 1];
    EndNonSpaceIs(s, |pre| + j);
  }

  lemma {:induction false} ConcatSlice(pre: string, text: string, post: string, i: nat, j: nat)
    requires i <= j <= |text|
    ensures (pre + text + post)[|pre| + i..|pre| + j] == text[i..j]
  {
    var s := pre + text + post;
    assert forall k :: 0 <= k < j - i ==> s[|pre| + i..|pre| + j][k] == text[i..j][k];
  }

  lemma {:induction false} StripIsSlice(s: string)
    requires FirstNonSpace(s) < EndNonSpace(s)
    ensures Strip(s) == s[FirstNonSpace(s)..EndNonSpace(s)]
  {
  }

  lemma {:induction false} ConcatAssoc(pre: string, text: string, post: string)
    ensures pre + text + post == pre + (text + post)
  {
  }

  lemma {:induction false} AllSpaceConcat(a: string, b: string)
    requires AllSpace(a) && AllSpace(b)
    ensures AllSpace(a + b)
  {
    forall k | 0 <= k < |a + b| ensures IsSpace((a + b)[k]) {
      if k < |a| { assert (a + b)[k] == a[k]; } else { assert (a + b)[k] == b[k - |a|]; }
    }
  }

  /** A blank text stays blank with blanks around it, and strip keeps nothing of it. */
  lemma {:induction false} StripBlank(pre: string, text: string, post: string)
    requires AllSpace(pre) && AllSpace(post) && FirstNonSpace(text) >= EndNonSpace(text)
    ensures Strip(pre + text + post) == [] && Strip(text) == []
  {
    AllSpaceWhenNoMiddle(text);
    AllSpaceConcat(pre, text);
    AllSpaceConcat(pre + text, post);
    FirstNonSpaceIs(pre + text + post, |pre + text + post|);
  }

  /** Around a text with a non-blank character, blanks only shift both ends of what strip keeps. */
  lemma {:induction false} StripBoundsShift(pre: string, text: string, post: string)
    requires AllSpace(pre) && AllSpace(post) && FirstNonSpace(text) < EndNonSpace(text)
    ensures FirstNonSpace(pre + text + post) == |pre| + FirstNonSpace(text)
    ensures EndNonSpace(pre + text + post) == |pre| + EndNonSpace(text)
  {
    ConcatAssoc(pre, text, post);
    FirstNonSpaceBeforeAny(text, post);
    FirstNonSpaceAfterBlanks(pre, text + post);
    EndNonSpaceAfterAny(pre, text);
    EndNonSpaceBeforeBlanks(pre + text, post);
  }

  lemma {:induction false} StripMiddle(pre: string, text: string, post: string)
    requires AllSpace(pre) && AllSpace(post) && FirstNonSpace(text) < EndNonSpace(text)
    ensures Strip(pre + text + post) == Strip(text)
  {
    var i, j := FirstNonSpace(text), EndNonSpace(text);
    StripBoundsShift(pre, text, post);
    StripIsSlice(pre + text + post);
    StripIsSlice(text);
    ConcatSlice(pre, text, post, i, j);
  }

  /** Blanks added around a text do not change what strip keeps. */
  lemma {:induction false} StripIgnoresBlanks(pre: string, text: string, post: string)
    requires AllSpace(pre) && AllSpace(post)
    ensures Strip(pre + text + post) == Strip(text)
  {
    if FirstNonSpace(text) < EndNonSpace(text) {
      StripMiddle(pre, text, post);
    } else {
      StripBlank(pre, text, post);
    }
  }

  /** Python's `s.replace(",", ".")`. */
  function ReplaceCommas(s: string): (r: string)
    ensures |r| == |s|
  {
    seq(|s|, k requires 0 <= k < |s| => if s[k] == ',' then '.' else s[k])
  }

  /** The text the bot hands to the decimal parser (main.py:120). */
  function Normalize(text: string): string {
    ReplaceCommas(Strip(text))
  }

  /** The normalised text has no comma and no blank at either end, and it is no longer than the input. */
  lemma {:induction false} NormalizeShape(text: string)
    ensures |Normalize(text)| <= |text|
    ensures ',' !in Normalize(text)
    ensures var r := Normalize(text); r == [] || (!IsSpace(r[0]) && !IsSpace(r[|r| - 1]))
  {
    StripKeepsMiddle(text);
    var r := Normalize(text);
    assert forall k :: 0 <= k < |r| ==> r[k] != ',';
  }

  lemma {:induction false} ReplaceCommasWithoutComma(s: string)
    requires ',' !in s
    ensures ReplaceCommas(s) == s
  {
  }

  /** Normalising an already normalised amount changes nothing. */
  lemma {:induction false} NormalizeIdempotent(text: string)
    ensures Normalize(Normalize(text)) == Normalize(text)
  {
    var n := Normalize(text);
    NormalizeShape(text);
    StripOfStripped(n);
    ReplaceCommasWithoutComma(n);
  }

  // ---------------------------------------------------------------------
  // Decimal numbers
  // ---------------------------------------------------------------------

  /** The decimal number whose value is (-1)^negative * coefficient / 10^scale. */
  datatype Decimal = Decimal(negative: bool, coefficient: nat, scale: nat)

  function Pow10(n: nat): (r: nat)
    ensures r >= 1
  {
    if n == 0 then 1 else 10 * Pow10(n - 1)
  }

  ghost function Value(d: Decimal): real {
    (if d.negative then -1.0 else 1.0) * (d.coefficient as real / Pow10(d.scale) as real)
  }

  /** The test `amount > 0` of main.py:123, read off the representation. */
  predicate IsPositive(d: Decimal) {
    !d.negative && d.coefficient > 0
  }

  /** The representation test agrees with the value: strictly positive, and `-0` is not. */
  lemma {:induction false} PositiveIffValuePositive(d: Decimal)
    ensures IsPositive(d) <==> Value(d) > 0.0
  {
    var p := Pow10(d.scale) as real;
    var q := d.coefficient as real / p;
    assert q * p == d.coefficient as real;
    assert d.coefficient > 0 ==> q > 0.0;
    assert d.coefficient == 0 ==> q == 0.0;
  }

  predicate IsDigit(c: char) {
    '0' <= c <= '9'
  }

  predicate AllDigits(s: string) {
    forall k :: 0 <= k < |s| ==> IsDigit(s[k])
  }

  function DigitValue(c: char): (r: nat)
    requires IsDigit(c)
    ensures r < 10
  {
    c as int - '0' as int
  }

  function DigitChar(n: nat): (c: char)
    requires n < 10
    ensures IsDigit(c) && DigitValue(c) == n
  {
    ('0' as int + n) as char
  }

  /** The number a string of decimal digits denotes, most significant digit first. */
  function DigitsValue(s: string): nat
    requires AllDigits(s)
    decreases |s|
  {
    if s == [] then 0 else DigitsValue(s[..|s| - 1]) * 10 + DigitValue(s[|s| - 1])
  }

  /** Leading zeros do not change the value of a digit string. */
  lemma {:induction false} LeadingZeros(z: string, t: string)
    requires forall k :: 0 <= k < |z| ==> z[k] == '0'
    requires AllDigits(t)
    ensures AllDigits(z + t) && DigitsValue(z + t) == DigitsValue(t)
    decreases |z| + |t|
  {
    var s := z + t;
    if t == [] {
      assert s == z;
      if z != [] {
        assert s[..|s| - 1] == z[..|z| - 1];
        LeadingZeros(z[..|z| - 1], []);
        assert z[..|z| - 1] + [] == z[..|z| - 1];
      }
    } else {
      assert s[..|s| - 1] == z + t[..|t| - 1];
      LeadingZeros(z, t[..|t| - 1]);
    }
  }

  /** The canonical digits of `n`, as Python writes an integer: no leading zero except in "0". */
  function NatDigits(n: nat): (r: string)
    ensures |r| >= 1 && AllDigits(r) && DigitsValue(r) == n
    ensures |r| > 1 ==> r[0] != '0'
    decreases n
  {
    if n < 10 then [DigitChar(n)]
    else
      var r := NatDigits(n / 10) + [DigitChar(n % 10)];
      assert r[..|r| - 1] == NatDigits(n / 10);
      r
  }

  // ---------------------------------------------------------------------
  // Parsing: the grammar [sign] digits [ "." digits ] with at least one digit
  // ---------------------------------------------------------------------

  predicate AtMostOneDot(s: string) {
    forall i, j :: 0 <= i < j < |s| ==> !(s[i] == '.' && s[j] == '.')
  }

  /** Reference grammar of an unsigned literal: digits and points only, at most one point, some digit. */
  predicate IsUnsignedLiteral(s: string) {
    && (forall k :: 0 <= k < |s| ==> IsDigit(s[k]) || s[k] == '.')
    && AtMostOneDot(s)
    && (exists k :: 0 <= k < |s| && IsDigit(s[k]))
  }

  predicate IsSign(c: char) {
    c == '+' || c == '-'
  }

  /** Reference grammar of a signed literal. */
  predicate IsDecimalLiteral(s: string) {
    if s != [] && IsSign(s[0]) then IsUnsignedLiteral(s[1..]) else IsUnsignedLiteral(s)
  }

  /** Splits an unsigned literal at its first point into coefficient and scale. */
  function ParseUnsigned(s: string): (r: Option<(nat, nat)>)
  {
    var dot := IndexOf(s, '.');
    var whole := s[..dot];
    var frac := if dot < |s| then s[dot + 1..] else "";
    if AllDigits(whole) && AllDigits(frac) && |whole| + |frac| > 0
    then Some((DigitsValue(whole + frac), |frac|))
    else None
  }

  lemma {:induction false} ParseUnsignedIff(s: string)
    ensures ParseUnsigned(s).Some? <==> IsUnsignedLiteral(s)
  {
    var dot := IndexOf(s, '.');
    var whole := s[..dot];
    var frac := if dot < |s| then s[dot + 1..] else "";
    if ParseUnsigned(s).Some? {
      forall k | 0 <= k < |s| ensures IsDigit(s[k]) || s[k] == '.' {
        if k < dot { assert s[k] == whole[k]; }
        else if k > dot { assert s[k] == frac[k - dot - 1]; }
      }
      forall i, j | 0 <= i < j < |s| ensures !(s[i] == '.' && s[j] == '.') {
        if j < dot { assert s[j] == whole[j]; }
        else if j > dot { assert s[j] == frac[j - dot - 1]; }
        else { assert s[i] == whole[i]; }
      }
      if |whole| > 0 {
        assert IsDigit(s[0]);
      } else {
        assert s[dot + 1] == frac[0];
      }
    }
    if IsUnsignedLiteral(s) {
      var k :| 0 <= k < |s| && IsDigit(s[k]);
      assert forall i :: 0 <= i < |whole| ==> whole[i] == s[i];
      if dot < |s| {
        assert forall i :: 0 <= i < |frac| ==> frac[i] == s[dot + 1 + i] && s[dot] == '.';
        assert k != dot;
      }
    }
  }

  /** Python's `Decimal(raw)` on a plain decimal literal; `None` stands for the raised exception. */
  function ParseDecimal(s: string): Option<Decimal> {
    var neg := s != [] && s[0] == '-';
    var body := if s != [] && IsSign(s[0]) then s[1..] else s;
    match ParseUnsigned(body)
    case None => None
    case Some((coefficient, scale)) => Some(Decimal(neg, coefficient, scale))
  }

  /** The parser accepts exactly the reference grammar's literals. */
  lemma {:induction false} ParseDecimalIff(s: string)
    ensures ParseDecimal(s).Some? <==> IsDecimalLiteral(s)
  {
    ParseUnsignedIff(if s != [] && IsSign(s[0]) then s[1..] else s);
  }

  /** The amount handler's test (main.py:120-124): the normalised text parses and is positive. */
  function AcceptAmount(text: string): Option<Decimal> {
    match ParseDecimal(Normalize(text))
    case None => None
    case Some(d) => if IsPositive(d) then Some(d) else None
  }

  /**
   * An amount is accepted exactly when the stripped, comma-corrected text is a
   * decimal literal whose value is strictly greater than zero, and the accepted
   * amount is that literal's value.
   */
  lemma {:induction false} AcceptAmountMeaning(text: string)
    ensures ParseDecimal(Normalize(text)).Some? <==> IsDecimalLiteral(Normalize(text))
    ensures var p := ParseDecimal(Normalize(text));
      AcceptAmount(text).Some? <==> p.Some? && Value(p.value) > 0.0
    ensures AcceptAmount(text).Some? ==> AcceptAmount(text) == ParseDecimal(Normalize(text))
  {
    ParseDecimalIff(Normalize(text));
    match ParseDecimal(Normalize(text))
    case None =>
    case Some(d) => PositiveIffValuePositive(d);
  }

  // ---------------------------------------------------------------------
  // Formatting: `str(amount)` in plain notation, the inverse of parsing
  // ---------------------------------------------------------------------

  function Zeros(n: nat): (r: string)
    ensures |r| == n && forall k :: 0 <= k < n ==> r[k] == '0'
  {
    seq(n, _ => '0')
  }

  /** The coefficient's digits, left-padded so that at least one digit precedes the point. */
  function PaddedDigits(d: Decimal): (r: string)
    ensures |r| > d.scale && AllDigits(r) && DigitsValue(r) == d.coefficient
  {
    var ds := NatDigits(d.coefficient);
    var z := Zeros(if |ds| <= d.scale then d.scale + 1 - |ds| else 0);
    LeadingZeros(z, ds);
    z + ds
  }

  /** How Python prints a Decimal in plain (non-exponent) notation, as in the invoice reply of main.py:150. */
  function Format(d: Decimal): string {
    (if d.negative then "-" else "") + FormatUnsigned(d)
  }

  /** The unsigned part of Format: the padded digits with the point put back. */
  function FormatUnsigned(d: Decimal): string {
    var p := PaddedDigits(d);
    var cut := |p| - d.scale;
    p[..cut] + (if d.scale > 0 then "." + p[cut..] else "")
  }

  lemma {:induction false} ParseWholeAndFraction(w: string, f: string)
    requires |w| > 0 && AllDigits(w) && AllDigits(f)
    ensures ParseUnsigned(w + "." + f) == Some((DigitsValue(w + f), |f|))
  {
    var s := w + "." + f;
    assert forall k :: 0 <= k < |w| ==> s[k] == w[k];
    assert s[|w|] == '.';
    assert IndexOf(s, '.') == |w|;
    assert s[..|w|] == w;
    assert s[|w| + 1..] == f;
  }

  lemma {:induction false} ParseWhole(w: string)
    requires |w| > 0 && AllDigits(w)
    ensures ParseUnsigned(w) == Some((DigitsValue(w), 0))
  {
    assert '.' !in w by {
      assert forall k :: 0 <= k < |w| ==> w[k] != '.';
    }
    assert w[..|w|] == w && w + "" == w;
  }

  lemma {:induction false} ParseFormatUnsigned(d: Decimal)
    ensures FormatUnsigned(d) != [] && IsDigit(FormatUnsigned(d)[0])
    ensures ParseUnsigned(FormatUnsigned(d)) == Some((d.coefficient, d.scale))
  {
    var p := PaddedDigits(d);
    var cut := |p| - d.scale;
    var w, f := p[..cut], p[cut..];
    assert w + f == p;
    if d.scale > 0 {
      assert FormatUnsigned(d) == w + "." + f;
      ParseWholeAndFraction(w, f);
    } else {
      assert FormatUnsigned(d) == p;
      ParseWhole(p);
    }
  }

  lemma {:induction false} ParseSigned(negative: bool, body: string, coefficient: nat, scale: nat)
    requires body != [] && !IsSign(body[0])
    requires ParseUnsigned(body) == Some((coefficient, scale))
    ensures ParseDecimal((if negative then "-" else "") + body) == Some(Decimal(negative, coefficient, scale))
  {
    var s := (if negative then "-" else "") + body;
    if negative {
      assert s[0] == '-' && s[1..] == body;
    } else {
      assert s == body;
    }
  }

  /** Parsing what Format prints gives back the same number, coefficient and scale alike. */
  lemma {:induction false} ParseFormat(d: Decimal)
    ensures ParseDecimal(Format(d)) == Some(d)
  {
    ParseFormatUnsigned(d);
    ParseSigned(d.negative, FormatUnsigned(d), d.coefficient, d.scale);
  }

  // ---------------------------------------------------------------------
  // What the amount rule accepts and refuses
  // ---------------------------------------------------------------------

  /** Blanks around the typed amount make no difference. */
  lemma {:induction false} BlanksAroundIgnored(pre: string, text: string, post: string)
    requires AllSpace(pre) && AllSpace(post)
    ensures Normalize(pre + text + post) == Normalize(text)
    ensures AcceptAmount(pre + text + post) == AcceptAmount(text)
  {
    StripIgnoresBlanks(pre, text, post);
  }

  predicate IsSeparator(c: char) {
    c == ',' || c == '.'
  }

  /** Both separators survive normalisation, as points at the same places in the stripped text. */
  lemma {:induction false} SeparatorsBecomePoints(text: string, i: nat, j: nat)
    requires i < j < |text| && IsSeparator(text[i]) && IsSeparator(text[j])
    ensures var r := Normalize(text); var a := FirstNonSpace(text);
      a <= i && j - a < |r| && r[i - a] == '.' && r[j - a] == '.'
  {
    NonSpaceIsKept(text, i);
    NonSpaceIsKept(text, j);
    NormalizeAt(text, i);
    NormalizeAt(text, j);
  }

  /** A character strip keeps is at its shifted place in the normalised text, a comma turned into a point. */
  lemma {:induction false} NormalizeAt(text: string, k: nat)
    requires FirstNonSpace(text) <= k < EndNonSpace(text)
    ensures var a := FirstNonSpace(text);
      |Normalize(text)| == EndNonSpace(text) - a && Normalize(text)[k - a] == if text[k] == ',' then '.' else text[k]
  {
    var a, b := FirstNonSpace(text), EndNonSpace(text);
    StripIsSlice(text);
    SliceAt(text, a, b, k);
    ReplaceCommasAt(Strip(text), k - a);
  }

  lemma {:induction false} SliceAt(s: string, lo: nat, hi: nat, k: nat)
    requires lo <= k < hi <= |s|
    ensures s[lo..hi][k - lo] == s[k]
  {
  }

  lemma {:induction false} ReplaceCommasAt(s: string, k: nat)
    requires k < |s|
    ensures ReplaceCommas(s)[k] == if s[k] == ',' then '.' else s[k]
  {
  }

  lemma {:induction false} TwoPointsNotLiteral(r: string, i: nat, j: nat)
    requires i < j < |r| && r[i] == '.' && r[j] == '.'
    ensures !IsDecimalLiteral(r)
  {
    if r != [] && IsSign(r[0]) {
      assert r[1..][i - 1] == '.' && r[1..][j - 1] == '.';
    }
  }

  /** Text with two separators, commas or points, is never an amount: both become points. */
  lemma {:induction false} TwoSeparatorsRefused(text: string, i: nat, j: nat)
    requires i < j < |text| && IsSeparator(text[i]) && IsSeparator(text[j])
    ensures AcceptAmount(text) == None
  {
    SeparatorsBecomePoints(text, i, j);
    var a := FirstNonSpace(text);
    TwoPointsNotLiteral(Normalize(text), i - a, j - a);
    ParseDecimalIff(Normalize(text));
  }

  lemma {:induction false} NormalizeCommaNumber(whole: string, frac: string)
    requires |whole| > 0 && AllDigits(whole) && AllDigits(frac)
    ensures Normalize(whole + "," + frac) == whole + "." + frac
  {
    var text := whole + "," + frac;
    var dotted := whole + "." + frac;
    assert !IsSpace(text[0]) && !IsSpace(text[|text| - 1]) by {
      if frac == [] { assert text[|text| - 1] == ','; }
      else { assert text[|text| - 1] == frac[|frac| - 1]; }
    }
    StripOfStripped(text);
    var r := ReplaceCommas(text);
    assert forall k :: 0 <= k < |text| ==> r[k] == dotted[k] by {
      assert forall k :: 0 <= k < |whole| ==> text[k] == whole[k] && dotted[k] == whole[k];
      assert forall k :: |whole| < k < |text| ==> text[k] == frac[k - |whole| - 1] && dotted[k] == frac[k - |whole| - 1];
    }
  }

  /** A comma between two groups of digits is the decimal point: "5,5" is 5.5 and "1,000" is 1. */
  lemma {:induction false} CommaIsDecimalPoint(whole: string, frac: string)
    requires |whole| > 0 && AllDigits(whole) && AllDigits(frac)
    requires DigitsValue(whole + frac) > 0
    ensures AcceptAmount(whole + "," + frac) == Some(Decimal(false, DigitsValue(whole + frac), |frac|))
  {
    var d := Decimal(false, DigitsValue(whole + frac), |frac|);
    NormalizeCommaNumber(whole, frac);
    ParseDotted(whole, frac);
    AcceptParsed(whole + "," + frac, d);
  }

  lemma {:induction false} ParseDotted(whole: string, frac: string)
    requires |whole| > 0 && AllDigits(whole) && AllDigits(frac)
    ensures ParseDecimal(whole + "." + frac) == Some(Decimal(false, DigitsValue(whole + frac), |frac|))
  {
    var dotted := whole + "." + frac;
    ParseWholeAndFraction(whole, frac);
    ParseSigned(false, dotted, DigitsValue(whole + frac), |frac|);
    assert "" + dotted == dotted;
  }

  lemma {:induction false} AcceptParsed(text: string, d: Decimal)
    requires ParseDecimal(Normalize(text)) == Some(d) && IsPositive(d)
    ensures AcceptAmount(text) == Some(d)
  {
  }

  lemma {:induction false} FormatUnsignedChars(d: Decimal)
    ensures forall k :: 0 <= k < |FormatUnsigned(d)| ==> IsDigit(FormatUnsigned(d)[k]) || FormatUnsigned(d)[k] == '.'
  {
    var body := FormatUnsigned(d);
    var p := PaddedDigits(d);
    var cut := |p| - d.scale;
    forall k | 0 <= k < |body| ensures IsDigit(body[k]) || body[k] == '.' {
      if k < cut { assert body[k] == p[k]; }
      else if k > cut { assert body[k] == p[k - 1]; }
    }
  }

  lemma {:induction false} FormatChars(d: Decimal)
    ensures forall k :: 0 <= k < |Format(d)| ==> IsDigit(Format(d)[k]) || Format(d)[k] == '.' || Format(d)[k] == '-'
    ensures Format(d) != []
  {
    FormatUnsignedChars(d);
    ParseFormatUnsigned(d);
    var body := FormatUnsigned(d);
    var s := Format(d);
    forall k | 0 <= k < |s| ensures IsDigit(s[k]) || s[k] == '.' || s[k] == '-' {
      if d.negative && k > 0 { assert s[k] == body[k - 1]; }
      else if !d.negative { assert s[k] == body[k]; }
    }
  }

  lemma {:induction false} NormalizeFormat(d: Decimal)
    ensures Normalize(Format(d)) == Format(d)
  {
    FormatChars(d);
    var s := Format(d);
    assert !IsSpace(s[0]) && !IsSpace(s[|s| - 1]);
    assert ',' !in s;
    StripOfStripped(s);
    ReplaceCommasWithoutComma(s);
  }

  /** What the invoice reply prints is accepted back exactly when it is positive. */
  lemma {:induction false} AcceptFormat(d: Decimal)
    ensures AcceptAmount(Format(d)) == if IsPositive(d) then Some(d) else None
  {
    NormalizeFormat(d);
    ParseFormat(d);
  }
}

/**
  Qion: exact money (basic/go/micron.go). A decimal is a sign, a coefficient and a
  scale; the currency table is any map from codes to minor-unit exponents.
*/
module Qion {
  import opened Int64
  import opened Text
  import opened Wrappers

  datatype Decimal = Decimal(negative: bool, coefficient: nat, scale: nat)

  datatype Qion = Qion(code: string, amount: Decimal, minor: nat)

  datatype Error =
    | NotCodeAmount
    | NotThreeLetters
    | UnknownCurrency
    | NotPlainDecimal
    | TooManyDigits

  datatype Result = Ok(qion: Qion) | Err(error: Error)

  type Currencies = map<string, nat>

  // ---------------------------------------------------------------- tokens

  /** unicode.IsSpace. */
  predicate IsSpace(c: char) {
    '\t' <= c <= '\r' || c == ' ' || (c >= '\U{85}' && IsWideSpace(c))
  }

  predicate IsWideSpace(c: char) {
    c in {'\U{85}', '\U{a0}', '\U{1680}', '\U{2028}', '\U{2029}', '\U{202f}', '\U{205f}', '\U{3000}'}
    || '\U{2000}' <= c <= '\U{200a}'
  }

  predicate NoSpace(s: string) {
    forall i | 0 <= i < |s| :: !IsSpace(s[i])
  }

  /** The twenty-five characters that separate words. */
  lemma SpacesAre(c: char)
    ensures IsSpace(c) <==>
      var p := c as int;
      || 9 <= p <= 13 || p == 32 || p == 133 || p == 160 || p == 5760 || 8192 <= p <= 8202
      || p == 8232 || p == 8233 || p == 8239 || p == 8287 || p == 12288
  {
  }

  function WordLength(s: string): (n: nat)
    ensures n <= |s| && NoSpace(s[..n]) && (n < |s| ==> IsSpace(s[n]))
  {
    if s == [] || IsSpace(s[0]) then 0
    else
      var n := WordLength(s[1..]);
      assert s[..n + 1] == [s[0]] + s[1..][..n];
      n + 1
  }

  /** strings.Fields: the maximal runs without white space. Trimming first changes nothing. */
  function Fields(s: string): (r: seq<string>)
    ensures forall w | w in r :: w != [] && NoSpace(w)
    decreases |s|
  {
    if s == [] then []
    else if IsSpace(s[0]) then Fields(s[1..])
    else
      var n := WordLength(s);
      [s[..n]] + Fields(s[n..])
  }

  /** strings.ToUpper as far as it yields ASCII: two letters outside ASCII have an ASCII upper case. */
  function Upper(s: string): (r: string)
    ensures |r| == |s|
  {
    seq(|s|, i requires 0 <= i < |s| => UpperChar(s[i]))
  }

  function UpperChar(c: char): char {
    if 'a' <= c <= 'z' then (c as int - 'a' as int + 'A' as int) as char
    else if c == '\U{131}' then 'I'
    else if c == '\U{17f}' then 'S'
    else c
  }

  predicate IsThreeLetters(s: string) {
    |s| == 3 && forall i | 0 <= i < 3 :: 'A' <= s[i] <= 'Z'
  }

  /** One letter of a code, typed: itself, its lower case, or a letter whose upper case it is. */
  predicate Spelling(typed: char, letter: char) {
    || typed == letter
    || typed as int == letter as int + 32
    || (letter == 'I' && typed == '\U{131}')
    || (letter == 'S' && typed == '\U{17f}')
  }

  /** A typed word read as a currency code, in any mixture of cases. */
  ghost predicate Spells(word: string, code: string) {
    |word| == |code| == 3 && forall i | 0 <= i < 3 :: 'A' <= code[i] <= 'Z' && Spelling(word[i], code[i])
  }

  lemma UpperSpells(word: string, code: string)
    ensures Upper(word) == code && IsThreeLetters(code) <==> Spells(word, code)
  {
    if Spells(word, code) {
      forall i | 0 <= i < 3 ensures UpperChar(word[i]) == code[i] {
        assert 'A' <= code[i] <= 'Z' && Spelling(word[i], code[i]);
      }
      assert Upper(word) == code;
    }
  }

  // ---------------------------------------------------------------- amounts as text

  function Body(s: string): string {
    if s != [] && s[0] == '-' then s[1..] else s
  }

  function IntPart(body: string): string {
    var dot := IndexByte(body, '.');
    if dot >= 0 then body[..dot] else body
  }

  function FracPart(body: string): string {
    var dot := IndexByte(body, '.');
    if dot >= 0 then body[dot + 1..] else ""
  }

  /** The amount pattern: optional '-', an unpadded integer, optionally a point and digits. */
  predicate AmountShape(s: string) {
    BodyShape(Body(s))
  }

  predicate BodyShape(body: string) {
    && Unpadded(IntPart(body))
    && AllDigits(FracPart(body))
    && (IndexByte(body, '.') >= 0 ==> FracPart(body) != "")
  }

  /** A text of decimal digits. */
  ghost predicate Decimals(s: string) {
    s != "" && forall i | 0 <= i < |s| :: '0' <= s[i] <= '9'
  }

  /** The pattern written out: sign, zero or digits that do not start with one, perhaps a point and digits. */
  ghost predicate Grammar(sign: string, whole: string, frac: string) {
    && (sign == "" || sign == "-")
    && (whole == "0" || (Decimals(whole) && whole[0] != '0'))
    && (frac == "" || (frac[0] == '.' && Decimals(frac[1..])))
  }

  lemma AmountGrammar(s: string)
    ensures AmountShape(s) <==> exists sign, whole, frac :: Grammar(sign, whole, frac) && s == sign + (whole + frac)
  {
    if AmountShape(s) {
      var sign := SignInFront(s, Body(s));
      var whole, frac := BodyGrammar(Body(s));
      assert Grammar(sign, whole, frac);
    }
    if sign, whole, frac :| Grammar(sign, whole, frac) && s == sign + (whole + frac) {
      GrammarShapes(s, sign, whole + frac, whole, frac);
    }
  }

  lemma SignInFront(s: string, body: string) returns (sign: string)
    requires body == Body(s)
    ensures (sign == "" || sign == "-") && s == sign + body
  {
    sign := if s != "" && s[0] == '-' then "-" else "";
  }

  lemma BodyGrammar(body: string) returns (whole: string, frac: string)
    requires BodyShape(body)
    ensures Grammar("", whole, frac) && body == whole + frac
  {
    whole := IntPart(body);
    Whole(whole);
    var dot := IndexByte(body, '.');
    if dot < 0 {
      frac := "";
    } else {
      frac := body[dot..];
      AtPoint(body, dot);
      Fraction(frac, FracPart(body));
    }
  }

  lemma AtPoint(body: string, dot: nat)
    requires dot < |body|
    ensures body == body[..dot] + body[dot..] && body[dot..][0] == body[dot] && body[dot..][1..] == body[dot + 1..]
  {
  }

  lemma Whole(whole: string)
    requires Unpadded(whole)
    ensures whole == "0" || (Decimals(whole) && whole[0] != '0')
  {
  }

  lemma Fraction(frac: string, digits: string)
    requires frac != "" && frac[0] == '.' && digits != "" && AllDigits(digits) && frac[1..] == digits
    ensures Decimals(frac[1..])
  {
  }

  lemma GrammarShapes(s: string, sign: string, body: string, whole: string, frac: string)
    requires Grammar(sign, whole, frac) && body == whole + frac && s == sign + body
    ensures AmountShape(s)
  {
    GrammarBody(body, whole, frac);
    Unsigned(s, sign, body);
  }

  lemma Unsigned(s: string, sign: string, body: string)
    requires (sign == "" || sign == "-") && body != "" && IsDigit(body[0]) && s == sign + body
    ensures Body(s) == body
  {
  }

  lemma GrammarBody(body: string, whole: string, frac: string)
    requires Grammar("", whole, frac) && body == whole + frac
    ensures body != "" && IsDigit(body[0]) && BodyShape(body)
  {
    assert Unpadded(whole);
    if frac == "" {
      assert body == whole && '.' !in whole;
    } else {
      var rest := frac[1..];
      assert body == whole + ['.'] + rest;
      IndexByteIs(whole, '.', rest);
      assert body[..|whole|] == whole && body[|whole| + 1..] == rest;
    }
  }

  /** The digits of an amount text, point removed: its value times 10^(fractional digits). */
  function Numerator(s: string): int
    requires AmountShape(s)
  {
    var body := Body(s);
    var n: int := Value(IntPart(body) + FracPart(body));
    if s[0] == '-' then -n else n
  }

  function Zeros(n: nat): (s: string)
    ensures |s| == n && AllDigits(s) && forall i | 0 <= i < n :: s[i] == '0'
  {
    seq(n, i => '0')
  }

  /** Plain-decimal print of a decimal: at least one integer digit, `scale` fractional ones. */
  function DecimalText(d: Decimal): string {
    (if d.negative then "-" else "") + PlainDecimal(PaddedDigits(d.coefficient, d.scale), d.scale)
  }

  /** A digit string with a point before its last `scale` digits. */
  function PlainDecimal(digits: string, scale: nat): string
    requires |digits| > scale
  {
    if scale == 0 then digits else digits[..|digits| - scale] + "." + digits[|digits| - scale..]
  }

  function PaddedDigits(n: nat, scale: nat): (s: string)
    ensures AllDigits(s) && |s| > scale
  {
    var digits := Digits(n);
    if |digits| > scale then digits else Zeros(scale + 1 - |digits|) + digits
  }

  // ---------------------------------------------------------------- minor units

  /** The signed count of minor units, unbounded. */
  function Units(q: Qion): int {
    Signed(q.amount)
  }

  function Signed(d: Decimal): int {
    if d.negative then -(d.coefficient as int) else d.coefficient
  }

  predicate Valid(table: Currencies, q: Qion) {
    && IsThreeLetters(q.code) && q.code in table
    && q.minor == table[q.code] == q.amount.scale
    && (q.amount.coefficient == 0 ==> !q.amount.negative)
  }

  /** micronQionRender */
  function Render(q: Qion): string {
    q.code + " " + DecimalText(q.amount)
  }

  /** What the parser accepts. */
  predicate Acceptable(table: Currencies, s: string) {
    var toks := Fields(s);
    && |toks| == 2
    && IsThreeLetters(Upper(toks[0])) && Upper(toks[0]) in table
    && AmountShape(toks[1])
    && |FracPart(Body(toks[1]))| <= table[Upper(toks[0])]
  }

  // ---------------------------------------------------------------- the parser

  /**
    Parsing never rounds: the text's value, numerator over ten to the fractional digits,
    equals the counted minor units over ten to the minor scale.
  */
  method QionFromString(table: Currencies, s: string) returns (r: Result)
    ensures r.Ok? <==> Acceptable(table, s)
    ensures r.Ok? ==>
              && Valid(table, r.qion)
              && Spells(Fields(s)[0], r.qion.code)
              && SameRatio(Numerator(Fields(s)[1]), |FracPart(Body(Fields(s)[1]))|, Units(r.qion), r.qion.minor)
  {
    var toks := Fields(s);
    if |toks| != 2 {
      return Err(NotCodeAmount);
    }
    var code := Upper(toks[0]);
    if !IsThreeLetters(code) {
      return Err(NotThreeLetters);
    }
    if code !in table {
      return Err(UnknownCurrency);
    }
    UpperSpells(toks[0], code);
    var minor := table[code];
    var amountStr := toks[1];
    if !AmountShape(amountStr) {
      return Err(NotPlainDecimal);
    }
    var ok, d := ParseAmount(amountStr, minor);
    if !ok {
      return Err(TooManyDigits);
    }
    r := Ok(Qion(code, d, minor));
  }

  method ParseAmount(amountStr: string, minor: nat) returns (ok: bool, d: Decimal)
    requires AmountShape(amountStr)
    ensures ok <==> |FracPart(Body(amountStr))| <= minor
    ensures ok ==> d.scale == minor && (d.coefficient == 0 ==> !d.negative)
    ensures ok ==> SameRatio(Numerator(amountStr), |FracPart(Body(amountStr))|, Signed(d), minor)
  {
    var neg, body := StripSign(amountStr);
    var intPart, fracPart := CutPoint(body);
    if |fracPart| > minor {
      return false, Decimal(false, 0, 0);
    }
    d := CanonicalAmount(neg, intPart, fracPart, minor, Numerator(amountStr));
    ok := true;
  }

  method StripSign(s: string) returns (neg: bool, body: string)
    requires s != ""
    ensures body == Body(s) && neg == (s[0] == '-')
  {
    neg := s[0] == '-';
    body := if neg then s[1..] else s;
  }

  method CutPoint(body: string) returns (intPart: string, fracPart: string)
    ensures intPart == IntPart(body) && fracPart == FracPart(body)
  {
    intPart, fracPart := body, "";
    var dot := IndexByte(body, '.');
    if dot >= 0 {
      intPart, fracPart := body[..dot], body[dot + 1..];
    }
  }

  method RemovePoint(s: string) returns (digits: string)
    ensures digits == IntPart(s) + FracPart(s)
  {
    var dot := IndexByte(s, '.');
    digits := if dot >= 0 then s[..dot] + s[dot + 1..] else s;
    assert s + "" == s;
  }

  /** m times ten to the j. */
  function Scaled(m: int, j: nat): int {
    if j == 0 then m else 10 * Scaled(m, j - 1)
  }

  /** m over 10^i and n over 10^j are the same rational number. */
  predicate SameRatio(m: int, i: nat, n: int, j: nat) {
    Scaled(m, j) == Scaled(n, i)
  }

  /** Zero-pad the fraction to the minor scale, read the digits, drop the sign of a zero. */
  method CanonicalAmount(neg: bool, intPart: string, fracPart: string, minor: nat, ghost numerator: int)
    returns (d: Decimal)
    requires AllDigits(intPart) && AllDigits(fracPart) && |fracPart| <= minor
    requires numerator == if neg then -(Value(intPart + fracPart) as int) else Value(intPart + fracPart)
    ensures d.scale == minor && (d.coefficient == 0 ==> !d.negative)
    ensures SameRatio(numerator, |fracPart|, Signed(d), minor)
  {
    var padded := fracPart + Zeros(minor - |fracPart|);
    d := Decimal(neg, Value(intPart + padded), minor);
    PaddingIsExact(intPart, fracPart, minor);
    ScaledNegates(Value(intPart + fracPart), minor);
    ScaledNegates(d.coefficient, |fracPart|);
    if d.coefficient == 0 {
      d := d.(negative := false);
    }
  }

  /** Leading zeros do not count. */
  lemma {:induction false} ZerosInFront(n: nat, b: string)
    requires AllDigits(b)
    ensures AllDigits(Zeros(n) + b) && Value(Zeros(n) + b) == Value(b)
  {
    if b == [] {
      assert Zeros(n) + b == Zeros(n);
      if n > 0 {
        ZerosInFront(n - 1, b);
        assert Zeros(n)[..n - 1] == Zeros(n - 1) + b;
      }
    } else {
      var s := Zeros(n) + b;
      ZerosInFront(n, b[..|b| - 1]);
      assert s[..|s| - 1] == Zeros(n) + b[..|b| - 1];
    }
  }

  lemma {:induction false} ScaledTwice(m: int, i: nat, j: nat)
    ensures Scaled(Scaled(m, i), j) == Scaled(m, i + j)
  {
    if j > 0 {
      ScaledTwice(m, i, j - 1);
    }
  }

  lemma {:induction false} ScaledNegates(m: int, j: nat)
    ensures Scaled(-m, j) == -Scaled(m, j)
  {
    if j > 0 {
      ScaledNegates(m, j - 1);
    }
  }

  lemma {:induction false} ScaledOrder(a: int, b: int, j: nat)
    ensures CompareInt(Scaled(a, j), Scaled(b, j)) == CompareInt(a, b)
  {
    if j > 0 {
      ScaledOrder(a, b, j - 1);
    }
  }

  /** Appending zeros to a digit string scales its value. */
  lemma {:induction false} ValueWithZeros(a: string, n: nat)
    requires AllDigits(a)
    ensures AllDigits(a + Zeros(n)) && Value(a + Zeros(n)) == Scaled(Value(a), n)
  {
    if n == 0 {
      assert a + Zeros(0) == a;
    } else {
      ValueWithZeros(a, n - 1);
      var s := a + Zeros(n);
      assert s[..|s| - 1] == a + Zeros(n - 1);
    }
  }

  /** Zero-padding the fraction multiplies the digits by the missing power of ten. */
  lemma PaddingIsExact(intPart: string, frac: string, minor: nat)
    requires AllDigits(intPart) && AllDigits(frac) && |frac| <= minor
    ensures
      var padded := intPart + (frac + Zeros(minor - |frac|));
      AllDigits(padded) && Scaled(Value(intPart + frac), minor) == Scaled(Value(padded), |frac|)
  {
    var zeros := Zeros(minor - |frac|);
    ValueWithZeros(intPart + frac, minor - |frac|);
    assert intPart + (frac + zeros) == intPart + frac + zeros;
    ScaledTwice(Value(intPart + frac), minor - |frac|, |frac|);
  }

  // ---------------------------------------------------------------- print, then parse

  lemma {:induction false} WordLengthIs(a: string, b: string)
    requires NoSpace(a) && (b == [] || IsSpace(b[0]))
    ensures WordLength(a + b) == |a|
  {
    if a != [] {
      WordLengthIs(a[1..], b);
      assert (a + b)[1..] == a[1..] + b;
    } else {
      assert a + b == b;
    }
  }

  lemma TwoFields(a: string, b: string)
    requires a != [] && b != [] && NoSpace(a) && NoSpace(b)
    ensures Fields(a + " " + b) == [a, b]
  {
    var s := a + " " + b;
    assert s == a + (" " + b);
    WordLengthIs(a, " " + b);
    assert s[..|a|] == a && s[|a|..] == " " + b;
    assert (" " + b)[1..] == b;
    assert b + [] == b;
    WordLengthIs(b, []);
    assert b[..|b|] == b && b[|b|..] == [];
    assert Fields(b) == [b] + Fields([]);
  }

  lemma UpperKeeps(code: string)
    requires IsThreeLetters(code)
    ensures Upper(code) == code
  {
  }

  /** The print of a coefficient at a scale has an unpadded integer part and denotes the coefficient. */
  lemma PaddedDigitsDenote(n: nat, scale: nat)
    ensures
      var digits := PaddedDigits(n, scale);
      Value(digits) == n && Unpadded(digits[..|digits| - scale])
  {
    ValueOfDigits(n);
    var digits := Digits(n);
    if |digits| <= scale {
      var zeros := Zeros(scale + 1 - |digits|);
      ZerosInFront(|zeros|, digits);
      assert (zeros + digits)[..1] == "0";
    }
  }

  lemma AmountOfText(d: Decimal)
    ensures
      var text := DecimalText(d);
      && AmountShape(text) && NoSpace(text) && text != [] && (text[0] == '-' <==> d.negative)
      && |FracPart(Body(text))| == d.scale
      && Numerator(text) == if d.negative then -(d.coefficient as int) else d.coefficient
  {
    var digits := PaddedDigits(d.coefficient, d.scale);
    PaddedDigitsDenote(d.coefficient, d.scale);
    PlainParts(digits, d.scale);
    PlainText(d.negative, PlainDecimal(digits, d.scale), digits);
  }

  lemma PlainText(negative: bool, plain: string, digits: string)
    requires plain != [] && IsDigit(plain[0]) && NoSpace(plain)
    requires Unpadded(IntPart(plain)) && AllDigits(FracPart(plain)) && AllDigits(digits)
    requires IndexByte(plain, '.') >= 0 ==> FracPart(plain) != ""
    requires IntPart(plain) + FracPart(plain) == digits
    ensures
      var text := (if negative then "-" else "") + plain;
      && AmountShape(text) && Body(text) == plain && NoSpace(text) && text != [] && (text[0] == '-' <==> negative)
      && Numerator(text) == if negative then -(Value(digits) as int) else Value(digits)
  {
    SignedText(negative, plain);
  }

  lemma SignedText(negative: bool, plain: string)
    requires plain != [] && IsDigit(plain[0]) && NoSpace(plain)
    ensures
      var text := (if negative then "-" else "") + plain;
      && text != [] && NoSpace(text) && Body(text) == plain && (text[0] == '-' <==> negative)
  {
    if !negative {
      assert "" + plain == plain;
    }
  }

  /** Taking a plain decimal apart at its point. */
  lemma PlainParts(digits: string, scale: nat)
    requires AllDigits(digits) && |digits| > scale
    ensures
      var cut := |digits| - scale;
      var plain := PlainDecimal(digits, scale);
      && NoSpace(plain) && plain[0] == digits[0]
      && IntPart(plain) == digits[..cut] && FracPart(plain) == digits[cut..]
      && (IndexByte(plain, '.') >= 0 ==> FracPart(plain) != "")
      && IntPart(plain) + FracPart(plain) == digits
  {
    var cut := |digits| - scale;
    assert forall i | 0 <= i < |digits| :: IsDigit(digits[i]);
    assert digits[..cut] + digits[cut..] == digits;
    if scale == 0 {
      assert '.' !in digits;
      assert digits[..cut] == digits && digits[cut..] == "";
    } else {
      var plain := digits[..cut] + "." + digits[cut..];
      IndexByteIs(digits[..cut], '.', digits[cut..]);
      assert plain[..cut] == digits[..cut] && plain[cut + 1..] == digits[cut..];
    }
  }

  /** Parsing the print of a valid amount of money gives it back. */
  method RoundTrip(table: Currencies, q: Qion) returns (r: Result)
    requires Valid(table, q)
    ensures r == Ok(q)
  {
    var text := DecimalText(q.amount);
    AmountOfText(q.amount);
    UpperKeeps(q.code);
    TwoFields(q.code, text);
    UpperSpells(q.code, q.code);
    r := QionFromString(table, Render(q));
    if r.Ok? {
      UpperSpells(q.code, r.qion.code);
    }
    ScaledOrder(Units(q), Units(r.qion), q.minor);
  }

  /** Two valid amounts with the same print are the same amount: the print of an accepted text is a fixed point. */
  lemma RenderInjective(table: Currencies, p: Qion, q: Qion)
    requires Valid(table, p) && Valid(table, q) && Render(p) == Render(q)
    ensures p == q
  {
    RenderFields(table, p);
    RenderFields(table, q);
    PairEqual(p.code, DecimalText(p.amount), q.code, DecimalText(q.amount));
    AmountOfText(p.amount);
    AmountOfText(q.amount);
  }

  lemma RenderFields(table: Currencies, q: Qion)
    requires Valid(table, q)
    ensures Fields(Render(q)) == [q.code, DecimalText(q.amount)]
  {
    AmountOfText(q.amount);
    TwoFields(q.code, DecimalText(q.amount));
  }

  lemma PairEqual(a: string, b: string, c: string, d: string)
    requires [a, b] == [c, d]
    ensures a == c && b == d
  {
    assert a == [a, b][0] && b == [a, b][1];
  }

  // ---------------------------------------------------------------- units and order

  lemma NumeratorIs(text: string)
    requires AmountShape(text) && text != ""
    ensures
      var digits := IntPart(Body(text)) + FracPart(Body(text));
      AllDigits(digits) && Numerator(text) == if text[0] == '-' then -(Value(digits) as int) else Value(digits)
  {
  }

  /** qionUnits: read back from the print; absent when it does not fit 64 bits. */
  method QionUnits(q: Qion) returns (units: Option<int>)
    ensures units == if MIN <= Units(q) <= MAX then Some(Units(q)) else None
  {
    var text := DecimalText(q.amount);
    AmountOfText(q.amount);
    NumeratorIs(text);
    var neg, s := StripSign(text);
    var digits := RemovePoint(s);
    var n: int := Value(digits);
    if neg {
      n := -n;
    }
    if n < MIN || n > MAX {
      return None;
    }
    return Some(n);
  }

  /** compareQions: the code first, then the exact rational amounts. */
  function CompareQions(a: Qion, b: Qion): int {
    var c := Compare(a.code, b.code);
    if c != 0 then c
    else CompareInt(Scaled(Units(a), b.amount.scale), Scaled(Units(b), a.amount.scale))
  }

  /** Across currencies the first differing letter of the codes decides, whatever the amounts. */
  lemma OrderAcrossCurrencies(table: Currencies, a: Qion, b: Qion)
    requires Valid(table, a) && Valid(table, b) && a.code != b.code
    ensures CompareQions(a, b) < 0 <==>
      exists i :: 0 <= i < 3 && a.code[..i] == b.code[..i] && a.code[i] < b.code[i]
  {
    CompareFlips(a.code, b.code);
    CompareIsLexical(a.code, b.code);
  }

  /** Within one currency the order is that of the unbounded minor-unit counts. */
  lemma OrderIsUnitOrder(table: Currencies, a: Qion, b: Qion)
    requires Valid(table, a) && Valid(table, b) && a.code == b.code
    ensures CompareQions(a, b) == CompareInt(Units(a), Units(b))
  {
    CompareFlips(a.code, b.code);
    ScaledOrder(Units(a), Units(b), a.minor);
  }

  /** A total order on valid amounts: antisymmetric, zero exactly on equals, transitive. */
  lemma OrderIsTotal(table: Currencies, a: Qion, b: Qion, c: Qion)
    requires Valid(table, a) && Valid(table, b) && Valid(table, c)
    ensures CompareQions(a, b) == -CompareQions(b, a)
    ensures CompareQions(a, b) == 0 <==> a == b
    ensures CompareQions(a, b) <= 0 && CompareQions(b, c) <= 0 ==> CompareQions(a, c) <= 0
  {
    CompareFlips(a.code, b.code);
    CompareFlips(b.code, c.code);
    CompareFlips(a.code, c.code);
    if Compare(a.code, b.code) <= 0 && Compare(b.code, c.code) <= 0 {
      CompareTransitive(a.code, b.code, c.code);
    }
    if a.code == b.code { OrderIsUnitOrder(table, a, b); OrderIsUnitOrder(table, b, a); }
    if b.code == c.code { OrderIsUnitOrder(table, b, c); }
    if a.code == c.code { OrderIsUnitOrder(table, a, c); }
  }
}

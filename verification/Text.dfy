/** Strings as Go's `strings` and `strconv` treat them, on ASCII text. */
module Text {

  // ---------------------------------------------------------------- three-way comparison

  function CompareInt(a: int, b: int): int {
    if a < b then -1 else if a > b then 1 else 0
  }

  /** strings.Compare: lexicographic by byte. */
  function Compare(a: string, b: string): int {
    if a == [] then if b == [] then 0 else -1
    else if b == [] then 1
    else if a[0] < b[0] then -1
    else if a[0] > b[0] then 1
    else Compare(a[1..], b[1..])
  }

  lemma {:induction false} CompareFlips(a: string, b: string)
    ensures Compare(a, b) == -Compare(b, a)
    ensures Compare(a, b) == 0 <==> a == b
  {
    if a != [] && b != [] && a[0] == b[0] {
      CompareFlips(a[1..], b[1..]);
      assert a == [a[0]] + a[1..] && b == [b[0]] + b[1..];
    }
  }

  lemma {:induction false} CompareTransitive(a: string, b: string, c: string)
    requires Compare(a, b) <= 0 && Compare(b, c) <= 0
    ensures Compare(a, c) <= 0
  {
    if a != [] && b != [] && c != [] && a[0] == b[0] == c[0] {
      CompareTransitive(a[1..], b[1..], c[1..]);
    }
  }

  /** Below as text: a proper prefix, or smaller at the first place they differ. */
  ghost predicate LexBelow(a: string, b: string) {
    a < b || exists i :: 0 <= i < |a| && i < |b| && a[..i] == b[..i] && a[i] < b[i]
  }

  lemma {:induction false} CompareIsLexical(a: string, b: string)
    ensures Compare(a, b) < 0 <==> LexBelow(a, b)
  {
    if a != [] && b != [] {
      CompareIsLexical(a[1..], b[1..]);
      if a[0] == b[0] {
        LexTail(a, b);
      } else {
        LexHead(a, b);
      }
    } else {
      assert a < b <==> a == [] && b != [];
    }
  }

  lemma LexHead(a: string, b: string)
    requires a != [] && b != [] && a[0] != b[0]
    ensures LexBelow(a, b) <==> a[0] < b[0]
  {
    assert a[..0] == b[..0];
    assert forall i | 0 < i < |a| && i < |b| :: a[..i][0] == a[0] && b[..i][0] == b[0];
  }

  lemma LexTail(a: string, b: string)
    requires a != [] && b != [] && a[0] == b[0]
    ensures LexBelow(a, b) <==> LexBelow(a[1..], b[1..])
  {
    var x, y := a[1..], b[1..];
    assert a == [a[0]] + x && b == [b[0]] + y;
    assert a < b <==> x < y;
    if i :| 0 <= i < |x| && i < |y| && x[..i] == y[..i] && x[i] < y[i] {
      assert a[..i + 1] == [a[0]] + x[..i] && b[..i + 1] == [b[0]] + y[..i];
      assert a[i + 1] < b[i + 1];
    }
    if j :| 0 <= j < |a| && j < |b| && a[..j] == b[..j] && a[j] < b[j] {
      assert x[..j - 1] == a[..j][1..] == b[..j][1..] == y[..j - 1];
      assert x[j - 1] < y[j - 1];
    }
  }

  // ---------------------------------------------------------------- splitting

  /** strings.Split on a one-byte separator. */
  function Split(s: string, sep: char): (parts: seq<string>)
    ensures parts != []
  {
    if s == [] then [[]]
    else
      var rest := Split(s[1..], sep);
      if s[0] == sep then [[]] + rest else [[s[0]] + rest[0]] + rest[1..]
  }

  function Join(parts: seq<string>, sep: char): string
    requires parts != []
  {
    if |parts| == 1 then parts[0] else parts[0] + [sep] + Join(parts[1..], sep)
  }

  lemma {:induction false} JoinSplit(s: string, sep: char)
    ensures Join(Split(s, sep), sep) == s
    ensures forall p | p in Split(s, sep) :: sep !in p
  {
    if s != [] {
      JoinSplit(s[1..], sep);
      var rest := Split(s[1..], sep);
      assert s == [s[0]] + s[1..];
      if s[0] == sep {
        JoinNewPart(rest, sep);
      } else {
        JoinLonger(s[0], rest, sep);
      }
    }
  }

  lemma JoinNewPart(rest: seq<string>, sep: char)
    requires rest != []
    ensures Join([[]] + rest, sep) == [sep] + Join(rest, sep)
  {
    assert ([[]] + rest)[1..] == rest;
    assert [] + [sep] + Join(rest, sep) == [sep] + Join(rest, sep);
  }

  /** One more character at the front belongs to the first part. */
  lemma JoinLonger(c: char, rest: seq<string>, sep: char)
    requires rest != []
    ensures var parts := [[c] + rest[0]] + rest[1..];
      && Join(parts, sep) == [c] + Join(rest, sep)
      && (c != sep && (forall p | p in rest :: sep !in p) ==> forall p | p in parts :: sep !in p)
  {
    var parts := [[c] + rest[0]] + rest[1..];
    assert parts[1..] == rest[1..] && forall p | p in rest[1..] :: p in rest;
    assert rest[0] in rest;
    if |rest| > 1 {
      assert ([c] + rest[0]) + [sep] + Join(rest[1..], sep) == [c] + (rest[0] + [sep] + Join(rest[1..], sep));
    }
  }

  lemma {:induction false} SplitPlain(s: string, sep: char)
    requires sep !in s
    ensures Split(s, sep) == [s]
  {
    if s != [] {
      SplitPlain(s[1..], sep);
      assert s == [s[0]] + s[1..];
    }
  }

  lemma {:induction false} SplitAt(s: string, sep: char, rest: string)
    requires sep !in s
    ensures Split(s + [sep] + rest, sep) == [s] + Split(rest, sep)
  {
    var t := s + [sep] + rest;
    if s == [] {
      assert t == [sep] + rest;
      assert t[1..] == rest;
    } else {
      SplitAt(s[1..], sep, rest);
      assert t[1..] == s[1..] + [sep] + rest;
      assert s == [s[0]] + s[1..];
    }
  }

  lemma {:induction false} SplitJoin(parts: seq<string>, sep: char)
    requires parts != [] && forall p | p in parts :: sep !in p
    ensures Split(Join(parts, sep), sep) == parts
  {
    if |parts| == 1 {
      SplitPlain(parts[0], sep);
    } else {
      SplitAt(parts[0], sep, Join(parts[1..], sep));
      SplitJoin(parts[1..], sep);
    }
  }

  lemma SplitInjective(a: string, b: string, sep: char)
    requires Split(a, sep) == Split(b, sep)
    ensures a == b
  {
    JoinSplit(a, sep);
    JoinSplit(b, sep);
  }

  /** Every character of a joined text is the separator or stands in a part. */
  lemma {:induction false} JoinChars(parts: seq<string>, sep: char, c: char)
    requires parts != [] && c in Join(parts, sep) && c != sep
    ensures exists p :: p in parts && c in p
  {
    if |parts| > 1 && c !in parts[0] {
      JoinChars(parts[1..], sep, c);
    }
  }

  // ---------------------------------------------------------------- cutting at a first byte

  /** strings.IndexByte: the first position, or -1. */
  function IndexByte(s: string, c: char): (i: int)
    ensures i >= 0 ==> i < |s| && s[i] == c && c !in s[..i]
    ensures i < 0 ==> i == -1 && c !in s
  {
    if s == [] then -1
    else if s[0] == c then 0
    else
      var i := IndexByte(s[1..], c);
      assert s == [s[0]] + s[1..];
      assert i >= 0 ==> s[..i + 1] == [s[0]] + s[1..][..i];
      if i < 0 then -1 else i + 1
  }

  lemma IndexByteIs(a: string, c: char, b: string)
    requires c !in a
    ensures IndexByte(a + [c] + b, c) == |a|
  {
    var s := a + [c] + b;
    var i := IndexByte(s, c);
    assert s[|a|] == c;
    assert forall k | 0 <= k < |a| :: s[k] == a[k];
    assert i >= 0 ==> forall k | 0 <= k < i :: s[..i][k] == s[k];
  }

  // ---------------------------------------------------------------- decimal digits

  predicate IsDigit(c: char) {
    '0' <= c <= '9'
  }

  predicate AllDigits(s: string) {
    forall i | 0 <= i < |s| :: IsDigit(s[i])
  }

  function DigitValue(c: char): int
    requires IsDigit(c)
  {
    c as int - '0' as int
  }

  function DigitChar(d: int): (c: char)
    requires 0 <= d < 10
    ensures IsDigit(c) && DigitValue(c) == d
  {
    ('0' as int + d) as char
  }

  /** The value of a digit string of any length. */
  function Value(s: string): (n: nat)
    requires AllDigits(s)
  {
    if s == [] then 0 else 10 * Value(s[..|s| - 1]) + DigitValue(s[|s| - 1])
  }

  /** Plain decimal, as strconv prints a non-negative integer. */
  function Digits(n: nat): (s: string)
    ensures AllDigits(s) && s != []
  {
    if n < 10 then [DigitChar(n)] else Digits(n / 10) + [DigitChar(n % 10)]
  }

  /** No leading zero, except in "0" itself. */
  predicate Unpadded(s: string) {
    s != [] && AllDigits(s) && (|s| > 1 ==> s[0] != '0')
  }

  lemma {:induction false} ValueOfDigits(n: nat)
    ensures Value(Digits(n)) == n && Unpadded(Digits(n))
    ensures n > 0 ==> Digits(n)[0] != '0'
  {
    if n >= 10 {
      ValueOfDigits(n / 10);
      var s := Digits(n);
      assert s[..|s| - 1] == Digits(n / 10);
    }
  }

  lemma {:induction false} UnpaddedPositive(s: string)
    requires Unpadded(s) && s[0] != '0'
    ensures Value(s) > 0
  {
    if |s| > 1 {
      UnpaddedPositive(s[..|s| - 1]);
    }
  }

  lemma {:induction false} DigitsOfValue(s: string)
    requires Unpadded(s)
    ensures Digits(Value(s)) == s
  {
    var init := s[..|s| - 1];
    assert s == init + [s[|s| - 1]];
    if |s| > 1 {
      DigitsOfValue(init);
      UnpaddedPositive(init);
    } else {
      assert Value(init) == 0;
    }
  }

  // ---------------------------------------------------------------- digit strings in numeric order

  function Pow10(n: nat): nat {
    if n == 0 then 1 else 10 * Pow10(n - 1)
  }

  lemma {:induction false} ValueBelow(s: string)
    requires AllDigits(s)
    ensures Value(s) < Pow10(|s|)
  {
    if s != [] {
      ValueBelow(s[..|s| - 1]);
    }
  }

  /** Reading a digit string from its first digit. */
  lemma {:induction false} ValueFromFront(s: string)
    requires AllDigits(s) && s != []
    ensures Value(s) == DigitValue(s[0]) * Pow10(|s| - 1) + Value(s[1..])
  {
    if |s| > 1 {
      var init := s[..|s| - 1];
      ValueFromFront(init);
      assert s[1..][..|s| - 2] == init[1..];
      Distribute(DigitValue(s[0]), Pow10(|s| - 2));
    } else {
      assert s[..0] == [];
    }
  }

  lemma Distribute(d: int, p: int)
    ensures 10 * (d * p) == d * (10 * p)
  {
  }

  lemma {:induction false} SameLengthOrder(a: string, b: string)
    requires AllDigits(a) && AllDigits(b) && |a| == |b|
    ensures Compare(a, b) == CompareInt(Value(a), Value(b))
  {
    if a != [] {
      ValueFromFront(a);
      ValueFromFront(b);
      ValueBelow(a[1..]);
      ValueBelow(b[1..]);
      SameLengthOrder(a[1..], b[1..]);
      LeadingDigit(DigitValue(a[0]), DigitValue(b[0]), Pow10(|a| - 1), Value(a[1..]), Value(b[1..]));
    }
  }

  lemma LeadingDigit(x: int, y: int, p: nat, u: nat, v: nat)
    requires u < p && v < p
    ensures x < y ==> x * p + u < y * p + v
    ensures x > y ==> x * p + u > y * p + v
  {
    if x < y {
      Gap(x, y, p);
    } else if y < x {
      Gap(y, x, p);
    }
  }

  lemma Gap(x: int, y: int, p: nat)
    requires x < y
    ensures x * p + p <= y * p
  {
    assert (y - x - 1) * p >= 0;
  }

  /** An unpadded string of n + 1 digits denotes at least 10^n. */
  lemma UnpaddedAtLeast(s: string)
    requires Unpadded(s) && |s| > 1
    ensures Pow10(|s| - 1) <= Value(s)
  {
    ValueFromFront(s);
    Gap(0, DigitValue(s[0]), Pow10(|s| - 1));
  }

  lemma {:induction false} Pow10Monotone(m: nat, n: nat)
    requires m <= n
    ensures Pow10(m) <= Pow10(n)
  {
    if m < n {
      Pow10Monotone(m, n - 1);
    }
  }

  /** Length first, then lexical: on unpadded digit strings that is the order of the numbers. */
  lemma LengthThenLexicalIsNumeric(a: string, b: string)
    requires Unpadded(a) && Unpadded(b)
    ensures (if |a| != |b| then CompareInt(|a|, |b|) else Compare(a, b)) == CompareInt(Value(a), Value(b))
  {
    if |a| == |b| {
      SameLengthOrder(a, b);
    } else if |a| < |b| {
      ShorterIsLess(a, b);
    } else {
      ShorterIsLess(b, a);
    }
  }

  lemma ShorterIsLess(a: string, b: string)
    requires Unpadded(a) && Unpadded(b) && |a| < |b|
    ensures Value(a) < Value(b)
  {
    ValueBelow(a);
    UnpaddedAtLeast(b);
    Pow10Monotone(|a|, |b| - 1);
  }
}

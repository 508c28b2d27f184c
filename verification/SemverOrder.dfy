/**
  The order on Semverons (basic/go/micron.go, compareSemverons) against section 11 of
  Semantic Versioning 2.0.0, and as a total order that agrees with equality.
*/
module SemverOrder {
  import opened Text
  import opened Wrappers
  import opened Semveron

  // ---------------------------------------------------------------- the comparators

  /** comparePrereleaseIdent: two numeric identifiers of any size by length, then by byte. */
  function CompareIdent(a: string, b: string): int {
    var aNum, bNum := IsNumericIdent(a), IsNumericIdent(b);
    if aNum && bNum then
      if |a| != |b| then CompareInt(|a|, |b|) else Compare(a, b)
    else if aNum && !bNum then -1
    else if !aNum && bNum then 1
    else Compare(a, b)
  }

  function CompareIdents(a: seq<string>, b: seq<string>): int {
    if a == [] || b == [] then CompareInt(|a|, |b|)
    else
      var c := CompareIdent(a[0], b[0]);
      if c != 0 then c else CompareIdents(a[1..], b[1..])
  }

  function PrereleaseOrder(a: string, b: string): int {
    if a == b then 0
    else if a == "" then 1
    else if b == "" then -1
    else CompareIdents(Split(a, '.'), Split(b, '.'))
  }

  /** comparePrerelease */
  method ComparePrerelease(a: string, b: string) returns (c: int)
    ensures c == PrereleaseOrder(a, b)
  {
    if a == b {
      return 0;
    }
    if a == "" {
      return 1;
    }
    if b == "" {
      return -1;
    }
    var ai, bi := Split(a, '.'), Split(b, '.');
    var i := 0;
    while i < |ai| && i < |bi|
      invariant 0 <= i <= |ai| && i <= |bi|
      invariant CompareIdents(ai, bi) == CompareIdents(ai[i..], bi[i..])
    {
      c := CompareIdent(ai[i], bi[i]);
      if c != 0 {
        return c;
      }
      assert ai[i..][1..] == ai[i + 1..] && bi[i..][1..] == bi[i + 1..];
      i := i + 1;
    }
    return CompareInt(|ai|, |bi|);
  }

  /** compareSemverBuild: absent below present, then by byte. */
  function CompareBuild(a: string, b: string): int {
    if a == b then 0
    else if a == "" then -1
    else if b == "" then 1
    else Compare(a, b)
  }

  /** compareSemverons on the stored fields. */
  function CompareSemverons(a: Semveron, b: Semveron): int {
    if a.major != b.major then CompareInt(a.major, b.major)
    else if a.minor != b.minor then CompareInt(a.minor, b.minor)
    else if a.patch != b.patch then CompareInt(a.patch, b.patch)
    else
      var p := PrereleaseOrder(FieldString(a.prerelease), FieldString(b.prerelease));
      if p != 0 then p
      else CompareBuild(FieldString(a.build), FieldString(b.build))
  }

  // ---------------------------------------------------------------- the parts are total orders

  lemma IdentFlips(a: string, b: string)
    ensures CompareIdent(a, b) == -CompareIdent(b, a)
    ensures CompareIdent(a, b) == 0 <==> a == b
  {
    CompareFlips(a, b);
  }

  lemma IdentTransitive(a: string, b: string, c: string)
    requires CompareIdent(a, b) <= 0 && CompareIdent(b, c) <= 0
    ensures CompareIdent(a, c) <= 0
  {
    if Compare(a, b) <= 0 && Compare(b, c) <= 0 {
      CompareTransitive(a, b, c);
    }
  }

  lemma {:induction false} IdentsFlip(a: seq<string>, b: seq<string>)
    ensures CompareIdents(a, b) == -CompareIdents(b, a)
    ensures CompareIdents(a, b) == 0 <==> a == b
  {
    if a != [] && b != [] {
      IdentFlips(a[0], b[0]);
      IdentsFlip(a[1..], b[1..]);
      assert a == [a[0]] + a[1..] && b == [b[0]] + b[1..];
    }
  }

  lemma {:induction false} IdentsTransitive(a: seq<string>, b: seq<string>, c: seq<string>)
    requires CompareIdents(a, b) <= 0 && CompareIdents(b, c) <= 0
    ensures CompareIdents(a, c) <= 0
  {
    if a != [] && b != [] && c != [] {
      IdentTransitive(a[0], b[0], c[0]);
      IdentFlips(a[0], b[0]);
      IdentFlips(b[0], c[0]);
      IdentFlips(a[0], c[0]);
      if a[0] == b[0] == c[0] {
        IdentsTransitive(a[1..], b[1..], c[1..]);
      }
    }
  }

  lemma PrereleaseFlips(a: string, b: string)
    ensures PrereleaseOrder(a, b) == -PrereleaseOrder(b, a)
    ensures PrereleaseOrder(a, b) == 0 <==> a == b
  {
    IdentsFlip(Split(a, '.'), Split(b, '.'));
    if Split(a, '.') == Split(b, '.') {
      SplitInjective(a, b, '.');
    }
  }

  lemma PrereleaseTransitive(a: string, b: string, c: string)
    requires PrereleaseOrder(a, b) <= 0 && PrereleaseOrder(b, c) <= 0
    ensures PrereleaseOrder(a, c) <= 0
  {
    if a != b && b != c && a != c && a != "" && b != "" && c != "" {
      IdentsTransitive(Split(a, '.'), Split(b, '.'), Split(c, '.'));
    }
  }

  lemma BuildFlips(a: string, b: string)
    ensures CompareBuild(a, b) == -CompareBuild(b, a)
    ensures CompareBuild(a, b) == 0 <==> a == b
  {
    CompareFlips(a, b);
  }

  lemma BuildTransitive(a: string, b: string, c: string)
    requires CompareBuild(a, b) <= 0 && CompareBuild(b, c) <= 0
    ensures CompareBuild(a, c) <= 0
  {
    if a != b && b != c && a != "" && b != "" && c != "" {
      CompareTransitive(a, b, c);
    }
  }

  // ---------------------------------------------------------------- a total order

  /** Antisymmetric, and zero exactly when all five fields agree. */
  lemma OrderFlips(a: Semveron, b: Semveron)
    requires Valid(a) && Valid(b)
    ensures CompareSemverons(a, b) == -CompareSemverons(b, a)
    ensures CompareSemverons(a, b) == 0 <==> a == b
  {
    PrereleaseFlips(FieldString(a.prerelease), FieldString(b.prerelease));
    BuildFlips(FieldString(a.build), FieldString(b.build));
    NonEmptyIdents(FieldString(a.prerelease));
    NonEmptyIdents(FieldString(b.prerelease));
    NonEmptyIdents(FieldString(a.build));
    NonEmptyIdents(FieldString(b.build));
  }

  lemma OrderTransitive(a: Semveron, b: Semveron, c: Semveron)
    requires CompareSemverons(a, b) <= 0 && CompareSemverons(b, c) <= 0
    ensures CompareSemverons(a, c) <= 0
  {
    var ap, bp, cp := FieldString(a.prerelease), FieldString(b.prerelease), FieldString(c.prerelease);
    PrereleaseFlips(ap, bp);
    PrereleaseFlips(bp, cp);
    PrereleaseFlips(ap, cp);
    if PrereleaseOrder(ap, bp) <= 0 && PrereleaseOrder(bp, cp) <= 0 {
      PrereleaseTransitive(ap, bp, cp);
    }
    var ab, bb, cb := FieldString(a.build), FieldString(b.build), FieldString(c.build);
    if CompareBuild(ab, bb) <= 0 && CompareBuild(bb, cb) <= 0 {
      BuildTransitive(ab, bb, cb);
    }
  }

  // ---------------------------------------------------------------- section 11 of the standard

  /** 11.4.1 to 11.4.3: numerically, lexically in ASCII order, numeric below alphanumeric. */
  ghost predicate IdentPrecedes(a: string, b: string) {
    var aNum, bNum := IsNumericIdent(a), IsNumericIdent(b);
    || (aNum && bNum && Value(a) < Value(b))
    || (aNum && !bNum)
    || (!aNum && !bNum && LexBelow(a, b))
  }

  /** 11.4: the first differing identifier decides; 11.4.4: a longer list above its own prefix. */
  ghost predicate IdentsPrecede(a: seq<string>, b: seq<string>) {
    || a < b
    || exists i ::
         && 0 <= i < |a| && i < |b| && a[..i] == b[..i]
         && IdentPrecedes(a[i], b[i])
  }

  /** 11.2 and 11.3: major, minor, patch; then a prerelease below the release itself. */
  ghost predicate Precedes(a: Semveron, b: Semveron) {
    || a.major < b.major
    || (a.major == b.major && a.minor < b.minor)
    || (a.major == b.major && a.minor == b.minor && a.patch < b.patch)
    || (a.major == b.major && a.minor == b.minor && a.patch == b.patch
        && a.prerelease.Some?
        && (b.prerelease.None? ||
            IdentsPrecede(Split(a.prerelease.value, '.'), Split(b.prerelease.value, '.'))))
  }

  lemma IdentOrderIsPrecedence(a: string, b: string)
    requires ValidPrereleaseIdent(a) && ValidPrereleaseIdent(b)
    ensures CompareIdent(a, b) < 0 <==> IdentPrecedes(a, b)
  {
    CompareIsLexical(a, b);
    if IsNumericIdent(a) && IsNumericIdent(b) {
      LengthThenLexicalIsNumeric(a, b);
    }
  }

  lemma {:induction false} IdentsOrderIsPrecedence(a: seq<string>, b: seq<string>)
    requires forall id | id in a :: ValidPrereleaseIdent(id)
    requires forall id | id in b :: ValidPrereleaseIdent(id)
    ensures CompareIdents(a, b) < 0 <==> IdentsPrecede(a, b)
  {
    if a == [] {
      assert a < b <==> b != [];
    } else if b != [] {
      IdentOrderIsPrecedence(a[0], b[0]);
      IdentOrderIsPrecedence(b[0], a[0]);
      IdentFlips(a[0], b[0]);
      IdentsOrderIsPrecedence(a[1..], b[1..]);
      assert a == [a[0]] + a[1..] && b == [b[0]] + b[1..];
      if a[0] == b[0] {
        TailPrecedes(a, b);
      } else {
        HeadPrecedes(a, b);
      }
    }
  }

  lemma HeadPrecedes(a: seq<string>, b: seq<string>)
    requires a != [] && b != [] && a[0] != b[0]
    ensures IdentsPrecede(a, b) <==> IdentPrecedes(a[0], b[0])
  {
    if IdentPrecedes(a[0], b[0]) {
      assert a[..0] == b[..0];
    }
    assert forall i | 0 < i < |a| && i < |b| :: a[..i][0] == a[0] && b[..i][0] == b[0];
  }

  lemma TailPrecedes(a: seq<string>, b: seq<string>)
    requires a != [] && b != [] && a[0] == b[0] && !IdentPrecedes(a[0], b[0])
    ensures IdentsPrecede(a, b) <==> IdentsPrecede(a[1..], b[1..])
  {
    var x, y := a[1..], b[1..];
    assert a == [a[0]] + x && b == [b[0]] + y;
    assert a < b <==> x < y;
    if i :| 0 <= i < |x| && i < |y| && x[..i] == y[..i] && IdentPrecedes(x[i], y[i]) {
      assert a[..i + 1] == [a[0]] + x[..i] && b[..i + 1] == [b[0]] + y[..i];
      assert IdentPrecedes(a[i + 1], b[i + 1]);
    }
    if j :| 0 <= j < |a| && j < |b| && a[..j] == b[..j] && IdentPrecedes(a[j], b[j]) {
      assert x[..j - 1] == a[..j][1..] == b[..j][1..] == y[..j - 1];
      assert IdentPrecedes(x[j - 1], y[j - 1]);
    }
  }

  /**
    The order refines the standard's precedence: what precedes is smaller, and of versions
    of equal precedence the one without build metadata is, or the one whose metadata is
    below the other's as text.
  */
  lemma OrderRefinesPrecedence(a: Semveron, b: Semveron)
    requires Valid(a) && Valid(b)
    ensures Precedes(a, b) ==> CompareSemverons(a, b) < 0
    ensures !Precedes(a, b) && !Precedes(b, a) ==>
              && a.major == b.major && a.minor == b.minor && a.patch == b.patch && a.prerelease == b.prerelease
              && (CompareSemverons(a, b) < 0 <==>
                    b.build.Some? && (a.build.None? || LexBelow(a.build.value, b.build.value)))
  {
    NonEmptyIdents(FieldString(a.build));
    NonEmptyIdents(FieldString(b.build));
    CompareIsLexical(FieldString(a.build), FieldString(b.build));
    CompareFlips(FieldString(a.build), FieldString(b.build));
    PrereleaseFlips(FieldString(a.prerelease), FieldString(b.prerelease));
    NonEmptyIdents(FieldString(a.prerelease));
    NonEmptyIdents(FieldString(b.prerelease));
    if a.prerelease.Some? && b.prerelease.Some? {
      var ai, bi := Split(a.prerelease.value, '.'), Split(b.prerelease.value, '.');
      IdentsOrderIsPrecedence(ai, bi);
      IdentsOrderIsPrecedence(bi, ai);
      IdentsFlip(ai, bi);
      if ai == bi {
        SplitInjective(a.prerelease.value, b.prerelease.value, '.');
      }
    }
  }
}

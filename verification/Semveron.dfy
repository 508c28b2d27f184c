/**
  Semveron: the parser and the canonical print of a semantic version
  (basic/go/micron.go), proved to be each other's inverse.
*/
module Semveron {
  import opened Int64
  import opened Text
  import opened Wrappers

  /** The stored fields. An absent prerelease or build is not an empty one. */
  datatype Semveron = Semveron(
    major: int, minor: int, patch: int,
    prerelease: Option<string>, build: Option<string>)

  datatype Error =
    | EmptyVersion
    | LeadingV
    | CoreShape
    | BadNumber
    | BadPrerelease
    | BadBuild

  datatype Result = Ok(version: Semveron) | Err(error: Error)

  // ---------------------------------------------------------------- the grammar

  predicate IsIdentChar(c: char) {
    '0' <= c <= '9' || 'A' <= c <= 'Z' || 'a' <= c <= 'z' || c == '-'
  }

  predicate IsNumericIdent(s: string) {
    s != [] && AllDigits(s)
  }

  predicate ValidIdent(id: string) {
    id != [] && forall i | 0 <= i < |id| :: IsIdentChar(id[i])
  }

  /** A numeric prerelease identifier carries no leading zero; a build identifier may. */
  predicate ValidPrereleaseIdent(id: string) {
    ValidIdent(id) && (IsNumericIdent(id) ==> Unpadded(id))
  }

  predicate ValidPrerelease(s: string) {
    forall id | id in Split(s, '.') :: ValidPrereleaseIdent(id)
  }

  predicate ValidBuild(s: string) {
    forall id | id in Split(s, '.') :: ValidIdent(id)
  }

  predicate Valid(v: Semveron) {
    && 0 <= v.major <= MAX && 0 <= v.minor <= MAX && 0 <= v.patch <= MAX
    && (v.prerelease.Some? ==> ValidPrerelease(v.prerelease.value))
    && (v.build.Some? ==> ValidBuild(v.build.value))
  }

  // ---------------------------------------------------------------- print

  /** A field read: an absent string field reads as the empty string. */
  function FieldString(f: Option<string>): string {
    match f
    case None => ""
    case Some(s) => s
  }

  function CoreText(v: Semveron): string
    requires 0 <= v.major && 0 <= v.minor && 0 <= v.patch
  {
    Digits(v.major) + "." + Digits(v.minor) + "." + Digits(v.patch)
  }

  /** micronSemveronRender */
  function Render(v: Semveron): string
    requires 0 <= v.major && 0 <= v.minor && 0 <= v.patch
  {
    CoreText(v)
    + (if FieldString(v.prerelease) != "" then "-" + FieldString(v.prerelease) else "")
    + (if FieldString(v.build) != "" then "+" + FieldString(v.build) else "")
  }

  // ---------------------------------------------------------------- parse

  /** parseSemverNumeric: digits only, unpadded, within 64 bits. */
  method ParseSemverNumeric(s: string) returns (n: Option<int>)
    ensures n.Some? <==> Unpadded(s) && Value(s) <= MAX
    ensures n.Some? ==> n.value == Value(s)
  {
    if s == "" {
      return None;
    }
    for i := 0 to |s|
      invariant forall k | 0 <= k < i :: IsDigit(s[k])
    {
      if s[i] < '0' || s[i] > '9' {
        return None;
      }
    }
    if |s| > 1 && s[0] == '0' {
      return None;
    }
    if Value(s) > MAX {
      return None;
    }
    return Some(Value(s));
  }

  method IsValidIdent(id: string) returns (ok: bool)
    ensures ok <==> ValidIdent(id)
  {
    if id == "" {
      return false;
    }
    for i := 0 to |id|
      invariant forall k | 0 <= k < i :: IsIdentChar(id[k])
    {
      if !IsIdentChar(id[i]) {
        return false;
      }
    }
    return true;
  }

  method ValidSemverPrerelease(s: string) returns (ok: bool)
    ensures ok <==> ValidPrerelease(s)
  {
    var ids := Split(s, '.');
    for k := 0 to |ids|
      invariant forall j | 0 <= j < k :: ValidPrereleaseIdent(ids[j])
    {
      assert ids[k] in ids;
      var valid := IsValidIdent(ids[k]);
      if !valid {
        return false;
      }
      if IsNumericIdent(ids[k]) && |ids[k]| > 1 && ids[k][0] == '0' {
        return false;
      }
    }
    return true;
  }

  method ValidSemverBuild(s: string) returns (ok: bool)
    ensures ok <==> ValidBuild(s)
  {
    var ids := Split(s, '.');
    for k := 0 to |ids|
      invariant forall j | 0 <= j < k :: ValidIdent(ids[j])
    {
      var valid := IsValidIdent(ids[k]);
      if !valid {
        return false;
      }
    }
    return true;
  }

  /** Cut at the first `c`: what precedes it, and what follows if it is there. */
  function CutFirst(s: string, c: char): (r: (string, Option<string>)) {
    var i := IndexByte(s, c);
    if i >= 0 then (s[..i], Some(s[i + 1..])) else (s, None)
  }

  /**
    The parser accepts exactly the canonical prints of valid versions, and its answer is
    the version whose print the text is.
  */
  method SemveronFromString(s: string) returns (r: Result)
    ensures r.Ok? ==> Valid(r.version) && Render(r.version) == s
    ensures r.Err? ==> forall v | Valid(v) :: Render(v) != s
  {
    if s == "" {
      NoPrintIsEmptyOrLettered(s);
      return Err(EmptyVersion);
    }
    if s[0] == 'v' || s[0] == 'V' {
      NoPrintIsEmptyOrLettered(s);
      return Err(LeadingV);
    }
    var rest := s;
    var build, hasBuild := "", false;
    var i := IndexByte(rest, '+');
    if i >= 0 {
      build, hasBuild := rest[i + 1..], true;
      rest := rest[..i];
    }
    var prerelease, hasPre := "", false;
    i := IndexByte(rest, '-');
    if i >= 0 {
      prerelease, hasPre := rest[i + 1..], true;
      rest := rest[..i];
    }
    assert Pieces(s) == (rest, Optional(hasPre, prerelease), Optional(hasBuild, build));
    r := FromPieces(rest, hasPre, prerelease, hasBuild, build, s);
  }

  /** Validate the pieces in the source's order and fill the fields. */
  method FromPieces(rest: string, hasPre: bool, prerelease: string, hasBuild: bool, build: string, ghost s: string)
    returns (r: Result)
    requires Pieces(s) == (rest, Optional(hasPre, prerelease), Optional(hasBuild, build))
    ensures r.Ok? ==> Valid(r.version) && Render(r.version) == s
    ensures r.Err? ==> forall v | Valid(v) :: Render(v) != s
  {
    var core := Split(rest, '.');
    var error := CheckPieces(rest, hasPre, prerelease, hasBuild, build);
    if error.Some? {
      forall v | Valid(v) ensures Render(v) != s {
        PiecesOfRender(v);
      }
      return Err(error.value);
    }
    ghost var v := AcceptedPieces(s);
    r := Ok(Semveron(Value(core[0]), Value(core[1]), Value(core[2]),
                     Optional(hasPre, prerelease), Optional(hasBuild, build)));
  }

  function Optional(has: bool, s: string): Option<string> {
    if has then Some(s) else None
  }

  /** The three texts the parser validates: core, prerelease, build. */
  function Pieces(s: string): (string, Option<string>, Option<string>) {
    var (base, build) := CutFirst(s, '+');
    var (core, prerelease) := CutFirst(base, '-');
    (core, prerelease, build)
  }

  predicate ValidCore(rest: string) {
    var core := Split(rest, '.');
    |core| == 3 && forall p | p in core :: Unpadded(p) && Value(p) <= MAX
  }

  /** The checks in the source's order, on the pieces. */
  method CheckPieces(rest: string, hasPre: bool, prerelease: string, hasBuild: bool, build: string)
    returns (error: Option<Error>)
    ensures error.None? <==>
              && ValidCore(rest)
              && (hasPre ==> ValidPrerelease(prerelease))
              && (hasBuild ==> ValidBuild(build))
  {
    var core := Split(rest, '.');
    if |core| != 3 {
      return Some(CoreShape);
    }
    for k := 0 to 3
      invariant forall j | 0 <= j < k :: Unpadded(core[j]) && Value(core[j]) <= MAX
    {
      var n := ParseSemverNumeric(core[k]);
      if n.None? {
        assert core[k] in core;
        return Some(BadNumber);
      }
    }
    assert ValidCore(rest);
    if hasPre {
      var ok := ValidSemverPrerelease(prerelease);
      if !ok {
        return Some(BadPrerelease);
      }
    }
    if hasBuild {
      var ok := ValidSemverBuild(build);
      if !ok {
        return Some(BadBuild);
      }
    }
    return None;
  }

  // ---------------------------------------------------------------- proofs

  lemma NoPrintIsEmptyOrLettered(s: string)
    requires s == "" || s[0] == 'v' || s[0] == 'V'
    ensures forall v | Valid(v) :: Render(v) != s
  {
    forall v | Valid(v) ensures Render(v) != s {
      assert Render(v)[0] == Digits(v.major)[0];
    }
  }

  lemma NonEmptyIdents(s: string)
    ensures ValidPrerelease(s) || ValidBuild(s) ==> s != ""
  {
    if s == "" {
      assert Split(s, '.')[0] == "" && "" in Split(s, '.');
    }
  }

  /** Written in the letters, digits and hyphens of ASCII and in dots. */
  ghost predicate IdentText(s: string) {
    forall i | 0 <= i < |s| ::
      var c := s[i] as int;
      0x30 <= c <= 0x39 || 0x41 <= c <= 0x5A || 0x61 <= c <= 0x7A || c == 0x2D || c == 0x2E
  }

  lemma {:induction false} PartsAfterTheFirst(s: string)
    ensures
      var parts := Split(s, '.');
      && (parts[0] == "" <==> s == "" || s[0] == '.')
      && ((forall i | 0 <= i < |parts[0]| :: IsIdentChar(parts[0][i])) && (forall id | id in parts[1..] :: ValidIdent(id)) <==>
            IdentText(s) && DotsApart(s) && (s != "" ==> s[|s| - 1] != '.'))
  {
    if s != "" {
      var rest := Split(s[1..], '.');
      PartsAfterTheFirst(s[1..]);
      TextLonger(s);
      if s[0] == '.' {
        assert Split(s, '.')[1..] == rest == [rest[0]] + rest[1..];
        assert (forall id | id in rest :: ValidIdent(id)) <==> ValidIdent(rest[0]) && forall id | id in rest[1..] :: ValidIdent(id);
      } else {
        assert Split(s, '.')[1..] == rest[1..];
        FirstLonger(s[0], rest[0]);
      }
    }
  }

  /** No two dots in a row. */
  ghost predicate DotsApart(s: string) {
    forall i | 0 <= i < |s| - 1 :: !(s[i] == '.' && s[i + 1] == '.')
  }

  lemma TextLonger(s: string)
    requires s != ""
    ensures IdentText(s) <==> IdentText([s[0]]) && IdentText(s[1..])
    ensures DotsApart(s) <==> DotsApart(s[1..]) && (|s| > 1 ==> !(s[0] == '.' && s[1] == '.'))
  {
    assert s == [s[0]] + s[1..];
    assert forall i | 0 <= i < |s| - 1 :: s[1..][i] == s[i + 1];
    if DotsApart(s[1..]) {
      forall i | 1 <= i < |s| - 1 ensures !(s[i] == '.' && s[i + 1] == '.') {
        assert s[1..][i - 1] == s[i];
      }
    }
    if DotsApart(s) {
      forall i | 0 <= i < |s| - 2 ensures !(s[1..][i] == '.' && s[1..][i + 1] == '.') {
        assert !(s[i + 1] == '.' && s[i + 1 + 1] == '.');
      }
    }
  }

  lemma FirstLonger(c: char, part: string)
    ensures (forall i | 0 <= i < |part| + 1 :: IsIdentChar(([c] + part)[i])) <==>
      IsIdentChar(c) && forall i | 0 <= i < |part| :: IsIdentChar(part[i])
  {
    if forall i | 0 <= i < |part| + 1 :: IsIdentChar(([c] + part)[i]) {
      assert IsIdentChar(([c] + part)[0]);
      forall i | 0 <= i < |part| ensures IsIdentChar(part[i]) {
        assert IsIdentChar(([c] + part)[i + 1]);
      }
    }
  }

  /** Build metadata as a text: ASCII letters, digits, hyphens and dots, no dot at either end or after another. */
  lemma BuildGrammar(s: string)
    ensures ValidBuild(s) <==>
      s != "" && IdentText(s) && DotsApart(s) && s[0] != '.' && s[|s| - 1] != '.'
  {
    PartsAfterTheFirst(s);
    var parts := Split(s, '.');
    assert parts == [parts[0]] + parts[1..];
    assert ValidBuild(s) <==> ValidIdent(parts[0]) && forall id | id in parts[1..] :: ValidIdent(id);
  }

  lemma NoPlusInIdents(s: string, c: char)
    requires ValidPrerelease(s) || ValidBuild(s)
    requires c != '.' && !IsIdentChar(c)
    ensures c !in s
  {
    JoinSplit(s, '.');
    if c in s {
      JoinChars(Split(s, '.'), '.', c);
    }
  }

  lemma NoDashInCore(v: Semveron, c: char)
    requires Valid(v) && c != '.' && !IsDigit(c)
    ensures c !in CoreText(v)
  {
    var a, b, d := Digits(v.major), Digits(v.minor), Digits(v.patch);
    assert c !in a && c !in b && c !in d;
  }

  lemma CutAt(a: string, c: char, b: string)
    requires c !in a
    ensures CutFirst(a + [c] + b, c) == (a, Some(b))
    ensures CutFirst(a, c) == (a, None)
  {
    IndexByteIs(a, c, b);
    var s := a + [c] + b;
    assert s[..|a|] == a && s[|a| + 1..] == b;
  }

  /** Taking a print apart gives back the texts it was put together from, '-' and all. */
  lemma PiecesOfRender(v: Semveron)
    requires Valid(v)
    ensures Pieces(Render(v)) == (CoreText(v), v.prerelease, v.build)
    ensures ValidCore(CoreText(v))
  {
    var core := CoreText(v);
    NoDashInCore(v, '-');
    NoDashInCore(v, '+');
    NonEmptyIdents(FieldString(v.prerelease));
    NonEmptyIdents(FieldString(v.build));
    var base := core + if v.prerelease.Some? then ['-'] + v.prerelease.value else "";
    if v.prerelease.Some? {
      NoPlusInIdents(v.prerelease.value, '+');
      CutAt(core, '-', v.prerelease.value);
      assert base == core + ['-'] + v.prerelease.value;
    } else {
      CutAt(core, '-', "");
      assert base == core;
    }
    assert '+' !in base;
    if v.build.Some? {
      CutAt(base, '+', v.build.value);
      assert Render(v) == base + ['+'] + v.build.value;
    } else {
      CutAt(base, '+', "");
      assert Render(v) == base;
    }
    CoreSplits(v);
  }

  lemma CoreSplits(v: Semveron)
    requires Valid(v)
    ensures Split(CoreText(v), '.') == [Digits(v.major), Digits(v.minor), Digits(v.patch)]
    ensures ValidCore(CoreText(v))
  {
    var a, b, c := Digits(v.major), Digits(v.minor), Digits(v.patch);
    assert '.' !in a && '.' !in b && '.' !in c;
    SplitJoin([a, b, c], '.');
    assert [a, b, c][1..] == [b, c] && [b, c][1..] == [c];
    assert Join([c], '.') == c;
    assert Join([b, c], '.') == b + ['.'] + c;
    assert Join([a, b, c], '.') == a + ['.'] + (b + ['.'] + c);
    assert CoreText(v) == a + ['.'] + (b + ['.'] + c);
    ValueOfDigits(v.major);
    ValueOfDigits(v.minor);
    ValueOfDigits(v.patch);
  }

  lemma CutRejoins(s: string, c: char)
    ensures
      var (a, b) := CutFirst(s, c);
      s == a + if b.Some? then [c] + b.value else ""
  {
    var i := IndexByte(s, c);
    if i >= 0 {
      assert s == s[..i] + [c] + s[i + 1..];
    }
  }

  lemma PiecesRejoin(s: string)
    ensures
      var (core, prerelease, build) := Pieces(s);
      s == core + (if prerelease.Some? then "-" + prerelease.value else "")
                + (if build.Some? then "+" + build.value else "")
  {
    CutRejoins(s, '+');
    CutRejoins(CutFirst(s, '+').0, '-');
  }

  /** Pieces that pass the checks are the print of a valid version. */
  lemma AcceptedPieces(s: string) returns (v: Semveron)
    requires
      var (core, prerelease, build) := Pieces(s);
      && ValidCore(core)
      && (prerelease.Some? ==> ValidPrerelease(prerelease.value))
      && (build.Some? ==> ValidBuild(build.value))
    ensures
      var (core, prerelease, build) := Pieces(s);
      var parts := Split(core, '.');
      && |parts| == 3 && AllDigits(parts[0]) && AllDigits(parts[1]) && AllDigits(parts[2])
      && v == Semveron(Value(parts[0]), Value(parts[1]), Value(parts[2]), prerelease, build)
    ensures Valid(v) && Render(v) == s
  {
    var (core, prerelease, build) := Pieces(s);
    var parts := Split(core, '.');
    assert parts[0] in parts && parts[1] in parts && parts[2] in parts;
    v := Semveron(Value(parts[0]), Value(parts[1]), Value(parts[2]), prerelease, build);
    DigitsOfValue(parts[0]);
    DigitsOfValue(parts[1]);
    DigitsOfValue(parts[2]);
    CoreSplits(v);
    assert Split(CoreText(v), '.') == parts;
    SplitInjective(CoreText(v), core, '.');
    PiecesRejoin(s);
    NonEmptyIdents(FieldString(prerelease));
    NonEmptyIdents(FieldString(build));
  }

  /** Two valid versions with the same print are the same version: parsing a print gives the version back. */
  lemma RenderInjective(v: Semveron, w: Semveron)
    requires Valid(v) && Valid(w) && Render(v) == Render(w)
    ensures v == w
  {
    PiecesOfRender(v);
    PiecesOfRender(w);
    CoreSplits(v);
    CoreSplits(w);
    ValueOfDigits(v.major);
    ValueOfDigits(v.minor);
    ValueOfDigits(v.patch);
    ValueOfDigits(w.major);
    ValueOfDigits(w.minor);
    ValueOfDigits(w.patch);
  }

  /** Print, then parse. */
  method RoundTrip(v: Semveron) returns (r: Result)
    requires Valid(v)
    ensures r == Ok(v)
  {
    r := SemveronFromString(Render(v));
    RenderInjective(v, r.version);
  }
}

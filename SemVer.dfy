/**
 * Semantic versions as Semantic Versioning 2.0.0 defines them (section 2:
 * MAJOR.MINOR.PATCH without leading zeros; section 9: pre-release
 * identifiers; section 10: build metadata; section 11: precedence), and the
 * three operations of the `semver` package the updater calls: `clean`,
 * `valid` and `lt`.
 */
module SemVer {

  import opened Wrappers
  import opened Strings
  import Decimal

  /** A pre-release identifier: numeric (compared as a number) or alphanumeric. */
  datatype Identifier = Num(value: nat) | Alpha(text: string)

  datatype Version = Version(major: nat, minor: nat, patch: nat, pre: seq<Identifier>, build: seq<string>)

  /** `[0-9A-Za-z-]`, the characters of identifiers (SemVer 2.0.0 sections 9 and 10). */
  predicate IsIdentifierChar(c: char)
  {
    ('a' <= c <= 'z') || ('A' <= c <= 'Z') || Decimal.IsDigit(c) || c == '-'
  }

  /** A build-metadata identifier: non-empty, `[0-9A-Za-z-]` only. */
  predicate IsBuildIdentifier(s: string)
  {
    |s| > 0 && forall i :: 0 <= i < |s| ==> IsIdentifierChar(s[i])
  }

  /** An alphanumeric pre-release identifier: a build identifier with a non-digit in it. */
  predicate IsAlphanumericIdentifier(s: string)
  {
    IsBuildIdentifier(s) && !Decimal.AllDigits(s)
  }

  /** The versions that have a textual form. */
  predicate WellFormed(v: Version)
  {
    && (forall i :: 0 <= i < |v.pre| ==> v.pre[i].Alpha? ==> IsAlphanumericIdentifier(v.pre[i].text))
    && (forall i :: 0 <= i < |v.build| ==> IsBuildIdentifier(v.build[i]))
  }

  // ---------------------------------------------------------------------------
  // Text form

  function IdentifierText(id: Identifier): string
  {
    match id
    case Num(n) => Decimal.FromNat(n)
    case Alpha(t) => t
  }

  function IdentifierTexts(ids: seq<Identifier>): (texts: seq<string>)
    ensures |texts| == |ids|
    ensures forall i :: 0 <= i < |ids| ==> texts[i] == IdentifierText(ids[i])
  {
    if ids == [] then [] else [IdentifierText(ids[0])] + IdentifierTexts(ids[1..])
  }

  function CoreText(v: Version): string
  {
    Join([Decimal.FromNat(v.major), Decimal.FromNat(v.minor), Decimal.FromNat(v.patch)], '.')
  }

  /** The dot-separated pre-release part, absent when there are no identifiers. */
  function PreText(pre: seq<Identifier>): Option<string>
  {
    if pre == [] then None else Some(Join(IdentifierTexts(pre), '.'))
  }

  /** The dot-separated build metadata, absent when there is none. */
  function BuildText(build: seq<string>): Option<string>
  {
    if build == [] then None else Some(Join(build, '.'))
  }

  /** An optional part after its marker character. */
  function Tagged(marker: char, part: Option<string>): string
  {
    match part
    case None => ""
    case Some(t) => [marker] + t
  }

  /** `MAJOR.MINOR.PATCH[-pre][+build]`. */
  function Format(v: Version): string
  {
    CoreText(v) + Tagged('-', PreText(v.pre)) + Tagged('+', BuildText(v.build))
  }

  // ---------------------------------------------------------------------------
  // Parsing

  function ParseIdentifier(s: string): Option<Identifier>
  {
    if Decimal.IsCanonical(s) then Some(Num(Decimal.ToNat(s)))
    else if IsAlphanumericIdentifier(s) then Some(Alpha(s))
    else None
  }

  /** All of `parts` as pre-release identifiers, or nothing when one is not one. */
  function ParseIdentifiers(parts: seq<string>): (r: Option<seq<Identifier>>)
    ensures r.Some? <==> forall i :: 0 <= i < |parts| ==> ParseIdentifier(parts[i]).Some?
    ensures r.Some? ==> |r.value| == |parts|
    ensures r.Some? ==> forall i :: 0 <= i < |parts| ==> Some(r.value[i]) == ParseIdentifier(parts[i])
  {
    if parts == [] then Some([])
    else
      match (ParseIdentifier(parts[0]), ParseIdentifiers(parts[1..]))
      case (Some(id), Some(rest)) => Some([id] + rest)
      case _ => None
  }

  /** The three numbers of `MAJOR.MINOR.PATCH`. */
  function ParseCore(s: string): Option<(nat, nat, nat)>
  {
    var parts := Split(s, '.');
    if |parts| == 3 && Decimal.IsCanonical(parts[0]) && Decimal.IsCanonical(parts[1]) && Decimal.IsCanonical(parts[2])
    then Some((Decimal.ToNat(parts[0]), Decimal.ToNat(parts[1]), Decimal.ToNat(parts[2])))
    else None
  }

  /** The pre-release identifiers after a `-`, if there was one. */
  function ParsePre(part: Option<string>): Option<seq<Identifier>>
  {
    match part
    case None => Some([])
    case Some(t) => ParseIdentifiers(Split(t, '.'))
  }

  /** The build identifiers after a `+`, if there was one. */
  function ParseBuild(part: Option<string>): Option<seq<string>>
  {
    match part
    case None => Some([])
    case Some(t) =>
      var ids := Split(t, '.');
      if forall i :: 0 <= i < |ids| ==> IsBuildIdentifier(ids[i]) then Some(ids) else None
  }

  /**
   * A version in exactly the grammar of Semantic Versioning 2.0.0: the core
   * ends at the first `-` (pre-release) or `+` (build metadata); identifiers
   * are separated by dots.
   */
  function Parse(s: string): (r: Option<Version>)
    ensures r.Some? ==> WellFormed(r.value)
  {
    var main := SplitFirst(s, '+');
    var core := SplitFirst(main.0, '-');
    var nums := ParseCore(core.0);
    var pre := ParsePre(core.1);
    var build := ParseBuild(main.1);
    if nums.Some? && pre.Some? && build.Some?
    then Some(Version(nums.value.0, nums.value.1, nums.value.2, pre.value, build.value))
    else None
  }

  // ---------------------------------------------------------------------------
  // Parse and Format are inverse

  /** A marked part after a string without the marker is split off again. */
  lemma SplitFirstTagged(x: string, marker: char, part: Option<string>)
    requires marker !in x
    ensures SplitFirst(x + Tagged(marker, part), marker) == (x, part)
  {
    match part
    case None =>
      assert x + Tagged(marker, part) == x;
      SplitFirstNone(x, marker);
    case Some(t) =>
      assert x + Tagged(marker, part) == x + [marker] + t;
      SplitFirstAt(x, marker, t);
  }

  lemma CoreRoundTrip(v: Version)
    ensures ParseCore(CoreText(v)) == Some((v.major, v.minor, v.patch))
    ensures forall j :: 0 <= j < |CoreText(v)| ==> Decimal.IsDigit(CoreText(v)[j]) || CoreText(v)[j] == '.'
  {
    var nums := [Decimal.FromNat(v.major), Decimal.FromNat(v.minor), Decimal.FromNat(v.patch)];
    JoinChars(nums, '.', c => Decimal.IsDigit(c) || c == '.');
    SplitJoin(nums, '.');
    Decimal.ToNatFromNat(v.major);
    Decimal.ToNatFromNat(v.minor);
    Decimal.ToNatFromNat(v.patch);
  }

  lemma CoreTextOf(s: string, v: Version)
    requires ParseCore(s) == Some((v.major, v.minor, v.patch))
    ensures CoreText(v) == s
  {
    var parts := Split(s, '.');
    JoinSplit(s, '.');
    Decimal.FromNatToNat(parts[0]);
    Decimal.FromNatToNat(parts[1]);
    Decimal.FromNatToNat(parts[2]);
    assert [Decimal.FromNat(v.major), Decimal.FromNat(v.minor), Decimal.FromNat(v.patch)] == parts;
  }

  lemma IdentifierRoundTrip(id: Identifier)
    requires id.Alpha? ==> IsAlphanumericIdentifier(id.text)
    ensures ParseIdentifier(IdentifierText(id)) == Some(id)
    ensures |IdentifierText(id)| > 0
    ensures forall j :: 0 <= j < |IdentifierText(id)| ==> IsIdentifierChar(IdentifierText(id)[j])
  {
    match id
    case Num(n) => Decimal.ToNatFromNat(n);
    case Alpha(t) =>
  }

  lemma IdentifierTextOf(s: string, id: Identifier)
    requires ParseIdentifier(s) == Some(id)
    ensures IdentifierText(id) == s
  {
    if Decimal.IsCanonical(s) {
      Decimal.FromNatToNat(s);
    }
  }

  lemma PreRoundTrip(v: Version)
    requires WellFormed(v)
    ensures ParsePre(PreText(v.pre)) == Some(v.pre)
    ensures PreText(v.pre).Some? ==> forall j :: 0 <= j < |PreText(v.pre).value| ==>
      IsIdentifierChar(PreText(v.pre).value[j]) || PreText(v.pre).value[j] == '.'
  {
    if v.pre != [] {
      var texts := IdentifierTexts(v.pre);
      forall i | 0 <= i < |v.pre|
        ensures |texts[i]| > 0
        ensures forall j :: 0 <= j < |texts[i]| ==> IsIdentifierChar(texts[i][j])
        ensures ParseIdentifier(texts[i]) == Some(v.pre[i])
      {
        IdentifierRoundTrip(v.pre[i]);
      }
      JoinChars(texts, '.', c => IsIdentifierChar(c) || c == '.');
      SplitJoin(texts, '.');
      var ids := ParseIdentifiers(texts);
      assert ids.Some?;
      assert ids.value == v.pre;
    }
  }

  lemma PreTextOf(part: Option<string>, pre: seq<Identifier>)
    requires ParsePre(part) == Some(pre)
    ensures PreText(pre) == part
  {
    if part.Some? {
      var pieces := Split(part.value, '.');
      JoinSplit(part.value, '.');
      forall i | 0 <= i < |pieces| ensures IdentifierTexts(pre)[i] == pieces[i] {
        IdentifierTextOf(pieces[i], pre[i]);
      }
      assert IdentifierTexts(pre) == pieces;
    }
  }

  lemma BuildRoundTrip(v: Version)
    requires WellFormed(v)
    ensures ParseBuild(BuildText(v.build)) == Some(v.build)
    ensures BuildText(v.build).Some? ==> forall j :: 0 <= j < |BuildText(v.build).value| ==>
      IsIdentifierChar(BuildText(v.build).value[j]) || BuildText(v.build).value[j] == '.'
  {
    if v.build != [] {
      JoinChars(v.build, '.', c => IsIdentifierChar(c) || c == '.');
      SplitJoin(v.build, '.');
    }
  }

  lemma BuildTextOf(part: Option<string>, build: seq<string>)
    requires ParseBuild(part) == Some(build)
    ensures BuildText(build) == part
  {
    if part.Some? {
      JoinSplit(part.value, '.');
    }
  }

  /** The text of a version starts with a digit. */
  lemma FormatStartsWithDigit(v: Version)
    ensures |Format(v)| > 0 && Decimal.IsDigit(Format(v)[0])
  {
    var a := Decimal.FromNat(v.major);
    assert CoreText(v) == a + ['.'] + Join([Decimal.FromNat(v.minor), Decimal.FromNat(v.patch)], '.');
    assert Format(v)[0] == a[0];
  }

  /** Every well-formed version is read back from its text (Parse after Format). */
  lemma ParseFormat(v: Version)
    requires WellFormed(v)
    ensures Parse(Format(v)) == Some(v)
  {
    var core := CoreText(v);
    var main := core + Tagged('-', PreText(v.pre));
    CoreRoundTrip(v);
    PreRoundTrip(v);
    BuildRoundTrip(v);
    assert '-' !in core;
    assert '+' !in main;
    SplitFirstTagged(main, '+', BuildText(v.build));
    SplitFirstTagged(core, '-', PreText(v.pre));
  }

  /** Putting the two halves of SplitFirst back together. */
  lemma SplitFirstTaggedInverse(s: string, marker: char)
    ensures s == SplitFirst(s, marker).0 + Tagged(marker, SplitFirst(s, marker).1)
  {
  }

  /** Only the text of a version reads as that version (Format after Parse). */
  lemma FormatParse(s: string, v: Version)
    requires Parse(s) == Some(v)
    ensures Format(v) == s
  {
    var main := SplitFirst(s, '+');
    var core := SplitFirst(main.0, '-');
    var nums := ParseCore(core.0);
    var pre := ParsePre(core.1);
    var build := ParseBuild(main.1);
    assert nums.Some? && pre.Some? && build.Some?;
    assert v == Version(nums.value.0, nums.value.1, nums.value.2, pre.value, build.value);
    CoreTextOf(core.0, v);
    PreTextOf(core.1, v.pre);
    BuildTextOf(main.1, v.build);
    SplitFirstTaggedInverse(s, '+');
    SplitFirstTaggedInverse(main.0, '-');
  }

  /** A string is valid exactly when it is the text of a well-formed version. */
  lemma ParseIff(s: string, v: Version)
    ensures Parse(s) == Some(v) <==> WellFormed(v) && Format(v) == s
  {
    if Parse(s) == Some(v) {
      FormatParse(s, v);
    }
    if WellFormed(v) && Format(v) == s {
      ParseFormat(v);
    }
  }

  // ---------------------------------------------------------------------------
  // Precedence (SemVer 2.0.0 section 11)

  datatype Ordering = Less | Equal | Greater

  function Flip(o: Ordering): Ordering
  {
    match o
    case Less => Greater
    case Equal => Equal
    case Greater => Less
  }

  function CompareNat(a: nat, b: nat): Ordering
  {
    if a < b then Less else if a == b then Equal else Greater
  }

  /** ASCII (code unit) order on text, as JavaScript's `<` on strings. */
  function CompareText(a: string, b: string): Ordering
  {
    if a == [] && b == [] then Equal
    else if a == [] then Less
    else if b == [] then Greater
    else if a[0] < b[0] then Less
    else if a[0] > b[0] then Greater
    else CompareText(a[1..], b[1..])
  }

  /** Numeric identifiers by value, below every alphanumeric one; alphanumeric ones in ASCII order. */
  function CompareIdentifier(a: Identifier, b: Identifier): Ordering
  {
    match (a, b)
    case (Num(x), Num(y)) => CompareNat(x, y)
    case (Num(_), Alpha(_)) => Less
    case (Alpha(_), Num(_)) => Greater
    case (Alpha(x), Alpha(y)) => CompareText(x, y)
  }

  /** Identifier by identifier; a list that is a proper prefix of the other is lower. */
  function CompareIdentifiers(a: seq<Identifier>, b: seq<Identifier>): Ordering
  {
    if a == [] && b == [] then Equal
    else if a == [] then Less
    else if b == [] then Greater
    else if CompareIdentifier(a[0], b[0]) != Equal then CompareIdentifier(a[0], b[0])
    else CompareIdentifiers(a[1..], b[1..])
  }

  /** A version without pre-release identifiers is above every version with them. */
  function ComparePre(a: seq<Identifier>, b: seq<Identifier>): Ordering
  {
    if a == [] && b == [] then Equal
    else if a == [] then Greater
    else if b == [] then Less
    else CompareIdentifiers(a, b)
  }

  /** Precedence: major, minor, patch numerically, then pre-release; build metadata is ignored. */
  function Compare(a: Version, b: Version): Ordering
  {
    if CompareNat(a.major, b.major) != Equal then CompareNat(a.major, b.major)
    else if CompareNat(a.minor, b.minor) != Equal then CompareNat(a.minor, b.minor)
    else if CompareNat(a.patch, b.patch) != Equal then CompareNat(a.patch, b.patch)
    else ComparePre(a.pre, b.pre)
  }

  /** Two versions that differ at most in build metadata. */
  predicate SamePrecedence(a: Version, b: Version)
  {
    a.major == b.major && a.minor == b.minor && a.patch == b.patch && a.pre == b.pre
  }

  lemma {:induction false} CompareTextFlip(a: string, b: string)
    ensures CompareText(b, a) == Flip(CompareText(a, b))
    ensures CompareText(a, b) == Equal <==> a == b
  {
    if a != [] && b != [] && a[0] == b[0] {
      CompareTextFlip(a[1..], b[1..]);
      assert a == [a[0]] + a[1..] && b == [b[0]] + b[1..];
    }
  }

  lemma {:induction false} CompareTextTransitive(a: string, b: string, c: string)
    requires CompareText(a, b) == Less && CompareText(b, c) == Less
    ensures CompareText(a, c) == Less
  {
    if a != [] && a[0] == b[0] && b[0] == c[0] {
      CompareTextTransitive(a[1..], b[1..], c[1..]);
    }
  }

  lemma CompareIdentifierFlip(a: Identifier, b: Identifier)
    ensures CompareIdentifier(b, a) == Flip(CompareIdentifier(a, b))
    ensures CompareIdentifier(a, b) == Equal <==> a == b
  {
    if a.Alpha? && b.Alpha? {
      CompareTextFlip(a.text, b.text);
    }
  }

  lemma CompareIdentifierTransitive(a: Identifier, b: Identifier, c: Identifier)
    requires CompareIdentifier(a, b) == Less && CompareIdentifier(b, c) == Less
    ensures CompareIdentifier(a, c) == Less
  {
    if a.Alpha? && b.Alpha? && c.Alpha? {
      CompareTextTransitive(a.text, b.text, c.text);
    }
  }

  lemma {:induction false} CompareIdentifiersFlip(a: seq<Identifier>, b: seq<Identifier>)
    ensures CompareIdentifiers(b, a) == Flip(CompareIdentifiers(a, b))
    ensures CompareIdentifiers(a, b) == Equal <==> a == b
  {
    if a != [] && b != [] {
      CompareIdentifierFlip(a[0], b[0]);
      if a[0] == b[0] {
        CompareIdentifiersFlip(a[1..], b[1..]);
        assert a == [a[0]] + a[1..] && b == [b[0]] + b[1..];
      }
    }
  }

  lemma {:induction false} CompareIdentifiersTransitive(a: seq<Identifier>, b: seq<Identifier>, c: seq<Identifier>)
    requires CompareIdentifiers(a, b) == Less && CompareIdentifiers(b, c) == Less
    ensures CompareIdentifiers(a, c) == Less
  {
    if a != [] && c != [] {
      CompareIdentifierFlip(a[0], b[0]);
      CompareIdentifierFlip(b[0], c[0]);
      if a[0] == b[0] && b[0] == c[0] {
        CompareIdentifiersTransitive(a[1..], b[1..], c[1..]);
      } else if a[0] != b[0] && b[0] != c[0] {
        CompareIdentifierTransitive(a[0], b[0], c[0]);
      }
    }
  }

  /** Comparing the other way round gives the opposite answer; equal precedence is symmetric. */
  lemma CompareFlip(a: Version, b: Version)
    ensures Compare(b, a) == Flip(Compare(a, b))
    ensures Compare(a, b) == Equal <==> SamePrecedence(a, b)
  {
    CompareIdentifiersFlip(a.pre, b.pre);
  }

  /** Precedence is transitive. */
  lemma CompareTransitive(a: Version, b: Version, c: Version)
    requires Compare(a, b) == Less && Compare(b, c) == Less
    ensures Compare(a, c) == Less
  {
    if SamePrecedence(a, b) || SamePrecedence(b, c) {
      CompareFlip(a, b);
      CompareFlip(b, c);
    } else if a.major == b.major == c.major && a.minor == b.minor == c.minor && a.patch == b.patch == c.patch {
      if a.pre != [] && b.pre != [] && c.pre != [] {
        CompareIdentifiersTransitive(a.pre, b.pre, c.pre);
      }
    }
  }

  /** Exactly one of: a below b, b below a, same precedence. */
  lemma Trichotomy(a: Version, b: Version)
    ensures Compare(a, b) == Less || Compare(b, a) == Less || SamePrecedence(a, b)
    ensures !(Compare(a, b) == Less && Compare(b, a) == Less)
    ensures SamePrecedence(a, b) ==> Compare(a, b) != Less && Compare(b, a) != Less
  {
    CompareFlip(a, b);
  }

  // ---------------------------------------------------------------------------
  // The `semver` package's entry points

  /** The package's strict pattern: an optional `v`, then a version. */
  function ParseFull(s: string): Option<Version>
  {
    if s != [] && s[0] == 'v' then Parse(s[1..]) else Parse(s)
  }

  predicate IsVersionPrefixChar(c: char)
  {
    c == 'v' || c == '='
  }

  /** `s` without its leading run of `v` and `=`. */
  function DropVersionPrefix(s: string): (r: string)
    ensures r != [] ==> !IsVersionPrefixChar(r[0])
  {
    if s != [] && IsVersionPrefixChar(s[0]) then DropVersionPrefix(s[1..]) else s
  }

  /** Trimmed, then every leading `v` and `=` removed. */
  function Normalize(s: string): (r: string)
    ensures r != [] ==> !IsVersionPrefixChar(r[0])
  {
    DropVersionPrefix(Trim(s))
  }

  /** `version` as the package prints it: without build metadata. */
  function VersionString(v: Version): string
  {
    Format(v.(build := []))
  }

  /** `semver.clean(s)`: the normalised version string, or null. */
  function Clean(s: string): (r: Option<string>)
    ensures r.None? <==> ParseFull(Normalize(s)).None?
    ensures r.Some? ==> Parse(r.value) == Some(ParseFull(Normalize(s)).value.(build := []))
  {
    match ParseFull(Normalize(s))
    case None => None
    case Some(v) =>
      VersionStringRoundTrip(v);
      Some(VersionString(v))
  }

  /** `semver.valid(s)`: the version string of `s`, or null (also for a null argument). */
  function Valid(s: Option<string>): (r: Option<string>)
    ensures s.None? ==> r.None?
    ensures r.Some? <==> s.Some? && ParseFull(s.value).Some?
    ensures r.Some? ==> Parse(r.value) == Some(ParseFull(s.value).value.(build := []))
  {
    match s
    case None => None
    case Some(t) =>
      match ParseFull(t)
      case None => None
      case Some(v) =>
        VersionStringRoundTrip(v);
        Some(VersionString(v))
  }

  /** `semver.lt(a, b)` either compares or throws `Invalid Version` naming the string it could not read. */
  datatype LtResult = Invalid(text: string) | Compared(less: bool)

  /** `semver.lt(a, b)`: both arguments read after trimming, each with an optional leading `v`. */
  function Lt(a: string, b: string): (r: LtResult)
    ensures r.Invalid? ==> (r.text == a && ParseFull(Trim(a)).None?) || (r.text == b && ParseFull(Trim(b)).None?)
    ensures ParseFull(Trim(a)).None? ==> r == Invalid(a)
    ensures ParseFull(Trim(a)).Some? && ParseFull(Trim(b)).None? ==> r == Invalid(b)
    ensures a == b ==> r != Compared(true)
  {
    match ParseFull(Trim(a))
    case None => Invalid(a)
    case Some(x) =>
      match ParseFull(Trim(b))
      case None => Invalid(b)
      case Some(y) =>
        CompareFlip(x, y);
        Compared(Compare(x, y) == Less)
  }

  /** `lt` on two strings it can read compares their versions. */
  lemma LtReadable(a: string, b: string, x: Version, y: Version)
    requires ParseFull(Trim(a)) == Some(x) && ParseFull(Trim(b)) == Some(y)
    ensures Lt(a, b) == Compared(Compare(x, y) == Less)
  {
  }

  /** A version string reads back as the version without its build metadata. */
  lemma VersionStringRoundTrip(v: Version)
    requires WellFormed(v)
    ensures Parse(VersionString(v)) == Some(v.(build := []))
    ensures ParseFull(VersionString(v)) == Some(v.(build := []))
  {
    var w := v.(build := []);
    ParseFormat(w);
    FormatStartsWithDigit(w);
  }

  /** The string `clean` returns reads back as itself: `valid(clean(s))` is `clean(s)`. */
  lemma ValidClean(s: string)
    ensures Valid(Clean(s)) == Clean(s)
  {
    var p := ParseFull(Normalize(s));
    if p.Some? {
      var v := p.value;
      assert Clean(s) == Some(VersionString(v));
      VersionStringRoundTrip(v);
      assert v.(build := []).(build := []) == v.(build := []);
    }
  }

  /** `valid(clean(s))` is non-null exactly when the trimmed, prefix-stripped string is a version. */
  lemma ValidCleanIff(s: string)
    ensures Valid(Clean(s)).Some? <==> Parse(Normalize(s)).Some?
  {
    ValidClean(s);
  }

  /** Whatever `lt` reads, `clean` reads as the same version. */
  lemma ComparableIsClean(s: string, v: Version)
    requires ParseFull(Trim(s)) == Some(v)
    ensures ParseFull(Normalize(s)) == Some(v)
  {
    var t := Trim(s);
    var rest := if t != [] && t[0] == 'v' then t[1..] else t;
    assert Parse(rest) == Some(v);
    FormatParse(rest, v);
    FormatStartsWithDigit(v);
    assert !IsVersionPrefixChar(rest[0]);
    assert DropVersionPrefix(rest) == rest;
    assert DropVersionPrefix(t) == rest;
  }

  /** A string `lt` can read passes `clean` + `valid`. */
  lemma ReadableIsValid(s: string, v: Version)
    requires ParseFull(Trim(s)) == Some(v)
    ensures s != [] && Valid(Clean(s)).Some?
  {
    ComparableIsClean(s, v);
    ValidClean(s);
  }

  /** A string that starts with anything but a digit is not a version. */
  lemma NotDigitNotVersion(s: string)
    requires s != [] && !Decimal.IsDigit(s[0])
    ensures Parse(s) == None
  {
    if Parse(s).Some? {
      FormatParse(s, Parse(s).value);
      FormatStartsWithDigit(Parse(s).value);
    }
  }

  /** The characters a version is written with. */
  predicate IsVersionChar(c: char)
  {
    IsIdentifierChar(c) || c == '.' || c == '+'
  }

  lemma FormatChars(v: Version)
    requires WellFormed(v)
    ensures forall j :: 0 <= j < |Format(v)| ==> IsVersionChar(Format(v)[j])
  {
    CoreRoundTrip(v);
    PreRoundTrip(v);
    BuildRoundTrip(v);
    var core := CoreText(v);
    var pre := Tagged('-', PreText(v.pre));
    var build := Tagged('+', BuildText(v.build));
    assert forall j :: 0 <= j < |pre| ==> IsVersionChar(pre[j]);
    assert forall j :: 0 <= j < |build| ==> IsVersionChar(build[j]);
    forall j | 0 <= j < |Format(v)| ensures IsVersionChar(Format(v)[j]) {
      if j < |core| {
        assert Format(v)[j] == core[j];
      } else if j < |core| + |pre| {
        assert Format(v)[j] == pre[j - |core|];
      } else {
        assert Format(v)[j] == build[j - |core| - |pre|];
      }
    }
  }

  /** Every version text starts with a digit. */
  lemma VersionTextStart(t: string)
    requires Parse(t).Some?
    ensures t != [] && Decimal.IsDigit(t[0])
  {
    FormatParse(t, Parse(t).value);
    FormatStartsWithDigit(Parse(t).value);
  }

  /** A version text ends in a character that is not a space, so `=` before it survives `trim`. */
  lemma TrimAfterEquals(t: string)
    requires Parse(t).Some?
    ensures Trim(['='] + t) == ['='] + t
  {
    var s := ['='] + t;
    VersionTextEnd(t);
    assert s[|s| - 1] == t[|t| - 1];
    assert !IsSpace(s[0]) && !IsSpace(s[|s| - 1]);
    TrimUnchanged(s);
  }

  /** A version text ends in one of the characters versions are written with. */
  lemma VersionTextEnd(t: string)
    requires Parse(t).Some?
    ensures t != [] && IsVersionChar(t[|t| - 1])
  {
    VersionTextStart(t);
    FormatParse(t, Parse(t).value);
    FormatChars(Parse(t).value);
  }

  lemma DropPrefixBeforeDigit(t: string)
    requires t != [] && Decimal.IsDigit(t[0])
    ensures DropVersionPrefix(['='] + t) == t
  {
    var s := ['='] + t;
    assert s[1..] == t;
    assert DropVersionPrefix(t) == t;
  }

  /** `=` is not a version's first character. */
  lemma EqualsNotComparable(s: string)
    requires Trim(s) == s && s != [] && s[0] == '='
    ensures ParseFull(Trim(s)) == None
  {
    NotDigitNotVersion(s);
  }

  /**
   * `lt` does not skip `=`: a version written after `=` passes `clean` and
   * `valid`, yet makes `lt` throw.
   */
  lemma EqualsPrefixCleanButNotComparable(t: string, b: string)
    requires Parse(t).Some?
    ensures Clean(['='] + t) == Some(VersionString(Parse(t).value))
    ensures Valid(Clean(['='] + t)).Some?
    ensures Lt(['='] + t, b) == Invalid(['='] + t)
  {
    var s := ['='] + t;
    VersionTextStart(t);
    TrimAfterEquals(t);
    DropPrefixBeforeDigit(t);
    assert Normalize(s) == t;
    assert ParseFull(t) == Parse(t);
    EqualsNotComparable(s);
    ValidClean(s);
  }
}

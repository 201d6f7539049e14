/** The semantic version value type: its fields, its construction paths, its canonical
    text and its JSON form (src/semantic-version.ts). */
module SemVer {
  import opened Wrappers
  import opened Text
  import opened Grammar
  import Decimal

  /** A version `major.minor.patch[-prerelease][+build]`. The pre-release and build
      parts are kept as their dot-joined text; the empty string means "absent".
      A value built from components need not satisfy the grammar (see `WellFormed`). */
  datatype Version = Version(major: nat, minor: nat, patch: nat, prerelease: string, build: string)

  /** The three ways construction can fail. */
  datatype Error =
    | NullArgument     // the text argument is `null`
    | Format           // the text is blank or does not match the grammar
    | Deserialization  // the decoded JSON value is `null` or not a string

  /** A decoded JSON value, as far as deserialization distinguishes it. */
  datatype Json = JNull | JString(text: string) | JOther

  /** The version of the zero-argument constructor. */
  function Default(): (v: Version)
    ensures WellFormed(v)
    ensures ToString(v) == "0.0.0"
  {
    Version(0, 0, 0, "", "")
  }

  /** The component constructor: missing parts default to 0 and "", and the
      pre-release and build text are stored as given, without validation. */
  function FromComponents(major: nat, minor: Option<nat>, patch: Option<nat>,
                          prerelease: Option<string>, build: Option<string>): (v: Version)
    ensures v.major == major
    ensures minor.Some? ==> v.minor == minor.value
    ensures patch.Some? ==> v.patch == patch.value
    ensures minor.None? ==> v.minor == 0
    ensures patch.None? ==> v.patch == 0
    ensures prerelease.None? ==> v.prerelease == ""
    ensures build.None? ==> v.build == ""
    ensures prerelease.Some? ==> v.prerelease == prerelease.value
    ensures build.Some? ==> v.build == build.value
  {
    Version(major, minor.GetOr(0), patch.GetOr(0), prerelease.GetOr(""), build.GetOr(""))
  }

  /** The pre-release and build text satisfy the grammar (the numeric fields always do). */
  ghost predicate WellFormed(v: Version)
  {
    && (v.prerelease == "" || DotSeparated(v.prerelease, PreReleaseIdentifier))
    && (v.build == "" || DotSeparated(v.build, BuildIdentifier))
  }

  /** The strings the grammar accepts: exactly the renderings of well-formed versions. */
  ghost predicate Valid(s: string)
  {
    exists v :: WellFormed(v) && ToString(v) == s
  }

  /** The canonical text `MAJOR.MINOR.PATCH`, then `-PRERELEASE` and `+BUILD` when non-empty. */
  function ToString(v: Version): (s: string)
    ensures |s| > 0 && IsDigit(s[0])
  {
    Decimal.Render(v.major) + "." + Decimal.Render(v.minor) + "." + Decimal.Render(v.patch)
    + (if |v.prerelease| > 0 then "-" + v.prerelease else "")
    + (if |v.build| > 0 then "+" + v.build else "")
  }

  /** The JSON form: a bare JSON string holding the canonical text. */
  function ToJson(v: Version): (j: Json)
    ensures j.JString? && j.text == ToString(v)
  {
    JString(ToString(v))
  }

  /** An optional dot-separated part: absent, or every dot-separated piece is an `id`. */
  predicate OptionalPart(part: Option<string>, id: string -> bool)
  {
    part.None? || forall i :: 0 <= i < |Split(part.value, '.')| ==> id(Split(part.value, '.')[i])
  }

  /** The checks after the input has been cut into its numeric core and its optional
      pre-release and build parts: the core must be three numbers, each part a
      dot-separated list of identifiers. */
  function Assemble(core: string, prerelease: Option<string>, build: Option<string>): (r: Result<Version, Error>)
    ensures r.Failure? ==> r.error == Format
  {
    var fields := Split(core, '.');
    if && |fields| == 3
       && NumericIdentifier(fields[0])
       && NumericIdentifier(fields[1])
       && NumericIdentifier(fields[2])
       && OptionalPart(prerelease, PreReleaseIdentifier)
       && OptionalPart(build, BuildIdentifier)
    then
      Success(Version(Decimal.Value(fields[0]), Decimal.Value(fields[1]), Decimal.Value(fields[2]),
                      prerelease.GetOr(""), build.GetOr("")))
    else Failure(Format)
  }

  /** The string constructor. The build part starts at the first `+` and the pre-release
      part at the first `-` before it, since neither the numbers nor the pre-release may
      contain a `+`, and the numbers contain no `-`. */
  function ParseString(s: string): (r: Result<Version, Error>)
    ensures r.Failure? ==> r.error == Format
    ensures IsBlank(s) ==> r.Failure?
  {
    if IsBlank(s) then Failure(Format)
    else
      var (head, build) := CutAt(s, '+');
      var (core, prerelease) := CutAt(head, '-');
      Assemble(core, prerelease, build)
  }

  /** `parse` on a reference that may be `null` (`None`). */
  function Parse(input: Option<string>): (r: Result<Version, Error>)
    ensures input.None? <==> r == Failure(NullArgument)
    ensures input.Some? ==> r == ParseString(input.value)
  {
    match input
    case None => Failure(NullArgument)
    case Some(s) => ParseString(s)
  }

  /** `fromJSON` on the decoded JSON value: only a JSON string is parsed. */
  function FromJson(j: Json): (r: Result<Version, Error>)
    ensures !j.JString? <==> r == Failure(Deserialization)
    ensures j.JString? ==> r == ParseString(j.text)
  {
    match j
    case JNull => Failure(Deserialization)
    case JOther => Failure(Deserialization)
    case JString(s) => ParseString(s)
  }
}

# SemanticVersion in Dafny

This is a model of the `SemanticVersion` value type of SemanticVersioningNPM, a
TypeScript implementation of Semantic Versioning 2.0.0. The type has three parts:

- **Strict parser.** The string constructor, `parse` and `fromJSON` check
  `MAJOR.MINOR.PATCH[-PRERELEASE][+BUILD]` against the grammar of items 2, 9 and 10 of
  Semantic Versioning 2.0.0. They fail in three distinct ways:
  - a `null` argument;
  - a blank text, or one that does not match the grammar;
  - a decoded JSON value that is `null` or not a string.
- **Canonical renderer.** `toString` and `toJSON`.
- **Three-way comparison.** `compareTo`, `compare` and the private `comparePreRelease`
  implement item 11 of Semantic Versioning 2.0.0. `equals`, `lt`, `lte`, `gt` and `gte`
  are thin wrappers over them.

The model is functional:

- A version is an immutable `Version(major, minor, patch, prerelease, build)` datatype.
- Construction returns a `Result<Version, Error>`. Its three error variants are
  `NullArgument`, `Format` and `Deserialization`.
- The grammar is stated independently of the recogniser. `WellFormed` says that the
  pre-release and build texts are joins of identifiers. `Valid(s)` says that `s` is the
  canonical text of some well-formed version.
- The source's regular expression is replaced by a segment-splitting recogniser. It cuts
  at the first `+`, then at the first `-`, then splits on dots.
- The component constructor does not validate, exactly as in the source. So a `Version`
  need not be `WellFormed`, and the comparison and its laws hold for arbitrary strings.

Modules, one per file:

| file | module | contents |
|---|---|---|
| `wrappers.dfy` | `Wrappers` | `Option` (with `??` as `GetOr`) and `Result` |
| `text.dfy` | `Text` | character classes, `trim`-blankness, cut at the first separator, `split`/`join`, JavaScript `<` on strings and its order laws |
| `grammar.dfy` | `Grammar` | identifier grammar of Semantic Versioning 2.0.0, dot-separated lists |
| `decimal.dfy` | `Decimal` | value of a digit string, canonical numeral of a number |
| `semver.dfy` | `SemVer` | the value type, its constructors, rendering, JSON form, recogniser |
| `parse_proofs.dfy` | `ParseProofs` | soundness, completeness and round trips of parsing |
| `precedence.dfy` | `Precedence` | comparison, relations, loop form of `comparePreRelease`, total-preorder laws |
| `parse_vectors.dfy` | `ParseVectors` | the accepted strings of the repository's tests |
| `reject_vectors.dfy` | `RejectVectors` | the rejected strings and the `null` cases of the tests |
| `order_vectors.dfy` | `OrderVectors` | the precedence chain of item 11 and the operator tests |

Two consequences of the code:

- The comparison is a total **preorder**, not a total order. Build metadata is ignored,
  and an unvalidated pre-release `01` compares equal to `1`, because digit-only
  identifiers are compared by value.
- Only the string, `parse` and `fromJSON` paths guarantee the pre-release and build
  grammar. The component constructor stores any text.

## Model

| member | source | states |
|---|---|---|
| SemVer.Default | src/semantic-version.ts:32-40 | the zero-argument constructor gives a well-formed version whose text is `0.0.0` |
| SemVer.FromComponents | src/semantic-version.ts:62-67 | the component constructor keeps the given fields, defaults missing minor and patch to 0 and missing texts to "", and does not validate |
| SemVer.ToString | src/semantic-version.ts:70-79 | the canonical text is non-empty and starts with a digit, so it is never blank |
| SemVer.ToJson | src/semantic-version.ts:84-86 | the JSON form is a bare JSON string holding the canonical text |
| SemVer.Assemble | src/semantic-version.ts:49-58 | the checks after cutting fail only with a format error |
| SemVer.ParseString | src/semantic-version.ts:43-59 | the string constructor fails only with a format error, and always fails on a blank text |
| SemVer.Parse | src/semantic-version.ts:27-30 | a `null` argument, and only a `null` argument, fails with the null-argument error; text is parsed |
| SemVer.FromJson | src/semantic-version.ts:126-135 | a decoded `null` or non-string fails with the deserialization error, and a decoded string is parsed exactly like the string constructor |
| Text.Split | src/semantic-version.ts:142-143 | `split(".")` gives at least one piece, no piece holds the separator, and joining the pieces gives the input back |
| Text.SplitJoin | src/semantic-version.ts:142-143 | splitting the join of separator-free pieces gives exactly those pieces |
| Text.IsBlank | src/semantic-version.ts:45 | a text that is empty after `trim` holds no identifier character, no dot and no plus, so none of the characters a version is written with |
| Text.LexLess | src/semantic-version.ts:163-164 | JavaScript `<` on strings never holds between equal strings, and a proper prefix is below every longer string that extends it |
| Text.LexLessIrreflexive | src/semantic-version.ts:163-164 | no string is below itself under JavaScript `<` |
| Text.LexLessAsymmetric | src/semantic-version.ts:163-164 | `a < b` and `b < a` never both hold |
| Text.LexLessTotal | src/semantic-version.ts:163-164 | two strings neither of which is below the other are equal |
| Text.LexLessTransitive | src/semantic-version.ts:163-164 | JavaScript `<` on strings is transitive |
| Grammar.PatternAgreesWithGrammar | src/semantic-version.ts:2 | the pre-release identifier alternative of the pattern accepts exactly the pre-release identifiers of Semantic Versioning 2.0.0 |
| Grammar.DotSeparatedBySplit | src/semantic-version.ts:2 | a text is a dot-separated list of identifiers if and only if every piece of its split on dots is an identifier |
| Decimal.Value | src/semantic-version.ts:54-56 | the value `Number.parseInt` (and `Number` at lines 152-153) gives a digit string is 0 if and only if every digit is `0`; `Decimal.RenderValue` and `Decimal.Render` tie it to the canonical numeral |
| Decimal.Render | src/semantic-version.ts:71 | a number is rendered as a numeral without leading zeros whose value is the number |
| Decimal.RenderValue | src/semantic-version.ts:54-56 | rendering the value of a numeral without leading zeros gives the numeral back |
| ParseProofs.AssembleSound | src/semantic-version.ts:49-58 | a version the checks accept is well formed, its core renders as the cut-out core, and its parts are the cut-out parts |
| ParseProofs.AssembleComplete | src/semantic-version.ts:49-58 | the checks accept the core and parts of every well-formed version and return that version |
| ParseProofs.ParseSound | src/semantic-version.ts:43-58 | every version the string constructor returns is well formed and renders as the input |
| ParseProofs.ParseComplete | src/semantic-version.ts:70-79 | parsing the text of a well-formed version gives that version back |
| ParseProofs.ParseAcceptsExactlyTheGrammar | src/semantic-version.ts:1-2 | the string constructor succeeds if and only if the text is in the grammar, and fails with a format error if and only if it is not |
| ParseProofs.RenderInjective | src/semantic-version.ts:70-79 | two well-formed versions have the same text if and only if they are equal |
| ParseProofs.RenderParseRoundTrip | src/semantic-version.ts:54-58 | a parsed version renders as its input, and parsing that text again gives the same version |
| ParseProofs.JsonRoundTrip | src/semantic-version.ts:126-135 | deserializing the JSON form of a well-formed version gives the version back |
| ParseProofs.BlankIsNeverValid | src/semantic-version.ts:45-47 | no blank text is in the grammar, so the blank check only anticipates a grammar failure |
| Precedence.Sign | src/semantic-version.ts:90 | `Math.sign` gives -1, 0 or 1, with the sign of its argument |
| Precedence.IsNumeric | src/semantic-version.ts:150-151 | a digit-only identifier holds no dot, and on grammar identifiers the test is exactly the numeric-identifier alternative |
| Precedence.CompareIdentifiers | src/semantic-version.ts:155-165 | one identifier against another gives -1, 0 or 1 |
| Precedence.CompareIdentifierLists | src/semantic-version.ts:146-169 | the list comparison gives -1, 0 or 1 |
| Precedence.ComparePreRelease | src/semantic-version.ts:137-170 | the pre-release comparison gives -1, 0 or 1 |
| Precedence.Compare | src/semantic-version.ts:88-99 | `compareTo` (and `compare`) gives -1, 0 or 1 |
| Precedence.Equals | src/semantic-version.ts:101-103 | `equals` holds exactly when the reversed comparison is 0, and only between versions with the same major, minor and patch |
| Precedence.Lt | src/semantic-version.ts:105-107 | `lt` holds exactly when the reversed comparison is positive, and never with a larger major on the left |
| Precedence.Lte | src/semantic-version.ts:108-110 | `lte` is `lt` or `equals`, and holds exactly when the reversed comparison is not negative |
| Precedence.Gt | src/semantic-version.ts:111-113 | `gt` is `lt` with the operands swapped |
| Precedence.Gte | src/semantic-version.ts:114-116 | `gte` is `lte` with the operands swapped |
| Precedence.ComparePreReleaseLoop | src/semantic-version.ts:137-170 | the loop over the shared positions followed by the length difference computes the recursive list comparison |
| Precedence.IdentifiersEqual | src/semantic-version.ts:150-165 | two identifiers compare equal if and only if both are digit-only with equal values, or neither is digit-only and they are the same string |
| Precedence.IdentifiersAntisymmetric | src/semantic-version.ts:150-165 | swapping two identifiers negates their comparison |
| Precedence.IdentifiersTransitive | src/semantic-version.ts:150-165 | the identifier comparison is transitive |
| Precedence.ListsReflexive | src/semantic-version.ts:146-169 | every identifier list compares equal to itself |
| Precedence.ListsAntisymmetric | src/semantic-version.ts:146-169 | swapping two identifier lists negates their comparison |
| Precedence.ListsTransitive | src/semantic-version.ts:146-169 | the list comparison is transitive |
| Precedence.FirstDifferenceDecides | src/semantic-version.ts:146-166 | the first position whose identifiers differ decides the comparison of two lists |
| Precedence.LongerListIsGreater | src/semantic-version.ts:168-169 | when all shared positions are equal, the list with more identifiers is greater |
| Precedence.ReleaseOutranksPreRelease | src/semantic-version.ts:138-140 | two empty pre-releases are equal, and an empty pre-release is above every non-empty one |
| Precedence.PreReleaseReflexive | src/semantic-version.ts:137-170 | every pre-release text compares equal to itself |
| Precedence.PreReleaseAntisymmetric | src/semantic-version.ts:137-170 | swapping two pre-release texts negates their comparison |
| Precedence.PreReleaseTransitive | src/semantic-version.ts:137-170 | the pre-release comparison is transitive on arbitrary, unvalidated texts |
| Precedence.FieldOrder | src/semantic-version.ts:88-98 | major decides first, then minor, then patch, and the pre-release only when all three are equal |
| Precedence.BuildIgnored | src/semantic-version.ts:88-98 | changing the build texts of both versions never changes their comparison |
| Precedence.CompareReflexive | src/semantic-version.ts:88-99 | every version compares equal to itself |
| Precedence.CompareAntisymmetric | src/semantic-version.ts:88-99 | swapping two versions negates their comparison |
| Precedence.CompareTransitive | src/semantic-version.ts:88-99 | the version comparison is transitive |
| Precedence.EqualsIgnoresBuild | src/semantic-version.ts:101-103 | a version `equals` itself with any other build text |
| Precedence.Trichotomy | src/semantic-version.ts:101-116 | exactly one of `lt`, `equals` and `gt` holds; `gt` and `gte` are `lt` and `lte` reversed; `lte` is not-`gt` and `gte` is not-`lt` |
| Precedence.EqualsIsEquivalence | src/semantic-version.ts:101-103 | `equals` is reflexive, symmetric and transitive |
| Precedence.LtTransitive | src/semantic-version.ts:105-110 | `lt` is transitive, also through an `lte` on either side |
| Precedence.LteIsTotalPreorder | src/semantic-version.ts:108-110 | `lte` is reflexive, total and transitive on all versions |
| ParseVectors.AcceptsIdentifiers | src/semantic-version.ts:2 | a version whose parts are joins of identifiers is well formed and parses back from its text |
| ParseVectors.ParsesPlainRelease | test/parsing.test.ts:7 | "1.2.3" parses to 1, 2, 3 with no pre-release or build |
| ParseVectors.ParsesAlpha | test/parsing.test.ts:8 | "1.0.0-alpha" parses with pre-release "alpha" |
| ParseVectors.ParsesAlphaOne | test/parsing.test.ts:9 | "1.0.0-alpha.1" parses with pre-release "alpha.1" |
| ParseVectors.ParsesNumericPreRelease | test/parsing.test.ts:10 | "1.0.0-0.3.7" parses with pre-release "0.3.7" |
| ParseVectors.ParsesMixedPreRelease | test/parsing.test.ts:11 | "1.0.0-x.7.z.92" parses with pre-release "x.7.z.92" |
| ParseVectors.ParsesPreReleaseAndBuild | test/parsing.test.ts:12 | "1.0.0-alpha+001" parses with pre-release "alpha" and build "001" |
| ParseVectors.ParsesBuildOnly | test/parsing.test.ts:13 | "1.0.0+20130313144700" parses with no pre-release and build "20130313144700" |
| ParseVectors.DefaultIsZero | src/semantic-version.ts:32-40 | the default version is what "0.0.0" parses to |
| ParseVectors.SerializationCase | test/serialization.test.ts:6-12 | "1.2.3-alpha.1+build" parses to its fields and survives the JSON round trip unchanged |
| RejectVectors.ComponentsAreNotValidated | src/semantic-version.ts:62-67 | the component constructor stores the pre-release "alpha..1", which is not well formed |
| RejectVectors.RejectsPreRelease | src/semantic-version.ts:2 | a text whose pre-release holds an identifier outside the grammar fails with a format error, whether or not a build part follows |
| RejectVectors.RejectsBlank | test/parsing.test.ts:50-55 | "", " ", "\t" and "\r\n" fail with a format error |
| RejectVectors.RejectsMajorOnly | test/parsing.test.ts:28 | "1" fails with a format error |
| RejectVectors.RejectsMissingPatch | test/parsing.test.ts:29 | "1.2" fails with a format error |
| RejectVectors.RejectsEmptyPreRelease | test/parsing.test.ts:30 | "1.2.3-" fails with a format error |
| RejectVectors.RejectsEmptyPreReleaseBeforeBuild | test/parsing.test.ts:31 | "1.2.3-+build" fails with a format error |
| RejectVectors.RejectsLetters | test/parsing.test.ts:32 | "a.b.c" fails with a format error |
| RejectVectors.RejectsUnderscore | test/parsing.test.ts:33 | "1.0.0-alpha_beta" fails with a format error |
| RejectVectors.RejectsEmptyIdentifier | test/parsing.test.ts:34 | "1.0.0-alpha..1" fails with a format error |
| RejectVectors.RejectsLeadingZero | test/parsing.test.ts:39 | "1.0.0-01" fails with a format error |
| RejectVectors.RejectsLeadingZeroAfterDot | test/parsing.test.ts:39 | "1.0.0-alpha.01" fails with a format error |
| RejectVectors.NullIsDistinct | test/parsing.test.ts:46-48 | `null` fails with the null-argument error, which no text produces |
| RejectVectors.JsonNullRejected | test/serialization.test.ts:14-16 | deserializing JSON `null`, or any other non-string, fails rather than giving a default version |
| OrderVectors.NumericPrecedence | src/semantic-version.ts:88-96 | 1.0.0 < 2.0.0 < 2.1.0 < 2.1.1 |
| OrderVectors.PreReleaseChain | src/semantic-version.ts:137-170 | each version of 1.0.0-alpha < 1.0.0-alpha.1 < 1.0.0-alpha.beta < 1.0.0-beta < 1.0.0-beta.2 < 1.0.0-beta.11 < 1.0.0-rc.1 < 1.0.0 is below all later ones |
| OrderVectors.NumericBelowAlphanumeric | src/semantic-version.ts:158-159 | 1.0.0-1 < 1.0.0-alpha |
| OrderVectors.OperatorCases | test/operators.test.ts:6-68 | `equals`, `lt`, `gt`, `lte` and `gte` on 1.0.0 and 2.0.0 give the results the operator tests expect |
| OrderVectors.BuildMetadataCase | src/semantic-version.ts:101-103 | 1.0.0-alpha+b1 equals 1.0.0-alpha+b2 |

## Left out

- JavaScript numbers are idealised as unbounded naturals. `Number.parseInt` and `Number`
  (src/semantic-version.ts:54-56, 152-153) work on IEEE doubles and lose precision above
  2^53. For example, in JavaScript "9007199254740993.0.0" parses to a major that renders as
  9007199254740992, so the round trip fails there. The template literal of `toString`
  (src/semantic-version.ts:71) also prints numbers of 1e21 and above in exponent form
  (`1e+21`), so `Decimal.Render` matches `${n}` only below 1e21. `Math.sign` of a float
  difference is idealised the same way.
- JSON text is not modelled. `JSON.parse` and `JSON.stringify` are library calls. So
  `fromJSON` works on an already decoded value (`JNull`, `JString` or `JOther`), and
  `toJSON` gives the string value that `JSON.stringify` would quote. Malformed JSON text,
  such as `fromJSON("1.2.3")`, makes `JSON.parse` throw a `SyntaxError`
  (src/semantic-version.ts:127) before any check of `fromJSON`; the model has no such
  input and no such error.
- The regular expression engine is not modelled, only the language the pattern accepts.
  A segment-splitting recogniser decides that language, and it is proved equal to the
  grammar.
- JavaScript `<` on strings compares UTF-16 code units. The model compares characters,
  that is, Unicode scalar values. The two orders agree on the ASCII identifiers the grammar
  admits. They can differ on unvalidated pre-release text outside the Basic Multilingual
  Plane.
- TypeScript overload dispatch (the `typeof` tests at src/semantic-version.ts:33 and 43)
  is replaced by separate constructors: `Default`, `ParseString`/`Parse` and
  `FromComponents`. An untyped caller that passes `undefined` to `parse` gets 0.0.0 in
  JavaScript. The model does not include that path, because `Parse(None)` stands for `null`.
- The component constructor takes JavaScript numbers. Negative, fractional or `NaN`
  components are not modelled, since the fields are naturals.
- The exception classes and messages are not modelled. The two messages of `fromJSON`
  (`null` and non-string) share the one `Deserialization` variant.
- `compare` (src/semantic-version.ts:118-120) and `parse` (src/semantic-version.ts:122-124)
  only forward. They are the same functions as `Compare` and `Parse` and get no members of
  their own.
- SemVer.ToString: its own contract says only that the text is non-empty and starts with a
  digit. What the text is comes from its inverse: `ParseProofs.ParseSound`,
  `ParseProofs.ParseComplete` and `ParseProofs.RenderInjective`.
- SemVer.ToJson: its contract says the JSON form holds the canonical text, which is the
  whole of what `toJSON` does. Its partner is `ParseProofs.JsonRoundTrip`.

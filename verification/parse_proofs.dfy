/** The string constructor accepts exactly the grammar, and it and the renderer are
    inverse to each other. */
module ParseProofs {
  import opened Wrappers
  import opened Text
  import opened Grammar
  import Decimal
  import opened SemVer

  /** The text of the numeric core. */
  function CoreText(v: Version): string
  {
    Decimal.Render(v.major) + "." + Decimal.Render(v.minor) + "." + Decimal.Render(v.patch)
  }

  /** A numeral holds digits only: no dot, `-` or `+`. */
  lemma NumeralSymbols(s: string)
    requires NumericIdentifier(s)
    ensures '.' !in s && '-' !in s && '+' !in s
  {
  }

  /** The numeric core, written with the separators `Join` uses. */
  lemma CoreTextJoins(v: Version)
    ensures CoreText(v) == Join([Decimal.Render(v.major), Decimal.Render(v.minor), Decimal.Render(v.patch)], '.')
  {
    var a, b, c := Decimal.Render(v.major), Decimal.Render(v.minor), Decimal.Render(v.patch);
    JoinThree(a, b, c, '.');
    assert a + "." + b + "." + c == a + ['.'] + b + ['.'] + c;
  }

  /** The numeric core splits at its dots into the three numerals. */
  lemma CoreTextSplits(v: Version)
    ensures Split(CoreText(v), '.') == [Decimal.Render(v.major), Decimal.Render(v.minor), Decimal.Render(v.patch)]
  {
    var fields := [Decimal.Render(v.major), Decimal.Render(v.minor), Decimal.Render(v.patch)];
    NumeralSymbols(fields[0]);
    NumeralSymbols(fields[1]);
    NumeralSymbols(fields[2]);
    CoreTextJoins(v);
    SplitJoin(fields, '.');
  }

  /** The numeric core has no `-` or `+`. */
  lemma CoreTextSymbols(v: Version)
    ensures '-' !in CoreText(v) && '+' !in CoreText(v)
  {
    var fields := [Decimal.Render(v.major), Decimal.Render(v.minor), Decimal.Render(v.patch)];
    NumeralSymbols(fields[0]);
    NumeralSymbols(fields[1]);
    NumeralSymbols(fields[2]);
    CoreTextJoins(v);
    JoinExcludes(fields, '.', '-');
    JoinExcludes(fields, '.', '+');
  }

  /** A dot-separated list of identifiers uses identifier characters and dots only, so no `+`. */
  lemma DottedHasNoPlus(s: string, id: string -> bool)
    requires forall x :: id(x) ==> AllIdentChars(x)
    requires DotSeparated(s, id)
    ensures '+' !in s
  {
    var ps :| |ps| > 0 && (forall i :: 0 <= i < |ps| ==> id(ps[i])) && Join(ps, '.') == s;
    JoinExcludes(ps, '.', '+');
  }

  /** An optional part the recogniser accepts is absent, or non-empty and dot-separated. */
  lemma OptionalPartAccepted(part: Option<string>, id: string -> bool)
    requires forall x :: id(x) ==> x != "" && '.' !in x
    requires OptionalPart(part, id)
    ensures part.Some? ==> part.value != "" && DotSeparated(part.value, id)
  {
    if part.Some? {
      DotSeparatedBySplit(part.value, id);
    }
  }

  /** The optional part of a field: absent when the field is empty. */
  function PartOf(field: string): Option<string>
  {
    if |field| > 0 then Some(field) else None
  }

  /** A well-formed optional part passes the recogniser's check. */
  lemma PartAccepted(field: string, id: string -> bool)
    requires forall x :: id(x) ==> '.' !in x
    requires field == "" || DotSeparated(field, id)
    ensures OptionalPart(PartOf(field), id)
    ensures PartOf(field).GetOr("") == field
  {
    if |field| > 0 {
      DotSeparatedBySplit(field, id);
    }
  }

  /** The checks on the cut-up input accept exactly the parts of a well-formed version. */
  lemma AssembleComplete(v: Version)
    requires WellFormed(v)
    ensures Assemble(CoreText(v), PartOf(v.prerelease), PartOf(v.build)) == Success(v)
  {
    CoreTextSplits(v);
    IdentifiersAreDotFree();
    PartAccepted(v.prerelease, PreReleaseIdentifier);
    PartAccepted(v.build, BuildIdentifier);
    AssembleFields(CoreText(v), PartOf(v.prerelease), PartOf(v.build), v);
  }

  /** The checks accept a core of three numerals and accepted parts, and return their values. */
  lemma AssembleFields(core: string, prerelease: Option<string>, build: Option<string>, v: Version)
    requires Split(core, '.') == [Decimal.Render(v.major), Decimal.Render(v.minor), Decimal.Render(v.patch)]
    requires OptionalPart(prerelease, PreReleaseIdentifier) && OptionalPart(build, BuildIdentifier)
    requires prerelease.GetOr("") == v.prerelease && build.GetOr("") == v.build
    ensures Assemble(core, prerelease, build) == Success(v)
  {
    var fields := Split(core, '.');
    assert NumericIdentifier(fields[0]) && Decimal.Value(fields[0]) == v.major;
    assert NumericIdentifier(fields[1]) && Decimal.Value(fields[1]) == v.minor;
    assert NumericIdentifier(fields[2]) && Decimal.Value(fields[2]) == v.patch;
  }

  /** What the checks on the cut-up input establish about the version they return. */
  lemma AssembleSound(core: string, prerelease: Option<string>, build: Option<string>)
    requires Assemble(core, prerelease, build).Success?
    ensures WellFormed(Assemble(core, prerelease, build).value)
    ensures CoreText(Assemble(core, prerelease, build).value) == core
    ensures prerelease == PartOf(Assemble(core, prerelease, build).value.prerelease)
    ensures build == PartOf(Assemble(core, prerelease, build).value.build)
  {
    var v := Assemble(core, prerelease, build).value;
    var fields := Split(core, '.');
    assert fields == [fields[0], fields[1], fields[2]];
    JoinThree(fields[0], fields[1], fields[2], '.');
    assert v.major == Decimal.Value(fields[0]) && v.minor == Decimal.Value(fields[1]) && v.patch == Decimal.Value(fields[2]);
    Decimal.RenderValue(fields[0]);
    Decimal.RenderValue(fields[1]);
    Decimal.RenderValue(fields[2]);
    IdentifiersAreDotFree();
    OptionalPartAccepted(prerelease, PreReleaseIdentifier);
    OptionalPartAccepted(build, BuildIdentifier);
  }

  /** The text a cut separates, with the separator written only before a non-empty field. */
  function Tail(sep: char, field: string): string
  {
    if |field| > 0 then [sep] + field else ""
  }

  /** Undoing a cut whose after-part is the optional part of `field`. */
  lemma CutAtPart(s: string, sep: char, head: string, field: string)
    requires CutAt(s, sep) == (head, PartOf(field))
    ensures s == head + Tail(sep, field)
  {
    if |field| > 0 {
      assert s == head + [sep] + field;
    }
  }

  /** The canonical text is the core followed by the two optional parts. */
  lemma ToStringParts(v: Version)
    ensures ToString(v) == CoreText(v) + Tail('-', v.prerelease) + Tail('+', v.build)
  {
  }

  /** Every version the string constructor returns is well formed and renders as the input. */
  lemma ParseSound(s: string)
    requires ParseString(s).Success?
    ensures WellFormed(ParseString(s).value)
    ensures ToString(ParseString(s).value) == s
  {
    var v := ParseString(s).value;
    var (head, build) := CutAt(s, '+');
    var (core, prerelease) := CutAt(head, '-');
    assert Assemble(core, prerelease, build) == Success(v);
    AssembleSound(core, prerelease, build);
    CutAtPart(s, '+', head, v.build);
    CutAtPart(head, '-', core, v.prerelease);
    ToStringParts(v);
  }

  /** Cutting at the separator of a tail recovers the text before it and the field. */
  lemma CutAtTail(x: string, sep: char, field: string)
    requires sep !in x
    ensures CutAt(x + Tail(sep, field), sep) == (x, PartOf(field))
  {
    if |field| > 0 {
      assert x + Tail(sep, field) == x + [sep] + field;
      CutAtFirst(x, sep, field);
    } else {
      assert x + Tail(sep, field) == x;
      var r := CutAt(x, sep);
      assert r.1.None? && r.0 == x;
    }
  }

  /** Only the build part of a well-formed version's text can contain a `+`. */
  lemma NoPlusBeforeBuild(v: Version)
    requires WellFormed(v)
    ensures '+' !in CoreText(v) + Tail('-', v.prerelease)
  {
    CoreTextSymbols(v);
    if |v.prerelease| > 0 {
      DottedHasNoPlus(v.prerelease, PreReleaseIdentifier);
    }
  }

  /** Parsing the rendering of a well-formed version gives that version back. */
  lemma ParseComplete(v: Version)
    requires WellFormed(v)
    ensures ParseString(ToString(v)) == Success(v)
  {
    var s := ToString(v);
    var core := CoreText(v);
    ToStringParts(v);
    assert !IsBlank(s) by { assert !IsWhitespace(s[0]); }
    NoPlusBeforeBuild(v);
    CutAtTail(core + Tail('-', v.prerelease), '+', v.build);
    CoreTextSymbols(v);
    CutAtTail(core, '-', v.prerelease);
    AssembleComplete(v);
  }

  /** On well-formed versions the canonical text is injective. */
  lemma RenderInjective(a: Version, b: Version)
    requires WellFormed(a) && WellFormed(b)
    ensures ToString(a) == ToString(b) <==> a == b
  {
    ParseComplete(a);
    ParseComplete(b);
  }

  /** The string constructor succeeds exactly on the strings of the grammar, and fails
      with a format error on every other string. */
  lemma ParseAcceptsExactlyTheGrammar(s: string)
    ensures ParseString(s).Success? <==> Valid(s)
    ensures ParseString(s) == Failure(Format) <==> !Valid(s)
  {
    if ParseString(s).Success? {
      ParseSound(s);
    }
    if Valid(s) {
      var v :| WellFormed(v) && ToString(v) == s;
      ParseComplete(v);
    }
  }

  /** Rendering a parsed version gives the input back, and parsing that again gives the
      same version: the canonical text is stable. */
  lemma RenderParseRoundTrip(s: string)
    requires ParseString(s).Success?
    ensures ToString(ParseString(s).value) == s
    ensures ParseString(ToString(ParseString(s).value)) == ParseString(s)
  {
    ParseSound(s);
  }

  /** Serializing a well-formed version to JSON and deserializing it gives it back. */
  lemma JsonRoundTrip(v: Version)
    requires WellFormed(v)
    ensures FromJson(ToJson(v)) == Success(v)
  {
    ParseComplete(v);
  }

  /** A blank string is never in the grammar: the blank check before matching only
      anticipates a failure the grammar produces anyway. */
  lemma BlankIsNeverValid(s: string)
    requires IsBlank(s)
    ensures !Valid(s)
  {
  }
}

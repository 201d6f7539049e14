/** Concrete cases of the string constructor from the repository's tests: strings it
    rejects, each with a format error, and the null and JSON failure paths. */
module RejectVectors {
  import opened Wrappers
  import opened Text
  import opened Grammar
  import opened SemVer

  /** A dot-joined list with a piece `id` rejects is not a dot-separated list of `id`s. */
  lemma NotDotSeparated(parts: seq<string>, i: nat, id: string -> bool)
    requires forall x :: id(x) ==> '.' !in x
    requires |parts| > 0 && forall j :: 0 <= j < |parts| ==> '.' !in parts[j]
    requires i < |parts| && !id(parts[i])
    ensures !DotSeparated(Join(parts, '.'), id)
  {
    SplitJoin(parts, '.');
    DotSeparatedBySplit(Join(parts, '.'), id);
  }

  /** The pre-release text "alpha..1" has an empty identifier, so it is not well formed. */
  lemma EmptyIdentifierRejected()
    ensures !DotSeparated("alpha..1", PreReleaseIdentifier)
  {
    JoinThree("alpha", "", "1", '.');
    assert Join(["alpha", "", "1"], '.') == "alpha..1";
    IdentifiersAreDotFree();
    NotDotSeparated(["alpha", "", "1"], 1, PreReleaseIdentifier);
  }

  /** The component constructor does not validate: it stores a pre-release text the
      string constructor rejects. */
  lemma ComponentsAreNotValidated()
    ensures !WellFormed(FromComponents(1, Some(0), Some(0), Some("alpha..1"), None))
  {
    EmptyIdentifierRejected();
    assert FromComponents(1, Some(0), Some(0), Some("alpha..1"), None) == Version(1, 0, 0, "alpha..1", "");
  }

  // Strings the string constructor rejects, all with a format error

  /** A string whose pre-release part holds an identifier the grammar rejects fails with a
      format error, whether or not a build part follows. */
  lemma {:induction false} RejectsPreRelease(core: string, parts: seq<string>, i: nat, tail: string)
    requires |core| > 0 && !IsWhitespace(core[0])
    requires '-' !in core && '+' !in core
    requires |parts| > 0 && forall j :: 0 <= j < |parts| ==> '.' !in parts[j] && '+' !in parts[j]
    requires i < |parts| && !PreReleaseIdentifier(parts[i])
    requires tail == [] || tail[0] == '+'
    ensures ParseString(core + ['-'] + Join(parts, '.') + tail) == Failure(Format)
  {
    var pre := Join(parts, '.');
    var head := core + ['-'] + pre;
    var s := head + tail;
    JoinExcludes(parts, '.', '+');
    assert '+' !in head;
    if tail == [] {
      assert s == head;
      assert CutAt(s, '+') == (head, None);
    } else {
      assert s == head + ['+'] + tail[1..];
      CutAtFirst(head, '+', tail[1..]);
    }
    CutAtFirst(core, '-', pre);
    SplitJoin(parts, '.');
    assert !OptionalPart(Some(pre), PreReleaseIdentifier);
    assert s[0] == core[0];
  }

  lemma RejectsBlank()
    ensures ParseString("") == Failure(Format)
    ensures ParseString(" ") == Failure(Format)
    ensures ParseString("\t") == Failure(Format)
    ensures ParseString("\r\n") == Failure(Format)
  {
  }

  lemma RejectsMajorOnly()
    ensures ParseString("1") == Failure(Format)
  {
  }

  lemma RejectsMissingPatch()
    ensures ParseString("1.2") == Failure(Format)
  {
  }

  lemma RejectsLetters()
    ensures ParseString("a.b.c") == Failure(Format)
  {
  }

  lemma RejectsEmptyPreRelease()
    ensures ParseString("1.2.3-") == Failure(Format)
  {
    assert "1.2.3-" == "1.2.3" + ['-'] + Join([""], '.') + [];
    RejectsPreRelease("1.2.3", [""], 0, []);
  }

  lemma RejectsEmptyPreReleaseBeforeBuild()
    ensures ParseString("1.2.3-+build") == Failure(Format)
  {
    assert "1.2.3-+build" == "1.2.3" + ['-'] + Join([""], '.') + "+build";
    RejectsPreRelease("1.2.3", [""], 0, "+build");
  }

  lemma RejectsUnderscore()
    ensures ParseString("1.0.0-alpha_beta") == Failure(Format)
  {
    assert !IsIdentChar("alpha_beta"[5]);
    assert "1.0.0-alpha_beta" == "1.0.0" + ['-'] + Join(["alpha_beta"], '.') + [];
    RejectsPreRelease("1.0.0", ["alpha_beta"], 0, []);
  }

  lemma RejectsEmptyIdentifier()
    ensures ParseString("1.0.0-alpha..1") == Failure(Format)
  {
    JoinThree("alpha", "", "1", '.');
    assert "1.0.0-alpha..1" == "1.0.0" + ['-'] + Join(["alpha", "", "1"], '.') + [];
    RejectsPreRelease("1.0.0", ["alpha", "", "1"], 1, []);
  }

  lemma RejectsLeadingZero()
    ensures ParseString("1.0.0-01") == Failure(Format)
  {
    assert "1.0.0-01" == "1.0.0" + ['-'] + Join(["01"], '.') + [];
    RejectsPreRelease("1.0.0", ["01"], 0, []);
  }

  lemma RejectsLeadingZeroAfterDot()
    ensures ParseString("1.0.0-alpha.01") == Failure(Format)
  {
    assert ["alpha", "01"][1..] == ["01"];
    assert "1.0.0-alpha.01" == "1.0.0" + ['-'] + Join(["alpha", "01"], '.') + [];
    RejectsPreRelease("1.0.0", ["alpha", "01"], 1, []);
  }

  /** A `null` reference fails with its own error, never a format error. */
  lemma NullIsDistinct()
    ensures Parse(None) == Failure(NullArgument)
    ensures forall s :: Parse(Some(s)) != Failure(NullArgument)
  {
  }

  /** Deserializing JSON `null` fails rather than producing the default version. */
  lemma JsonNullRejected()
    ensures FromJson(JNull) == Failure(Deserialization)
    ensures FromJson(JOther) == Failure(Deserialization)
  {
  }
}

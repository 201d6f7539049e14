/** Concrete cases of the string constructor from the repository's tests, stated as
    lemmas about the model: strings it accepts, with the fields it extracts. */
module ParseVectors {
  import opened Wrappers
  import opened Text
  import opened Grammar
  import opened SemVer
  import opened ParseProofs
  import Decimal

  // Strings the string constructor accepts, with the fields it extracts

  /** The text a list of identifiers stands for: empty when there are none. */
  function Dots(ids: seq<string>): string
  {
    if |ids| == 0 then "" else Join(ids, '.')
  }

  /** A version whose parts are dot-joined identifier lists renders to a string the
      string constructor parses back to it. */
  lemma AcceptsIdentifiers(v: Version, pre: seq<string>, build: seq<string>)
    requires forall j :: 0 <= j < |pre| ==> PreReleaseIdentifier(pre[j])
    requires forall j :: 0 <= j < |build| ==> BuildIdentifier(build[j])
    requires v.prerelease == Dots(pre) && v.build == Dots(build)
    ensures WellFormed(v)
    ensures ParseString(ToString(v)) == Success(v)
  {
    ParseComplete(v);
  }

  lemma CoreOneZeroZero(prerelease: string, build: string)
    ensures CoreText(Version(1, 0, 0, prerelease, build)) == "1.0.0"
  {
    assert Decimal.Render(1) == "1" && Decimal.Render(0) == "0";
  }

  lemma CoreOneTwoThree(prerelease: string, build: string)
    ensures CoreText(Version(1, 2, 3, prerelease, build)) == "1.2.3"
  {
    assert Decimal.Render(1) == "1" && Decimal.Render(2) == "2" && Decimal.Render(3) == "3";
  }

  lemma TextPlainRelease()
    ensures "1.2.3" + "" + "" == "1.2.3"
  {
  }

  lemma ParsesPlainRelease()
    ensures ParseString("1.2.3") == Success(Version(1, 2, 3, "", ""))
  {
    CoreOneTwoThree("", "");
    TextPlainRelease();
    ToStringParts(Version(1, 2, 3, "", ""));
    AcceptsIdentifiers(Version(1, 2, 3, "", ""), [], []);
  }

  lemma TextAlpha()
    ensures "1.0.0" + (['-'] + "alpha") + "" == "1.0.0-alpha"
  {
  }

  lemma ParsesAlpha()
    ensures ParseString("1.0.0-alpha") == Success(Version(1, 0, 0, "alpha", ""))
  {
    CoreOneZeroZero("alpha", "");
    TextAlpha();
    ToStringParts(Version(1, 0, 0, "alpha", ""));
    AcceptsIdentifiers(Version(1, 0, 0, "alpha", ""), ["alpha"], []);
  }

  lemma TextAlphaOne()
    ensures "1.0.0" + (['-'] + "alpha.1") + "" == "1.0.0-alpha.1"
  {
  }

  lemma ParsesAlphaOne()
    ensures ParseString("1.0.0-alpha.1") == Success(Version(1, 0, 0, "alpha.1", ""))
  {
    CoreOneZeroZero("alpha.1", "");
    TextAlphaOne();
    ToStringParts(Version(1, 0, 0, "alpha.1", ""));
    assert ["alpha", "1"][1..] == ["1"];
    AcceptsIdentifiers(Version(1, 0, 0, "alpha.1", ""), ["alpha", "1"], []);
  }

  lemma TextNumericPreRelease()
    ensures "1.0.0" + (['-'] + "0.3.7") + "" == "1.0.0-0.3.7"
  {
  }

  lemma ParsesNumericPreRelease()
    ensures ParseString("1.0.0-0.3.7") == Success(Version(1, 0, 0, "0.3.7", ""))
  {
    CoreOneZeroZero("0.3.7", "");
    TextNumericPreRelease();
    ToStringParts(Version(1, 0, 0, "0.3.7", ""));
    JoinThree("0", "3", "7", '.');
    AcceptsIdentifiers(Version(1, 0, 0, "0.3.7", ""), ["0", "3", "7"], []);
  }

  lemma TextMixedPreRelease()
    ensures "1.0.0" + (['-'] + "x.7.z.92") + "" == "1.0.0-x.7.z.92"
  {
  }

  lemma ParsesMixedPreRelease()
    ensures ParseString("1.0.0-x.7.z.92") == Success(Version(1, 0, 0, "x.7.z.92", ""))
  {
    CoreOneZeroZero("x.7.z.92", "");
    TextMixedPreRelease();
    ToStringParts(Version(1, 0, 0, "x.7.z.92", ""));
    var parts := ["x", "7", "z", "92"];
    assert parts[1..] == ["7", "z", "92"];
    JoinThree("7", "z", "92", '.');
    assert NumericIdentifier("92");
    AcceptsIdentifiers(Version(1, 0, 0, "x.7.z.92", ""), parts, []);
  }

  lemma TextPreReleaseAndBuild()
    ensures "1.0.0" + (['-'] + "alpha") + (['+'] + "001") == "1.0.0-alpha+001"
  {
  }

  lemma ParsesPreReleaseAndBuild()
    ensures ParseString("1.0.0-alpha+001") == Success(Version(1, 0, 0, "alpha", "001"))
  {
    CoreOneZeroZero("alpha", "001");
    TextPreReleaseAndBuild();
    ToStringParts(Version(1, 0, 0, "alpha", "001"));
    AcceptsIdentifiers(Version(1, 0, 0, "alpha", "001"), ["alpha"], ["001"]);
  }

  lemma TextBuildOnly()
    ensures "1.0.0" + "" + (['+'] + "20130313144700") == "1.0.0+20130313144700"
  {
  }

  lemma ParsesBuildOnly()
    ensures ParseString("1.0.0+20130313144700") == Success(Version(1, 0, 0, "", "20130313144700"))
  {
    CoreOneZeroZero("", "20130313144700");
    TextBuildOnly();
    ToStringParts(Version(1, 0, 0, "", "20130313144700"));
    AcceptsIdentifiers(Version(1, 0, 0, "", "20130313144700"), [], ["20130313144700"]);
  }

  /** The zero-argument constructor's version is what "0.0.0" parses to. */
  lemma DefaultIsZero()
    ensures ParseString("0.0.0") == Success(Default())
  {
    ParseComplete(Default());
  }

  /** The serialization test: a parsed version survives the JSON round trip unchanged. */
  lemma TextSerialized()
    ensures "1.2.3" + (['-'] + "alpha.1") + (['+'] + "build") == "1.2.3-alpha.1+build"
  {
  }

  lemma SerializationCase()
    ensures ParseString("1.2.3-alpha.1+build") == Success(Version(1, 2, 3, "alpha.1", "build"))
    ensures FromJson(ToJson(Version(1, 2, 3, "alpha.1", "build"))) == Success(Version(1, 2, 3, "alpha.1", "build"))
  {
    CoreOneTwoThree("alpha.1", "build");
    TextSerialized();
    ToStringParts(Version(1, 2, 3, "alpha.1", "build"));
    assert ["alpha", "1"][1..] == ["1"];
    AcceptsIdentifiers(Version(1, 2, 3, "alpha.1", "build"), ["alpha", "1"], ["build"]);
    JsonRoundTrip(Version(1, 2, 3, "alpha.1", "build"));
  }
}

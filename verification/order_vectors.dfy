/** Concrete cases of precedence: the examples of item 11 of Semantic Versioning 2.0.0
    and the comparison test cases of the repository, stated as lemmas about the model. */
module OrderVectors {
  import opened Text
  import opened SemVer
  import opened Precedence
  import Decimal

  /** Version 1.0.0 with the given pre-release text. */
  function Pre(p: string): Version
  {
    Version(1, 0, 0, p, "")
  }

  lemma NumericPrecedence()
    ensures Lt(Version(1, 0, 0, "", ""), Version(2, 0, 0, "", ""))
    ensures Lt(Version(2, 0, 0, "", ""), Version(2, 1, 0, "", ""))
    ensures Lt(Version(2, 1, 0, "", ""), Version(2, 1, 1, "", ""))
  {
  }

  // The identifier lists of the chain

  lemma SplitsAlphaOne() ensures Split("alpha.1", '.') == ["alpha", "1"]
  {
    SplitTwo("alpha", "1", '.');
    assert "alpha" + ['.'] + "1" == "alpha.1";
  }

  lemma SplitsAlphaBeta() ensures Split("alpha.beta", '.') == ["alpha", "beta"]
  {
    SplitTwo("alpha", "beta", '.');
    assert "alpha" + ['.'] + "beta" == "alpha.beta";
  }

  lemma SplitsBetaTwo() ensures Split("beta.2", '.') == ["beta", "2"]
  {
    SplitTwo("beta", "2", '.');
    assert "beta" + ['.'] + "2" == "beta.2";
  }

  lemma SplitsBetaEleven() ensures Split("beta.11", '.') == ["beta", "11"]
  {
    SplitTwo("beta", "11", '.');
    assert "beta" + ['.'] + "11" == "beta.11";
  }

  lemma SplitsRcOne() ensures Split("rc.1", '.') == ["rc", "1"]
  {
    SplitTwo("rc", "1", '.');
    assert "rc" + ['.'] + "1" == "rc.1";
  }

  // Neighbours in the chain

  /** Two non-empty pre-release texts of 1.0.0 are ordered by their identifier lists. */
  lemma BelowByLists(a: string, b: string, la: seq<string>, lb: seq<string>)
    requires a != "" && b != ""
    requires Split(a, '.') == la && Split(b, '.') == lb
    requires CompareIdentifierLists(la, lb) == -1
    ensures Lt(Pre(a), Pre(b))
  {
  }

  lemma ListsAlphaAlphaOne()
    ensures CompareIdentifierLists(["alpha"], ["alpha", "1"]) == -1
  {
    LexLessIrreflexive("alpha");
    assert CompareIdentifiers("alpha", "alpha") == 0;
    assert ["alpha"][1..] == [] && ["alpha", "1"][1..] == ["1"];
  }

  lemma AlphaBelowAlphaOne()
    ensures Lt(Pre("alpha"), Pre("alpha.1"))
  {
    SplitsAlphaOne();
    assert Split("alpha", '.') == ["alpha"];
    ListsAlphaAlphaOne();
    BelowByLists("alpha", "alpha.1", ["alpha"], ["alpha", "1"]);
  }

  lemma OneBelowBeta()
    ensures CompareIdentifiers("1", "beta") == -1
  {
    assert IsNumeric("1");
    assert !IsDigit("beta"[0]);
  }

  lemma ListsAlphaOneAlphaBeta()
    ensures CompareIdentifierLists(["alpha", "1"], ["alpha", "beta"]) == -1
  {
    LexLessIrreflexive("alpha");
    assert CompareIdentifiers("alpha", "alpha") == 0;
    OneBelowBeta();
    assert ["alpha", "1"][1..] == ["1"] && ["alpha", "beta"][1..] == ["beta"];
    assert CompareIdentifierLists(["1"], ["beta"]) == -1;
  }

  lemma AlphaOneBelowAlphaBeta()
    ensures Lt(Pre("alpha.1"), Pre("alpha.beta"))
  {
    SplitsAlphaOne();
    SplitsAlphaBeta();
    ListsAlphaOneAlphaBeta();
    BelowByLists("alpha.1", "alpha.beta", ["alpha", "1"], ["alpha", "beta"]);
  }

  lemma AlphaBelowBeta()
    ensures CompareIdentifiers("alpha", "beta") == -1
  {
    assert !IsDigit("alpha"[0]) && !IsDigit("beta"[0]);
    assert LexLess("alpha", "beta");
  }

  lemma AlphaBetaBelowBeta()
    ensures Lt(Pre("alpha.beta"), Pre("beta"))
  {
    SplitsAlphaBeta();
    assert Split("beta", '.') == ["beta"];
    AlphaBelowBeta();
    assert CompareIdentifierLists(["alpha", "beta"], ["beta"]) == -1;
    BelowByLists("alpha.beta", "beta", ["alpha", "beta"], ["beta"]);
  }

  lemma ListsBetaBetaTwo()
    ensures CompareIdentifierLists(["beta"], ["beta", "2"]) == -1
  {
    LexLessIrreflexive("beta");
    assert CompareIdentifiers("beta", "beta") == 0;
    assert ["beta"][1..] == [] && ["beta", "2"][1..] == ["2"];
  }

  lemma BetaBelowBetaTwo()
    ensures Lt(Pre("beta"), Pre("beta.2"))
  {
    SplitsBetaTwo();
    assert Split("beta", '.') == ["beta"];
    ListsBetaBetaTwo();
    BelowByLists("beta", "beta.2", ["beta"], ["beta", "2"]);
  }

  lemma TwoBelowEleven()
    ensures CompareIdentifiers("2", "11") == -1
  {
    assert IsNumeric("2") && IsNumeric("11");
    assert Decimal.Value("2") == 2;
    assert Decimal.Value("11") == 11;
  }

  lemma ListsBetaTwoBetaEleven()
    ensures CompareIdentifierLists(["beta", "2"], ["beta", "11"]) == -1
  {
    LexLessIrreflexive("beta");
    assert CompareIdentifiers("beta", "beta") == 0;
    TwoBelowEleven();
    assert ["beta", "2"][1..] == ["2"] && ["beta", "11"][1..] == ["11"];
    assert CompareIdentifierLists(["2"], ["11"]) == -1;
  }

  lemma BetaTwoBelowBetaEleven()
    ensures Lt(Pre("beta.2"), Pre("beta.11"))
  {
    SplitsBetaTwo();
    SplitsBetaEleven();
    ListsBetaTwoBetaEleven();
    BelowByLists("beta.2", "beta.11", ["beta", "2"], ["beta", "11"]);
  }

  lemma BetaBelowRc()
    ensures CompareIdentifiers("beta", "rc") == -1
  {
    assert !IsDigit("beta"[0]) && !IsDigit("rc"[0]);
    assert LexLess("beta", "rc");
  }

  lemma BetaElevenBelowRcOne()
    ensures Lt(Pre("beta.11"), Pre("rc.1"))
  {
    SplitsBetaEleven();
    SplitsRcOne();
    BetaBelowRc();
    assert CompareIdentifierLists(["beta", "11"], ["rc", "1"]) == -1;
    BelowByLists("beta.11", "rc.1", ["beta", "11"], ["rc", "1"]);
  }

  lemma RcOneBelowRelease()
    ensures Lt(Pre("rc.1"), Pre(""))
  {
  }

  /** Each member of the chain is below the next. */
  lemma ChainNeighbours(c: seq<string>)
    requires c == Chain()
    ensures forall k :: 0 <= k < |c| - 1 ==> Lt(Pre(c[k]), Pre(c[k + 1]))
  {
    forall k | 0 <= k < |c| - 1 ensures Lt(Pre(c[k]), Pre(c[k + 1])) {
      if k == 0 { assert c[k] == "alpha" && c[k + 1] == "alpha.1"; AlphaBelowAlphaOne(); }
      else if k == 1 { assert c[k] == "alpha.1" && c[k + 1] == "alpha.beta"; AlphaOneBelowAlphaBeta(); }
      else if k == 2 { assert c[k] == "alpha.beta" && c[k + 1] == "beta"; AlphaBetaBelowBeta(); }
      else if k == 3 { assert c[k] == "beta" && c[k + 1] == "beta.2"; BetaBelowBetaTwo(); }
      else if k == 4 { assert c[k] == "beta.2" && c[k + 1] == "beta.11"; BetaTwoBelowBetaEleven(); }
      else if k == 5 { assert c[k] == "beta.11" && c[k + 1] == "rc.1"; BetaElevenBelowRcOne(); }
      else { assert c[k] == "rc.1" && c[k + 1] == ""; RcOneBelowRelease(); }
    }
  }

  /** `1.0.0-alpha < 1.0.0-alpha.1 < 1.0.0-alpha.beta < 1.0.0-beta < 1.0.0-beta.2
      < 1.0.0-beta.11 < 1.0.0-rc.1 < 1.0.0`, so each is below all later ones. */
  lemma PreReleaseChain(c: seq<string>)
    requires c == Chain()
    ensures forall i, j :: 0 <= i < j < |c| ==> Lt(Pre(c[i]), Pre(c[j]))
  {
    ChainNeighbours(c);
    forall i, j | 0 <= i < j < |c| ensures Lt(Pre(c[i]), Pre(c[j])) {
      ChainStep(c, i, j);
    }
  }

  function Chain(): seq<string>
  {
    ["alpha", "alpha.1", "alpha.beta", "beta", "beta.2", "beta.11", "rc.1", ""]
  }

  /** A sequence whose neighbours are in `Lt` order is in `Lt` order throughout. */
  lemma {:induction false} ChainStep(c: seq<string>, i: nat, j: nat)
    requires forall k :: 0 <= k < |c| - 1 ==> Lt(Pre(c[k]), Pre(c[k + 1]))
    requires i < j < |c|
    ensures Lt(Pre(c[i]), Pre(c[j]))
    decreases j - i
  {
    if j > i + 1 {
      ChainStep(c, i + 1, j);
      LtTransitive(Pre(c[i]), Pre(c[i + 1]), Pre(c[j]));
    }
  }

  /** A numeric identifier is below an alphanumeric one: `1.0.0-1 < 1.0.0-alpha`. */
  lemma NumericBelowAlphanumeric()
    ensures Lt(Pre("1"), Pre("alpha"))
  {
  }

  /** The comparison test cases of the repository, on 1.0.0 and 2.0.0. */
  lemma OperatorCases(one: Version, two: Version)
    requires one == Version(1, 0, 0, "", "") && two == Version(2, 0, 0, "", "")
    ensures Equals(one, one) && !Equals(one, two)
    ensures Lt(one, two) && !Lt(two, one) && !Lt(one, one)
    ensures Gt(two, one) && !Gt(one, two) && !Gt(one, one)
    ensures Lte(one, one) && Lte(one, two) && !Lte(two, one)
    ensures Gte(one, one) && Gte(two, one) && !Gte(one, two)
  {
  }

  /** Versions that differ only in build metadata are equal. */
  lemma BuildMetadataCase()
    ensures Equals(Version(1, 0, 0, "alpha", "b1"), Version(1, 0, 0, "alpha", "b2"))
  {
    EqualsIgnoresBuild(Version(1, 0, 0, "alpha", "b1"), "b2");
  }
}

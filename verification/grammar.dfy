/** The identifier grammar of Semantic Versioning 2.0.0 (items 2, 9 and 10 and the
    Backus–Naur form grammar of the specification), as predicates on strings. */
module Grammar {
  import opened Text

  /** `<numeric identifier> ::= "0" | <positive digit> | <positive digit> <digits>`:
      a decimal numeral without leading zeros. */
  predicate NumericIdentifier(s: string)
  {
    s == "0" || (|s| > 0 && '1' <= s[0] <= '9' && AllDigits(s))
  }

  /** `<alphanumeric identifier>`: identifier characters, at least one of them a non-digit. */
  predicate AlphanumericIdentifier(s: string)
  {
    |s| > 0 && AllIdentChars(s) && !AllDigits(s)
  }

  /** `<pre-release identifier> ::= <alphanumeric identifier> | <numeric identifier>`. */
  predicate PreReleaseIdentifier(s: string)
  {
    NumericIdentifier(s) || AlphanumericIdentifier(s)
  }

  /** `<build identifier> ::= <alphanumeric identifier> | <digits>`: a non-empty run of identifier characters. */
  predicate BuildIdentifier(s: string)
  {
    |s| > 0 && AllIdentChars(s)
  }

  /** `s` is one or more identifiers accepted by `id`, joined by dots. */
  ghost predicate DotSeparated(s: string, id: string -> bool)
  {
    exists parts: seq<string> ::
      && |parts| > 0
      && (forall i :: 0 <= i < |parts| ==> id(parts[i]))
      && Join(parts, '.') == s
  }

  /** The pre-release identifier alternative written in the source pattern,
      `0|[1-9]\d*|\d*[a-zA-Z-][a-zA-Z0-9-]*`, read as a language. */
  ghost predicate PatternPreReleaseIdentifier(s: string)
  {
    || s == "0"
    || (|s| > 0 && '1' <= s[0] <= '9' && AllDigits(s[1..]))
    || exists k :: 0 <= k < |s| && AllDigits(s[..k]) && (IsLetter(s[k]) || s[k] == '-') && AllIdentChars(s[k + 1..])
  }

  /** The position of the first non-digit of a string that has one. */
  function FirstNonDigit(s: string): (k: nat)
    requires !AllDigits(s)
    ensures k < |s| && !IsDigit(s[k]) && AllDigits(s[..k])
  {
    if !IsDigit(s[0]) then 0
    else
      var k' := FirstNonDigit(s[1..]);
      assert s[..k' + 1] == [s[0]] + s[1..][..k'];
      k' + 1
  }

  /** The source pattern's pre-release alternative is the specification's pre-release identifier. */
  lemma PatternAgreesWithGrammar(s: string)
    ensures PatternPreReleaseIdentifier(s) <==> PreReleaseIdentifier(s)
  {
    if PreReleaseIdentifier(s) && !NumericIdentifier(s) {
      var k := FirstNonDigit(s);
      assert AllIdentChars(s[k + 1..]);
    }
    if PatternPreReleaseIdentifier(s) && !NumericIdentifier(s) {
      var k :| 0 <= k < |s| && AllDigits(s[..k]) && (IsLetter(s[k]) || s[k] == '-') && AllIdentChars(s[k + 1..]);
      forall j | 0 <= j < |s| ensures IsIdentChar(s[j]) {
        if j < k {
          assert s[j] == s[..k][j];
        } else if j > k {
          assert s[j] == s[k + 1..][j - k - 1];
        }
      }
    }
  }

  /** No identifier contains a dot. */
  lemma IdentifiersAreDotFree()
    ensures forall x :: PreReleaseIdentifier(x) ==> '.' !in x
    ensures forall x :: BuildIdentifier(x) ==> '.' !in x
  {
  }

  /** A dot-separated list is recognised by splitting it at every dot and checking each piece. */
  lemma DotSeparatedBySplit(s: string, id: string -> bool)
    requires forall x :: id(x) ==> '.' !in x
    ensures DotSeparated(s, id) <==> forall i :: 0 <= i < |Split(s, '.')| ==> id(Split(s, '.')[i])
  {
    var parts := Split(s, '.');
    if DotSeparated(s, id) {
      var ps :| |ps| > 0 && (forall i :: 0 <= i < |ps| ==> id(ps[i])) && Join(ps, '.') == s;
      SplitJoin(ps, '.');
    }
    if forall i :: 0 <= i < |parts| ==> id(parts[i]) {
      assert |parts| > 0 && (forall i :: 0 <= i < |parts| ==> id(parts[i])) && Join(parts, '.') == s;
    } else {
      var i :| 0 <= i < |parts| && !id(parts[i]);
      assert !id(Split(s, '.')[i]);
    }
  }
}

/** Precedence (item 11 of Semantic Versioning 2.0.0): the three-way comparison of
    versions, the boolean relations built on it, and the laws that make it a total preorder.
    The comparison is defined on every version, including ones whose pre-release text
    was never validated, so the laws are proved for arbitrary strings. */
module Precedence {
  import opened Text
  import Decimal
  import opened Grammar
  import opened SemVer

  /** `Math.sign` on an integer difference. */
  function Sign(d: int): (r: int)
    ensures r == -1 || r == 0 || r == 1
    ensures r < 0 <==> d < 0
    ensures r > 0 <==> d > 0
  {
    if d < 0 then -1 else if d > 0 then 1 else 0
  }

  /** `/^[0-9]+$/.test(s)`: a non-empty run of digits, leading zeros allowed. */
  function IsNumeric(s: string): (r: bool)
    ensures r ==> '.' !in s
    ensures PreReleaseIdentifier(s) ==> (r <==> NumericIdentifier(s))
  {
    |s| > 0 && AllDigits(s)
  }

  /** One pre-release identifier against another: digit-only identifiers by value and below
      all others, the others by JavaScript's string order. */
  function CompareIdentifiers(a: string, b: string): (r: int)
    ensures r == -1 || r == 0 || r == 1
  {
    if IsNumeric(a) && IsNumeric(b) then Sign(Decimal.Value(a) - Decimal.Value(b))
    else if IsNumeric(a) then -1
    else if IsNumeric(b) then 1
    else if LexLess(a, b) then -1
    else if LexLess(b, a) then 1
    else 0
  }

  /** Identifier lists position by position; the first unequal pair decides, and when one
      list runs out first, the longer list is greater. */
  function CompareIdentifierLists(l: seq<string>, r: seq<string>): (c: int)
    ensures c == -1 || c == 0 || c == 1
    decreases |l|
  {
    if |l| == 0 || |r| == 0 then Sign(|l| - |r|)
    else
      var head := CompareIdentifiers(l[0], r[0]);
      if head != 0 then head else CompareIdentifierLists(l[1..], r[1..])
  }

  /** Pre-release texts: no pre-release is above every pre-release; otherwise the
      dot-separated identifier lists are compared. */
  function ComparePreRelease(left: string, right: string): (c: int)
    ensures c == -1 || c == 0 || c == 1
  {
    if |left| == 0 && |right| == 0 then 0
    else if |left| == 0 then 1
    else if |right| == 0 then -1
    else CompareIdentifierLists(Split(left, '.'), Split(right, '.'))
  }

  /** `compareTo` (and the static `compare`): major, then minor, then patch, then pre-release.
      The build text is never read. */
  function Compare(a: Version, b: Version): (c: int)
    ensures c == -1 || c == 0 || c == 1
  {
    if a.major != b.major then Sign(a.major - b.major)
    else if a.minor != b.minor then Sign(a.minor - b.minor)
    else if a.patch != b.patch then Sign(a.patch - b.patch)
    else ComparePreRelease(a.prerelease, b.prerelease)
  }

  /** `equals`: the same precedence, which is symmetric and needs the same major, minor and patch. */
  function Equals(a: Version, b: Version): (r: bool)
    ensures r <==> Compare(b, a) == 0
    ensures r ==> a.major == b.major && a.minor == b.minor && a.patch == b.patch
  {
    CompareAntisymmetric(a, b);
    Compare(a, b) == 0
  }

  /** `lt`: `a` has lower precedence, that is, `b` compares above `a`; never with a larger major. */
  function Lt(a: Version, b: Version): (r: bool)
    ensures r <==> Compare(b, a) > 0
    ensures r ==> a.major <= b.major
  {
    CompareAntisymmetric(a, b);
    Compare(a, b) < 0
  }

  /** `lte`: `lt` or `equals`. */
  function Lte(a: Version, b: Version): (r: bool)
    ensures r <==> Lt(a, b) || Equals(a, b)
    ensures r <==> Compare(b, a) >= 0
  {
    CompareAntisymmetric(a, b);
    Compare(a, b) <= 0
  }

  /** `gt`: `lt` with the operands swapped. */
  function Gt(a: Version, b: Version): (r: bool)
    ensures r <==> Lt(b, a)
  {
    CompareAntisymmetric(a, b);
    Compare(a, b) > 0
  }

  /** `gte`: `lte` with the operands swapped. */
  function Gte(a: Version, b: Version): (r: bool)
    ensures r <==> Lte(b, a)
  {
    CompareAntisymmetric(a, b);
    Compare(a, b) >= 0
  }

  /** The pre-release comparison as the source writes it: a loop over the shared positions,
      then the difference of the lengths. */
  method ComparePreReleaseLoop(left: string, right: string) returns (r: int)
    ensures r == ComparePreRelease(left, right)
  {
    if |left| == 0 && |right| == 0 { return 0; }
    if |left| == 0 { return 1; }
    if |right| == 0 { return -1; }
    var leftParts := Split(left, '.');
    var rightParts := Split(right, '.');
    var minLength := if |leftParts| < |rightParts| then |leftParts| else |rightParts|;
    var i := 0;
    while i < minLength
      invariant 0 <= i <= minLength
      invariant CompareIdentifierLists(leftParts[i..], rightParts[i..]) == CompareIdentifierLists(leftParts, rightParts)
    {
      var comparison := CompareIdentifiers(leftParts[i], rightParts[i]);
      if comparison != 0 { return comparison; }
      assert leftParts[i..][1..] == leftParts[i + 1..];
      assert rightParts[i..][1..] == rightParts[i + 1..];
      i := i + 1;
    }
    return Sign(|leftParts| - |rightParts|);
  }

  // Identifiers

  /** Two identifiers compare equal exactly when both are numeric with the same value,
      or neither is numeric and they are the same string. */
  lemma IdentifiersEqual(a: string, b: string)
    ensures CompareIdentifiers(a, b) == 0 <==>
      || (IsNumeric(a) && IsNumeric(b) && Decimal.Value(a) == Decimal.Value(b))
      || (!IsNumeric(a) && !IsNumeric(b) && a == b)
  {
    LexLessTotal(a, b);
    LexLessIrreflexive(a);
  }

  lemma IdentifiersAntisymmetric(a: string, b: string)
    ensures CompareIdentifiers(a, b) == -CompareIdentifiers(b, a)
  {
    LexLessAsymmetric(a, b);
  }

  lemma IdentifiersTransitive(a: string, b: string, c: string)
    requires CompareIdentifiers(a, b) <= 0 && CompareIdentifiers(b, c) <= 0
    ensures CompareIdentifiers(a, c) <= 0
  {
    if !IsNumeric(a) && !IsNumeric(b) && !IsNumeric(c) {
      LexLessTotal(a, b);
      LexLessTotal(b, c);
      LexLessTotal(a, c);
      if LexLess(a, b) && LexLess(b, c) {
        LexLessTransitive(a, b, c);
      }
      if LexLess(c, a) {
        LexLessAsymmetric(a, c);
        if a == b {
          LexLessAsymmetric(b, c);
        } else if b == c {
          LexLessAsymmetric(a, b);
        } else {
          LexLessTransitive(c, a, b);
          LexLessAsymmetric(b, c);
        }
      }
    }
  }

  // Identifier lists

  lemma {:induction false} ListsReflexive(l: seq<string>)
    ensures CompareIdentifierLists(l, l) == 0
    decreases |l|
  {
    if |l| > 0 {
      IdentifiersEqual(l[0], l[0]);
      ListsReflexive(l[1..]);
    }
  }

  lemma {:induction false} ListsAntisymmetric(l: seq<string>, r: seq<string>)
    ensures CompareIdentifierLists(l, r) == -CompareIdentifierLists(r, l)
    decreases |l|
  {
    if |l| > 0 && |r| > 0 {
      IdentifiersAntisymmetric(l[0], r[0]);
      ListsAntisymmetric(l[1..], r[1..]);
    }
  }

  lemma {:induction false} ListsTransitive(l: seq<string>, m: seq<string>, r: seq<string>)
    requires CompareIdentifierLists(l, m) <= 0 && CompareIdentifierLists(m, r) <= 0
    ensures CompareIdentifierLists(l, r) <= 0
    decreases |l|
  {
    if |l| > 0 && |m| > 0 && |r| > 0 {
      var lm := CompareIdentifiers(l[0], m[0]);
      var mr := CompareIdentifiers(m[0], r[0]);
      IdentifiersTransitive(l[0], m[0], r[0]);
      if lm == 0 && mr == 0 {
        ListsTransitive(l[1..], m[1..], r[1..]);
      } else if CompareIdentifiers(l[0], r[0]) == 0 {
        // l[0] ~ r[0], so m[0] is squeezed between two equal identifiers
        IdentifiersAntisymmetric(l[0], r[0]);
        IdentifiersAntisymmetric(l[0], m[0]);
        IdentifiersTransitive(r[0], l[0], m[0]);
        IdentifiersAntisymmetric(m[0], r[0]);
        IdentifiersTransitive(m[0], r[0], l[0]);
      }
    }
  }

  /** The first position whose identifiers differ decides the comparison of two lists. */
  lemma {:induction false} FirstDifferenceDecides(l: seq<string>, r: seq<string>, k: nat)
    requires k < |l| && k < |r|
    requires forall i :: 0 <= i < k ==> CompareIdentifiers(l[i], r[i]) == 0
    requires CompareIdentifiers(l[k], r[k]) != 0
    ensures CompareIdentifierLists(l, r) == CompareIdentifiers(l[k], r[k])
    decreases k
  {
    if k > 0 {
      FirstDifferenceDecides(l[1..], r[1..], k - 1);
    }
  }

  /** When every shared position is equal, the list with more identifiers is greater. */
  lemma {:induction false} LongerListIsGreater(l: seq<string>, r: seq<string>)
    requires forall i :: 0 <= i < |l| && i < |r| ==> CompareIdentifiers(l[i], r[i]) == 0
    ensures CompareIdentifierLists(l, r) == Sign(|l| - |r|)
    decreases |l|
  {
    if |l| > 0 && |r| > 0 {
      LongerListIsGreater(l[1..], r[1..]);
    }
  }

  // Pre-release texts

  /** A version without pre-release is above every version with one, and equal to another without. */
  lemma ReleaseOutranksPreRelease(p: string)
    ensures ComparePreRelease("", "") == 0
    ensures p != "" ==> ComparePreRelease("", p) == 1 && ComparePreRelease(p, "") == -1
  {
  }

  lemma PreReleaseReflexive(p: string)
    ensures ComparePreRelease(p, p) == 0
  {
    ListsReflexive(Split(p, '.'));
  }

  lemma PreReleaseAntisymmetric(p: string, q: string)
    ensures ComparePreRelease(p, q) == -ComparePreRelease(q, p)
  {
    ListsAntisymmetric(Split(p, '.'), Split(q, '.'));
  }

  lemma PreReleaseTransitive(p: string, q: string, t: string)
    requires ComparePreRelease(p, q) <= 0 && ComparePreRelease(q, t) <= 0
    ensures ComparePreRelease(p, t) <= 0
  {
    if |p| > 0 && |q| > 0 && |t| > 0 {
      ListsTransitive(Split(p, '.'), Split(q, '.'), Split(t, '.'));
    }
  }

  // Versions

  /** Major decides first, then minor, then patch; pre-release only when all three are equal. */
  lemma FieldOrder(a: Version, b: Version)
    ensures a.major < b.major ==> Compare(a, b) == -1
    ensures a.major == b.major && a.minor < b.minor ==> Compare(a, b) == -1
    ensures a.major == b.major && a.minor == b.minor && a.patch < b.patch ==> Compare(a, b) == -1
    ensures a.major == b.major && a.minor == b.minor && a.patch == b.patch ==>
              Compare(a, b) == ComparePreRelease(a.prerelease, b.prerelease)
  {
  }

  /** The build text never affects the comparison. */
  lemma BuildIgnored(a: Version, b: Version, x: string, y: string)
    ensures Compare(a.(build := x), b.(build := y)) == Compare(a, b)
  {
  }

  lemma CompareReflexive(a: Version)
    ensures Compare(a, a) == 0
  {
    PreReleaseReflexive(a.prerelease);
  }

  lemma CompareAntisymmetric(a: Version, b: Version)
    ensures Compare(a, b) == -Compare(b, a)
  {
    PreReleaseAntisymmetric(a.prerelease, b.prerelease);
  }

  lemma CompareTransitive(a: Version, b: Version, c: Version)
    requires Compare(a, b) <= 0 && Compare(b, c) <= 0
    ensures Compare(a, c) <= 0
  {
    if a.major == b.major == c.major && a.minor == b.minor == c.minor && a.patch == b.patch == c.patch {
      PreReleaseTransitive(a.prerelease, b.prerelease, c.prerelease);
    }
  }

  /** Two versions that differ only in build metadata are equal. */
  lemma EqualsIgnoresBuild(a: Version, x: string)
    ensures Equals(a, a.(build := x))
  {
    CompareReflexive(a);
  }

  // Relations

  /** Exactly one of `lt`, `equals` and `gt` holds, and `gt` is `lt` reversed. */
  lemma Trichotomy(a: Version, b: Version)
    ensures Lt(a, b) || Equals(a, b) || Gt(a, b)
    ensures !(Lt(a, b) && Equals(a, b)) && !(Lt(a, b) && Gt(a, b)) && !(Equals(a, b) && Gt(a, b))
    ensures Lt(a, b) <==> Gt(b, a)
    ensures Lte(a, b) <==> Gte(b, a)
    ensures Lte(a, b) <==> !Gt(a, b)
    ensures Gte(a, b) <==> !Lt(a, b)
  {
    CompareAntisymmetric(a, b);
  }

  /** `equals` is an equivalence relation. */
  lemma EqualsIsEquivalence(a: Version, b: Version, c: Version)
    ensures Equals(a, a)
    ensures Equals(a, b) ==> Equals(b, a)
    ensures Equals(a, b) && Equals(b, c) ==> Equals(a, c)
  {
    CompareReflexive(a);
    CompareAntisymmetric(a, b);
    CompareAntisymmetric(b, c);
    CompareAntisymmetric(a, c);
    if Equals(a, b) && Equals(b, c) {
      CompareTransitive(a, b, c);
      CompareTransitive(c, b, a);
    }
  }

  /** `lt` is transitive, also through an `lte` on either side. */
  lemma LtTransitive(a: Version, b: Version, c: Version)
    ensures Lt(a, b) && Lte(b, c) ==> Lt(a, c)
    ensures Lte(a, b) && Lt(b, c) ==> Lt(a, c)
  {
    CompareAntisymmetric(a, b);
    CompareAntisymmetric(b, c);
    CompareAntisymmetric(a, c);
    if Lt(a, b) && Lte(b, c) {
      CompareTransitive(a, b, c);
      if Compare(a, c) == 0 {
        CompareTransitive(b, c, a);
      }
    }
    if Lte(a, b) && Lt(b, c) {
      CompareTransitive(a, b, c);
      if Compare(a, c) == 0 {
        CompareTransitive(c, a, b);
      }
    }
  }

  /** `lte` is a total preorder on all versions. */
  lemma LteIsTotalPreorder()
    ensures forall a :: Lte(a, a)
    ensures forall a, b :: Lte(a, b) || Lte(b, a)
    ensures forall a, b, c :: Lte(a, b) && Lte(b, c) ==> Lte(a, c)
  {
    forall a ensures Lte(a, a) {
      CompareReflexive(a);
    }
    forall a, b ensures Lte(a, b) || Lte(b, a) {
      CompareAntisymmetric(a, b);
    }
    forall a, b, c | Lte(a, b) && Lte(b, c) ensures Lte(a, c) {
      CompareTransitive(a, b, c);
    }
  }
}

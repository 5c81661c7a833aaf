/**
  API version ranges: which versions an endpoint answers to, and the test that
  registration uses to keep two endpoints from answering to the same version.

  Versions are a countable total order with a least element.  Any such order
  embeds into the non-negative real numbers with 0 as its least element, so that
  is what a version is here; nothing below uses more than the order.
 */
module Versions {

  import opened Wrappers

  type Version = v: real | v >= 0.0 witness 0.0

  const LEAST_VERSION: Version := 0.0

  datatype Range =
    | All
    | From(earliest: Version)
    | FromUntil(first: Version, until: Version)
    | Until(end: Version)
  {
    /** The order that the from-until constructor enforces. */
    predicate Ordered() {
      FromUntil? ==> first <= until
    }

    /** A request without a version accepts every range. */
    predicate Matches(version: Option<Version>) {
      version.None? || Contains(version.value)
    }

    predicate Contains(v: Version) {
      match this
      case All => true
      case From(earliest) => v >= earliest
      case FromUntil(first, until) => v >= first && (v < until || (v == until && first == until))
      case Until(end) => v < end
    }

    predicate OverlapsWith(other: Range) {
      match (this, other)
      case (All, _) => true
      case (_, All) => true
      case (From(_), From(_)) => true
      case (Until(_), Until(_)) => true
      case (From(earliest), Until(_)) => other.Contains(earliest)
      case (Until(_), From(earliest)) => this.Contains(earliest)
      case (From(earliest), FromUntil(_, until)) => earliest < until
      case (FromUntil(_, until), From(earliest)) => earliest < until
      case (Until(_), FromUntil(first, _)) => this.Contains(first)
      case (FromUntil(first, _), Until(_)) => other.Contains(first)
      case (FromUntil(first1, _), FromUntil(first2, _)) => this.Contains(first2) || other.Contains(first1)
    }
  }

  /** Ranges as they can be built: a from-until range has its bounds in order. */
  type VersionRange = r: Range | r.Ordered() witness Range.All

  /** Builds a from-until range, refusing bounds given in the wrong order. */
  function MakeFromUntil(first: Version, until: Version): (r: Result<VersionRange, string>)
    ensures r.Ok? <==> first <= until
    ensures r.Ok? ==> r.value.Contains(first) && (first < until ==> !r.value.Contains(until))
  {
    if until < first then
      Result<VersionRange, string>.Err("versions in a from-until version range must be provided in order")
    else
      var range: VersionRange := FromUntil(first, until);
      Ok(range)
  }

  /**
    The ranges as intervals: "from e" begins with e and is all that "until e" leaves
    out; a from-until range is what its two halves share, or its one version; and
    what lies between two versions of a range is in it.
   */
  lemma RangesAreIntervals(e: Version, until: Version, v: Version, w: Version)
    ensures Range.All.Contains(v)
    ensures From(e).Contains(e) && (From(e).Contains(v) && v <= w ==> From(e).Contains(w))
    ensures From(e).Contains(v) <==> !Until(e).Contains(v)
    ensures v < w ==> !From(w).Contains(v)
    ensures e < until ==> (FromUntil(e, until).Contains(v) <==> From(e).Contains(v) && Until(until).Contains(v))
    ensures FromUntil(e, e).Contains(v) <==> v == e
  {
  }

  ghost predicate ShareAVersion(a: VersionRange, b: VersionRange) {
    exists v: Version :: a.Contains(v) && b.Contains(v)
  }

  /**
    The pair of ranges that the overlap test misjudges: "from e on" against
    the single version e written as a from-until range with equal bounds.
   */
  predicate PointAtStart(a: VersionRange, b: VersionRange) {
    a.From? && b.FromUntil? && a.earliest == b.first == b.until
  }

  predicate BlindPair(a: VersionRange, b: VersionRange) {
    PointAtStart(a, b) || PointAtStart(b, a)
  }

  /** The range that holds no version at all: everything before the least one. */
  predicate Empty(a: VersionRange) {
    a == Until(LEAST_VERSION)
  }

  /** The overlap test answers "overlap" on the empty range against these kinds of range. */
  predicate EmptyMisjudged(a: VersionRange, b: VersionRange) {
    Empty(a) && (b.All? || b.Until?)
  }

  lemma OverlapIsSymmetric(a: VersionRange, b: VersionRange)
    ensures a.OverlapsWith(b) == b.OverlapsWith(a)
  {
  }

  /** Every ordered range but the empty one holds a version. */
  lemma EmptyIff(a: VersionRange)
    ensures Empty(a) <==> forall v: Version :: !a.Contains(v)
  {
    var v := if a.From? then a.earliest else if a.FromUntil? then a.first else LEAST_VERSION;
    assert !Empty(a) ==> a.Contains(v);
  }

  /** The later of two lower bounds, which lies in both ranges as soon as any version does. */
  function LowerBound(a: VersionRange): Version {
    match a
    case From(earliest) => earliest
    case FromUntil(first, _) => first
    case _ => LEAST_VERSION
  }

  lemma SharedAtLaterBound(a: VersionRange, b: VersionRange)
    requires ShareAVersion(a, b)
    ensures a.Contains(if LowerBound(a) < LowerBound(b) then LowerBound(b) else LowerBound(a))
    ensures b.Contains(if LowerBound(a) < LowerBound(b) then LowerBound(b) else LowerBound(a))
  {
    var v: Version :| a.Contains(v) && b.Contains(v);
  }

  /**
    The overlap test is exact -- it says "overlap" precisely when the two ranges
    share a version -- if and only if the pair is neither a blind pair nor an
    empty range against an everything-before range or the range of all versions.
   */
  lemma OverlapExactIff(a: VersionRange, b: VersionRange)
    ensures (a.OverlapsWith(b) <==> ShareAVersion(a, b))
       <==> (!BlindPair(a, b) && !EmptyMisjudged(a, b) && !EmptyMisjudged(b, a))
  {
    var w := if LowerBound(a) < LowerBound(b) then LowerBound(b) else LowerBound(a);
    if ShareAVersion(a, b) {
      SharedAtLaterBound(a, b);
    }
    assert ShareAVersion(a, b) <==> a.Contains(w) && b.Contains(w);
  }

  /** What registration relies on: ranges it lets stand side by side share no version, blind pairs apart. */
  lemma NonOverlappingAreDisjoint(a: VersionRange, b: VersionRange, v: Version)
    requires !a.OverlapsWith(b)
    ensures a.Contains(v) && b.Contains(v) ==> BlindPair(a, b) && v == LowerBound(a)
  {
  }

  /** The concrete failing pair: both answer to version 1, yet the test calls them disjoint. */
  lemma BlindPairExample()
    ensures !From(1.0).OverlapsWith(FromUntil(1.0, 1.0))
    ensures From(1.0).Contains(1.0) && FromUntil(1.0, 1.0).Contains(1.0)
  {
  }

  lemma OverlapsItself(a: VersionRange)
    ensures a.OverlapsWith(a)
  {
  }
}

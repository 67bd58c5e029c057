/**
 * The command-line lists every script starts from: the years to process, the states
 * (or 'ALL'), the MGRS tiles and the study-area features.
 */
module Args {
  import opened Wrappers
  import opened Strings

  // ---------------------------------------------------------------------------
  // years

  predicate Increasing(s: seq<int>) {
    forall i, j :: 0 <= i < j < |s| ==> s[i] < s[j]
  }

  predicate Decreasing(s: seq<int>) {
    forall i, j :: 0 <= i < j < |s| ==> s[i] > s[j]
  }

  /** list(range(lo, hi + 1)). */
  function Range(lo: int, hi: int): (r: seq<int>)
    ensures |r| == if lo <= hi then hi - lo + 1 else 0
    ensures forall k :: 0 <= k < |r| ==> r[k] == lo + k
  {
    if lo > hi then [] else seq(hi - lo + 1, k => lo + k)
  }

  /** sorted(set(y for y in given if lo <= y <= hi)). */
  function YearsIn(lo: int, hi: int, given: seq<int>): (r: seq<int>)
    ensures forall y :: y in r <==> lo <= y <= hi && y in given
    ensures Increasing(r)
    decreases hi - lo
  {
    if lo > hi then []
    else
      var rest := YearsIn(lo + 1, hi, given);
      var r := (if lo in given then [lo] else []) + rest;
      assert forall k :: 0 <= k < |rest| ==> lo < rest[k] by {
        forall k | 0 <= k < |rest| ensures lo < rest[k] { assert rest[k] in rest; }
      }
      r
  }

  /**
   * The year list of a script whose years lie in [lo, hi]: every year of the range
   * when no year argument was given (None), otherwise the given years inside the
   * range, without repeats, oldest first.
   */
  function SelectYears(given: Option<seq<int>>, lo: int, hi: int): (r: seq<int>)
  {
    match given
    case None => Range(lo, hi)
    case Some(ys) => YearsIn(lo, hi, ys)
  }

  lemma SelectYearsSpec(given: Option<seq<int>>, lo: int, hi: int)
    ensures Increasing(SelectYears(given, lo, hi))
    ensures forall y :: y in SelectYears(given, lo, hi) <==>
      lo <= y <= hi && (given.None? || y in given.value)
  {
    var r := SelectYears(given, lo, hi);
    if given.None? {
      forall y | lo <= y <= hi ensures y in r { assert r[y - lo] == y; }
    }
  }

  function Reverse(s: seq<int>): (r: seq<int>)
    ensures |r| == |s|
    ensures forall k :: 0 <= k < |s| ==> r[k] == s[|s| - 1 - k]
    decreases |s|
  {
    if |s| == 0 then [] else Reverse(s[1..]) + [s[0]]
  }

  /** Reversing an increasing list gives a decreasing one with the same members. */
  lemma ReverseIncreasing(s: seq<int>)
    requires Increasing(s)
    ensures Decreasing(Reverse(s))
    ensures forall y :: y in Reverse(s) <==> y in s
  {
    var r := Reverse(s);
    forall y ensures y in r <==> y in s {
      if y in r { var k :| 0 <= k < |r| && r[k] == y; assert s[|s| - 1 - k] == y; }
      if y in s { var k :| 0 <= k < |s| && s[k] == y; assert r[|s| - 1 - k] == y; }
    }
  }

  /** sorted(years, reverse=True) of the export script: the same years, newest first. */
  lemma NewestFirst(given: Option<seq<int>>, lo: int, hi: int)
    ensures Decreasing(Reverse(SelectYears(given, lo, hi)))
    ensures forall y :: y in Reverse(SelectYears(given, lo, hi)) <==>
      lo <= y <= hi && (given.None? || y in given.value)
  {
    SelectYearsSpec(given, lo, hi);
    ReverseIncreasing(SelectYears(given, lo, hi));
  }

  // ---------------------------------------------------------------------------
  // states

  /** The list every field script substitutes for 'ALL' (no Alabama shapefile). */
  const AllStates: seq<string> := [
    "AZ", "AR", "CA", "CO", "CT", "DE", "FL", "GA", "ID", "IL", "IN", "IA",
    "KS", "KY", "LA", "ME", "MD", "MA", "MI", "MN", "MS", "MO", "MT",
    "NC", "ND", "NE", "NH", "NJ", "NM", "NV", "NY", "OH", "OK", "OR", "PA",
    "RI", "SC", "SD", "TN", "TX", "UT", "VA", "VT", "WA", "WI", "WV", "WY"
  ]

  /** The list the bad-value repair script substitutes for 'ALL'. */
  const ReplaceStates: seq<string> := ["CO", "NM", "MX"]

  /** y.strip() for x in args for y in x.split(','), keeping or dropping the empty pieces. */
  function Pieces(args: seq<string>, dropEmpty: bool): (r: seq<string>)
    decreases |args|
  {
    if |args| == 0 then []
    else StrippedPieces(Split(args[0], ','), dropEmpty) + Pieces(args[1..], dropEmpty)
  }

  function StrippedPieces(parts: seq<string>, dropEmpty: bool): seq<string>
    decreases |parts|
  {
    if |parts| == 0 then []
    else
      var p := Strip(parts[0]);
      (if dropEmpty && p == "" then [] else [p]) + StrippedPieces(parts[1..], dropEmpty)
  }

  /**
   * The state list: exactly ['ALL'] becomes the script's own list, anything else is
   * split on commas, stripped, emptied pieces dropped, deduplicated and sorted.
   */
  function ParseStates(args: seq<string>, all: seq<string>): (r: seq<string>)
    ensures args == ["ALL"] ==> r == all
    ensures args != ["ALL"] ==> StrictlySorted(r) && "" !in r
    ensures args != ["ALL"] ==> forall s :: s in r <==> s in Pieces(args, true)
  {
    if args == ["ALL"] then all
    else
      NoEmptyPiece(args);
      SortedSet(Pieces(args, true))
  }

  lemma {:induction false} NoEmptyPiece(args: seq<string>)
    ensures "" !in Pieces(args, true)
    decreases |args|
  {
    if |args| > 0 {
      NoEmptyStripped(Split(args[0], ','));
      NoEmptyPiece(args[1..]);
    }
  }

  lemma {:induction false} NoEmptyStripped(parts: seq<string>)
    ensures "" !in StrippedPieces(parts, true)
    decreases |parts|
  {
    if |parts| > 0 { NoEmptyStripped(parts[1..]); }
  }

  /** Every piece is stripped: it neither starts nor ends with white space. */
  lemma {:induction false} PiecesStripped(args: seq<string>, dropEmpty: bool)
    ensures forall p :: p in Pieces(args, dropEmpty) ==>
      |p| == 0 || (!IsSpace(p[0]) && !IsSpace(p[|p| - 1]))
    decreases |args|
  {
    if |args| > 0 {
      StrippedPiecesStripped(Split(args[0], ','), dropEmpty);
      PiecesStripped(args[1..], dropEmpty);
    }
  }

  lemma {:induction false} StrippedPiecesStripped(parts: seq<string>, dropEmpty: bool)
    ensures forall p :: p in StrippedPieces(parts, dropEmpty) ==>
      |p| == 0 || (!IsSpace(p[0]) && !IsSpace(p[|p| - 1]))
    decreases |parts|
  {
    if |parts| > 0 {
      StripEnds(parts[0]);
      StrippedPiecesStripped(parts[1..], dropEmpty);
    }
  }

  // ---------------------------------------------------------------------------
  // MGRS tiles and study-area features

  /**
   * The tile list of the MGRS scripts: split, stripped and sorted, but neither
   * deduplicated nor cleared of empty pieces.
   */
  function ParseTiles(args: seq<string>): (r: seq<string>)
    ensures multiset(r) == multiset(Pieces(args, false))
    ensures SortedBy(r, Identity)
  {
    Sort(Pieces(args, false))
  }

  /** The 49 STUSPS codes that 'CONUS' stands for (no AK, HI or territories; DC kept). */
  function ConusStates(): seq<string> {
    [
    "AL", "AR", "AZ", "CA", "CO", "CT", "DC", "DE", "FL", "GA",
    "IA", "ID", "IL", "IN", "KS", "KY", "LA", "MA", "MD", "ME",
    "MI", "MN", "MO", "MS", "MT", "NC", "ND", "NE", "NH", "NJ",
    "NM", "NV", "NY", "OH", "OK", "OR", "PA", "RI", "SC", "SD",
    "TN", "TX", "UT", "VA", "VT", "WA", "WI", "WV", "WY"]
  }

  predicate AsksForConus(features: seq<string>) {
    exists k :: 0 <= k < |features| && Upper(features[k]) == "CONUS"
  }

  /** The study-area features after the 'CONUS' expansion, before deduplication. */
  function ExpandConus(property: string, features: seq<string>): seq<string>
  {
    if property == "STUSPS" && AsksForConus(features) then ConusStates() else features
  }

  /**
   * The study-area feature list: with the STUSPS property, a 'CONUS' entry (in any
   * case) replaces the list by the 49 codes; the list is then deduplicated and sorted.
   */
  function StudyAreaFeatures(property: string, features: seq<string>): (r: seq<string>)
    ensures StrictlySorted(r)
    ensures forall s :: s in r <==> s in ExpandConus(property, features)
  {
    SortedSet(ExpandConus(property, features))
  }
}

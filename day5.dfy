/** Ingredient freshness (src/day5.rs): an inventory of inclusive id ranges and
    of item ids; an item is fresh when some range holds it, and the ranges are
    merged pairwise until no two overlap to count the ids they cover. */
module Day5 {
  import opened Text
  import opened Ranges

  /** Some range of the list holds x (`ranges.iter().any(|range| range.contains(x))`). */
  predicate AnyContains(ranges: seq<Range>, x: nat) {
    exists k :: 0 <= k < |ranges| && Contains(ranges[k], x)
  }

  /** The number of items, with repeats, that some range holds. */
  function CountFresh(ranges: seq<Range>, items: seq<nat>): (n: nat)
    ensures n <= |items|
  {
    if items == [] then 0
    else (if AnyContains(ranges, items[0]) then 1 else 0) + CountFresh(ranges, items[1..])
  }

  /** The positions of the fresh items. */
  function FreshPositions(ranges: seq<Range>, items: seq<nat>): set<nat> {
    set i: nat | i < |items| && AnyContains(ranges, items[i])
  }

  /** The count is the number of positions whose item is fresh. */
  lemma {:induction false} CountFreshIsPositions(ranges: seq<Range>, items: seq<nat>)
    ensures CountFresh(ranges, items) == |FreshPositions(ranges, items)|
  {
    if items != [] {
      var rest := FreshPositions(ranges, items[1..]);
      CountFreshIsPositions(ranges, items[1..]);
      ShiftCard(rest);
      FreshPositionsCons(ranges, items);
      var head: set<nat> := if AnyContains(ranges, items[0]) then {0} else {};
      assert |head + Shift(rest)| == |head| + |Shift(rest)|;
    }
  }

  /** The fresh positions of a list: its head's, then those of its tail moved up by one. */
  lemma FreshPositionsCons(ranges: seq<Range>, items: seq<nat>)
    requires items != []
    ensures FreshPositions(ranges, items)
            == (if AnyContains(ranges, items[0]) then {0} else {}) + Shift(FreshPositions(ranges, items[1..]))
  {
    var all, rest := FreshPositions(ranges, items), FreshPositions(ranges, items[1..]);
    forall i: nat | i in all && i > 0 ensures i in Shift(rest) {
      assert items[1..][i - 1] == items[i];
      assert i - 1 in rest;
    }
    forall i: nat | i in Shift(rest) ensures i in all {
      assert items[1..][i - 1] == items[i];
    }
  }

  /** Every element of a set moved up by one. */
  function Shift(s: set<nat>): set<nat> {
    set i: nat | i in s :: i + 1
  }

  /** Moving up keeps the size and never yields 0. */
  lemma {:induction false} ShiftCard(s: set<nat>)
    ensures |Shift(s)| == |s| && 0 !in Shift(s)
    decreases |s|
  {
    if s != {} {
      var m :| m in s;
      ShiftCard(s - {m});
      var all, others := Shift(s), Shift(s - {m});
      forall y | y in all ensures y in others + {m + 1} {
        var i: nat :| i in s && y == i + 1;
        if i != m {
          assert i in s - {m};
        }
      }
      assert all == others + {m + 1};
      assert m + 1 !in others;
    }
  }

  /** Two range lists that cover the same ids find the same items fresh. */
  lemma {:induction false} CountFreshSameCover(a: seq<Range>, b: seq<Range>, items: seq<nat>)
    requires forall x :: AnyContains(a, x) <==> AnyContains(b, x)
    ensures CountFresh(a, items) == CountFresh(b, items)
  {
    if items != [] {
      CountFreshSameCover(a, b, items[1..]);
    }
  }

  /** `r1.contains(r2.start()) || r1.contains(r2.end())`: the test `compact` uses
      for two ranges to overlap. */
  predicate Touches(r1: Range, r2: Range) {
    Contains(r1, r2.start) || Contains(r1, r2.end)
  }

  /** The smallest range from the lower start to the higher end. */
  function Hull(r1: Range, r2: Range): (h: Range)
    ensures h.start <= r1.start && h.start <= r2.start && h.end >= r1.end && h.end >= r2.end
  {
    Range(if r1.start <= r2.start then r1.start else r2.start,
          if r1.end >= r2.end then r1.end else r2.end)
  }

  /** `Vec::retain(|r| r != r1 && r != r2)`: every range equal to neither, in order. */
  function Retain(ranges: seq<Range>, r1: Range, r2: Range): (kept: seq<Range>)
    ensures |kept| <= |ranges|
    ensures forall r :: r in kept <==> r in ranges && r != r1 && r != r2
  {
    if ranges == [] then []
    else if ranges[0] != r1 && ranges[0] != r2 then [ranges[0]] + Retain(ranges[1..], r1, r2)
    else Retain(ranges[1..], r1, r2)
  }

  /** Removing the ranges equal to those at two different positions drops at
      least two elements. */
  lemma {:induction false} RetainDropsTwo(ranges: seq<Range>, i: nat, j: nat)
    requires i < j < |ranges|
    ensures |Retain(ranges, ranges[i], ranges[j])| + 2 <= |ranges|
  {
    var r1, r2 := ranges[i], ranges[j];
    if i == 0 {
      RetainDropsOne(ranges[1..], r1, r2, j - 1);
    } else {
      assert ranges[1..][i - 1] == r1 && ranges[1..][j - 1] == r2;
      RetainDropsTwo(ranges[1..], i - 1, j - 1);
    }
  }

  lemma {:induction false} RetainDropsOne(ranges: seq<Range>, r1: Range, r2: Range, j: nat)
    requires j < |ranges| && (ranges[j] == r1 || ranges[j] == r2)
    ensures |Retain(ranges, r1, r2)| + 1 <= |ranges|
  {
    if j > 0 {
      assert ranges[1..][j - 1] == ranges[j];
      RetainDropsOne(ranges[1..], r1, r2, j - 1);
    }
  }

  /** What `compact` leaves when the ranges at i1 and i2 overlap: every range equal
      to either removed and their hull appended. */
  function Merge(ranges: seq<Range>, i1: nat, i2: nat): seq<Range>
    requires i1 < |ranges| && i2 < |ranges|
  {
    Retain(ranges, ranges[i1], ranges[i2]) + [Hull(ranges[i1], ranges[i2])]
  }

  /** A merge shortens the list. */
  lemma MergeShorter(ranges: seq<Range>, i1: nat, i2: nat)
    requires i1 < |ranges| && i2 < |ranges| && i1 != i2
    ensures |Merge(ranges, i1, i2)| < |ranges|
  {
    if i1 < i2 {
      RetainDropsTwo(ranges, i1, i2);
    } else {
      RetainDropsTwo(ranges, i2, i1);
      assert Retain(ranges, ranges[i1], ranges[i2]) == Retain(ranges, ranges[i2], ranges[i1]) by {
        RetainSymmetric(ranges, ranges[i1], ranges[i2]);
      }
    }
  }

  lemma {:induction false} RetainSymmetric(ranges: seq<Range>, r1: Range, r2: Range)
    ensures Retain(ranges, r1, r2) == Retain(ranges, r2, r1)
  {
    if ranges != [] {
      RetainSymmetric(ranges[1..], r1, r2);
    }
  }

  /** No range is empty by having its start after its end. */
  predicate WellFormed(ranges: seq<Range>) {
    forall k :: 0 <= k < |ranges| ==> ranges[k].start <= ranges[k].end
  }

  /** No two ranges at different positions overlap by the `compact` test. */
  predicate NoOverlap(ranges: seq<Range>) {
    forall i, j :: 0 <= i < |ranges| && 0 <= j < |ranges| && i != j ==> !Touches(ranges[i], ranges[j])
  }

  /** The hull of two overlapping well-formed ranges covers what they cover and
      nothing else. */
  lemma HullCovers(r1: Range, r2: Range, x: nat)
    requires r1.start <= r1.end && r2.start <= r2.end && Touches(r1, r2)
    ensures Contains(Hull(r1, r2), x) <==> Contains(r1, x) || Contains(r2, x)
  {}

  /** Merging two overlapping well-formed ranges keeps the list well formed and
      the ids it covers. */
  lemma MergeCovers(ranges: seq<Range>, i1: nat, i2: nat)
    requires i1 < |ranges| && i2 < |ranges| && Touches(ranges[i1], ranges[i2]) && WellFormed(ranges)
    ensures WellFormed(Merge(ranges, i1, i2))
    ensures forall x :: AnyContains(Merge(ranges, i1, i2), x) <==> AnyContains(ranges, x)
  {
    var r1, r2 := ranges[i1], ranges[i2];
    var merged := Merge(ranges, i1, i2);
    var kept := Retain(ranges, r1, r2);
    var n := |merged| - 1;
    assert merged[n] == Hull(r1, r2);
    forall k | 0 <= k < |merged| ensures merged[k].start <= merged[k].end {
      if k < n {
        assert merged[k] in kept;
      }
    }
    forall x ensures AnyContains(merged, x) <==> AnyContains(ranges, x) {
      HullCovers(r1, r2, x);
      if AnyContains(ranges, x) {
        var k :| 0 <= k < |ranges| && Contains(ranges[k], x);
        if ranges[k] == r1 || ranges[k] == r2 {
          assert Contains(merged[n], x);
        } else {
          assert ranges[k] in kept;
          var m :| 0 <= m < |kept| && kept[m] == ranges[k];
          assert merged[m] == ranges[k];
        }
      }
      if AnyContains(merged, x) {
        var k :| 0 <= k < |merged| && Contains(merged[k], x);
        if k == n {
          assert Contains(ranges[i1], x) || Contains(ranges[i2], x);
        } else {
          assert merged[k] in ranges;
          var m :| 0 <= m < |ranges| && ranges[m] == merged[k];
        }
      }
    }
  }

  /** No pair before (i1, i2), taking pairs row by row, overlaps. */
  predicate NoTouchBefore(ranges: seq<Range>, i1: nat, i2: nat) {
    forall a, b :: 0 <= a < |ranges| && 0 <= b < |ranges| && a != b && (a < i1 || (a == i1 && b < i2))
                   ==> !Touches(ranges[a], ranges[b])
  }

  /** The ids that some range covers. */
  function Union(ranges: seq<Range>): set<nat> {
    if ranges == [] then {} else Members(ranges[0]) + Union(ranges[1..])
  }

  lemma {:induction false} UnionIsCover(ranges: seq<Range>)
    ensures forall x :: x in Union(ranges) <==> AnyContains(ranges, x)
  {
    if ranges != [] {
      UnionIsCover(ranges[1..]);
      CountIsMembers(ranges[0]);
      forall x ensures x in Union(ranges) <==> AnyContains(ranges, x) {
        if AnyContains(ranges, x) {
          var k :| 0 <= k < |ranges| && Contains(ranges[k], x);
          if k > 0 {
            assert ranges[1..][k - 1] == ranges[k];
          }
        }
        if AnyContains(ranges[1..], x) {
          var k :| 0 <= k < |ranges[1..]| && Contains(ranges[1..][k], x);
          assert ranges[k + 1] == ranges[1..][k];
        }
      }
    }
  }

  /** `ranges.iter().map(|r| r.count()).sum()`. */
  function SumCounts(ranges: seq<Range>): nat {
    if ranges == [] then 0 else Count(ranges[0]) + SumCounts(ranges[1..])
  }

  /** No id lies in two ranges at different positions. */
  predicate Disjoint(ranges: seq<Range>) {
    forall i, j :: 0 <= i < |ranges| && 0 <= j < |ranges| && i != j ==> Members(ranges[i]) !! Members(ranges[j])
  }

  /** When no two ranges overlap by the `compact` test no id lies in two of them:
      of two ranges sharing an id, the later start lies in the other range. */
  lemma NoOverlapIsDisjoint(ranges: seq<Range>)
    requires NoOverlap(ranges)
    ensures Disjoint(ranges)
  {
    forall i, j | 0 <= i < |ranges| && 0 <= j < |ranges| && i != j
      ensures Members(ranges[i]) !! Members(ranges[j])
    {
      CountIsMembers(ranges[i]);
      CountIsMembers(ranges[j]);
    }
  }

  /** For ranges that share no id, the sum of the counts is the number of ids
      covered. */
  lemma {:induction false} SumCountsIsUnion(ranges: seq<Range>)
    requires Disjoint(ranges)
    ensures SumCounts(ranges) == |Union(ranges)|
  {
    if ranges != [] {
      var rest := ranges[1..];
      assert Disjoint(rest) by {
        forall i, j | 0 <= i < |rest| && 0 <= j < |rest| && i != j
          ensures Members(rest[i]) !! Members(rest[j])
        {
          assert rest[i] == ranges[i + 1] && rest[j] == ranges[j + 1];
        }
      }
      SumCountsIsUnion(rest);
      CountIsMembers(ranges[0]);
      UnionIsCover(rest);
      assert Members(ranges[0]) !! Union(rest);
    }
  }

  const InvalidInventory := "Invalid inventory input"

  function RangeLineError(line: string): string {
    "Invalid range line: " + line
  }

  function StartError(s: string, e: string): string {
    "Invalid start of range '" + s + "': " + e
  }

  function EndError(s: string, e: string): string {
    "Invalid end of range '" + s + "': " + e
  }

  function ItemError(line: string, e: string): string {
    "Invalid item '" + line + "': " + e
  }

  /** One line of the range section: "start-end", each side trimmed and parsed;
      the messages quote the side as written. */
  function ParseRangeLine(line: string): Result<Range> {
    match SplitOnce(line, "-")
    case None => Err(RangeLineError(line))
    case Some((s, e)) =>
      match ParseNat(Trim(s))
      case Err(err) => Err(StartError(s, err))
      case Ok(start) =>
        match ParseNat(Trim(e))
        case Err(err) => Err(EndError(e, err))
        case Ok(end) => Ok(Range(start, end))
  }

  /** A written range reads back as itself. */
  lemma ParseRangeLineShow(r: Range)
    ensures ParseRangeLine(ShowRange(r)) == Ok(r)
  {
    SplitShowRange(r);
    var a, b := ShowNat(r.start), ShowNat(r.end);
    TrimUnspaced(a);
    TrimUnspaced(b);
    ParseShowNat(r.start);
    ParseShowNat(r.end);
  }

  /** A line without '-' is refused as a whole. */
  lemma ParseRangeLineNoDash(line: string)
    requires '-' !in line
    ensures ParseRangeLine(line) == Err(RangeLineError(line))
  {
    SplitOnceChar(line, '-');
  }

  /** One line of the item section, trimmed and parsed. */
  function ParseItem(line: string): Result<nat> {
    match ParseNat(Trim(line))
    case Err(e) => Err(ItemError(line, e))
    case Ok(n) => Ok(n)
  }

  /** The `for line in first.lines()` loop of `from_str`: the ranges in order, or
      the error of the first line that fails. */
  method ParseRanges(lines: seq<string>) returns (r: Result<seq<Range>>)
    ensures r == CollectAll(lines, ParseRangeLine)
  {
    var ranges: seq<Range> := [];
    for k := 0 to |lines|
      invariant CollectAll(lines[..k], ParseRangeLine) == Ok(ranges)
    {
      var parsed := ParseRangeLine(lines[k]);
      if parsed.Err? {
        CollectAllFirstErr(lines, k, ParseRangeLine);
        return Err(parsed.error);
      }
      CollectAllStep(lines, k, ParseRangeLine);
      ranges := ranges + [parsed.value];
    }
    assert lines[..|lines|] == lines;
    return Ok(ranges);
  }

  class Inventory {
    var ranges: seq<Range>
    var items: seq<nat>

    constructor (ranges: seq<Range>, items: seq<nat>)
      ensures this.ranges == ranges && this.items == items
    {
      this.ranges := ranges;
      this.items := items;
    }

    /** `Inventory::from_str`: the text before the first blank line holds the
        ranges, one per line, and the text after it the items. */
    static method FromStr(input: string) returns (r: Result<Inventory>)
      ensures SplitOnce(input, "\n\n").None? ==> r == Err(InvalidInventory)
      ensures SplitOnce(input, "\n\n").Some? ==>
                var (first, last) := SplitOnce(input, "\n\n").value;
                match CollectAll(Lines(first), ParseRangeLine)
                case Err(e) => r == Err(e)
                case Ok(ranges) =>
                  match CollectAll(Lines(last), ParseItem)
                  case Err(e) => r == Err(e)
                  case Ok(items) => r.Ok? && fresh(r.value) && r.value.ranges == ranges && r.value.items == items
    {
      match SplitOnce(input, "\n\n")
      case None =>
        return Err(InvalidInventory);
      case Some((first, last)) =>
        var ranges := ParseRanges(Lines(first));
        if ranges.Err? {
          return Err(ranges.error);
        }
        match CollectAll(Lines(last), ParseItem)
        case Err(e) =>
          return Err(e);
        case Ok(items) =>
          var inventory := new Inventory(ranges.value, items);
          return Ok(inventory);
    }

    /** `fresh_count`: the number of items, with repeats, that some range holds. */
    function FreshCount(): (n: nat)
      reads this
      ensures n == |FreshPositions(ranges, items)|
      ensures n <= |items|
    {
      CountFreshIsPositions(ranges, items);
      CountFresh(ranges, items)
    }

    /** `compact`: looks for the first pair of positions (row by row) whose ranges
        overlap; merges them and reports true, or reports false and changes
        nothing. */
    method Compact() returns (changed: bool)
      modifies this
      ensures items == old(items)
      ensures !changed ==> ranges == old(ranges) && NoOverlap(ranges)
      ensures changed ==> exists i1, i2 :: 0 <= i1 < |old(ranges)| && 0 <= i2 < |old(ranges)| && i1 != i2
                                           && Touches(old(ranges)[i1], old(ranges)[i2])
                                           && NoTouchBefore(old(ranges), i1, i2)
                                           && ranges == Merge(old(ranges), i1, i2)
      ensures changed ==> |ranges| < |old(ranges)|
    {
      var snapshot := ranges;
      for i1 := 0 to |snapshot|
        invariant ranges == snapshot == old(ranges) && items == old(items)
        invariant NoTouchBefore(snapshot, i1, 0)
      {
        var r1 := snapshot[i1];
        for i2 := 0 to |snapshot|
          invariant ranges == snapshot && items == old(items)
          invariant NoTouchBefore(snapshot, i1, i2)
        {
          if i1 == i2 {
            continue;
          }
          var r2 := snapshot[i2];
          if Contains(r1, r2.start) || Contains(r1, r2.end) {
            MergeShorter(snapshot, i1, i2);
            ranges := Retain(ranges, r1, r2) + [Hull(r1, r2)];
            return true;
          }
        }
      }
      return false;
    }

    /** `max_compact`: merges until no two ranges overlap. */
    method MaxCompact()
      modifies this
      ensures items == old(items)
      ensures NoOverlap(ranges) && Disjoint(ranges)
      ensures |ranges| <= |old(ranges)|
      ensures WellFormed(old(ranges)) ==> WellFormed(ranges)
                                          && forall x :: AnyContains(ranges, x) <==> AnyContains(old(ranges), x)
    {
      while true
        invariant items == old(items)
        invariant |ranges| <= |old(ranges)|
        invariant WellFormed(old(ranges)) ==> WellFormed(ranges)
                                              && forall x :: AnyContains(ranges, x) <==> AnyContains(old(ranges), x)
        decreases |ranges|
      {
        ghost var before := ranges;
        var changed := Compact();
        if !changed {
          break;
        }
        ghost var i1, i2 :| 0 <= i1 < |before| && 0 <= i2 < |before| && i1 != i2
                             && Touches(before[i1], before[i2]) && ranges == Merge(before, i1, i2);
        if WellFormed(before) {
          MergeCovers(before, i1, i2);
        }
      }
      NoOverlapIsDisjoint(ranges);
    }

    /** `possible_fresh_count`: compacts the ranges, then adds up their sizes; this
        is the number of ids the ranges cover, and for well-formed ranges the number
        the original ranges covered. The table is left compacted (no two ranges
        touch, none added, for well-formed ranges the same ids covered) and the
        fresh items are unchanged. */
    method PossibleFreshCount() returns (n: nat)
      modifies this
      ensures n == |Union(ranges)|
      ensures items == old(items)
      ensures NoOverlap(ranges) && |ranges| <= |old(ranges)|
      ensures WellFormed(old(ranges)) ==> forall x :: AnyContains(ranges, x) <==> AnyContains(old(ranges), x)
      ensures WellFormed(old(ranges)) ==> n == |Union(old(ranges))| && FreshCount() == old(FreshCount())
    {
      MaxCompact();
      SumCountsIsUnion(ranges);
      n := SumCounts(ranges);
      if WellFormed(old(ranges)) {
        UnionIsCover(ranges);
        UnionIsCover(old(ranges));
        assert Union(ranges) == Union(old(ranges));
        CountFreshSameCover(ranges, old(ranges), items);
      }
    }
  }

  /** The inventory of the worked example (src/day5.rs:4-14). */
  const ExampleRanges: seq<Range> := [Range(3, 5), Range(10, 14), Range(16, 20), Range(12, 18)]
  const ExampleItems: seq<nat> := [1, 5, 8, 11, 17, 32]

  /** On the worked example `fresh_count` is 3: items 5, 11 and 17. */
  lemma ExampleFreshCount()
    ensures CountFresh(ExampleRanges, ExampleItems) == 3
  {
    var r := ExampleRanges;
    assert !AnyContains(r, 1);
    assert AnyContains(r, 5) by { assert Contains(r[0], 5); }
    assert !AnyContains(r, 8);
    assert AnyContains(r, 11) by { assert Contains(r[1], 11); }
    assert AnyContains(r, 17) by { assert Contains(r[2], 17); }
    assert !AnyContains(r, 32);
  }

  /** The example's ranges hold exactly the ids of 3-5 and 10-20. */
  lemma ExampleCover(x: nat)
    ensures AnyContains(ExampleRanges, x) <==> AnyContains([Range(3, 5), Range(10, 20)], x)
  {
    var r, merged := ExampleRanges, [Range(3, 5), Range(10, 20)];
    if 3 <= x <= 5 {
      assert Contains(merged[0], x) && Contains(r[0], x);
    } else if 10 <= x <= 20 {
      assert Contains(merged[1], x);
      if x <= 14 {
        assert Contains(r[1], x);
      } else if x <= 18 {
        assert Contains(r[3], x);
      } else {
        assert Contains(r[2], x);
      }
    }
  }

  /** The example's ranges are well formed and cover 14 ids, so `possible_fresh_count`
      returns 14 on it. */
  lemma ExampleCoveredIds()
    ensures WellFormed(ExampleRanges)
    ensures |Union(ExampleRanges)| == 14
  {
    assert WellFormed(ExampleRanges);
    var merged := [Range(3, 5), Range(10, 20)];
    UnionIsCover(ExampleRanges);
    UnionIsCover(merged);
    forall x ensures x in Union(ExampleRanges) <==> x in Union(merged) {
      ExampleCover(x);
    }
    assert Union(ExampleRanges) == Union(merged);
    NoOverlapIsDisjoint(merged);
    SumCountsIsUnion(merged);
  }
}

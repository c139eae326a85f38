/** Inclusive ranges of ids (`RangeInclusive<usize>`), shared by the id ranges of
    src/day2.rs and the freshness ranges of src/day5.rs. */
module Ranges {
  import opened Text

  datatype Range = Range(start: nat, end: nat)

  /** `RangeInclusive::contains`. */
  predicate Contains(r: Range, x: nat) {
    r.start <= x <= r.end
  }

  /** The integers the range covers. */
  function Members(r: Range): set<nat> {
    set x: nat | x <= r.end && Contains(r, x)
  }

  /** `RangeInclusive::count`: the number of integers covered; a range whose start
      lies past its end is empty. */
  function Count(r: Range): nat {
    if r.start <= r.end then r.end - r.start + 1 else 0
  }

  /** The count is the number of members. */
  lemma {:induction false} CountIsMembers(r: Range)
    ensures |Members(r)| == Count(r)
    ensures forall x :: x in Members(r) <==> Contains(r, x)
    decreases if r.start <= r.end then r.end - r.start + 1 else 0
  {
    if r.start < r.end {
      var shorter := Range(r.start, r.end - 1);
      CountIsMembers(shorter);
      assert Members(r) == Members(shorter) + {r.end};
    } else if r.start == r.end {
      assert Members(r) == {r.start};
    } else {
      assert Members(r) == {};
    }
  }

  /** The text a range is written as, "start-end". */
  function ShowRange(r: Range): string {
    ShowNat(r.start) + "-" + ShowNat(r.end)
  }

  /** A written range splits at its '-' into the two numbers. */
  lemma SplitShowRange(r: Range)
    ensures SplitOnce(ShowRange(r), "-") == Some((ShowNat(r.start), ShowNat(r.end)))
  {
    var a, b := ShowNat(r.start), ShowNat(r.end);
    var s := ShowRange(r);
    assert s[..|a|] == a && s[|a| + 1..] == b && s[|a|] == '-';
    assert FindChar(s, '-') == Some(|a|) by {
      assert forall k :: 0 <= k < |a| ==> s[k] == a[k];
    }
    SplitOnceChar(s, '-');
  }
}

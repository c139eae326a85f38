/** Battery banks (src/day3.rs): a bank is a line of digits, and its power for a
    given number of batteries is the largest number written by that many of its
    digits taken in their original order. */
module Day3 {
  import opened Decimal
  import opened Text

  datatype Powerbank = Powerbank(digits: seq<Digit>)

  /** `Powerbank::try_from`: every character of the trimmed line must be a digit. */
  function ParseBank(input: string): (r: Result<Powerbank>)
    ensures r.Ok? <==> forall i :: 0 <= i < |Trim(input)| ==> IsDigitChar(Trim(input)[i])
    ensures r.Ok? ==> |r.value.digits| == |Trim(input)|
                      && forall i :: 0 <= i < |Trim(input)| ==> r.value.digits[i] == DigitValue(Trim(input)[i])
    ensures r.Err? ==> exists i :: 0 <= i < |Trim(input)| && !IsDigitChar(Trim(input)[i])
                                   && (forall j :: 0 <= j < i ==> IsDigitChar(Trim(input)[j]))
                                   && r.error == InvalidCharMessage(Trim(input)[i])
  {
    ParseDigits(Trim(input))
  }

  function InvalidCharMessage(c: char): string {
    "Invalid character in powerbank input: " + [c]
  }

  /** The character-by-character conversion, stopping at the first non-digit. */
  function ParseDigits(s: string): (r: Result<Powerbank>)
    ensures r.Ok? <==> forall i :: 0 <= i < |s| ==> IsDigitChar(s[i])
    ensures r.Ok? ==> |r.value.digits| == |s| && forall i :: 0 <= i < |s| ==> r.value.digits[i] == DigitValue(s[i])
    ensures r.Err? ==> exists i :: 0 <= i < |s| && !IsDigitChar(s[i])
                                   && (forall j :: 0 <= j < i ==> IsDigitChar(s[j]))
                                   && r.error == InvalidCharMessage(s[i])
  {
    match CollectAll(s, ParseDigitChar)
    case Err(e) => Err(e)
    case Ok(ds) => Ok(Powerbank(ds))
  }

  /** `c.to_digit(10)`, failing with the message for c. */
  function ParseDigitChar(c: char): (r: Result<Digit>)
    ensures r.Ok? <==> IsDigitChar(c)
    ensures r.Ok? ==> r.value == DigitValue(c)
    ensures r.Err? ==> r.error == InvalidCharMessage(c)
  {
    if IsDigitChar(c) then Ok(DigitValue(c)) else Err(InvalidCharMessage(c))
  }

  /** The text a bank is written as. */
  function ShowBank(b: Powerbank): (s: string)
    ensures |s| == |b.digits|
  {
    seq(|b.digits|, i requires 0 <= i < |b.digits| => DigitChar(b.digits[i]))
  }

  /** Writing a bank out and parsing it back gives the same bank. */
  lemma ParseShowBank(b: Powerbank)
    ensures ParseBank(ShowBank(b)) == Ok(b)
  {
    var s := ShowBank(b);
    if s != [] {
      assert !IsSpace(s[0]) && !IsSpace(s[|s| - 1]);
    }
    assert TrimStart(s) == s;
    assert Trim(s) == s;
    var r := ParseDigits(s);
    assert r.Ok?;
    assert r.value.digits == b.digits;
  }

  /** One line of the input: `line.trim().try_into()`. */
  function ParseLine(line: string): Result<Powerbank> {
    ParseBank(Trim(line))
  }

  /** `Powerbank::read_list`: one bank per line; the first bad line fails the whole list. */
  function ReadList(input: string): (r: Result<seq<Powerbank>>)
    ensures r.Ok? <==> forall i :: 0 <= i < |Lines(input)| ==> ParseLine(Lines(input)[i]).Ok?
    ensures r.Ok? ==> |r.value| == |Lines(input)|
                      && forall i :: 0 <= i < |r.value| ==> r.value[i] == ParseLine(Lines(input)[i]).value
    ensures r.Err? ==> exists i :: 0 <= i < |Lines(input)| && ParseLine(Lines(input)[i]) == Err(r.error)
                                   && forall j :: 0 <= j < i ==> ParseLine(Lines(input)[j]).Ok?
  {
    var lines := Lines(input);
    assert |lines| == |Lines(input)|;
    CollectAll(lines, ParseLine)
  }

  /** Index of the largest digit of d[lo..hi], the earliest one on ties (the
      `max_by_key` on `(digit, -index)`). */
  function ArgMaxEarliest(d: seq<Digit>, lo: nat, hi: nat): (m: nat)
    requires lo < hi <= |d|
    ensures lo <= m < hi
    decreases hi - lo
  {
    if lo + 1 == hi then lo
    else
      var m := ArgMaxEarliest(d, lo + 1, hi);
      if d[lo] >= d[m] then lo else m
  }

  /** `ArgMaxEarliest` finds a largest digit, and every digit before it is smaller. */
  lemma {:induction false} ArgMaxEarliestIsMax(d: seq<Digit>, lo: nat, hi: nat)
    requires lo < hi <= |d|
    ensures forall k :: lo <= k < hi ==> d[k] <= d[ArgMaxEarliest(d, lo, hi)]
    ensures forall k :: lo <= k < ArgMaxEarliest(d, lo, hi) ==> d[k] < d[ArgMaxEarliest(d, lo, hi)]
    decreases hi - lo
  {
    if lo + 1 < hi {
      ArgMaxEarliestIsMax(d, lo + 1, hi);
    }
  }

  /** Index of the largest digit of d[lo..hi], the latest one on ties (the plain
      `max_by_key` on the digit, which keeps the last maximum). */
  function ArgMaxLatest(d: seq<Digit>, lo: nat, hi: nat): (m: nat)
    requires lo < hi <= |d|
    ensures lo <= m < hi
    decreases hi - lo
  {
    if lo + 1 == hi then lo
    else
      var m := ArgMaxLatest(d, lo, hi - 1);
      if d[hi - 1] >= d[m] then hi - 1 else m
  }

  /** `ArgMaxLatest` finds a largest digit, and every digit after it is smaller. */
  lemma {:induction false} ArgMaxLatestIsMax(d: seq<Digit>, lo: nat, hi: nat)
    requires lo < hi <= |d|
    ensures forall k :: lo <= k < hi ==> d[k] <= d[ArgMaxLatest(d, lo, hi)]
    ensures forall k :: ArgMaxLatest(d, lo, hi) < k < hi ==> d[k] < d[ArgMaxLatest(d, lo, hi)]
    decreases hi - lo
  {
    if lo + 1 < hi {
      ArgMaxLatestIsMax(d, lo, hi - 1);
    }
  }

  const TooSmall := "Power bank is not big enough"

  /** `max_power`: the left digit is the earliest largest digit before the last
      position, the right digit the largest digit after it. The source panics on a
      bank of fewer than two digits; here that is an error. */
  function MaxPower(b: Powerbank): (r: Result<nat>)
    ensures r.Ok? <==> |b.digits| >= 2
    ensures r.Err? ==> r.error == TooSmall
    ensures r.Ok? ==> r.value < 100
  {
    var d := b.digits;
    if |d| < 2 then Err(TooSmall)
    else
      var left := ArgMaxEarliest(d, 0, |d| - 1);
      var right := ArgMaxLatest(d, left + 1, |d|);
      Ok(10 * (d[left] as nat) + d[right])
  }

  /** The two-digit power is the largest `10 * d[i] + d[j]` over all pairs `i < j`,
      and is the value of one such pair. */
  lemma MaxPowerIsBestPair(b: Powerbank)
    requires |b.digits| >= 2
    ensures forall i, j :: 0 <= i < j < |b.digits| ==> 10 * (b.digits[i] as nat) + b.digits[j] <= MaxPower(b).value
    ensures exists i, j :: 0 <= i < j < |b.digits| && MaxPower(b).value == 10 * (b.digits[i] as nat) + b.digits[j]
  {
    var d := b.digits;
    var left := ArgMaxEarliest(d, 0, |d| - 1);
    var right := ArgMaxLatest(d, left + 1, |d|);
    ArgMaxEarliestIsMax(d, 0, |d| - 1);
    ArgMaxLatestIsMax(d, left + 1, |d|);
    assert MaxPower(b).value == 10 * (d[left] as nat) + d[right];
    PairIsBest(d, left, right);
  }

  /** A pair whose left digit is the earliest largest one before the last position
      and whose right digit is a largest one after it beats every other pair. */
  lemma PairIsBest(d: seq<Digit>, left: nat, right: nat)
    requires left < right < |d|
    requires forall k :: 0 <= k < |d| - 1 ==> d[k] <= d[left]
    requires forall k :: 0 <= k < left ==> d[k] < d[left]
    requires forall k :: left + 1 <= k < |d| ==> d[k] <= d[right]
    ensures forall i, j :: 0 <= i < j < |d| ==> 10 * (d[i] as nat) + d[j] <= 10 * (d[left] as nat) + d[right]
  {
    forall i, j | 0 <= i < j < |d| ensures 10 * (d[i] as nat) + d[j] <= 10 * (d[left] as nat) + d[right] {
      assert d[i] <= d[left];
      if d[i] == d[left] {
        assert left <= i;
        assert d[j] <= d[right];
      }
    }
  }

  /** Each index is below the next one. */
  predicate Increasing(sel: seq<nat>)
    decreases |sel|
  {
    |sel| <= 1 || (sel[0] < sel[1] && Increasing(sel[1..]))
  }

  /** `Increasing` is the usual "strictly increasing": every earlier index is
      below every later one. */
  lemma {:induction false} IncreasingIff(sel: seq<nat>)
    ensures Increasing(sel) <==> forall a, b :: 0 <= a < b < |sel| ==> sel[a] < sel[b]
    decreases |sel|
  {
    if |sel| > 1 {
      IncreasingIff(sel[1..]);
      if Increasing(sel) {
        forall a, b | 0 <= a < b < |sel| ensures sel[a] < sel[b] {
          assert sel[b] == sel[1..][b - 1];
          if a > 0 {
            assert sel[a] == sel[1..][a - 1];
          } else if b > 1 {
            assert sel[1] < sel[b] by { assert sel[1] == sel[1..][0]; }
          }
        }
      } else if sel[0] < sel[1] {
        var a, b :| 0 <= a < b < |sel[1..]| && sel[1..][a] >= sel[1..][b];
        assert sel[a + 1] >= sel[b + 1];
      }
    }
  }

  /** Strictly increasing indices below n, k of them: a choice of k digits of a
      bank of length n, in their original order. */
  predicate IsSelection(n: nat, k: nat, sel: seq<nat>) {
    |sel| == k && (forall a :: 0 <= a < |sel| ==> sel[a] < n) && Increasing(sel)
  }

  /** The digits at the chosen indices. */
  function Picked(d: seq<Digit>, sel: seq<nat>): (p: seq<Digit>)
    requires forall a :: 0 <= a < |sel| ==> sel[a] < |d|
    ensures |p| == |sel|
    decreases |sel|
  {
    if sel == [] then [] else [d[sel[0]]] + Picked(d, sel[1..])
  }

  /** The number written by the chosen digits. */
  function SelValue(d: seq<Digit>, sel: seq<nat>): nat
    requires forall a :: 0 <= a < |sel| ==> sel[a] < |d|
  {
    Num(Picked(d, sel))
  }

  /** The indices `max_power_v2` picks when it must choose k digits from d[start..]:
      the earliest largest digit among those that leave at least k - 1 digits after
      it, then the remaining k - 1 choices after that index. */
  function GreedyPicks(d: seq<Digit>, start: nat, k: nat): (g: seq<nat>)
    requires start + k <= |d|
    ensures IsSelection(|d|, k, g)
    ensures g != [] ==> start <= g[0]
    decreases k
  {
    if k == 0 then []
    else
      var i := ArgMaxEarliest(d, start, |d| - (k - 1));
      var rest := GreedyPicks(d, i + 1, k - 1);
      assert ([i] + rest)[1..] == rest;
      [i] + rest
  }

  /** The value `max_power_v2` accumulates once `acc` holds the picks so far and k
      greedy picks from d[start..] remain. */
  function GreedyAccum(d: seq<Digit>, start: nat, k: nat, acc: nat): nat
    requires start + k <= |d|
    decreases k
  {
    if k == 0 then acc
    else
      var i := ArgMaxEarliest(d, start, |d| - (k - 1));
      GreedyAccum(d, i + 1, k - 1, acc * 10 + d[i])
  }

  /** Accumulating the greedy picks writes the accumulator followed by the number the
      picks write. */
  lemma {:induction false} GreedyAccumValue(d: seq<Digit>, start: nat, k: nat, acc: nat)
    requires start + k <= |d|
    ensures GreedyAccum(d, start, k, acc) == acc * Pow10(k) + SelValue(d, GreedyPicks(d, start, k))
    decreases k
  {
    if k > 0 {
      var i := ArgMaxEarliest(d, start, |d| - (k - 1));
      GreedyAccumValue(d, i + 1, k - 1, acc * 10 + d[i]);
      GreedyStep(d, start, k, acc, i);
    }
  }

  /** One round of `max_power_v2`: moving the greedy pick into the accumulator
      leaves the accumulator followed by the remaining picks unchanged. */
  lemma GreedyStep(d: seq<Digit>, start: nat, k: nat, acc: nat, i: nat)
    requires k >= 1 && start + k <= |d|
    requires i == ArgMaxEarliest(d, start, |d| - (k - 1))
    ensures (acc * 10 + d[i]) * Pow10(k - 1) + SelValue(d, GreedyPicks(d, i + 1, k - 1))
            == acc * Pow10(k) + SelValue(d, GreedyPicks(d, start, k))
  {
    var g := GreedyPicks(d, start, k);
    var p := Pow10(k - 1);
    assert g[0] == i && g[1..] == GreedyPicks(d, i + 1, k - 1);
    PickedCons(d, g);
    ShiftPlace(acc, d[i], p);
  }

  lemma ShiftPlace(acc: nat, x: nat, p: nat)
    ensures (acc * 10 + x) * p == acc * (10 * p) + x * p
  {}

  /** The two ways `max_power_v2` panics when asked for more digits than the bank
      holds: one digit too many leaves the first window empty, so the `unwrap` of
      its maximum fails; two or more make `len - reserve` underflow (the message is
      that of a debug build). */
  const EmptyWindow := "called `Option::unwrap()` on a `None` value"
  const ReserveUnderflow := "attempt to subtract with overflow"

  /** `max_power_v2`: k picks over a window that starts after the previous pick and
      stops early enough to leave room for the picks still to come. Where the
      source panics, the model returns the panic's message as an error. */
  method MaxPowerV2(b: Powerbank, digits: nat) returns (r: Result<nat>)
    ensures r.Ok? <==> digits <= |b.digits|
    ensures r.Err? ==> r.error == if digits == |b.digits| + 1 then EmptyWindow else ReserveUnderflow
    ensures r.Ok? ==> r.value == SelValue(b.digits, GreedyPicks(b.digits, 0, digits))
    ensures r.Ok? ==> r.value < Pow10(digits)
    ensures r.Ok? ==> forall sel :: IsSelection(|b.digits|, digits, sel) ==> SelValue(b.digits, sel) <= r.value
    ensures r.Ok? && digits == |b.digits| ==> r.value == Num(b.digits)
  {
    var d := b.digits;
    if digits == |d| + 1 {
      return Err(EmptyWindow);
    } else if digits > |d| {
      return Err(ReserveUnderflow);
    }
    var accum := GreedyDigits(d, digits);
    GreedyAccumValue(d, 0, digits, 0);
    GreedyIsBest(d, digits);
    return Ok(accum);
  }

  /** The loop of `max_power_v2`: round `elem` takes the earliest largest digit
      after the previous pick that still leaves `digits - 1 - elem` digits behind
      it, and appends it to the number built so far. */
  method GreedyDigits(d: seq<Digit>, digits: nat) returns (accum: nat)
    requires digits <= |d|
    ensures accum == GreedyAccum(d, 0, digits, 0)
  {
    var toSkip: nat := 0;
    accum := 0;
    for elem := 0 to digits
      invariant toSkip + (digits - elem) <= |d|
      invariant GreedyAccum(d, toSkip, digits - elem, accum) == GreedyAccum(d, 0, digits, 0)
    {
      var reserve := digits - 1 - elem;
      var end := |d| - reserve;
      var index := ArgMaxEarliest(d, toSkip, end);
      toSkip := index + 1;
      accum := accum * 10 + d[index];
    }
  }

  /** The greedy choice of k digits writes a k-digit number no smaller than any
      other choice of k digits, and choosing every digit writes the whole bank. */
  lemma GreedyIsBest(d: seq<Digit>, k: nat)
    requires k <= |d|
    ensures SelValue(d, GreedyPicks(d, 0, k)) < Pow10(k)
    ensures forall sel :: IsSelection(|d|, k, sel) ==> SelValue(d, sel) <= SelValue(d, GreedyPicks(d, 0, k))
    ensures k == |d| ==> SelValue(d, GreedyPicks(d, 0, k)) == Num(d)
  {
    NumBound(Picked(d, GreedyPicks(d, 0, k)));
    forall sel | IsSelection(|d|, k, sel) ensures SelValue(d, sel) <= SelValue(d, GreedyPicks(d, 0, k)) {
      GreedyIsOptimal(d, 0, k, sel);
    }
    if k == |d| {
      GreedyTakesAll(d, 0);
      assert d[0..] == d;
    }
  }

  /** The first chosen index gives the first digit. */
  lemma PickedHead(d: seq<Digit>, sel: seq<nat>)
    requires sel != [] && forall a :: 0 <= a < |sel| ==> sel[a] < |d|
    ensures Picked(d, sel) == [d[sel[0]]] + Picked(d, sel[1..])
  {}

  /** Choosing one more index writes one more digit at the end. */
  lemma {:induction false} PickedAppend(d: seq<Digit>, sel: seq<nat>, i: nat)
    requires forall a :: 0 <= a < |sel| ==> sel[a] < |d|
    requires i < |d|
    ensures Picked(d, sel + [i]) == Picked(d, sel) + [d[i]]
    ensures SelValue(d, sel + [i]) == 10 * SelValue(d, sel) + d[i]
    decreases |sel|
  {
    if sel != [] {
      assert (sel + [i])[1..] == sel[1..] + [i];
      PickedAppend(d, sel[1..], i);
    }
    var p := Picked(d, sel + [i]);
    assert p[..|p| - 1] == Picked(d, sel);
  }

  /** The first chosen digit takes the highest place. */
  lemma PickedCons(d: seq<Digit>, sel: seq<nat>)
    requires sel != [] && forall a :: 0 <= a < |sel| ==> sel[a] < |d|
    ensures SelValue(d, sel) == d[sel[0]] * Pow10(|sel| - 1) + SelValue(d, sel[1..])
    ensures SelValue(d, sel[1..]) < Pow10(|sel| - 1)
  {
    var head: seq<Digit> := [d[sel[0]]];
    var rest := Picked(d, sel[1..]);
    NumAppend(head, rest);
    assert Num(head) == d[sel[0]] by { assert head[..0] == []; }
    NumBound(rest);
  }

  /** The first of k chosen indices leaves room for the other k - 1. */
  lemma {:induction false} SelectionRoom(n: nat, k: nat, sel: seq<nat>)
    requires k >= 1 && IsSelection(n, k, sel)
    ensures sel[0] + k <= n
    decreases k
  {
    if k > 1 {
      assert sel[1..][0] == sel[1];
      SelectionRoom(n, k - 1, sel[1..]);
    }
  }

  /** Exchange argument: no choice of k digits from d[start..] writes a larger
      number than the greedy choice. A smaller first digit loses outright, since
      the remaining k - 1 digits are worth less than one unit of the first place;
      an equal first digit cannot come before the greedy one, so the rest of the
      choice lies inside the greedy choice's remaining window. */
  lemma {:induction false} GreedyIsOptimal(d: seq<Digit>, start: nat, k: nat, sel: seq<nat>)
    requires start + k <= |d|
    requires IsSelection(|d|, k, sel)
    requires sel != [] ==> start <= sel[0]
    ensures SelValue(d, sel) <= SelValue(d, GreedyPicks(d, start, k))
    decreases k
  {
    if k > 0 {
      var g := GreedyPicks(d, start, k);
      var i, j := g[0], sel[0];
      SelectionRoom(|d|, k, sel);
      LeadingDigit(d, start, k, j);
      var rest := sel[1..];
      if d[j] == d[i] {
        SelectionTail(|d|, k, sel);
        GreedyIsOptimal(d, i + 1, k - 1, rest);
      }
      CompareByLead(d, sel, g);
    }
  }

  /** Two choices of equally many digits compare by their first digits, and by the
      rest when the first digits are equal. */
  lemma CompareByLead(d: seq<Digit>, sel: seq<nat>, g: seq<nat>)
    requires sel != [] && |sel| == |g|
    requires forall a :: 0 <= a < |sel| ==> sel[a] < |d|
    requires forall a :: 0 <= a < |g| ==> g[a] < |d|
    requires d[sel[0]] <= d[g[0]]
    requires d[sel[0]] == d[g[0]] ==> SelValue(d, sel[1..]) <= SelValue(d, g[1..])
    ensures SelValue(d, sel) <= SelValue(d, g)
  {
    PickedCons(d, sel);
    PickedCons(d, g);
    LeadingPlaceDecides(d[sel[0]], d[g[0]], SelValue(d, sel[1..]), SelValue(d, g[1..]), Pow10(|sel| - 1));
  }

  /** Any digit in the first greedy window is at most the greedy pick, and equal
      only at or after it. */
  lemma LeadingDigit(d: seq<Digit>, start: nat, k: nat, j: nat)
    requires k >= 1 && start + k <= |d|
    requires start <= j < |d| - (k - 1)
    ensures var g := GreedyPicks(d, start, k);
            g[1..] == GreedyPicks(d, g[0] + 1, k - 1)
            && d[j] <= d[g[0]] && (d[j] == d[g[0]] ==> g[0] <= j)
  {
    ArgMaxEarliestIsMax(d, start, |d| - (k - 1));
  }

  /** Dropping the first of k chosen indices leaves k - 1 chosen indices after it. */
  lemma SelectionTail(n: nat, k: nat, sel: seq<nat>)
    requires k >= 1 && IsSelection(n, k, sel)
    ensures IsSelection(n, k - 1, sel[1..])
    ensures k >= 2 ==> sel[0] < sel[1..][0]
  {}

  /** A number with a smaller leading digit is smaller whatever follows it. */
  lemma LeadingPlaceDecides(a: nat, b: nat, ra: nat, rb: nat, p: nat)
    requires a <= b && ra < p
    requires a == b ==> ra <= rb
    ensures a * p + ra <= b * p + rb
  {
    if a < b {
      MulLe(a + 1, b, p);
      assert (a + 1) * p == a * p + p;
    }
  }

  lemma MulLe(a: nat, b: nat, p: nat)
    requires a <= b
    ensures a * p <= b * p
  {}

  /** Asked for every remaining digit, the greedy choice takes all of them in order. */
  lemma {:induction false} GreedyTakesAll(d: seq<Digit>, start: nat)
    requires start <= |d|
    ensures Picked(d, GreedyPicks(d, start, |d| - start)) == d[start..]
    decreases |d| - start
  {
    if start < |d| {
      var g := GreedyPicks(d, start, |d| - start);
      var g' := GreedyPicks(d, start + 1, |d| - (start + 1));
      GreedyTakesNext(d, start);
      assert g[0] == start && g[1..] == g';
      calc {
        Picked(d, g);
        { PickedHead(d, g); }
        [d[start]] + Picked(d, g');
        { GreedyTakesAll(d, start + 1); }
        [d[start]] + d[start + 1..];
        d[start..];
      }
    }
  }

  /** With no digit to spare, the greedy choice takes the next digit. */
  lemma GreedyTakesNext(d: seq<Digit>, start: nat)
    requires start < |d|
    ensures GreedyPicks(d, start, |d| - start) == [start] + GreedyPicks(d, start + 1, |d| - (start + 1))
  {
    assert ArgMaxEarliest(d, start, start + 1) == start;
  }

  /** For two digits, `max_power` and `max_power_v2` give the same power: the right
      digit scans differ only in which of several equal largest digits they pick. */
  lemma MaxPowerMatchesGreedy(b: Powerbank)
    requires |b.digits| >= 2
    ensures MaxPower(b).value == SelValue(b.digits, GreedyPicks(b.digits, 0, 2))
  {
    var d := b.digits;
    var left := ArgMaxEarliest(d, 0, |d| - 1);
    var right := ArgMaxLatest(d, left + 1, |d|);
    var second := ArgMaxEarliest(d, left + 1, |d|);
    GreedyPair(d);
    SameLargestDigit(d, left + 1, |d|);
    PairValue(d, left, second);
  }

  /** Both scans find a largest digit, so they find the same digit. */
  lemma SameLargestDigit(d: seq<Digit>, lo: nat, hi: nat)
    requires lo < hi <= |d|
    ensures d[ArgMaxLatest(d, lo, hi)] == d[ArgMaxEarliest(d, lo, hi)]
  {
    ArgMaxEarliestIsMax(d, lo, hi);
    ArgMaxLatestIsMax(d, lo, hi);
  }

  /** The greedy choice of two digits: the earliest largest digit before the last
      position, then the earliest largest digit after it. */
  lemma GreedyPair(d: seq<Digit>)
    requires |d| >= 2
    ensures var left := ArgMaxEarliest(d, 0, |d| - 1);
            GreedyPicks(d, 0, 2) == [left, ArgMaxEarliest(d, left + 1, |d|)]
  {
    var left := ArgMaxEarliest(d, 0, |d| - 1);
    var second := ArgMaxEarliest(d, left + 1, |d|);
    assert GreedyPicks(d, second + 1, 0) == [];
    assert GreedyPicks(d, left + 1, 1) == [second];
  }

  /** Two chosen digits write a two-digit number. */
  lemma PairValue(d: seq<Digit>, i: nat, j: nat)
    requires i < |d| && j < |d|
    ensures SelValue(d, [i, j]) == 10 * (d[i] as nat) + d[j]
  {
    var p := Picked(d, [i, j]);
    assert p == [d[i], d[j]] by {
      assert [i, j][1..] == [j];
      assert Picked(d, [j]) == [d[j]];
    }
    assert Num([d[i]]) == d[i] by { assert [d[i]][..0] == []; }
    assert p[..1] == [d[i]];
  }

  /** On "999" the two scans pick different right-hand indices for the same value. */
  lemma TieBreaksDiffer()
    ensures ArgMaxLatest([9, 9, 9], 1, 3) == 2
    ensures GreedyPicks([9, 9, 9], 0, 2) == [0, 1]
    ensures MaxPower(Powerbank([9, 9, 9])) == Ok(99)
  {
    assert ArgMaxEarliest([9, 9, 9], 0, 2) == 0;
    assert ArgMaxEarliest([9, 9, 9], 1, 3) == 1;
    assert GreedyPicks([9, 9, 9], 2, 0) == [];
  }

  /** Every digit of d[lo..hi] is below v, checked digit by digit. */
  predicate AllBelow(d: seq<Digit>, lo: nat, hi: nat, v: nat)
    requires hi <= |d|
    decreases hi - lo
  {
    lo >= hi || (d[lo] < v && AllBelow(d, lo + 1, hi, v))
  }

  lemma {:induction false} AllBelowBound(d: seq<Digit>, lo: nat, hi: nat, v: nat)
    requires hi <= |d| && AllBelow(d, lo, hi, v)
    ensures forall k :: lo <= k < hi ==> d[k] < v
    decreases hi - lo
  {
    if lo < hi {
      AllBelowBound(d, lo + 1, hi, v);
    }
  }

  /** The converse of `MaxPowerIsBestPair`: when `left` holds the earliest largest
      digit before the last position and `right` the last largest digit after it,
      the two-digit power is the number those two digits write. */
  lemma MaxPowerAt(d: seq<Digit>, left: nat, right: nat)
    requires left < right < |d|
    requires forall k :: 0 <= k < |d| - 1 ==> d[k] <= d[left]
    requires forall k :: 0 <= k < left ==> d[k] < d[left]
    requires forall k :: left + 1 <= k < |d| ==> d[k] <= d[right]
    requires forall k :: right + 1 <= k < |d| ==> d[k] < d[right]
    ensures MaxPower(Powerbank(d)) == Ok(10 * (d[left] as nat) + d[right])
  {
    var l := ArgMaxEarliest(d, 0, |d| - 1);
    ArgMaxEarliestIsMax(d, 0, |d| - 1);
    assert l == left;
    var r := ArgMaxLatest(d, left + 1, |d|);
    ArgMaxLatestIsMax(d, left + 1, |d|);
    assert r == right;
  }

  /** The four banks of the worked example (src/day3.rs:4-7). */
  const ExampleBank1: seq<Digit> := [9, 8, 7, 6, 5, 4, 3, 2, 1, 1, 1, 1, 1, 1, 1]
  const ExampleBank2: seq<Digit> := [8, 1, 1, 1, 1, 1, 1, 1, 1, 1, 1, 1, 1, 1, 9]
  const ExampleBank3: seq<Digit> := [2, 3, 4, 2, 3, 4, 2, 3, 4, 2, 3, 4, 2, 7, 8]
  const ExampleBank4: seq<Digit> := [8, 1, 8, 1, 8, 1, 9, 1, 1, 1, 1, 2, 1, 1, 1]

  /** On the worked example the two-digit powers are 98, 89, 78 and 92. */
  lemma ExampleMaxPower1()
    ensures MaxPower(Powerbank(ExampleBank1)) == Ok(98)
  {
    AllBelowBound(ExampleBank1, 0, 14, 10);
    AllBelowBound(ExampleBank1, 2, 15, 8);
    MaxPowerAt(ExampleBank1, 0, 1);
  }

  lemma ExampleMaxPower2()
    ensures MaxPower(Powerbank(ExampleBank2)) == Ok(89)
  {
    AllBelowBound(ExampleBank2, 0, 14, 9);
    AllBelowBound(ExampleBank2, 1, 15, 10);
    MaxPowerAt(ExampleBank2, 0, 14);
  }

  lemma ExampleMaxPower3()
    ensures MaxPower(Powerbank(ExampleBank3)) == Ok(78)
  {
    AllBelowBound(ExampleBank3, 0, 14, 9);
    AllBelowBound(ExampleBank3, 0, 13, 7);
    MaxPowerAt(ExampleBank3, 13, 14);
  }

  lemma ExampleMaxPower4()
    ensures MaxPower(Powerbank(ExampleBank4)) == Ok(92)
  {
    AllBelowBound(ExampleBank4, 0, 14, 10);
    AllBelowBound(ExampleBank4, 0, 6, 9);
    AllBelowBound(ExampleBank4, 7, 15, 3);
    AllBelowBound(ExampleBank4, 12, 15, 2);
    MaxPowerAt(ExampleBank4, 6, 11);
  }

  /** The example's total output power is 357. */
  lemma ExampleTotalPower()
    ensures MaxPower(Powerbank(ExampleBank1)).value + MaxPower(Powerbank(ExampleBank2)).value
            + MaxPower(Powerbank(ExampleBank3)).value + MaxPower(Powerbank(ExampleBank4)).value == 357
  {
    ExampleMaxPower1();
    ExampleMaxPower2();
    ExampleMaxPower3();
    ExampleMaxPower4();
  }
}

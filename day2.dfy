/** Gift shop ids (src/day2.rs): an id is invalid when its decimal form is one
    block of digits written twice (part 1) or at least twice (part 2). */
module Day2 {
  import opened Decimal
  import opened Text
  import opened Ranges

  function PairFormatError(input: string): string {
    "Invalid ID pair format: " + input
  }

  function StartError(e: string): string {
    "Failed to parse start ID: " + e
  }

  function EndError(e: string): string {
    "Failed to parse end ID: " + e
  }

  /** The first '-' of `s` is at index i. */
  predicate FirstDash(s: string, i: nat) {
    i < |s| && s[i] == '-' && '-' !in s[..i]
  }

  /** `id_pair_to_range`: the text is split at its first '-', and both sides must
      be decimal numbers. */
  function IdPairToRange(input: string): Result<Range> {
    match SplitOnce(input, "-")
    case None => Err(PairFormatError(input))
    case Some((left, right)) =>
      match ParseNat(left)
      case Err(e) => Err(StartError(e))
      case Ok(start) =>
        match ParseNat(right)
        case Err(e) => Err(EndError(e))
        case Ok(end) => Ok(Range(start, end))
  }

  /** "a-b" with a and b decimal numbers is the range a..=b: parsing succeeds
      exactly when some '-' has a number on each side (it is then the only '-'). */
  lemma IdPairToRangeSpec(input: string)
    ensures IdPairToRange(input).Ok?
            <==> exists i :: 0 <= i < |input| && input[i] == '-'
                             && ParseNat(input[..i]).Ok? && ParseNat(input[i + 1..]).Ok?
    ensures IdPairToRange(input).Ok?
            ==> forall i :: 0 <= i < |input| && input[i] == '-'
                            ==> ParseNat(input[..i]).Ok? && ParseNat(input[i + 1..]).Ok?
                                && IdPairToRange(input).value == Range(ParseNat(input[..i]).value, ParseNat(input[i + 1..]).value)
  {
    SplitOnceChar(input, '-');
    match FindChar(input, '-')
    case None =>
    case Some(k) =>
      assert SplitOnce(input, "-") == Some((input[..k], input[k + 1..]));
      DashIsUnique(input, k);
      if IdPairToRange(input).Ok? {
        assert ParseNat(input[..k]).Ok? && ParseNat(input[k + 1..]).Ok?;
      }
      forall i | 0 <= i < |input| && input[i] == '-' && ParseNat(input[..i]).Ok?
        ensures i == k
      {
        DashBeforeFails(input, k, i);
      }
  }

  /** Without a '-' the whole text is reported; otherwise the first side of the
      first '-' that is not a number is reported, with the parser's message. */
  lemma IdPairToRangeErrors(input: string)
    ensures '-' !in input ==> IdPairToRange(input) == Err(PairFormatError(input))
    ensures forall i: nat :: FirstDash(input, i) && ParseNat(input[..i]).Err?
                        ==> IdPairToRange(input) == Err(StartError(ParseNat(input[..i]).error))
    ensures forall i: nat :: FirstDash(input, i) && ParseNat(input[..i]).Ok? && ParseNat(input[i + 1..]).Err?
                        ==> IdPairToRange(input) == Err(EndError(ParseNat(input[i + 1..]).error))
  {
    SplitOnceChar(input, '-');
    match FindChar(input, '-')
    case None =>
    case Some(k) =>
      assert SplitOnce(input, "-") == Some((input[..k], input[k + 1..]));
      DashIsUnique(input, k);
  }

  /** A number has no '-' in it, so no '-' after the first lies inside a part
      that parses. */
  lemma DashBeforeFails(s: string, k: nat, i: nat)
    requires FirstDash(s, k) && i < |s| && s[i] == '-'
    requires ParseNat(s[..i]).Ok?
    ensures i == k
  {}

  /** When the text after the first '-' is a number, that '-' is the only one. */
  lemma DashIsUnique(s: string, i: nat)
    requires FirstDash(s, i)
    ensures forall j: nat :: FirstDash(s, j) ==> j == i
    ensures ParseNat(s[i + 1..]).Ok? ==> forall j :: 0 <= j < |s| && s[j] == '-' ==> j == i
  {}

  /** Writing a range out and parsing it back gives the same range. */
  lemma IdPairShowRange(r: Range)
    ensures IdPairToRange(ShowRange(r)) == Ok(r)
  {
    SplitShowRange(r);
    ParseShowNat(r.start);
    ParseShowNat(r.end);
  }

  /** A written range has no comma and no surrounding space, and reads back as
      one piece of a list. */
  lemma PieceShow(r: Range)
    ensures ',' !in ShowRange(r)
    ensures ParsePiece(ShowRange(r)) == Ok(r)
  {
    NoCommaInRange(r);
    var a, b := ShowNat(r.start), ShowNat(r.end);
    var s := ShowRange(r);
    assert s[0] == a[0] && s[|s| - 1] == b[|b| - 1];
    TrimUnspaced(s);
    IdPairShowRange(r);
  }

  /** A written range is digits and one '-'. */
  lemma NoCommaInRange(r: Range)
    ensures ',' !in ShowRange(r)
  {
    var a, b := ShowNat(r.start), ShowNat(r.end);
    assert forall k :: 0 <= k < |ShowRange(r)| ==> ShowRange(r)[k] == '-' || IsDigitChar(ShowRange(r)[k]) by {
      forall k | 0 <= k < |ShowRange(r)| ensures ShowRange(r)[k] == '-' || IsDigitChar(ShowRange(r)[k]) {
        if k < |a| {
          assert ShowRange(r)[k] == a[k];
        } else if k > |a| {
          assert ShowRange(r)[k] == b[k - |a| - 1];
        }
      }
    }
  }

  datatype RangeSet = RangeSet(ranges: seq<Range>)

  /** One comma-separated piece: `id_pair_to_range(piece.trim())`. */
  function ParsePiece(piece: string): Result<Range> {
    IdPairToRange(Trim(piece))
  }

  /** `RangeSet::from_list`: the ranges between the commas, in order; the first bad
      piece fails the whole list. */
  function FromList(input: string): (r: Result<RangeSet>)
    ensures r.Ok? <==> forall i :: 0 <= i < |Split(input, ',')| ==> ParsePiece(Split(input, ',')[i]).Ok?
    ensures r.Ok? ==> |r.value.ranges| == |Split(input, ',')|
                      && forall i :: 0 <= i < |r.value.ranges| ==> r.value.ranges[i] == ParsePiece(Split(input, ',')[i]).value
    ensures r.Err? ==> exists i :: 0 <= i < |Split(input, ',')| && ParsePiece(Split(input, ',')[i]) == Err(r.error)
                                   && forall j :: 0 <= j < i ==> ParsePiece(Split(input, ',')[j]).Ok?
  {
    var pieces := Split(input, ',');
    assert |pieces| == |Split(input, ',')|;
    match CollectAll(pieces, ParsePiece)
    case Err(e) => Err(e)
    case Ok(ranges) => Ok(RangeSet(ranges))
  }

  /** The ranges written out, separated by commas. */
  function ShowRangeList(ranges: seq<Range>): (s: seq<string>)
    ensures |s| == |ranges| && forall i :: 0 <= i < |ranges| ==> s[i] == ShowRange(ranges[i])
  {
    if ranges == [] then [] else [ShowRange(ranges[0])] + ShowRangeList(ranges[1..])
  }

  /** Writing a non-empty list of ranges out with commas and parsing it back gives
      the same ranges in the same order. */
  lemma FromListShow(ranges: seq<Range>)
    requires |ranges| >= 1
    ensures FromList(Join(ShowRangeList(ranges), ',')) == Ok(RangeSet(ranges))
  {
    var pieces := ShowRangeList(ranges);
    PiecesShow(ranges);
    var text := Join(pieces, ',');
    SplitJoin(pieces, ',');
    CollectAllOk(pieces, ranges, ParsePiece);
  }

  /** Each written range is one comma-free piece that parses back to the range. */
  lemma PiecesShow(ranges: seq<Range>)
    ensures forall i :: 0 <= i < |ranges| ==>
              ',' !in ShowRangeList(ranges)[i] && ParsePiece(ShowRangeList(ranges)[i]) == Ok(ranges[i])
  {
    var pieces := ShowRangeList(ranges);
    forall i | 0 <= i < |ranges| ensures ',' !in pieces[i] && ParsePiece(pieces[i]) == Ok(ranges[i]) {
      PieceShow(ranges[i]);
    }
  }

  /** `is_invalid`: the number above the lower half of the digits equals the number
      written by that lower half. */
  function IsInvalid(id: nat): bool {
    var digits := NumDigits(id);
    var divisor := Pow10(digits / 2);
    id / divisor == id % divisor
  }

  /** For a positive id, `is_invalid` holds exactly when it has an even number of
      digits and its two halves are the same digits. */
  lemma IsInvalidIff(id: nat)
    requires id >= 1
    ensures IsInvalid(id) <==> NumDigits(id) % 2 == 0
                               && Digits(id)[..NumDigits(id) / 2] == Digits(id)[NumDigits(id) / 2..]
  {
    var ds := Digits(id);
    NumDigitsOf(id);
    HalvesIff(ds);
  }

  /** The upper and lower halves of a digit string with a non-zero lead write the
      same number exactly when there are evenly many digits and the halves agree. */
  lemma HalvesIff(ds: seq<Digit>)
    requires ds != [] && ds[0] != 0
    ensures Num(ds) / Pow10(|ds| / 2) == Num(ds) % Pow10(|ds| / 2)
            <==> |ds| % 2 == 0 && ds[..|ds| / 2] == ds[|ds| / 2..]
  {
    var n, h := |ds|, |ds| / 2;
    SplitDigits(ds, h);
    if n % 2 == 0 {
      EvenHalves(ds);
    } else {
      OddHalvesDiffer(ds);
    }
  }

  /** Two halves of equal length write the same number exactly when they are the
      same digits. */
  lemma EvenHalves(ds: seq<Digit>)
    requires |ds| % 2 == 0
    ensures Num(ds[..|ds| - |ds| / 2]) == Num(ds[|ds| - |ds| / 2..]) <==> ds[..|ds| / 2] == ds[|ds| / 2..]
  {
    var h := |ds| / 2;
    assert |ds| - h == h;
    if Num(ds[..h]) == Num(ds[h..]) {
      NumInjective(ds[..h], ds[h..]);
    }
  }

  /** With an odd number of digits and a non-zero lead, the upper part (one digit
      longer) writes a larger number than the lower part. */
  lemma OddHalvesDiffer(ds: seq<Digit>)
    requires |ds| % 2 == 1 && ds[0] != 0
    ensures Num(ds[..|ds| - |ds| / 2]) > Num(ds[|ds| - |ds| / 2..])
  {
    var n, h := |ds|, |ds| / 2;
    var top, bottom := ds[..n - h], ds[n - h..];
    NumBound(bottom);
    assert top[0] == ds[0];
    NumLowerBound(top);
    Pow10Monotone(h, n - h);
  }

  /** `ds` is the block `b` written some number of times. */
  predicate RepeatOf(ds: seq<Digit>, b: seq<Digit>)
    requires |b| >= 1
    decreases |ds|
  {
    ds == [] || (|b| <= |ds| && ds[|ds| - |b|..] == b && RepeatOf(ds[..|ds| - |b|], b))
  }

  /** Lowering a number by e keeps its remainder modulo e. */
  lemma ModStep(n: nat, e: nat)
    requires 1 <= e <= n
    ensures (n - e) % e == n % e
  {
    MulDistrib(n / e, 1, e);
    DivModUnique(n - e, n / e - 1, n % e, e);
  }

  /** Within the last block of a length that e divides, the remainder modulo e is
      the offset into the block. */
  lemma ModInLastBlock(n: nat, e: nat, i: nat)
    requires 1 <= e <= n && n % e == 0 && n - e <= i < n
    ensures i % e == i - (n - e)
  {
    MulDistrib(n / e, 1, e);
    DivModUnique(i, n / e - 1, i - (n - e), e);
  }

  /** A repetition of `b` is a whole number of blocks long. */
  lemma {:induction false} RepeatOfLength(ds: seq<Digit>, b: seq<Digit>)
    requires |b| >= 1 && RepeatOf(ds, b)
    ensures |ds| % |b| == 0
    decreases |ds|
  {
    if ds != [] {
      RepeatOfLength(ds[..|ds| - |b|], b);
      ModStep(|ds|, |b|);
    }
  }

  /** Each digit of a repetition of `b` is the digit at the same offset in `b`. */
  lemma {:induction false} RepeatOfPeriodic(ds: seq<Digit>, b: seq<Digit>)
    requires |b| >= 1 && RepeatOf(ds, b)
    ensures forall i :: 0 <= i < |ds| ==> ds[i] == b[i % |b|]
    decreases |ds|
  {
    if ds != [] {
      var e, upper := |b|, ds[..|ds| - |b|];
      RepeatOfLength(ds, b);
      RepeatOfPeriodic(upper, b);
      forall i | 0 <= i < |ds| ensures ds[i] == b[i % e] {
        if i < |ds| - e {
          assert ds[i] == upper[i];
        } else {
          ModInLastBlock(|ds|, e, i);
          assert ds[i] == ds[|ds| - e..][i - (|ds| - e)];
        }
      }
    }
  }

  /** A whole number of blocks whose digits follow `b` periodically repeats `b`. */
  lemma {:induction false} PeriodicRepeatOf(ds: seq<Digit>, b: seq<Digit>)
    requires |b| >= 1 && |ds| % |b| == 0
    requires forall i :: 0 <= i < |ds| ==> ds[i] == b[i % |b|]
    ensures RepeatOf(ds, b)
    decreases |ds|
  {
    if ds != [] {
      var e, upper := |b|, ds[..|ds| - |b|];
      assert |ds| >= e by {
        if |ds| < e { DivModUnique(|ds|, 0, |ds|, e); }
      }
      ModStep(|ds|, e);
      forall i | 0 <= i < |upper| ensures upper[i] == b[i % e] {
        assert upper[i] == ds[i];
      }
      PeriodicRepeatOf(upper, b);
      forall k | 0 <= k < e ensures ds[|ds| - e..][k] == b[k] {
        ModInLastBlock(|ds|, e, |ds| - e + k);
        assert ds[|ds| - e..][k] == ds[|ds| - e + k];
      }
      assert ds[|ds| - e..] == b;
    }
  }

  /** The recursive definition agrees with the direct one: a whole number of
      blocks, each digit equal to the one at the same offset in `b`. */
  lemma RepeatOfIff(ds: seq<Digit>, b: seq<Digit>)
    requires |b| >= 1
    ensures RepeatOf(ds, b) <==> |ds| % |b| == 0 && forall i :: 0 <= i < |ds| ==> ds[i] == b[i % |b|]
  {
    if RepeatOf(ds, b) {
      RepeatOfLength(ds, b);
      RepeatOfPeriodic(ds, b);
    }
    if |ds| % |b| == 0 && forall i :: 0 <= i < |ds| ==> ds[i] == b[i % |b|] {
      PeriodicRepeatOf(ds, b);
    }
  }

  /** A repetition of `b` begins and ends with `b`. */
  lemma {:induction false} RepeatOfEnds(ds: seq<Digit>, b: seq<Digit>)
    requires |b| >= 1 && ds != [] && RepeatOf(ds, b)
    ensures |b| <= |ds| && ds[..|b|] == b && ds[|ds| - |b|..] == b
    decreases |ds|
  {
    var upper := ds[..|ds| - |b|];
    if upper != [] {
      RepeatOfEnds(upper, b);
      assert ds[..|b|] == upper[..|b|];
    }
  }

  /** `ds` is its first e digits written some number of times. */
  predicate RepeatsBlock(ds: seq<Digit>, e: nat) {
    1 <= e <= |ds| && RepeatOf(ds, ds[..e])
  }

  /** The decimal form of `id` is a block of at most half its digits, repeated. */
  predicate RepeatedBlock(id: nat) {
    exists e :: 1 <= e <= NumDigits(id) / 2 && RepeatsBlock(Digits(id), e)
  }

  /** The inner loop of `is_invalid_p2`: every chunk of `divisor`'s width, from the
      lowest, equals `expected`. */
  function AllChunks(value: nat, divisor: nat, expected: nat): bool
    requires divisor >= 2
    decreases value
  {
    value == 0 || (value % divisor == expected && AllChunks(value / divisor, divisor, expected))
  }

  /** Reading a digit string with a non-zero leading digit in chunks of |b|
      digits from the right, so that no chunk but the last is read as 0: every chunk
      equals the number written by `b` exactly when the string is `b` repeated. */
  lemma {:induction false} ChunksRepeat(ds: seq<Digit>, b: seq<Digit>)
    requires 1 <= |b| && |ds| % |b| == 0
    requires ds == [] || ds[0] != 0
    ensures Pow10(|b|) >= 2
    ensures AllChunks(Num(ds), Pow10(|b|), Num(b)) <==> RepeatOf(ds, b)
    decreases |ds|
  {
    var e := |b|;
    Pow10Monotone(0, e);
    if ds != [] {
      DivModUnique(|ds|, |ds| / e, 0, e);
      DivModUnique(|ds| - e, |ds| / e - 1, 0, e);
      var upper, lower := ds[..|ds| - e], ds[|ds| - e..];
      assert upper == [] || upper[0] == ds[0];
      NumLowerBound(ds);
      SplitDigits(ds, e);
      ChunksRepeat(upper, b);
      if Num(lower) == Num(b) {
        NumInjective(lower, b);
      }
    }
  }

  /** The chunk test of `is_invalid_p2` for blocks of e digits decides whether the
      id's digits are a block of e digits repeated. */
  lemma ChunkTestIsRepeat(id: nat, e: nat)
    requires 1 <= e <= NumDigits(id) / 2 && NumDigits(id) % e == 0
    ensures Pow10(e) >= 2
    ensures AllChunks(id, Pow10(e), id % Pow10(e)) <==> RepeatsBlock(Digits(id), e)
  {
    var ds := Digits(id);
    NumDigitsOf(id);
    SplitDigits(ds, e);
    ChunkTestDigits(ds, e);
  }

  /** The chunk test on the number a digit string writes, with its last block as
      the expected chunk. */
  lemma ChunkTestDigits(ds: seq<Digit>, e: nat)
    requires 1 <= e <= |ds| && ds[0] != 0 && |ds| % e == 0
    ensures Pow10(e) >= 2
    ensures AllChunks(Num(ds), Pow10(e), Num(ds[|ds| - e..])) <==> RepeatsBlock(ds, e)
  {
    ChunksRepeat(ds, ds[|ds| - e..]);
    RepeatFirstOrLast(ds, e);
  }

  /** The digits repeat their last block exactly when they repeat their first. */
  lemma RepeatFirstOrLast(ds: seq<Digit>, e: nat)
    requires 1 <= e <= |ds|
    ensures RepeatOf(ds, ds[|ds| - e..]) <==> RepeatOf(ds, ds[..e])
  {
    var first, last := ds[..e], ds[|ds| - e..];
    if RepeatOf(ds, last) {
      RepeatOfEnds(ds, last);
      assert first == last;
    }
    if RepeatOf(ds, first) {
      RepeatOfEnds(ds, first);
      assert first == last;
    }
  }

  /** A block whose width does not divide the digit count cannot repeat to fill it. */
  lemma NoBlockOfWidth(id: nat, e: nat)
    requires 1 <= e && NumDigits(id) % e != 0
    ensures !RepeatsBlock(Digits(id), e)
  {
    if RepeatsBlock(Digits(id), e) {
      RepeatOfLength(Digits(id), Digits(id)[..e]);
    }
  }

  /** `is_invalid_p2`: tries each block width e with 10^e at most
      10^(digits / 2), skipping widths that do not divide the digit count, and
      compares every chunk of the id with its lowest chunk. */
  method IsInvalidP2(id: nat) returns (invalid: bool)
    ensures invalid <==> RepeatedBlock(id)
  {
    var digits := NumDigits(id);
    var halfDivisor := Pow10(digits / 2);
    var divisor := 10;
    ghost var e: nat := 1;
    while divisor <= halfDivisor
      invariant 1 <= e <= digits / 2 + 1 && divisor == Pow10(e) && divisor >= 10
      invariant NoRepeatBelow(id, e)
      decreases digits / 2 + 1 - e
    {
      Pow10Monotone(digits / 2, e);
      NumDigitsPow10(e);
      var divisorDigits := NumDigits(divisor) - 1;
      if digits % divisorDigits != 0 {
        NoBlockOfWidth(id, e);
        divisor := divisor * 10;
        e := e + 1;
        continue;
      }
      var success := ChunksMatch(id, divisor);
      ChunkTestIsRepeat(id, e);
      if success {
        return true;
      }
      divisor := divisor * 10;
      e := e + 1;
    }
    Pow10Monotone(digits / 2, e);
    return false;
  }

  /** The inner loop of `is_invalid_p2`: divides the id by `divisor` until it is 0,
      stopping at the first chunk that differs from the lowest one. */
  method ChunksMatch(id: nat, divisor: nat) returns (success: bool)
    requires divisor >= 2
    ensures success == AllChunks(id, divisor, id % divisor)
  {
    var value: nat := id;
    success := true;
    var expected := value % divisor;
    while value != 0
      invariant success
      invariant AllChunks(id, divisor, expected) == AllChunks(value, divisor, expected)
      decreases value
    {
      var chunk := value % divisor;
      if chunk != expected {
        success := false;
        break;
      }
      ChunkStep(value, divisor, expected);
      value := value / divisor;
    }
  }

  /** Dropping a matching lowest chunk leaves a smaller value with the same verdict. */
  lemma ChunkStep(value: nat, divisor: nat, expected: nat)
    requires value != 0 && divisor >= 2 && value % divisor == expected
    ensures value / divisor < value
    ensures AllChunks(value, divisor, expected) == AllChunks(value / divisor, divisor, expected)
  {
    QuotientBelow(value, divisor);
  }

  /** Dividing a positive number by 2 or more makes it smaller. */
  lemma QuotientBelow(value: nat, divisor: nat)
    requires value != 0 && divisor >= 2
    ensures value / divisor < value
  {}

  /** No block narrower than e digits repeats to form the id. */
  predicate NoRepeatBelow(id: nat, e: nat) {
    forall w :: 1 <= w < e ==> !RepeatsBlock(Digits(id), w)
  }

  /** Two equal halves are a block repeated twice, so an id `is_invalid` flags is
      also flagged by `is_invalid_p2`; 0 is the exception, which `is_invalid`
      flags (both halves of its single digit are empty) and `is_invalid_p2` does
      not. */
  lemma IsInvalidImpliesRepeatedBlock(id: nat)
    ensures id >= 1 && IsInvalid(id) ==> RepeatedBlock(id)
    ensures IsInvalid(0) && !RepeatedBlock(0)
  {
    if id >= 1 && IsInvalid(id) {
      IsInvalidIff(id);
      var ds := Digits(id);
      var h := |ds| / 2;
      NumDigitsOf(id);
      var half := ds[..h];
      assert ds[|ds| - h..] == half;
      assert ds[..|ds| - h] == half;
      assert half[|half| - h..] == half && half[..0] == [];
      assert RepeatsBlock(ds, h);
    }
    assert Digits(0) == [0];
  }

  /** 10101 is not a block repeated: one digit repeated would be 11111, and a block
      of two digits does not divide five digits. */
  lemma NotRepeated10101()
    ensures !RepeatedBlock(10101)
  {
    DigitsOf10101();
    var ds := Digits(10101);
    NoBlockOfWidth(10101, 2);
    assert ds[..4][3..] == [0];
    assert !RepeatsBlock(ds, 1);
  }

  lemma DigitsOf10101()
    ensures Digits(10101) == [1, 0, 1, 0, 1]
  {
    assert Digits(10) == [1, 0];
    assert Digits(101) == [1, 0, 1];
    assert Digits(1010) == [1, 0, 1, 0];
  }

  /** 2424 is the block 24 repeated. */
  lemma Repeated2424()
    ensures RepeatedBlock(2424)
  {
    assert Digits(242) == Digits(24) + [2] == [2, 4, 2];
    var ds := Digits(2424);
    assert ds == [2, 4, 2, 4];
    assert RepeatOf(ds[..2], [2, 4]);
    assert RepeatsBlock(ds, 2);
  }

  /** A two-digit id is flagged exactly when its two digits agree. */
  lemma TwoDigitIsInvalid(x: nat)
    requires 10 <= x < 100
    ensures IsInvalid(x) <==> x / 10 == x % 10
  {
    assert x / 10 < 10 && Digits(x) == Digits(x / 10) + [x % 10];
    assert NumDigits(x) == 2 && Pow10(1) == 10;
  }

  /** `select_invalid` is pinned down by its contract: any ascending list of
      exactly the flagged ids of the range is its result. */
  lemma SelectInvalidDetermined(range: Range, ids: seq<nat>)
    requires Ascending(ids)
    requires forall x :: x in ids <==> Contains(range, x) && IsInvalid(x)
    ensures ids == SelectInvalid(range)
  {
    AscendingUnique(ids, SelectInvalid(range));
  }

  /** In the first range of the worked example, 11-22, only 11 and 22 are flagged. */
  lemma ExampleInvalidIds(x: nat)
    requires 11 <= x <= 22
    ensures IsInvalid(x) <==> x == 11 || x == 22
  {
    TwoDigitIsInvalid(x);
    if x < 20 {
      DivModUnique(x, 1, x - 10, 10);
    } else {
      DivModUnique(x, 2, x - 20, 10);
    }
  }

  /** Each element is below the next one. */
  predicate Ascending(s: seq<nat>) {
    forall i :: 0 < i < |s| ==> s[i - 1] < s[i]
  }

  /** In an ascending sequence every element is below every later one. */
  lemma {:induction false} AscendingBelow(s: seq<nat>, i: nat, j: nat)
    requires Ascending(s) && i < j < |s|
    ensures s[i] < s[j]
    decreases j - i
  {
    if i + 1 < j {
      AscendingBelow(s, i + 1, j);
    }
  }

  /** An ascending sequence is determined by its elements. */
  lemma {:induction false} AscendingUnique(a: seq<nat>, b: seq<nat>)
    requires Ascending(a) && Ascending(b)
    requires forall x :: x in a <==> x in b
    ensures a == b
    decreases |a|
  {
    assert a == [] <==> b == [] by {
      if a != [] { assert a[0] in b; }
      if b != [] { assert b[0] in a; }
    }
    if a != [] {
      AscendingTail(a);
      AscendingTail(b);
      assert a[0] == b[0] by {
        assert a[0] in b && b[0] in a;
      }
      AscendingUnique(a[1..], b[1..]);
    }
  }

  /** Dropping the first element of an ascending sequence drops exactly the least
      element. */
  lemma AscendingTail(a: seq<nat>)
    requires Ascending(a) && a != []
    ensures Ascending(a[1..])
    ensures forall x :: x in a ==> a[0] <= x
    ensures forall x :: x in a[1..] <==> x in a && x != a[0]
  {
    forall k | 0 < k < |a| ensures a[0] < a[k] {
      AscendingBelow(a, 0, k);
    }
    forall x | x in a ensures a[0] <= x {
      var k :| 0 <= k < |a| && a[k] == x;
    }
    forall x | x in a[1..] ensures x in a && x != a[0] {
      var k :| 0 <= k < |a[1..]| && a[1..][k] == x;
      assert a[k + 1] == x;
    }
    forall x | x in a && x != a[0] ensures x in a[1..] {
      var k :| 0 <= k < |a| && a[k] == x;
      assert a[1..][k - 1] == x;
    }
  }

  /** The ids in lo..=end that `is_invalid` flags, in ascending order. */
  function SelectInvalidFrom(lo: nat, end: nat): (ids: seq<nat>)
    ensures forall x :: x in ids <==> lo <= x <= end && IsInvalid(x)
    ensures Ascending(ids)
    ensures ids != [] ==> lo <= ids[0]
    decreases end + 1 - lo
  {
    if lo > end then []
    else
      var rest := SelectInvalidFrom(lo + 1, end);
      if IsInvalid(lo) then [lo] + rest else rest
  }

  /** `select_invalid`: exactly the ids of the range that `is_invalid` flags, in
      ascending order. */
  function SelectInvalid(range: Range): (ids: seq<nat>)
    ensures forall x :: x in ids <==> Contains(range, x) && IsInvalid(x)
    ensures Ascending(ids)
  {
    SelectInvalidFrom(range.start, range.end)
  }

  /** `select_invalid_p2`: exactly the ids of the range that `is_invalid_p2` flags,
      in ascending order. */
  method SelectInvalidP2(range: Range) returns (ids: seq<nat>)
    ensures forall x :: x in ids <==> Contains(range, x) && RepeatedBlock(x)
    ensures Ascending(ids)
  {
    ids := [];
    if range.start <= range.end {
      for x := range.start to range.end + 1
        invariant forall y :: y in ids <==> range.start <= y < x && RepeatedBlock(y)
        invariant Ascending(ids)
        invariant ids != [] ==> ids[|ids| - 1] < x
      {
        var invalid := IsInvalidP2(x);
        if invalid {
          ids := ids + [x];
        }
      }
    }
  }
}

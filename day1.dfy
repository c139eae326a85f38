/** The safe dial (src/day1.rs): a dial of 100 positions starts at 50 and turns
    left or right by a number of clicks; the answers count how often it shows 0. */
module Day1 {
  import opened Decimal
  import opened Text

  datatype Direction = Left | Right

  datatype Instruction = Instruction(dir: Direction, count: nat)

  const Positions := 100
  const Start := 50

  function InvalidDirection(ch: string): string {
    "Invalid direction: " + ch
  }

  function InvalidCount(e: string): string {
    "Invalid count: " + e
  }

  /** `str::split_at(1)` on an empty line panics; here that is an error. */
  const NoDirection := "byte index 1 is out of bounds of ``"

  /** `Instruction::try_from`: the first character is the direction, the rest the
      click count. */
  function ParseInstruction(value: string): (r: Result<Instruction>)
    ensures r.Ok? <==> |value| >= 1 && value[0] in "LR" && ParseNat(value[1..]).Ok?
    ensures r.Ok? ==> r.value.dir == (if value[0] == 'L' then Left else Right)
                      && r.value.count == ParseNat(value[1..]).value
    ensures value == [] ==> r == Err(NoDirection)
    ensures |value| >= 1 && value[0] !in "LR" ==> r == Err(InvalidDirection(value[..1]))
    ensures |value| >= 1 && value[0] in "LR" && ParseNat(value[1..]).Err?
            ==> r == Err(InvalidCount(ParseNat(value[1..]).error))
  {
    if value == [] then Err(NoDirection)
    else
      var dirChar, countStr := value[..1], value[1..];
      if dirChar != "L" && dirChar != "R" then Err(InvalidDirection(dirChar))
      else
        var dir := if dirChar == "L" then Left else Right;
        match ParseNat(countStr)
        case Err(e) => Err(InvalidCount(e))
        case Ok(count) => Ok(Instruction(dir, count))
  }

  /** The text an instruction is written as. */
  function ShowInstruction(ins: Instruction): string {
    (if ins.dir == Left then "L" else "R") + ShowNat(ins.count)
  }

  /** Writing an instruction out and parsing it back gives the same instruction. */
  lemma ParseShowInstruction(ins: Instruction)
    ensures ParseInstruction(ShowInstruction(ins)) == Ok(ins)
  {
    var s := ShowInstruction(ins);
    assert s[1..] == ShowNat(ins.count);
    ParseShowNat(ins.count);
  }

  /** One line of the input: `Instruction::try_from(line.trim())`. */
  function ParseLine(line: string): Result<Instruction> {
    ParseInstruction(Trim(line))
  }

  /** `Instruction::parse_list`: one instruction per line; the first bad line fails
      the whole list. */
  function ParseList(input: string): (r: Result<seq<Instruction>>)
    ensures r.Ok? <==> forall i :: 0 <= i < |Lines(input)| ==> ParseLine(Lines(input)[i]).Ok?
    ensures r.Ok? ==> |r.value| == |Lines(input)|
                      && forall i :: 0 <= i < |r.value| ==> r.value[i] == ParseLine(Lines(input)[i]).value
    ensures r.Err? ==> exists i :: 0 <= i < |Lines(input)| && ParseLine(Lines(input)[i]) == Err(r.error)
                                   && forall j :: 0 <= j < i ==> ParseLine(Lines(input)[j]).Ok?
  {
    var lines := Lines(input);
    assert |lines| == |Lines(input)|;
    CollectAll(lines, ParseLine)
  }

  /** The position after one instruction: only `count % 100` clicks matter. */
  function Turn(pos: nat, ins: Instruction): (p: nat)
    requires pos < Positions
    ensures p < Positions
  {
    var c := ins.count % 100;
    match ins.dir
    case Left => (pos + 100 - c) % 100
    case Right => (pos + c) % 100
  }

  /** One click of the dial. */
  function Click(pos: nat, dir: Direction): (p: nat)
    requires pos < Positions
    ensures p < Positions
  {
    match dir
    case Left => if pos == 0 then 99 else pos - 1
    case Right => if pos == 99 then 0 else pos + 1
  }

  /** The position after n single clicks. */
  function Clicks(pos: nat, dir: Direction, n: nat): (p: nat)
    requires pos < Positions
    ensures p < Positions
  {
    if n == 0 then pos else Click(Clicks(pos, dir, n - 1), dir)
  }

  /** n clicks move the dial by n modulo 100. */
  lemma {:induction false} ClicksClosedForm(pos: nat, dir: Direction, n: nat)
    requires pos < Positions
    ensures Clicks(pos, dir, n) == if dir == Left then (pos - n) % 100 else (pos + n) % 100
  {
    if n > 0 {
      ClicksClosedForm(pos, dir, n - 1);
      ClickMod(if dir == Left then pos - (n - 1) else pos + (n - 1), dir);
    }
  }

  /** One click from m modulo 100 lands on m - 1 or m + 1 modulo 100. */
  lemma ClickMod(m: int, dir: Direction)
    ensures Click(m % 100, dir) == if dir == Left then (m - 1) % 100 else (m + 1) % 100
  {
    var q, r := m / 100, m % 100;
    if dir == Left {
      DivModUnique(m - 1, if r == 0 then q - 1 else q, if r == 0 then 99 else r - 1, 100);
    } else {
      DivModUnique(m + 1, if r == 99 then q + 1 else q, if r == 99 then 0 else r + 1, 100);
    }
  }

  /** A turn has the same effect as turning the dial one click at a time, so a turn
      by `count` and a turn by `count % 100` end at the same place. */
  lemma TurnIsClicks(pos: nat, ins: Instruction)
    requires pos < Positions
    ensures Turn(pos, ins) == Clicks(pos, ins.dir, ins.count)
    ensures Turn(pos, ins) == Clicks(pos, ins.dir, ins.count % 100)
  {
    ClicksClosedForm(pos, ins.dir, ins.count);
    ClicksClosedForm(pos, ins.dir, ins.count % 100);
    var q, c := ins.count / 100, ins.count % 100;
    assert ins.count == 100 * q + c;
    if ins.dir == Left {
      assert Turn(pos, ins) == (pos + 100 - c) % 100;
      ModShift(pos - ins.count, q + 1, pos + 100 - c);
      ModShift(pos - c, 1, pos + 100 - c);
    } else {
      assert Turn(pos, ins) == (pos + c) % 100;
      ModShift(pos + c, q, pos + ins.count);
    }
  }

  /** Adding a multiple of 100 leaves the remainder by 100 unchanged. */
  lemma ModShift(a: int, k: int, b: int)
    requires b == a + 100 * k
    ensures b % 100 == a % 100
  {
    DivModUnique(b, a / 100 + k, a % 100, 100);
  }

  /** The position after the first k instructions. */
  function PosAt(list: seq<Instruction>, k: nat): (p: nat)
    requires k <= |list|
    ensures p < Positions
  {
    if k == 0 then Start else Turn(PosAt(list, k - 1), list[k - 1])
  }

  /** How many of the first k instructions leave the dial at 0. */
  function Landings(list: seq<Instruction>, k: nat): nat
    requires k <= |list|
  {
    if k == 0 then 0 else Landings(list, k - 1) + (if PosAt(list, k) == 0 then 1 else 0)
  }

  /** The instructions (numbered from 1) after which the dial shows 0. */
  function LandingSet(list: seq<Instruction>, k: nat): set<nat>
    requires k <= |list|
  {
    set j: nat | 1 <= j <= k && PosAt(list, j) == 0
  }

  /** `Landings` counts exactly the instructions after which the dial shows 0, so
      there are at most as many as instructions. */
  lemma {:induction false} LandingsAreLandingSet(list: seq<Instruction>, k: nat)
    requires k <= |list|
    ensures Landings(list, k) == |LandingSet(list, k)|
    ensures Landings(list, k) <= k
  {
    if k > 0 {
      LandingsAreLandingSet(list, k - 1);
      var before := LandingSet(list, k - 1);
      assert k !in before;
      if PosAt(list, k) == 0 {
        assert LandingSet(list, k) == before + {k};
      } else {
        assert LandingSet(list, k) == before;
      }
    } else {
      assert LandingSet(list, k) == {};
    }
  }

  /** `execute`: counts the instructions after which the dial shows 0. */
  method Execute(list: seq<Instruction>) returns (zeroes: nat)
    ensures zeroes == Landings(list, |list|)
    ensures zeroes <= |list|
  {
    zeroes := 0;
    var pos: nat := Start;
    for i := 0 to |list|
      invariant pos == PosAt(list, i)
      invariant zeroes == Landings(list, i)
    {
      var instr := list[i];
      var c := instr.count % 100;
      pos := match instr.dir
        case Left => (pos + 100 - c) % 100
        case Right => (pos + c) % 100;
      if pos == 0 {
        zeroes := zeroes + 1;
      }
    }
    LandingsAreLandingSet(list, |list|);
  }

  /** What `execute_p2` adds for one instruction from `pos`: one per full turn, and
      one more if the rest of the turn ends on 0 or wraps past 0 from a non-zero
      start. */
  function PassCount(pos: nat, ins: Instruction): nat
    requires pos < Positions
  {
    var newPos := Turn(pos, ins);
    ins.count / 100
      + match ins.dir
        case Left => if newPos == 0 || (newPos > pos && pos > 0) then 1 else 0
        case Right => if newPos == 0 || (newPos < pos && pos > 0) then 1 else 0
  }

  /** `execute_p2`'s total over the first k instructions. */
  function Passes(list: seq<Instruction>, k: nat): nat
    requires k <= |list|
  {
    if k == 0 then 0 else Passes(list, k - 1) + PassCount(PosAt(list, k - 1), list[k - 1])
  }

  /** `execute_p2`: full turns plus the partial turns that reach 0. */
  method ExecuteP2(list: seq<Instruction>) returns (zeroes: nat)
    ensures zeroes == Passes(list, |list|)
    ensures zeroes >= Landings(list, |list|)
  {
    zeroes := 0;
    var pos: nat := Start;
    for i := 0 to |list|
      invariant pos == PosAt(list, i)
      invariant zeroes == Passes(list, i)
    {
      var instr := list[i];
      var c := instr.count % 100;
      zeroes := zeroes + instr.count / 100;
      var newPos := match instr.dir
        case Left => (pos + 100 - c) % 100
        case Right => (pos + c) % 100;
      zeroes := zeroes + match instr.dir
        case Left => if newPos == 0 || (newPos > pos && pos > 0) then 1 else 0
        case Right => if newPos == 0 || (newPos < pos && pos > 0) then 1 else 0;
      pos := newPos;
    }
    PassesAtLeastLandings(list, |list|);
  }

  /** Every landing on 0 is also counted by `execute_p2`. */
  lemma {:induction false} PassesAtLeastLandings(list: seq<Instruction>, k: nat)
    requires k <= |list|
    ensures Passes(list, k) >= Landings(list, k)
  {
    if k > 0 {
      PassesAtLeastLandings(list, k - 1);
    }
  }

  /** The number of single clicks among the first n from `pos` after which the dial
      shows 0. */
  function ClickZeros(pos: nat, dir: Direction, n: nat): nat
    requires pos < Positions
  {
    if n == 0 then 0 else ClickZeros(pos, dir, n - 1) + (if Clicks(pos, dir, n) == 0 then 1 else 0)
  }

  /** Counting zeros click by click: turning right from `pos` passes 0 once per
      multiple of 100 in (pos, pos + n]; turning left, once per multiple of 100 in
      [pos - n, pos). */
  lemma {:induction false} ClickZerosClosedForm(pos: nat, dir: Direction, n: nat)
    requires pos < Positions
    ensures ClickZeros(pos, dir, n)
            == if dir == Right then (pos + n) / 100
               else if pos == 0 then n / 100
               else (n + 100 - pos) / 100
  {
    if n > 0 {
      ClickZerosClosedForm(pos, dir, n - 1);
      ClicksClosedForm(pos, dir, n);
      var m := if dir == Right then pos + n else if pos == 0 then n else n + 100 - pos;
      QuotientStep(m);
      if dir == Left {
        ModZeroReflect(pos - n, if pos == 0 then 0 else 1);
      }
    }
  }

  /** m - 1 and m share a quotient by 100 unless m is a multiple of 100. */
  lemma QuotientStep(m: nat)
    requires m >= 1
    ensures m / 100 == (m - 1) / 100 + (if m % 100 == 0 then 1 else 0)
  {
    var q, r := (m - 1) / 100, (m - 1) % 100;
    DivModUnique(m, if r == 99 then q + 1 else q, if r == 99 then 0 else r + 1, 100);
  }

  /** x is a multiple of 100 exactly when 100 * t - x is. */
  lemma ModZeroReflect(x: int, t: int)
    ensures x % 100 == 0 <==> (100 * t - x) % 100 == 0
  {
    var a, r := x / 100, x % 100;
    if r == 0 {
      DivModUnique(100 * t - x, t - a, 0, 100);
    } else {
      DivModUnique(100 * t - x, t - a - 1, 100 - r, 100);
    }
  }

  /** The partial-turn rule of `execute_p2` agrees with counting single clicks,
      except for a turn by a multiple of 100 that starts at 0. */
  lemma PassCountIsClickZeros(pos: nat, ins: Instruction)
    requires pos < Positions
    requires !(pos == 0 && ins.count % 100 == 0)
    ensures PassCount(pos, ins) == ClickZeros(pos, ins.dir, ins.count)
  {
    ClickZerosClosedForm(pos, ins.dir, ins.count);
    var q, c := ins.count / 100, ins.count % 100;
    if ins.dir == Right {
      var t := pos + c;
      BelowTwoHundred(t);
      DivModUnique(pos + ins.count, q + t / 100, t % 100, 100);
    } else if pos > 0 {
      var t := c + 100 - pos;
      BelowTwoHundred(t);
      BelowTwoHundred(pos + 100 - c);
      DivModUnique(ins.count + 100 - pos, q + t / 100, t % 100, 100);
    }
  }

  /** Quotient and remainder by 100 of a number below 200. */
  lemma BelowTwoHundred(t: int)
    requires 0 <= t < 200
    ensures t / 100 == (if t >= 100 then 1 else 0)
    ensures t % 100 == (if t >= 100 then t - 100 else t)
  {
    if t >= 100 {
      DivModUnique(t, 1, t - 100, 100);
    } else {
      DivModUnique(t, 0, t, 100);
    }
  }

  /** The zeros shown, click by click, during the first k instructions. */
  function ClickTotal(list: seq<Instruction>, k: nat): nat
    requires k <= |list|
  {
    if k == 0 then 0 else ClickTotal(list, k - 1) + ClickZeros(PosAt(list, k - 1), list[k - 1].dir, list[k - 1].count)
  }

  /** No instruction turns the dial by a multiple of 100 while it shows 0. */
  predicate NoIdleTurnAtZero(list: seq<Instruction>, k: nat)
    requires k <= |list|
  {
    forall j :: 0 <= j < k ==> !(PosAt(list, j) == 0 && list[j].count % 100 == 0)
  }

  /** Away from that case, `execute_p2` counts exactly the clicks that show 0. */
  lemma {:induction false} PassesAreClickZeros(list: seq<Instruction>, k: nat)
    requires k <= |list|
    requires NoIdleTurnAtZero(list, k)
    ensures Passes(list, k) == ClickTotal(list, k)
  {
    if k > 0 {
      PassesAreClickZeros(list, k - 1);
      PassCountIsClickZeros(PosAt(list, k - 1), list[k - 1]);
    }
  }

  /** The counterexample: turning right by 100 from 0 passes 0 once, but
      `execute_p2` counts it twice. */
  lemma IdleTurnOvercounts()
    ensures var list := [Instruction(Left, 50), Instruction(Right, 100)];
            PosAt(list, 1) == 0 && Passes(list, 2) == 3 && ClickTotal(list, 2) == 2
  {
    var list := [Instruction(Left, 50), Instruction(Right, 100)];
    assert PosAt(list, 1) == Turn(50, list[0]) == 0;
    assert PosAt(list, 2) == Turn(0, list[1]) == 0;
    assert PassCount(50, list[0]) == 1 && PassCount(0, list[1]) == 2;
    assert Passes(list, 2) == PassCount(50, list[0]) + PassCount(0, list[1]);
    ClickZerosClosedForm(50, Left, 50);
    ClickZerosClosedForm(0, Right, 100);
    assert ClickTotal(list, 2) == ClickZeros(50, Left, 50) + ClickZeros(0, Right, 100);
  }

  /** The partial-turn rule with the start at 0 excluded: a partial turn that
      starts at 0 never reaches 0 again. */
  function FixedPassCount(pos: nat, ins: Instruction): nat
    requires pos < Positions
  {
    var newPos := Turn(pos, ins);
    ins.count / 100
      + match ins.dir
        case Left => if pos > 0 && (newPos == 0 || newPos > pos) then 1 else 0
        case Right => if pos > 0 && (newPos == 0 || newPos < pos) then 1 else 0
  }

  /** The corrected rule counts each click that shows 0, on every input. */
  lemma FixedPassCountIsClickZeros(pos: nat, ins: Instruction)
    requires pos < Positions
    ensures FixedPassCount(pos, ins) == ClickZeros(pos, ins.dir, ins.count)
  {
    if pos == 0 && ins.count % 100 == 0 {
      ClickZerosClosedForm(pos, ins.dir, ins.count);
    } else {
      PassCountIsClickZeros(pos, ins);
    }
  }

  /** `execute_p2` with the corrected rule: the number of clicks that leave the
      dial at 0. */
  method FixedExecuteP2(list: seq<Instruction>) returns (zeroes: nat)
    ensures zeroes == ClickTotal(list, |list|)
  {
    zeroes := 0;
    var pos: nat := Start;
    for i := 0 to |list|
      invariant pos == PosAt(list, i)
      invariant zeroes == ClickTotal(list, i)
    {
      var instr := list[i];
      var c := instr.count % 100;
      zeroes := zeroes + instr.count / 100;
      var newPos := match instr.dir
        case Left => (pos + 100 - c) % 100
        case Right => (pos + c) % 100;
      zeroes := zeroes + match instr.dir
        case Left => if pos > 0 && (newPos == 0 || newPos > pos) then 1 else 0
        case Right => if pos > 0 && (newPos == 0 || newPos < pos) then 1 else 0;
      FixedPassCountIsClickZeros(pos, instr);
      pos := newPos;
    }
  }

  /** The ten instructions of the worked example. */
  const Example: seq<Instruction> := [
    Instruction(Left, 68), Instruction(Left, 30), Instruction(Right, 48), Instruction(Left, 5),
    Instruction(Right, 60), Instruction(Left, 55), Instruction(Left, 1), Instruction(Left, 99),
    Instruction(Right, 14), Instruction(Left, 82)]

  /** On the worked example the dial lands on 0 three times and shows 0 six times. */
  lemma ExampleCounts()
    ensures Landings(Example, 10) == 3
    ensures Passes(Example, 10) == 6
  {
    assert PosAt(Example, 1) == 82;
    assert PosAt(Example, 2) == 52;
    assert PosAt(Example, 3) == 0;
    assert PosAt(Example, 4) == 95;
    assert PosAt(Example, 5) == 55;
    assert PosAt(Example, 6) == 0;
    assert PosAt(Example, 7) == 99;
    assert PosAt(Example, 8) == 0;
    assert PosAt(Example, 9) == 14;
    assert PosAt(Example, 10) == 32;
  }
}

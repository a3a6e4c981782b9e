/** Day 1: a dial numbered 0..99, turned left (`L`) or right (`R`) by the
    distance on each input line.  Part A counts the turns that end on 0;
    part B counts every click that passes or lands on 0. */
module Day1 {
  import opened Wrappers
  import opened RustInt
  import opened Text

  const I32_MIN: int := -0x8000_0000
  const I32_MAX: int := 0x7fff_ffff
  const LEFT: byte := 76
  const RIGHT: byte := 82
  /** The dial's starting position. */
  const START: int := 50

  /** `str::parse::<i32>()`: a signed decimal in the `i32` range. */
  function ParseI32(s: Bytes): (r: Option<int>)
    ensures r.Some? ==> ParseSigned(s) == Some(r.value) && I32_MIN <= r.value <= I32_MAX
    ensures r.None? ==> ParseSigned(s).None? || ParseSigned(s).value < I32_MIN || ParseSigned(s).value > I32_MAX
  {
    match ParseSigned(s)
    case Some(v) => if I32_MIN <= v <= I32_MAX then Some(v) else None
    case None => None
  }

  /** One non-empty line: `split_at(1)`, the distance parsed as `i32`
      (`unwrap` panics otherwise), negated for `L`.  Negating `i32::MIN`
      overflows. */
  function LineDelta(line: Bytes): (r: Result<int>)
    requires line != []
    ensures r.Ok? ==> I32_MIN < r.value <= I32_MAX || (line[0] != LEFT && r.value == I32_MIN)
  {
    match ParseI32(line[1..])
    case None => Panic("called `Result::unwrap()` on an `Err` value")
    case Some(d) =>
      if line[0] == LEFT then
        if d == I32_MIN then Panic("attempt to negate with overflow") else Ok(-d)
      else Ok(d)
  }

  /** `lines_to_deltas`: empty lines are skipped, the others converted in
      order; any line that fails to convert panics. */
  function LinesToDeltas(lines: seq<Bytes>): (r: Result<seq<int>>)
    ensures r.Panic? <==> exists k :: 0 <= k < |lines| && lines[k] != [] && LineDelta(lines[k]).Panic?
    ensures r.Ok? ==> |r.value| == |NonEmpty(lines)|
    ensures r.Ok? ==> forall k :: 0 <= k < |r.value| ==> LineDelta(NonEmpty(lines)[k]) == Ok(r.value[k])
  {
    if lines == [] then Ok([])
    else
      var rest := LinesToDeltas(lines[1..]);
      if lines[0] == [] then
        assert forall k :: 1 <= k < |lines| ==> lines[k] == lines[1..][k - 1];
        rest
      else
        match LineDelta(lines[0])
        case Panic(why) => Panic(why)
        case Ok(d) =>
          match rest
          case Panic(why) =>
            assert forall k :: 1 <= k < |lines| ==> lines[k] == lines[1..][k - 1];
            Panic(why)
          case Ok(ds) =>
            assert forall k :: 1 <= k < |lines| ==> lines[k] == lines[1..][k - 1];
            Ok([d] + ds)
  }

  /** The line that spells a delta: `L` for a left turn, `R` otherwise. */
  function Instruction(d: int): (line: Bytes)
    ensures line != [] && (line[0] == LEFT <==> d < 0)
  {
    (if d < 0 then [LEFT] else [RIGHT]) + Decimal(Abs(d))
  }

  /** Reading back a written instruction gives its delta. */
  lemma LineDeltaOfInstruction(d: int)
    requires I32_MIN < d <= I32_MAX
    ensures LineDelta(Instruction(d)) == Ok(d)
  {
    var line := Instruction(d);
    assert line[1..] == Decimal(Abs(d));
    DecimalParses(Abs(d));
  }

  /** Any first character other than `L` keeps the distance positive. */
  lemma NonLeftIsRight(c: byte, s: Bytes)
    requires c != LEFT && ParseI32(s).Some?
    ensures LineDelta([c] + s) == Ok(ParseI32(s).value)
  {
    assert ([c] + s)[1..] == s;
  }

  /** Written instructions read back as the deltas they were written from. */
  lemma {:induction false} LinesToDeltasOfInstructions(ds: seq<int>)
    requires forall k :: 0 <= k < |ds| ==> I32_MIN < ds[k] <= I32_MAX
    ensures LinesToDeltas(seq(|ds|, k requires 0 <= k < |ds| => Instruction(ds[k]))) == Ok(ds)
  {
    var lines := seq(|ds|, k requires 0 <= k < |ds| => Instruction(ds[k]));
    if ds != [] {
      LineDeltaOfInstruction(ds[0]);
      LinesToDeltasOfInstructions(ds[1..]);
      assert lines[1..] == seq(|ds[1..]|, k requires 0 <= k < |ds[1..]| => Instruction(ds[1..][k]));
      assert ds == [ds[0]] + ds[1..];
    }
  }

  // ---- Part A ----

  /** One turn of the dial: `dial += delta`, then add 100 while negative and
      take the remainder by 100. */
  function Turn(dial: int, delta: int): (d: int)
    ensures 0 <= d < 100
    ensures (dial + delta - d) % 100 == 0
  {
    (dial + delta) % 100
  }

  /** The dial after the given turns. */
  function DialAfter(start: int, deltas: seq<int>): (d: int)
    ensures 0 <= start < 100 ==> 0 <= d < 100
  {
    if deltas == [] then start
    else Turn(DialAfter(start, deltas[..|deltas| - 1]), deltas[|deltas| - 1])
  }

  /** The number of turns that end with the dial on 0. */
  function ZerosA(start: int, deltas: seq<int>): nat
  {
    if deltas == [] then 0
    else ZerosA(start, deltas[..|deltas| - 1]) + (if DialAfter(start, deltas) == 0 then 1 else 0)
  }

  function Sum(xs: seq<int>): int
  {
    if xs == [] then 0 else Sum(xs[..|xs| - 1]) + xs[|xs| - 1]
  }

  /** After any non-empty run of turns the dial shows the starting position
      plus all deltas, modulo 100. */
  lemma {:induction false} DialAfterIsSum(start: int, deltas: seq<int>)
    requires deltas != []
    ensures DialAfter(start, deltas) == (start + Sum(deltas)) % 100
  {
    var pre := deltas[..|deltas| - 1];
    var last := deltas[|deltas| - 1];
    if pre != [] {
      DialAfterIsSum(start, pre);
      ModAdd(start + Sum(pre), last);
    }
  }

  lemma ModAdd(x: int, y: int)
    ensures (x % 100 + y) % 100 == (x + y) % 100
  {
    assert x == 100 * (x / 100) + x % 100;
    assert x % 100 + y == (x + y) - 100 * (x / 100);
  }

  lemma AddHundred(x: int)
    ensures (x + 100) % 100 == x % 100
  {
    ModAdd(x, 100);
  }

  /** `part_a` on the input lines. */
  method PartA(lines: seq<Bytes>) returns (r: Result<int>)
    ensures LinesToDeltas(lines).Panic? <==> r.Panic?
    ensures r.Ok? ==> r.value == ZerosA(START, LinesToDeltas(lines).value)
  {
    var parsed := LinesToDeltas(lines);
    if parsed.Panic? {
      return Panic(parsed.why);
    }
    var instructions := parsed.value;
    var dial := START;
    var zeroCounter := 0;
    for i := 0 to |instructions|
      invariant dial == DialAfter(START, instructions[..i])
      invariant zeroCounter == ZerosA(START, instructions[..i])
    {
      assert instructions[..i + 1][..i] == instructions[..i];
      dial := TurnDial(dial, instructions[i]);
      if dial == 0 {
        zeroCounter := zeroCounter + 1;
      }
    }
    assert instructions[..|instructions|] == instructions;
    return Ok(zeroCounter);
  }

  /** One turn of `part_a`'s loop: add the delta, add 100 while negative,
      then reduce modulo 100. */
  method TurnDial(dial: int, delta: int) returns (d: int)
    ensures d == Turn(dial, delta)
  {
    d := dial + delta;
    while d < 0
      invariant d % 100 == (dial + delta) % 100
      decreases -d
    {
      AddHundred(d);
      d := d + 100;
    }
    d := d % 100;
  }

  // ---- Part B ----

  /** One instruction of `part_b` as written: whole turns of 100 each count
      once, then the truncated remainder is applied; a wrap above 99 counts,
      a wrap below 0 counts unless the dial started at 0, and landing on 0
      counts. */
  function StepB(dial: int, delta: int): (r: (int, nat))
    requires 0 <= dial < 100
    ensures r.0 == Turn(dial, delta)
  {
    var wholeLoops := Abs(TruncDiv(delta, 100));
    var remainder := TruncRem(delta, 100);
    var d := dial + remainder;
    RemainderTurn(dial, delta);
    if d > 99 then (d - 100, wholeLoops + 1)
    else if d < 0 then (d + 100, wholeLoops + (if dial != 0 then 1 else 0))
    else if d == 0 then (d, wholeLoops + 1)
    else (d, wholeLoops)
  }

  /** Applying only the truncated remainder of a delta turns the dial to
      the same position as the whole delta. */
  lemma RemainderTurn(dial: int, delta: int)
    requires 0 <= dial < 100
    ensures -100 < dial + TruncRem(delta, 100) < 200
    ensures (dial + TruncRem(delta, 100)) % 100 == Turn(dial, delta)
  {
    var q := TruncDiv(delta, 100);
    var rem := TruncRem(delta, 100);
    HundredRem(delta);
    ShiftByHundreds(dial + rem, q);
  }

  /** The truncated remainder by 100 is `delta` less a multiple of 100, and
      lies strictly between -100 and 100. */
  lemma HundredRem(delta: int)
    ensures delta == 100 * TruncDiv(delta, 100) + TruncRem(delta, 100)
    ensures -100 < TruncRem(delta, 100) < 100
  {
    TruncDivRem(delta, 100);
  }

  lemma ShiftByHundreds(x: int, q: int)
    ensures (x + 100 * q) % 100 == x % 100
  {
    ModAdd(x, 100 * q);
    assert x % 100 + 100 * q == 100 * q + x % 100;
  }

  /** The `part_b` dial after the given instructions. */
  function DialB(start: int, deltas: seq<int>): (d: int)
    requires 0 <= start < 100
    ensures 0 <= d < 100
  {
    if deltas == [] then start
    else StepB(DialB(start, deltas[..|deltas| - 1]), deltas[|deltas| - 1]).0
  }

  /** The `part_b` counter after the given instructions. */
  function ZerosB(start: int, deltas: seq<int>): nat
    requires 0 <= start < 100
  {
    if deltas == [] then 0
    else
      var pre := deltas[..|deltas| - 1];
      ZerosB(start, pre) + StepB(DialB(start, pre), deltas[|deltas| - 1]).1
  }

  /** Both parts move the dial the same way. */
  lemma {:induction false} DialsAgree(start: int, deltas: seq<int>)
    requires 0 <= start < 100
    ensures DialB(start, deltas) == DialAfter(start, deltas)
  {
    if deltas != [] {
      DialsAgree(start, deltas[..|deltas| - 1]);
    }
  }

  /** The truncated remainder has the sign of the delta and lies strictly
      between -100 and 100; the whole turns are its truncated quotient. */
  lemma RemainderSign(delta: int)
    ensures -100 < TruncRem(delta, 100) < 100
    ensures delta >= 0 ==> TruncRem(delta, 100) >= 0
    ensures delta <= 0 ==> TruncRem(delta, 100) <= 0
    ensures delta == 100 * TruncDiv(delta, 100) + TruncRem(delta, 100)
    ensures Abs(TruncDiv(delta, 100)) == Abs(delta) / 100
  {
    TruncDivRem(delta, 100);
  }

  /** `part_b` on the input lines. */
  method PartB(lines: seq<Bytes>) returns (r: Result<int>)
    ensures LinesToDeltas(lines).Panic? <==> r.Panic?
    ensures r.Ok? ==> r.value == ZerosB(START, LinesToDeltas(lines).value)
  {
    var parsed := LinesToDeltas(lines);
    if parsed.Panic? {
      return Panic(parsed.why);
    }
    var instructions := parsed.value;
    var dial := START;
    var zeroCounter := 0;
    for i := 0 to |instructions|
      invariant 0 <= dial < 100
      invariant dial == DialB(START, instructions[..i])
      invariant zeroCounter == ZerosB(START, instructions[..i])
    {
      assert instructions[..i + 1][..i] == instructions[..i];
      var instruction := instructions[i];
      var wholeLoops := Abs(TruncDiv(instruction, 100));
      var remainder := TruncRem(instruction, 100);
      RemainderSign(instruction);
      zeroCounter := zeroCounter + wholeLoops;
      var start := dial;
      dial := dial + remainder;
      if dial > 99 {
        dial := dial - 100;
        zeroCounter := zeroCounter + 1;
      } else if dial < 0 {
        dial := dial + 100;
        if start != 0 {
          zeroCounter := zeroCounter + 1;
        }
      } else if dial == 0 {
        zeroCounter := zeroCounter + 1;
      }
    }
    assert instructions[..|instructions|] == instructions;
    return Ok(zeroCounter);
  }

  // ---- What part B is meant to count ----

  /** The clicks of one turn, one unit at a time, that leave the dial on 0. */
  function Hits(dial: int, delta: int): nat
    decreases Abs(delta)
  {
    if delta == 0 then 0
    else (if (dial + delta) % 100 == 0 then 1 else 0) + Hits(dial, if delta > 0 then delta - 1 else delta + 1)
  }

  /** All clicks on 0 over a run of turns. */
  function TotalHits(start: int, deltas: seq<int>): nat
  {
    if deltas == [] then 0
    else
      var pre := deltas[..|deltas| - 1];
      TotalHits(start, pre) + Hits(DialAfter(start, pre), deltas[|deltas| - 1])
  }

  lemma DivStep(x: int)
    ensures x / 100 == (x - 1) / 100 + (if x % 100 == 0 then 1 else 0)
  {
    var q, r := x / 100, x % 100;
    assert x == 100 * q + r;
    if r > 0 {
      assert x - 1 == 100 * q + (r - 1);
    } else {
      assert x - 1 == 100 * (q - 1) + 99;
    }
  }

  /** Turning right by `n` clicks passes the multiples of 100 in
      `(dial, dial + n]`. */
  lemma {:induction false} HitsRight(dial: int, n: nat)
    ensures Hits(dial, n) == (dial + n) / 100 - dial / 100
  {
    if n > 0 {
      HitsRight(dial, n - 1);
      DivStep(dial + n);
    }
  }

  /** Turning left by `m` clicks passes the multiples of 100 in
      `[dial - m, dial)`. */
  lemma {:induction false} HitsLeft(dial: int, m: nat)
    ensures Hits(dial, -(m as int)) == (dial - 1) / 100 - (dial - 1 - m) / 100
  {
    if m > 0 {
      HitsLeft(dial, m - 1);
      DivStep(dial - m);
    }
  }

  /** The step as written counts exactly the clicks on 0, except when the
      dial starts on 0 and the delta is a multiple of 100. */
  lemma StepBCountsHits(dial: int, delta: int)
    requires 0 <= dial < 100
    ensures !(dial == 0 && TruncRem(delta, 100) == 0) ==> StepB(dial, delta).1 == Hits(dial, delta)
    ensures dial == 0 && TruncRem(delta, 100) == 0 ==> StepB(dial, delta).1 == Hits(dial, delta) + 1
  {
    RemainderSign(delta);
    var w, rem := TruncDiv(delta, 100), TruncRem(delta, 100);
    if delta >= 0 {
      HitsRight(dial, delta);
      assert dial + delta == 100 * w + (dial + rem);
    } else {
      HitsLeft(dial, -delta);
      assert dial - 1 + delta == 100 * w + (dial - 1 + rem);
    }
  }

  /** An input that shows the overcount: from 50, `L50` lands on 0 once,
      then `R100` passes 0 once more, yet `part_b` reports 3. */
  lemma OvercountExample()
    ensures ZerosB(START, [-50, 100]) == 3
    ensures TotalHits(START, [-50, 100]) == 2
  {
    assert [-50, 100][..1] == [-50];
    assert [-50][..0] == [];
    StepBCountsHits(50, -50);
    StepBCountsHits(0, 100);
    HitsRight(0, 100);
    HitsLeft(50, 50);
  }

  /** The step with the landing count restricted to turns that did not
      start on 0. */
  function StepBFixed(dial: int, delta: int): (r: (int, nat))
    requires 0 <= dial < 100
    ensures r.0 == Turn(dial, delta)
    ensures r.1 == Hits(dial, delta)
  {
    var wholeLoops := Abs(TruncDiv(delta, 100));
    var remainder := TruncRem(delta, 100);
    var d := dial + remainder;
    StepBCountsHits(dial, delta);
    if d > 99 then (d - 100, wholeLoops + 1)
    else if d < 0 then (d + 100, wholeLoops + (if dial != 0 then 1 else 0))
    else if d == 0 && dial != 0 then (d, wholeLoops + 1)
    else (d, wholeLoops)
  }

  /** The corrected part B counter. */
  function ZerosBFixed(start: int, deltas: seq<int>): nat
    requires 0 <= start < 100
  {
    if deltas == [] then 0
    else
      var pre := deltas[..|deltas| - 1];
      ZerosBFixed(start, pre) + StepBFixed(DialAfter(start, pre), deltas[|deltas| - 1]).1
  }

  /** The corrected counter counts every click on 0. */
  lemma {:induction false} ZerosBFixedCountsHits(start: int, deltas: seq<int>)
    requires 0 <= start < 100
    ensures ZerosBFixed(start, deltas) == TotalHits(start, deltas)
  {
    if deltas != [] {
      var pre := deltas[..|deltas| - 1];
      ZerosBFixedCountsHits(start, pre);
    }
  }
}

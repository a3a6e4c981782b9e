/** Day 2: product ID ranges `a-b`, separated by commas.  Part A sums the
    IDs whose decimal spelling is some digit string written twice; part B
    sums the IDs whose spelling is a digit string written two or more
    times. */
module Day2 {
  import opened Wrappers
  import opened RustInt
  import opened Text
  import DecimalDigitsIter

  const COMMA: byte := 44
  const U64: nat := 0x1_0000_0000_0000_0000

  /** `str::parse::<u64>()`. */
  function ParseU64(s: Bytes): (r: Option<nat>)
    ensures r.Some? <==> ParseUnsigned(s).Some? && ParseUnsigned(s).value < U64
    ensures r.Some? ==> r.value == ParseUnsigned(s).value
  {
    match ParseUnsigned(s)
    case Some(v) => if v < U64 then Some(v) else None
    case None => None
  }

  /** `parse_pair`: trim, split at the first `-`, parse both sides; every
      failure is an `unwrap` panic. */
  function ParsePair(piece: Bytes): (r: Result<(nat, nat)>)
    ensures MINUS !in Trim(piece) ==> r.Panic?
    ensures r.Ok? ==> r.value.0 < U64 && r.value.1 < U64
  {
    match SplitOnce(Trim(piece), MINUS)
    case None => Panic("called `Option::unwrap()` on a `None` value")
    case Some((a, b)) =>
      match (ParseU64(a), ParseU64(b))
      case (Some(start), Some(stop)) => Ok((start, stop))
      case _ => Panic("called `Result::unwrap()` on an `Err` value")
  }

  /** `get_pairs` on the file contents: split on `,`, drop empty pieces and
      parse the rest. */
  function GetPairs(contents: Bytes): (r: Result<seq<(nat, nat)>>)
    ensures r.Ok? ==> |r.value| == |NonEmpty(Split(contents, COMMA))|
  {
    MapAll(ParsePair, NonEmpty(Split(contents, COMMA)))
  }

  /** A range as the input writes it. */
  function PairText(p: (nat, nat)): (t: Bytes)
    ensures COMMA !in t && t != []
  {
    Decimal(p.0) + [MINUS] + Decimal(p.1)
  }

  /** Each range written out. */
  function Texts(ps: seq<(nat, nat)>): (ts: seq<Bytes>)
    ensures |ts| == |ps| && forall k :: 0 <= k < |ps| ==> ts[k] == PairText(ps[k])
  {
    if ps == [] then [] else [PairText(ps[0])] + Texts(ps[1..])
  }

  /** Ranges joined by commas. */
  function PairsText(ps: seq<(nat, nat)>): Bytes
    requires ps != []
  {
    if |ps| == 1 then PairText(ps[0]) else PairText(ps[0]) + [COMMA] + PairsText(ps[1..])
  }

  /** A written range parses back to itself. */
  lemma ParsePairOfText(p: (nat, nat))
    requires p.0 < U64 && p.1 < U64
    ensures ParsePair(PairText(p)) == Ok(p)
  {
    var a, b := Decimal(p.0), Decimal(p.1);
    var t := PairText(p);
    assert !IsWhitespace(t[0]) && !IsWhitespace(t[|t| - 1]);
    TrimNoop(t);
    assert MINUS !in a;
    FirstSeparator(a, MINUS, b);
    assert t[..|a|] == a && t[|a| + 1..] == b;
    DecimalParses(p.0);
    DecimalParses(p.1);
  }

  lemma {:induction false} SplitPairsText(ps: seq<(nat, nat)>)
    requires ps != []
    ensures Split(PairsText(ps), COMMA) == Texts(ps)
    decreases |ps|
  {
    if |ps| == 1 {
      SplitNoSep(PairText(ps[0]), COMMA);
    } else {
      SplitCons(PairText(ps[0]), COMMA, PairsText(ps[1..]));
      SplitPairsText(ps[1..]);
    }
  }

  lemma {:induction false} ParsePairsOfText(ps: seq<(nat, nat)>)
    requires forall k :: 0 <= k < |ps| ==> ps[k].0 < U64 && ps[k].1 < U64
    ensures var texts := Texts(ps);
            NonEmpty(texts) == texts && MapAll(ParsePair, texts) == Ok(ps)
  {
    if ps != [] {
      ParsePairOfText(ps[0]);
      ParsePairsOfText(ps[1..]);
      assert Texts(ps)[1..] == Texts(ps[1..]);
      assert ps == [ps[0]] + ps[1..];
    }
  }

  /** Written ranges read back as the ranges they were written from. */
  lemma GetPairsOfText(ps: seq<(nat, nat)>)
    requires ps != []
    requires forall k :: 0 <= k < |ps| ==> ps[k].0 < U64 && ps[k].1 < U64
    ensures GetPairs(PairsText(ps)) == Ok(ps)
  {
    SplitPairsText(ps);
    ParsePairsOfText(ps);
  }

  // ---- The two notions of an invalid ID ----

  /** Part A: an even number of digits, first half equal to the second. */
  predicate IsDoubled(x: nat)
  {
    var s := Decimal(x);
    |s| % 2 == 0 && s[..|s| / 2] == s[|s| / 2..]
  }

  /** `first.cycle().take(n)`. */
  function Cycle(first: Bytes, n: nat): (r: Bytes)
    requires first != []
    ensures |r| == n && forall i :: 0 <= i < n ==> r[i] == first[i % |first|]
  {
    seq(n, i requires 0 <= i < n => first[i % |first|])
  }

  /** The check for one segment length in `part_b`. */
  predicate RepeatsWith(s: Bytes, segment: nat)
  {
    1 <= segment < |s| && (|s| - segment) % segment == 0 && Cycle(s[..segment], |s| - segment) == s[segment..]
  }

  /** Part B: the spelling is a shorter prefix repeated. */
  predicate IsRepeated(x: nat)
  {
    var s := Decimal(x);
    exists segment :: 1 <= segment < |s| && RepeatsWith(s, segment)
  }

  lemma ModShift(j: nat, l: nat)
    requires l > 0
    ensures (l + j) % l == j % l
  {
    NatDivMod(j, l);
    DivUnique(l + j, l, j / l + 1, j % l);
  }

  /** A segment length works iff it divides the length and the spelling has
      that period. */
  lemma RepeatsWithIsPeriodic(s: Bytes, segment: nat)
    requires 1 <= segment < |s|
    ensures RepeatsWith(s, segment) <==> IsPeriodic(s, segment)
  {
    if RepeatsWith(s, segment) {
      RepeatsWithPeriodic(s, segment);
    }
    if IsPeriodic(s, segment) {
      PeriodicRepeatsWith(s, segment);
    }
  }

  /** `s` is its first `segment` bytes written `|s| / segment` times. */
  predicate IsPeriodic(s: Bytes, segment: nat)
    requires segment >= 1
  {
    |s| % segment == 0 && forall i :: 0 <= i < |s| ==> s[i] == s[i % segment]
  }

  lemma RepeatsWithPeriodic(s: Bytes, segment: nat)
    requires RepeatsWith(s, segment)
    ensures IsPeriodic(s, segment)
  {
    var n := |s| - segment;
    ModShift(n, segment);
    assert segment + n == |s|;
    var c := Cycle(s[..segment], n);
    forall i | 0 <= i < |s| ensures s[i] == s[i % segment] {
      if i >= segment {
        var j := i - segment;
        ModShift(j, segment);
        assert segment + j == i;
        assert s[i] == c[j];
        assert c[j] == s[..segment][j % segment];
      } else {
        DivUnique(i, segment, 0, i);
      }
    }
  }

  lemma PeriodicRepeatsWith(s: Bytes, segment: nat)
    requires 1 <= segment < |s| && IsPeriodic(s, segment)
    ensures RepeatsWith(s, segment)
  {
    var n := |s| - segment;
    ModShift(n, segment);
    forall j | 0 <= j < n ensures Cycle(s[..segment], n)[j] == s[segment..][j] {
      ModShift(j, segment);
    }
  }

  /** Every ID counted by part A is counted by part B (the segment is half
      the spelling). */
  lemma DoubledIsRepeated(x: nat)
    requires IsDoubled(x)
    ensures IsRepeated(x)
  {
    var s := Decimal(x);
    var half := |s| / 2;
    forall j | 0 <= j < half ensures Cycle(s[..half], half)[j] == s[half..][j] {
      assert j % half == j;
    }
    assert RepeatsWith(s, half);
  }

  /** A single digit is never a repetition. */
  lemma SingleDigitNotRepeated(x: nat)
    requires x < 10
    ensures !IsRepeated(x)
  {
  }

  lemma Examples()
    ensures IsDoubled(55) && IsDoubled(6464) && !IsDoubled(101)
    ensures IsRepeated(111) && IsRepeated(6464)
  {
    assert Decimal(5) == [53];
    assert Decimal(55) == [53, 53];
    assert Decimal(6) == [54];
    assert Decimal(64) == [54, 52];
    assert Decimal(646) == [54, 52, 54];
    assert Decimal(6464) == [54, 52, 54, 52];
    assert Decimal(101) == [49, 48, 49] by {
      assert Decimal(1) == [49];
      assert Decimal(10) == [49, 48];
    }
    assert Decimal(111) == [49, 49, 49] by {
      assert Decimal(1) == [49];
      assert Decimal(11) == [49, 49];
    }
    assert RepeatsWith(Decimal(111), 1);
    DoubledIsRepeated(6464);
  }

  // ---- Sums over the ranges ----

  /** Σ x over `lo..=hi` with `x` doubled; an empty range gives 0. */
  function SumDoubled(lo: nat, hi: int): nat
    decreases hi - lo
  {
    if hi < lo then 0 else SumDoubled(lo, hi - 1) + (if IsDoubled(hi) then hi else 0)
  }

  /** Σ x over `lo..=hi` with `x` repeated; an empty range gives 0. */
  function SumRepeated(lo: nat, hi: int): nat
    decreases hi - lo
  {
    if hi < lo then 0 else SumRepeated(lo, hi - 1) + (if IsRepeated(hi) then hi else 0)
  }

  function SumA(pairs: seq<(nat, nat)>): nat
  {
    if pairs == [] then 0
    else SumA(pairs[..|pairs| - 1]) + SumDoubled(pairs[|pairs| - 1].0, pairs[|pairs| - 1].1)
  }

  function SumB(pairs: seq<(nat, nat)>): nat
  {
    if pairs == [] then 0
    else SumB(pairs[..|pairs| - 1]) + SumRepeated(pairs[|pairs| - 1].0, pairs[|pairs| - 1].1)
  }

  /** A range that starts at 0 makes `ilog10` panic in part A. */
  predicate HasZeroStart(pairs: seq<(nat, nat)>)
  {
    exists k :: 0 <= k < |pairs| && pairs[k].0 == 0
  }

  lemma {:induction false} RangeALeB(lo: nat, hi: int)
    ensures SumDoubled(lo, hi) <= SumRepeated(lo, hi)
    decreases hi - lo
  {
    if hi >= lo {
      RangeALeB(lo, hi - 1);
      if IsDoubled(hi) {
        DoubledIsRepeated(hi);
      }
    }
  }

  /** On the same ranges, part A never exceeds part B. */
  lemma {:induction false} PartALePartB(pairs: seq<(nat, nat)>)
    ensures SumA(pairs) <= SumB(pairs)
  {
    if pairs != [] {
      PartALePartB(pairs[..|pairs| - 1]);
      RangeALeB(pairs[|pairs| - 1].0, pairs[|pairs| - 1].1);
    }
  }

  // ---- The solvers ----

  /** `part_a` on the file contents. */
  method PartA(contents: Bytes) returns (r: Result<nat>)
    ensures r.Panic? <==> GetPairs(contents).Panic? || HasZeroStart(GetPairs(contents).value)
    ensures r.Ok? ==> r.value == SumA(GetPairs(contents).value)
  {
    var parsed := GetPairs(contents);
    if parsed.Panic? {
      return Panic(parsed.why);
    }
    r := SumInvalidA(parsed.value);
  }

  /** The loops of `part_a` over parsed ranges. */
  method SumInvalidA(data: seq<(nat, nat)>) returns (r: Result<nat>)
    ensures r.Panic? <==> HasZeroStart(data)
    ensures r.Ok? ==> r.value == SumA(data)
  {
    var invalidIdCount := 0;
    for i := 0 to |data|
      invariant invalidIdCount == SumA(data[..i])
      invariant forall k :: 0 <= k < i ==> data[k].0 != 0
    {
      assert data[..i + 1][..i] == data[..i];
      var (start, stop) := data[i];
      var x: int := start;
      while x <= stop
        invariant start <= x && (x <= stop + 1 || x == start)
        invariant start == 0 ==> x == 0
        invariant invalidIdCount == SumA(data[..i]) + SumDoubled(start, x - 1)
        decreases stop - x
      {
        if x == 0 {
          return Panic("argument of integer logarithm must be positive");
        }
        var doubled := IsDoubledCheck(x);
        if doubled {
          invalidIdCount := invalidIdCount + x;
        }
        x := x + 1;
      }
    }
    assert data[..|data|] == data;
    return Ok(invalidIdCount);
  }

  /** The test of `part_a`'s inner loop: an even digit count from `ilog10`,
      then the two halves of the decimal text compared. */
  method IsDoubledCheck(x: nat) returns (doubled: bool)
    requires x > 0
    ensures doubled == IsDoubled(x)
  {
    var digits := ILog10(x) + 1;
    DecimalDigitsIter.NumDigitsIsILog10(x);
    DecimalLength(x);
    doubled := false;
    if digits % 2 == 0 {
      var s := Decimal(x);
      doubled := s[..|s| / 2] == s[|s| / 2..];
    }
  }

  /** The segment-length loop of `part_b` for one ID, with its `break`. */
  method IsRepeatedScan(x: nat) returns (found: bool)
    ensures found == IsRepeated(x)
  {
    var s := Decimal(x);
    found := false;
    var segmentLength := 1;
    while segmentLength < |s|
      invariant 1 <= segmentLength <= |s| || (|s| == 1 && segmentLength == 1)
      invariant forall l :: 1 <= l < segmentLength ==> !RepeatsWith(s, l)
      decreases |s| - segmentLength
    {
      var tailLen := |s| - segmentLength;
      if tailLen % segmentLength == 0 {
        var first := s[..segmentLength];
        var extendedFirst := Cycle(first, tailLen);
        if extendedFirst == s[segmentLength..] {
          assert RepeatsWith(s, segmentLength);
          found := true;
          return;
        }
      }
      segmentLength := segmentLength + 1;
    }
  }

  /** `part_b` on the file contents. */
  method PartB(contents: Bytes) returns (r: Result<nat>)
    ensures r.Panic? <==> GetPairs(contents).Panic?
    ensures r.Ok? ==> r.value == SumB(GetPairs(contents).value)
  {
    var parsed := GetPairs(contents);
    if parsed.Panic? {
      return Panic(parsed.why);
    }
    var total := SumInvalidB(parsed.value);
    r := Ok(total);
  }

  /** The loops of `part_b` over parsed ranges. */
  method SumInvalidB(data: seq<(nat, nat)>) returns (total: nat)
    ensures total == SumB(data)
  {
    var invalidIdCount := 0;
    for i := 0 to |data|
      invariant invalidIdCount == SumB(data[..i])
    {
      assert data[..i + 1][..i] == data[..i];
      var (start, stop) := data[i];
      var x: int := start;
      while x <= stop
        invariant start <= x && (x <= stop + 1 || x == start)
        invariant invalidIdCount == SumB(data[..i]) + SumRepeated(start, x - 1)
        decreases stop - x
      {
        var repeated := IsRepeatedScan(x);
        if repeated {
          invalidIdCount := invalidIdCount + x;
        }
        x := x + 1;
      }
    }
    assert data[..|data|] == data;
    return invalidIdCount;
  }
}

/** Day 3: each line is a bank of digits; switch on some of them, keeping
    their order, to show the largest number.  Part A picks 2 digits, part B
    picks 12, both greedily: each pick is the first maximum of the window
    that still leaves room for the digits to come. */
module Day3 {
  import opened Wrappers
  import opened RustInt
  import opened Text

  /** The number of digits part B switches on. */
  const B_DIGITS: nat := 12

  /** `c.to_digit(10).unwrap()` on every character. */
  function DigitsOf(line: Bytes): (r: Result<seq<nat>>)
    ensures r.Ok? <==> AllDigits(line)
    ensures r.Ok? ==> |r.value| == |line| && forall i :: 0 <= i < |line| ==> r.value[i] == line[i] - ZERO
  {
    if AllDigits(line) then
      var ds: seq<nat> := seq(|line|, i requires 0 <= i < |line| => (line[i] - ZERO) as nat);
      Ok(ds)
    else Panic("called `Option::unwrap()` on a `None` value")
  }

  predicate AreDigits(ds: seq<nat>) { forall i :: 0 <= i < |ds| ==> ds[i] < 10 }

  /** `first_max_by_key` over the indices `lo..hi`. */
  function FirstMaxIndex(ds: seq<nat>, lo: nat, hi: nat): (m: nat)
    requires lo < hi <= |ds|
    ensures lo <= m < hi
    decreases hi - lo
  {
    if lo + 1 == hi then lo
    else
      var m := FirstMaxIndex(ds, lo + 1, hi);
      if ds[lo] >= ds[m] then lo else m
  }

  /** `first_max_by_key` finds a maximum, and every index before it holds
      a smaller digit. */
  lemma {:induction false} FirstMaxIndexIsFirstMax(ds: seq<nat>, lo: nat, hi: nat)
    requires lo < hi <= |ds|
    ensures var m := FirstMaxIndex(ds, lo, hi);
            && (forall k :: lo <= k < hi ==> ds[k] <= ds[m])
            && (forall k :: lo <= k < m ==> ds[k] < ds[m])
    decreases hi - lo
  {
    if lo + 1 < hi {
      FirstMaxIndexIsFirstMax(ds, lo + 1, hi);
    }
  }

  /** `max_by_key` over the indices `lo..hi` (the last maximum). */
  function LastMaxIndex(ds: seq<nat>, lo: nat, hi: nat): (m: nat)
    requires lo < hi <= |ds|
    ensures lo <= m < hi
    decreases hi - lo
  {
    if lo + 1 == hi then lo
    else
      var m := LastMaxIndex(ds, lo + 1, hi);
      if ds[lo] > ds[m] then lo else m
  }

  /** `max_by_key` finds a maximum, and every index after it holds a
      smaller digit. */
  lemma {:induction false} LastMaxIndexIsLastMax(ds: seq<nat>, lo: nat, hi: nat)
    requires lo < hi <= |ds|
    ensures var m := LastMaxIndex(ds, lo, hi);
            && (forall k :: lo <= k < hi ==> ds[k] <= ds[m])
            && (forall k :: m < k < hi ==> ds[k] < ds[m])
    decreases hi - lo
  {
    if lo + 1 < hi {
      LastMaxIndexIsLastMax(ds, lo + 1, hi);
    }
  }

  /** The number shown by the digits, most significant first. */
  function ValueOf(ds: seq<nat>): nat
  {
    if ds == [] then 0 else Shift(ds[0], |ds| - 1) + ValueOf(ds[1..])
  }

  /** Strictly increasing indices, all in `lo..n`. */
  predicate IsIndexSeq(js: seq<nat>, lo: nat, n: nat)
  {
    js == [] || (lo <= js[0] < n && IsIndexSeq(js[1..], js[0] + 1, n))
  }

  lemma {:induction false} IndexSeqInRange(js: seq<nat>, lo: nat, n: nat)
    requires IsIndexSeq(js, lo, n)
    ensures forall i :: 0 <= i < |js| ==> lo <= js[i] < n
    decreases |js|
  {
    if js != [] {
      IndexSeqInRange(js[1..], js[0] + 1, n);
      assert forall i :: 1 <= i < |js| ==> js[i] == js[1..][i - 1];
    }
  }

  /** The digits at the given indices. */
  function Select(ds: seq<nat>, js: seq<nat>): (s: seq<nat>)
    ensures |s| == |js|
  {
    if js == [] then [] else [if js[0] < |ds| then ds[js[0]] else 0] + Select(ds, js[1..])
  }

  lemma ValuePair(a: nat, b: nat)
    ensures ValueOf([a, b]) == 10 * a + b
  {
    assert [a, b][1..] == [b] && [b][1..] == [];
    assert ValueOf([b]) == b;
  }

  /** The greedy choice of `k` digits from `ds[lo..]`: the first maximum of
      the window that leaves `k - 1` digits after it, then the rest from
      after that pick. */
  function PickIdx(ds: seq<nat>, lo: nat, k: nat): (js: seq<nat>)
    requires lo + k <= |ds|
    ensures |js| == k
    decreases k
  {
    if k == 0 then []
    else
      var m := FirstMaxIndex(ds, lo, |ds| - k + 1);
      [m] + PickIdx(ds, m + 1, k - 1)
  }

  /** The greedy picks are strictly increasing indices from `lo` on. */
  lemma {:induction false} PickIdxIsIndexSeq(ds: seq<nat>, lo: nat, k: nat)
    requires lo + k <= |ds|
    ensures IsIndexSeq(PickIdx(ds, lo, k), lo, |ds|)
    decreases k
  {
    if k > 0 {
      var m := FirstMaxIndex(ds, lo, |ds| - k + 1);
      var rest := PickIdx(ds, m + 1, k - 1);
      PickIdxIsIndexSeq(ds, m + 1, k - 1);
      assert ([m] + rest)[1..] == rest;
    }
  }

  // ---- Values of digit sequences ----

  /** `d` followed by `k` zeros, `d * 10^k`, built by `k` multiplications
      by ten so that proofs about it stay linear. */
  function Shift(d: nat, k: nat): nat
    decreases k
  {
    if k == 0 then d else Shift(d, k - 1) * 10
  }

  lemma {:induction false} ShiftIsPow(d: nat, k: nat)
    ensures Shift(d, k) == d * Pow(10, k)
    decreases k
  {
    if k > 0 {
      ShiftIsPow(d, k - 1);
      assert d * Pow(10, k) == d * Pow(10, k - 1) * 10;
    }
  }

  lemma {:induction false} ShiftAdd(a: nat, b: nat, k: nat)
    ensures Shift(a + b, k) == Shift(a, k) + Shift(b, k)
    decreases k
  {
    if k > 0 {
      ShiftAdd(a, b, k - 1);
    }
  }

  lemma {:induction false} ShiftTen(a: nat, k: nat)
    ensures Shift(a * 10, k) == Shift(a, k + 1)
    decreases k
  {
    if k > 0 {
      ShiftTen(a, k - 1);
    }
  }

  lemma {:induction false} ShiftZero(k: nat)
    ensures Shift(0, k) == 0
    decreases k
  {
    if k > 0 {
      ShiftZero(k - 1);
    }
  }

  lemma ValueCons(d: nat, rest: seq<nat>)
    ensures ValueOf([d] + rest) == Shift(d, |rest|) + ValueOf(rest)
  {
    var s := [d] + rest;
    assert ValueOf(s) == Shift(s[0], |s| - 1) + ValueOf(s[1..]);
    assert s[1..] == rest;
  }

  lemma {:induction false} ValueBound(ds: seq<nat>)
    requires AreDigits(ds)
    ensures ValueOf(ds) < Shift(1, |ds|)
    decreases |ds|
  {
    if ds != [] {
      var n := |ds| - 1;
      ValueBound(ds[1..]);
      ShiftAdd(ds[0], 1, n);
      ShiftAdd(ds[0] + 1, 9 - ds[0], n);
      ShiftTen(1, n);
    }
  }

  lemma IndexSeqBound(js: seq<nat>, lo: nat, n: nat)
    requires IsIndexSeq(js, lo, n) && js != []
    ensures js[0] + |js| <= n
    decreases |js|
  {
    if |js| > 1 {
      IndexSeqBound(js[1..], js[1], n);
    }
  }

  /** A larger leading digit beats anything after it. */
  lemma LeadingDigitWins(a: nat, b: nat, ra: nat, rb: nat, k: nat)
    requires a < b && ra < Shift(1, k)
    ensures Shift(a, k) + ra < Shift(b, k) + rb
  {
    ShiftAdd(a, 1, k);
    ShiftAdd(a + 1, b - a - 1, k);
  }

  /** The greedy choice shows the largest number among all choices of `k`
      digits from `ds[lo..]`. */
  lemma {:induction false} GreedyIsBest(ds: seq<nat>, lo: nat, k: nat, js: seq<nat>)
    requires AreDigits(ds) && lo + k <= |ds|
    requires IsIndexSeq(js, lo, |ds|) && |js| == k
    ensures ValueOf(Select(ds, js)) <= ValueOf(Select(ds, PickIdx(ds, lo, k)))
    decreases k
  {
    if k > 0 {
      var m := FirstMaxIndex(ds, lo, |ds| - k + 1);
      var gRest := PickIdx(ds, m + 1, k - 1);
      assert PickIdx(ds, lo, k) == [m] + gRest;
      IndexSeqBound(js, lo, |ds|);
      var a, ra := ds[js[0]], ValueOf(Select(ds, js[1..]));
      var b, rb := ds[m], ValueOf(Select(ds, gRest));
      assert js == [js[0]] + js[1..];
      SelectValueCons(ds, js[0], js[1..]);
      SelectValueCons(ds, m, gRest);
      if a < b {
        SelectDigits(ds, js[1..]);
        ValueBound(Select(ds, js[1..]));
        LeadingDigitWins(a, b, ra, rb, k - 1);
      } else {
        NotBeforeFirstMax(ds, lo, |ds| - k + 1, js[0]);
        assert IsIndexSeq(js[1..], m + 1, |ds|);
        GreedyIsBest(ds, m + 1, k - 1, js[1..]);
      }
    }
  }

  /** A digit of the window at least as large as its first maximum is a
      maximum no earlier than the first one. */
  lemma NotBeforeFirstMax(ds: seq<nat>, lo: nat, hi: nat, j: nat)
    requires lo <= j < hi <= |ds| && ds[j] >= ds[FirstMaxIndex(ds, lo, hi)]
    ensures FirstMaxIndex(ds, lo, hi) <= j && ds[j] == ds[FirstMaxIndex(ds, lo, hi)]
  {
    FirstMaxIndexIsFirstMax(ds, lo, hi);
  }

  /** The value of the digits at `[j] + js`: digit `j` shifted past the
      others, plus their value. */
  lemma SelectValueCons(ds: seq<nat>, j: nat, js: seq<nat>)
    requires j < |ds|
    ensures ValueOf(Select(ds, [j] + js)) == Shift(ds[j], |js|) + ValueOf(Select(ds, js))
  {
    SelectCons(ds, j, js);
    ValueCons(ds[j], Select(ds, js));
  }

  lemma {:induction false} SelectDigits(ds: seq<nat>, js: seq<nat>)
    requires AreDigits(ds)
    ensures AreDigits(Select(ds, js))
    decreases |js|
  {
    if js != [] {
      SelectDigits(ds, js[1..]);
    }
  }

  // ---- Part A ----

  /** One line of `part_a`: the first maximum among all but the last digit,
      then the (last) maximum after it.  `len() - 1` underflows on an empty
      line and the first `unwrap` fails on a one-digit line. */
  function LineA(ds: seq<nat>): (r: Result<nat>)
    ensures r.Ok? <==> |ds| >= 2
  {
    if |ds| == 0 then Panic("attempt to subtract with overflow")
    else if |ds| == 1 then Panic("called `Option::unwrap()` on a `None` value")
    else
      var i := FirstMaxIndex(ds, 0, |ds| - 1);
      var j := LastMaxIndex(ds, i + 1, |ds|);
      Ok(ds[i] * 10 + ds[j])
  }

  /** Part A's pick is the greedy choice of two digits. */
  lemma LineAIsGreedy(ds: seq<nat>)
    requires |ds| >= 2
    ensures LineA(ds).Ok? && LineA(ds).value == ValueOf(Select(ds, PickIdx(ds, 0, 2)))
  {
    var i := FirstMaxIndex(ds, 0, |ds| - 1);
    LineAPair(ds);
    SameMaximum(ds, i + 1, |ds|);
    PickTwoValue(ds);
  }

  /** `part_a`'s two digits as a number. */
  lemma LineAPair(ds: seq<nat>)
    requires |ds| >= 2
    ensures var i := FirstMaxIndex(ds, 0, |ds| - 1);
            LineA(ds).Ok? && LineA(ds).value == 10 * ds[i] + ds[LastMaxIndex(ds, i + 1, |ds|)]
  {
  }

  /** The value of the greedy two digits. */
  lemma PickTwoValue(ds: seq<nat>)
    requires |ds| >= 2
    ensures var i := FirstMaxIndex(ds, 0, |ds| - 1);
            ValueOf(Select(ds, PickIdx(ds, 0, 2))) == 10 * ds[i] + ds[FirstMaxIndex(ds, i + 1, |ds|)]
  {
    var i := FirstMaxIndex(ds, 0, |ds| - 1);
    var j := FirstMaxIndex(ds, i + 1, |ds|);
    PickTwo(ds);
    SelectPair(ds, i, j);
    ValuePair(ds[i], ds[j]);
  }

  /** The first and the last maximum hold the same digit. */
  lemma SameMaximum(ds: seq<nat>, lo: nat, hi: nat)
    requires lo < hi <= |ds|
    ensures ds[FirstMaxIndex(ds, lo, hi)] == ds[LastMaxIndex(ds, lo, hi)]
  {
    FirstMaxIndexIsFirstMax(ds, lo, hi);
    LastMaxIndexIsLastMax(ds, lo, hi);
  }

  lemma PickTwo(ds: seq<nat>)
    requires |ds| >= 2
    ensures var i := FirstMaxIndex(ds, 0, |ds| - 1);
            PickIdx(ds, 0, 2) == [i, FirstMaxIndex(ds, i + 1, |ds|)]
  {
    var i := FirstMaxIndex(ds, 0, |ds| - 1);
    var j1 := FirstMaxIndex(ds, i + 1, |ds|);
    assert PickIdx(ds, 0, 2) == [i] + PickIdx(ds, i + 1, 1);
    assert PickIdx(ds, i + 1, 1) == [j1] + PickIdx(ds, j1 + 1, 0);
  }

  lemma SelectAt(ds: seq<nat>, js: seq<nat>, i: nat)
    requires i < |js|
    ensures Select(ds, js)[i] == if js[i] < |ds| then ds[js[i]] else 0
    decreases i
  {
    if i > 0 {
      SelectAt(ds, js[1..], i - 1);
    }
  }

  lemma SelectPair(ds: seq<nat>, i: nat, j: nat)
    requires i < |ds| && j < |ds|
    ensures Select(ds, [i, j]) == [ds[i], ds[j]]
  {
  }

  /** Part A's line value is the largest `10 * d_i + d_j` over `i < j`, and
      some such pair reaches it. */
  lemma LineAIsBest(ds: seq<nat>)
    requires AreDigits(ds) && |ds| >= 2
    ensures forall i, j :: 0 <= i < j < |ds| ==> 10 * ds[i] + ds[j] <= LineA(ds).value
    ensures exists i, j :: 0 <= i < j < |ds| && 10 * ds[i] + ds[j] == LineA(ds).value
  {
    LineAIsGreedy(ds);
    var g := PickIdx(ds, 0, 2);
    forall i, j | 0 <= i < j < |ds| ensures 10 * ds[i] + ds[j] <= LineA(ds).value {
      var js := [i, j];
      assert IsIndexSeq(js, 0, |ds|) by {
        assert js[1..] == [j] && [j][1..] == [];
      }
      assert Select(ds, js) == [ds[i], ds[j]];
      ValuePair(ds[i], ds[j]);
      GreedyIsBest(ds, 0, 2, js);
    }
    PickIdxIsIndexSeq(ds, 0, 2);
    IndexSeqInRange(g, 0, |ds|);
    assert g == [g[0], g[1]];
    assert g[0] < g[1] by {
      assert IsIndexSeq(g[1..], g[0] + 1, |ds|);
    }
    assert Select(ds, g) == [ds[g[0]], ds[g[1]]];
    ValuePair(ds[g[0]], ds[g[1]]);
  }

  /** One input line of part A. */
  function LineValueA(line: Bytes): Result<nat>
  {
    match DigitsOf(line)
    case Panic(why) => Panic(why)
    case Ok(ds) => LineA(ds)
  }

  /** `part_a`: the sum of the line values. */
  method PartA(lines: seq<Bytes>) returns (r: Result<nat>)
    ensures r == SumAll(LineValueA, lines)
  {
    var sum := 0;
    for i := 0 to |lines|
      invariant SumAll(LineValueA, lines[..i]) == Ok(sum)
    {
      assert lines[..i + 1][..i] == lines[..i];
      var number := LineValueA(lines[i]);
      if number.Panic? {
        SumAllFirstPanic(LineValueA, lines, i);
        return Panic(number.why);
      }
      sum := sum + number.value;
    }
    assert lines[..|lines|] == lines;
    return Ok(sum);
  }

  // ---- Part B ----

  /** The number `acc` grows into when the greedy picks of `k` digits from
      `ds[lo..]` each append their digit (`number * 10 + value`). */
  function GreedyNumber(ds: seq<nat>, acc: nat, lo: nat, k: nat): nat
    requires lo + k <= |ds|
    decreases k
  {
    if k == 0 then acc
    else
      var m := FirstMaxIndex(ds, lo, |ds| - k + 1);
      GreedyNumber(ds, acc * 10 + ds[m], m + 1, k - 1)
  }

  /** Appending the greedy digits to `acc` shifts `acc` left by `k` places
      and adds the number the picked digits show. */
  lemma {:induction false} GreedyNumberIsValue(ds: seq<nat>, acc: nat, lo: nat, k: nat)
    requires lo + k <= |ds|
    ensures GreedyNumber(ds, acc, lo, k) == Shift(acc, k) + ValueOf(Select(ds, PickIdx(ds, lo, k)))
    decreases k
  {
    if k > 0 {
      var m := FirstMaxIndex(ds, lo, |ds| - k + 1);
      var rest := PickIdx(ds, m + 1, k - 1);
      GreedyNumberIsValue(ds, acc * 10 + ds[m], m + 1, k - 1);
      ShiftAdd(acc * 10, ds[m], k - 1);
      ShiftTen(acc, k - 1);
      SelectCons(ds, m, rest);
      ValueCons(ds[m], Select(ds, rest));
    }
  }

  lemma SelectCons(ds: seq<nat>, j: nat, js: seq<nat>)
    requires j < |ds|
    ensures Select(ds, [j] + js) == [ds[j]] + Select(ds, js)
  {
    var s := [j] + js;
    assert Select(ds, s) == [ds[s[0]]] + Select(ds, s[1..]);
    assert s[1..] == js;
  }

  /** One line of `part_b` as written: `len - 12` underflows below 12 digits
      and the first `unwrap` fails at exactly 12 (`take(0)` is empty).  On
      longer lines the first pick looks only at `take(len - 12)`, the
      indices `0..len - 12`, and each later pick at the window that leaves
      room for the digits still to come. */
  function LineBAsWritten(ds: seq<nat>): (r: Result<nat>)
    ensures r.Ok? <==> |ds| >= B_DIGITS + 1
  {
    if |ds| < B_DIGITS then Panic("attempt to subtract with overflow")
    else if |ds| == B_DIGITS then Panic("called `Option::unwrap()` on a `None` value")
    else
      var m := FirstMaxIndex(ds, 0, |ds| - B_DIGITS);
      Ok(GreedyNumber(ds, ds[m], m + 1, B_DIGITS - 1))
  }

  /** The indices part B as written picks. */
  function PickIdxAsWritten(ds: seq<nat>): (js: seq<nat>)
    requires |ds| >= B_DIGITS + 1
    ensures |js| == B_DIGITS
  {
    var m := FirstMaxIndex(ds, 0, |ds| - B_DIGITS);
    [m] + PickIdx(ds, m + 1, B_DIGITS - 1)
  }

  /** Part B as written picks strictly increasing indices, a valid choice
      of 12 digits, the first of them below `len - 12`. */
  lemma PickIdxAsWrittenIsIndexSeq(ds: seq<nat>)
    requires |ds| >= B_DIGITS + 1
    ensures IsIndexSeq(PickIdxAsWritten(ds), 0, |ds|)
    ensures PickIdxAsWritten(ds)[0] < |ds| - B_DIGITS
  {
    var m := FirstMaxIndex(ds, 0, |ds| - B_DIGITS);
    var rest := PickIdx(ds, m + 1, B_DIGITS - 1);
    PickIdxIsIndexSeq(ds, m + 1, B_DIGITS - 1);
    assert ([m] + rest)[1..] == rest;
  }

  /** Part B as written shows the digits at `PickIdxAsWritten`. */
  lemma LineBAsWrittenShowsPicks(ds: seq<nat>)
    requires |ds| >= B_DIGITS + 1
    ensures LineBAsWritten(ds).Ok? && LineBAsWritten(ds).value == ValueOf(Select(ds, PickIdxAsWritten(ds)))
  {
    var m := FirstMaxIndex(ds, 0, |ds| - B_DIGITS);
    var rest := PickIdx(ds, m + 1, B_DIGITS - 1);
    assert PickIdxAsWritten(ds) == [m] + rest;
    GreedyNumberIsValue(ds, ds[m], m + 1, B_DIGITS - 1);
    SelectCons(ds, m, rest);
    ValueCons(ds[m], Select(ds, rest));
  }

  /** One pick of the loop: the first maximum of the window that leaves
      room for the `k - 1` digits still to come. */
  lemma GreedyStep(ds: seq<nat>, acc: nat, lo: nat, k: nat, hi: nat, m: nat)
    requires 0 < k && lo + k <= |ds| && hi == |ds| - k + 1
    requires m == FirstMaxIndex(ds, lo, hi)
    ensures GreedyNumber(ds, acc, lo, k) == GreedyNumber(ds, acc * 10 + ds[m], m + 1, k - 1)
  {
  }

  /** One line of `part_b`: the first pick, then the loop of the 11 more. */
  method LineB(ds: seq<nat>) returns (r: Result<nat>)
    ensures r == LineBAsWritten(ds)
  {
    if |ds| < B_DIGITS {
      return Panic("attempt to subtract with overflow");
    }
    if |ds| == B_DIGITS {
      return Panic("called `Option::unwrap()` on a `None` value");
    }
    var lastIndex := FirstMaxIndex(ds, 0, |ds| - B_DIGITS);
    var number := PickRest(ds, lastIndex, ds[lastIndex], B_DIGITS - 1);
    return Ok(number);
  }

  /** The `for nth in 0..11` loop of `part_b`, for `count` = 11: each pick
      is the first maximum of the window after the previous pick that
      leaves room for the digits still to come, appended to the number. */
  method PickRest(ds: seq<nat>, start: nat, first: nat, count: nat) returns (number: nat)
    requires start + count + 1 <= |ds|
    ensures number == GreedyNumber(ds, first, start + 1, count)
  {
    var lastIndex: nat := start;
    number := first;
    ghost var left: nat := count;
    ghost var target := GreedyNumber(ds, first, start + 1, left);
    for nth := 0 to count
      invariant left == count - nth
      invariant lastIndex + 1 + left <= |ds|
      invariant GreedyNumber(ds, number, lastIndex + 1, left) == target
    {
      var indexLimit := |ds| - lastIndex - (count - nth);
      var newIndex := FirstMaxIndex(ds, lastIndex + 1, lastIndex + 1 + indexLimit);
      GreedyStep(ds, number, lastIndex + 1, left, lastIndex + 1 + indexLimit, newIndex);
      lastIndex := newIndex;
      number := number * 10 + ds[newIndex];
      left := left - 1;
    }
  }

  /** One input line of part B as written. */
  function LineValueB(line: Bytes): Result<nat>
  {
    match DigitsOf(line)
    case Panic(why) => Panic(why)
    case Ok(ds) => LineBAsWritten(ds)
  }

  /** `part_b`: the sum of the line values. */
  method PartB(lines: seq<Bytes>) returns (r: Result<nat>)
    ensures r == SumAll(LineValueB, lines)
  {
    var sum := 0;
    for i := 0 to |lines|
      invariant SumAll(LineValueB, lines[..i]) == Ok(sum)
    {
      assert lines[..i + 1][..i] == lines[..i];
      var digits := DigitsOf(lines[i]);
      var number: Result<nat>;
      if digits.Panic? {
        number := Panic(digits.why);
      } else {
        number := LineB(digits.value);
      }
      assert number == LineValueB(lines[i]);
      if number.Panic? {
        SumAllFirstPanic(LineValueB, lines, i);
        return Panic(number.why);
      }
      sum := sum + number.value;
    }
    assert lines[..|lines|] == lines;
    return Ok(sum);
  }

  // ---- The first pick's window ----

  /** The corrected line value: the same picks with the first window
      widened to `take(len - 11)`, the indices `0..=len - 12`, so that the
      first digit may be the 12th from the end. */
  function LineBFixed(ds: seq<nat>): (r: Result<nat>)
    ensures r.Ok? <==> |ds| >= B_DIGITS
  {
    if |ds| < B_DIGITS then Panic("attempt to subtract with overflow")
    else Ok(GreedyNumber(ds, 0, 0, B_DIGITS))
  }

  /** The corrected value is shown by a valid choice of 12 digits: the
      greedy one. */
  lemma LineBFixedPicks(ds: seq<nat>)
    requires |ds| >= B_DIGITS
    ensures IsIndexSeq(PickIdx(ds, 0, B_DIGITS), 0, |ds|)
    ensures LineBFixed(ds).Ok? && LineBFixed(ds).value == ValueOf(Select(ds, PickIdx(ds, 0, B_DIGITS)))
  {
    PickIdxIsIndexSeq(ds, 0, B_DIGITS);
    GreedyNumberIsValue(ds, 0, 0, B_DIGITS);
    ShiftZero(B_DIGITS);
  }

  /** The corrected value is the largest number any choice of 12 digits of
      the line shows. */
  lemma LineBFixedIsBest(ds: seq<nat>, js: seq<nat>)
    requires AreDigits(ds) && |ds| >= B_DIGITS
    requires IsIndexSeq(js, 0, |ds|) && |js| == B_DIGITS
    ensures LineBFixed(ds).Ok? && ValueOf(Select(ds, js)) <= LineBFixed(ds).value
  {
    GreedyIsBest(ds, 0, B_DIGITS, js);
    LineBFixedPicks(ds);
  }

  /** Any 13-digit line whose second digit beats its first, such as
      `1999999999999`: part B as written must keep the first digit, since
      its first window is the index 0 alone, although the 12 digits at
      indices `1..=12` show a larger number. */
  lemma FirstWindowTooShort(ds: seq<nat>, best: seq<nat>)
    requires AreDigits(ds) && |ds| == B_DIGITS + 1 && ds[0] < ds[1]
    requires |best| == B_DIGITS && forall i :: 0 <= i < |best| ==> best[i] == i + 1
    ensures IsIndexSeq(best, 0, |ds|)
    ensures LineBAsWritten(ds).Ok? && LineBAsWritten(ds).value < ValueOf(Select(ds, best))
  {
    PickIdxAsWrittenIsIndexSeq(ds);
    LineBAsWrittenShowsPicks(ds);
    var w := PickIdxAsWritten(ds);
    var s := Select(ds, w);
    SelectAt(ds, w, 0);
    assert s == [s[0]] + s[1..];
    ValueCons(s[0], s[1..]);
    SelectDigits(ds, w);
    assert AreDigits(s[1..]) by {
      forall i | 0 <= i < |s[1..]| ensures s[1..][i] < 10 {
        assert s[1..][i] == s[i + 1];
      }
    }
    ValueBound(s[1..]);
    var t := Select(ds, best);
    SelectAt(ds, best, 0);
    assert t == [t[0]] + t[1..];
    ValueCons(t[0], t[1..]);
    LeadingDigitWins(s[0], t[0], ValueOf(s[1..]), ValueOf(t[1..]), B_DIGITS - 1);
    ShiftedRangeIsIndexSeq(best, 1, |ds|);
  }

  /** `lo, lo + 1, …` is an index sequence while it stays below `n`. */
  lemma {:induction false} ShiftedRangeIsIndexSeq(js: seq<nat>, lo: nat, n: nat)
    requires lo + |js| <= n
    requires forall i :: 0 <= i < |js| ==> js[i] == lo + i
    ensures IsIndexSeq(js, lo, n)
    decreases |js|
  {
    if js != [] {
      ShiftedRangeIsIndexSeq(js[1..], lo + 1, n);
    }
  }
}

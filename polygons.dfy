/** `infill_poly` (shared/src/polygons.rs): a scanline fill with the even-odd
    rule.  Each row is filled on its own: the marker columns of the row are
    collected, runs of adjacent marker columns are consolidated into one
    crossing (a single cell) or two (the first and last cell of a thick
    edge), and the cells between the first and second crossing, the third
    and fourth, and so on are set to the marker; with an odd number of
    crossings everything right of the last one is set too.

    The specification `InfillRow` states the even-odd rule directly: a cell
    ends up as the marker iff it was the marker or an odd number of
    crossings lie left of it. */
module Polygons {
  import opened Text
  import opened Grid

  predicate StrictlyIncreasing(s: seq<nat>)
  {
    forall i, j :: 0 <= i < j < |s| ==> s[i] < s[j]
  }

  /** Every entry of `cols` is a column of `row` holding the marker. */
  predicate MarkerColumns(row: seq<byte>, m: byte, cols: seq<nat>)
  {
    forall k :: 0 <= k < |cols| ==> cols[k] < |row| && row[cols[k]] == m
  }

  /** The marker columns of `row`, in increasing order (`raw_crossings`). */
  function RawCrossings(row: seq<byte>, m: byte): (raw: seq<nat>)
    ensures StrictlyIncreasing(raw)
    ensures MarkerColumns(row, m, raw)
  {
    if row == [] then []
    else RawCrossings(row[..|row| - 1], m) + (if row[|row| - 1] == m then [|row| - 1] else [])
  }

  /** Every marker column is collected. */
  lemma {:induction false} RawCrossingsComplete(row: seq<byte>, m: byte, x: nat)
    requires x < |row| && row[x] == m
    ensures x in RawCrossings(row, m)
    decreases |row|
  {
    if x < |row| - 1 {
      RawCrossingsComplete(row[..|row| - 1], m, x);
    }
  }

  /** The last index of the run of consecutive columns starting at `i`. */
  function RunEnd(raw: seq<nat>, i: nat): (j: nat)
    requires i < |raw|
    ensures i <= j < |raw|
    ensures j + 1 < |raw| ==> raw[j + 1] != raw[j] + 1
    decreases |raw| - i
  {
    if i + 1 < |raw| && raw[i + 1] == raw[i] + 1 then RunEnd(raw, i + 1) else i
  }

  /** `raw[i..RunEnd(raw, i) + 1]` is a run of consecutive columns. */
  lemma {:induction false} RunEndIsRun(raw: seq<nat>, i: nat)
    requires i < |raw|
    ensures forall k :: i <= k <= RunEnd(raw, i) ==> raw[k] == raw[i] + (k - i)
    decreases |raw| - i
  {
    if i + 1 < |raw| && raw[i + 1] == raw[i] + 1 {
      RunEndIsRun(raw, i + 1);
    }
  }

  /** The crossings of `raw[i..]`: one per run of length one, the first and
      the last column of every longer run. */
  function Consolidate(raw: seq<nat>, i: nat): seq<nat>
    requires i <= |raw|
    decreases |raw| - i
  {
    if i == |raw| then []
    else
      var j := RunEnd(raw, i);
      (if raw[i] == raw[j] then [raw[i]] else [raw[i], raw[j]]) + Consolidate(raw, j + 1)
  }

  /** The crossings are columns of `raw`; from a strictly increasing `raw`,
      they are strictly increasing and none lies left of `raw[i]`. */
  lemma ConsolidateProps(raw: seq<nat>, i: nat)
    requires i <= |raw|
    ensures forall k :: 0 <= k < |Consolidate(raw, i)| ==> Consolidate(raw, i)[k] in raw
    ensures StrictlyIncreasing(raw) && i < |raw| ==>
              forall k :: 0 <= k < |Consolidate(raw, i)| ==> raw[i] <= Consolidate(raw, i)[k]
    ensures StrictlyIncreasing(raw) ==> StrictlyIncreasing(Consolidate(raw, i))
  {
    ConsolidateMembers(raw, i);
    forall k | 0 <= k < |Consolidate(raw, i)| ensures Consolidate(raw, i)[k] in raw {
      SuffixIn(raw, 0, i, Consolidate(raw, i)[k]);
      assert raw[0..] == raw;
    }
    if StrictlyIncreasing(raw) {
      ConsolidateStrict(raw, i);
      if i < |raw| {
        ConsolidateAbove(raw, i);
      }
    }
  }

  lemma {:induction false} ConsolidateMembers(raw: seq<nat>, i: nat)
    requires i <= |raw|
    ensures forall k :: 0 <= k < |Consolidate(raw, i)| ==> Consolidate(raw, i)[k] in raw[i..]
    decreases |raw| - i
  {
    if i < |raw| {
      var j := RunEnd(raw, i);
      var head := if raw[i] == raw[j] then [raw[i]] else [raw[i], raw[j]];
      var rest := Consolidate(raw, j + 1);
      var cr := Consolidate(raw, i);
      ConsolidateMembers(raw, j + 1);
      ConsolidateStep(raw, i);
      forall k | 0 <= k < |cr| ensures cr[k] in raw[i..] {
        if k < |head| {
          LaterIn(raw, i, if k == 0 then i else j);
        } else {
          assert cr[k] == rest[k - |head|];
          SuffixIn(raw, i, j + 1, cr[k]);
        }
      }
    }
  }

  lemma LaterIn(s: seq<nat>, i: nat, t: nat)
    requires i <= t < |s|
    ensures s[t] in s[i..]
  {
    assert s[i..][t - i] == s[t];
  }

  lemma SuffixIn(s: seq<nat>, i: nat, j: nat, x: nat)
    requires i <= j <= |s| && x in s[j..]
    ensures x in s[i..]
  {
    var t :| 0 <= t < |s| - j && s[j..][t] == x;
    assert s[i..][t + j - i] == x;
  }

  /** In a strictly increasing sequence, nothing in `s[i..]` lies below `s[i]`. */
  lemma SuffixAbove(s: seq<nat>, i: nat, x: nat)
    requires StrictlyIncreasing(s) && i < |s| && x in s[i..]
    ensures s[i] <= x
  {
    var t :| 0 <= t < |s| - i && s[i..][t] == x;
    assert s[i + t] == x;
  }

  lemma ConsolidateAbove(raw: seq<nat>, i: nat)
    requires StrictlyIncreasing(raw) && i < |raw|
    ensures forall k :: 0 <= k < |Consolidate(raw, i)| ==> raw[i] <= Consolidate(raw, i)[k]
  {
    var cr := Consolidate(raw, i);
    ConsolidateMembers(raw, i);
    forall k | 0 <= k < |cr| ensures raw[i] <= cr[k] {
      SuffixAbove(raw, i, cr[k]);
    }
  }

  lemma {:induction false} ConsolidateStrict(raw: seq<nat>, i: nat)
    requires StrictlyIncreasing(raw) && i <= |raw|
    ensures StrictlyIncreasing(Consolidate(raw, i))
    decreases |raw| - i
  {
    if i < |raw| {
      var j := RunEnd(raw, i);
      ConsolidateStrict(raw, j + 1);
      ConsolidateStep(raw, i);
      RunIsIncreasing(raw, i);
      if j + 1 < |raw| {
        ConsolidateFirst(raw, j + 1);
      }
      StrictRun(raw[i], raw[j], Consolidate(raw, j + 1));
    } else {
      assert Consolidate(raw, i) == [];
    }
  }

  /** A run's crossings followed by strictly larger ones are strictly increasing. */
  lemma StrictRun(a: nat, b: nat, rest: seq<nat>)
    requires a <= b && StrictlyIncreasing(rest) && (|rest| > 0 ==> b < rest[0])
    ensures StrictlyIncreasing((if a == b then [a] else [a, b]) + rest)
  {
    StrictPrepend(b, rest);
    if a != b {
      StrictPrepend(a, [b] + rest);
      assert [a, b] + rest == [a] + ([b] + rest);
    }
  }

  /** The first crossing of `raw[i..]` is `raw[i]`. */
  lemma ConsolidateFirst(raw: seq<nat>, i: nat)
    requires i < |raw|
    ensures |Consolidate(raw, i)| > 0 && Consolidate(raw, i)[0] == raw[i]
  {
    ConsolidateStep(raw, i);
  }

  lemma StrictPrepend(x: nat, rest: seq<nat>)
    requires StrictlyIncreasing(rest) && (|rest| > 0 ==> x < rest[0])
    ensures StrictlyIncreasing([x] + rest)
  {
    var s := [x] + rest;
    forall a, b | 0 <= a < b < |s| ensures s[a] < s[b] {
      if a == 0 && b > 1 {
        assert rest[0] < rest[b - 1];
      }
    }
  }

  /** In a strictly increasing `raw`, a run rises from its start to its end,
      and the next column lies beyond it. */
  lemma RunIsIncreasing(raw: seq<nat>, i: nat)
    requires StrictlyIncreasing(raw) && i < |raw|
    ensures i < RunEnd(raw, i) ==> raw[i] < raw[RunEnd(raw, i)]
    ensures RunEnd(raw, i) + 1 < |raw| ==> raw[RunEnd(raw, i)] < raw[RunEnd(raw, i) + 1]
  {
  }

  /** The consolidated crossings of a row. */
  function Crossings(row: seq<byte>, m: byte): (cr: seq<nat>)
    ensures StrictlyIncreasing(cr)
    ensures MarkerColumns(row, m, cr)
  {
    ConsolidateProps(RawCrossings(row, m), 0);
    Consolidate(RawCrossings(row, m), 0)
  }

  /** The number of crossings left of column `x`. */
  function CountBelow(cr: seq<nat>, x: nat): nat
  {
    if cr == [] then 0
    else (if cr[|cr| - 1] < x then 1 else 0) + CountBelow(cr[..|cr| - 1], x)
  }

  /** The even-odd rule on one row. */
  function InfillRow(row: seq<byte>, m: byte): (r: seq<byte>)
    ensures |r| == |row|
  {
    var cr := Crossings(row, m);
    seq(|row|, x requires 0 <= x < |row| => if row[x] == m || CountBelow(cr, x) % 2 == 1 then m else row[x])
  }

  function InfillGrid(g: seq<seq<byte>>, m: byte): (h: seq<seq<byte>>)
    ensures |h| == |g| && forall y :: 0 <= y < |g| ==> |h[y]| == |g[y]|
  {
    seq(|g|, y requires 0 <= y < |g| => InfillRow(g[y], m))
  }

  /** With `i` crossings left of `x` and the rest at or right of it, the count
      is `i`. */
  lemma {:induction false} CountBelowAt(cr: seq<nat>, i: nat, x: nat)
    requires StrictlyIncreasing(cr) && i <= |cr|
    requires i == 0 || cr[i - 1] < x
    requires i == |cr| || x <= cr[i]
    ensures CountBelow(cr, x) == i
    decreases |cr|
  {
    if cr != [] {
      var p := cr[..|cr| - 1];
      if i == |cr| {
        assert cr[|cr| - 1] < x;
        CountBelowAt(p, i - 1, x);
      } else {
        assert x <= cr[|cr| - 1];
        CountBelowAt(p, i, x);
      }
    }
  }

  /** Between crossing `i - 1` and crossing `i`, a cell is filled iff it was
      the marker or `i` is odd. */
  lemma FinalBetween(row: seq<byte>, m: byte, i: nat, x: nat)
    requires x < |row| && i <= |Crossings(row, m)|
    requires i == 0 || Crossings(row, m)[i - 1] < x
    requires i == |Crossings(row, m)| || x <= Crossings(row, m)[i]
    ensures InfillRow(row, m)[x] == if row[x] == m || i % 2 == 1 then m else row[x]
  {
    CountBelowAt(Crossings(row, m), i, x);
  }

  /** Only non-marker cells change, and every changed cell becomes the
      marker. */
  lemma InfillChangesOnlyToMarker(row: seq<byte>, m: byte, x: nat)
    requires x < |row|
    ensures InfillRow(row, m)[x] == row[x] || (row[x] != m && InfillRow(row, m)[x] == m)
  {
  }

  /** Every column strictly between crossings `2j` and `2j + 1` is filled. */
  lemma FillsBetweenPairs(row: seq<byte>, m: byte, k: nat, x: nat)
    requires k % 2 == 0 && k + 1 < |Crossings(row, m)|
    requires Crossings(row, m)[k] < x < Crossings(row, m)[k + 1]
    ensures InfillRow(row, m)[x] == m
  {
    var cr := Crossings(row, m);
    assert x < |row|;
    assert (k + 1) % 2 == 1;
    FinalBetween(row, m, k + 1, x);
  }

  /** Columns strictly between crossings `2j + 1` and `2j + 2`, and left of
      the first crossing, keep their value. */
  lemma KeepsGaps(row: seq<byte>, m: byte, k: nat, x: nat)
    requires x < |row| && k % 2 == 0 && k <= |Crossings(row, m)|
    requires k == 0 || Crossings(row, m)[k - 1] < x
    requires k == |Crossings(row, m)| || x < Crossings(row, m)[k]
    ensures InfillRow(row, m)[x] == row[x]
  {
    FinalBetween(row, m, k, x);
  }

  /** With an odd number of crossings, every column right of the last one is
      filled. */
  lemma FillsTailWhenOdd(row: seq<byte>, m: byte, x: nat)
    requires |Crossings(row, m)| % 2 == 1 && x < |row|
    requires |Crossings(row, m)| > 0 && Crossings(row, m)[|Crossings(row, m)| - 1] < x
    ensures InfillRow(row, m)[x] == m
  {
    FinalBetween(row, m, |Crossings(row, m)|, x);
  }

  /** A row without markers is unchanged. */
  lemma NoMarkersUnchanged(row: seq<byte>, m: byte)
    requires forall x :: 0 <= x < |row| ==> row[x] != m
    ensures InfillRow(row, m) == row
  {
    assert Crossings(row, m) == [];
  }

  lemma HorizontalLinePrefixRaw()
    ensures RawCrossings([0, 2, 0], 2) == [1]
  {
    var r1: seq<byte> := [0];
    var r2 := r1 + [2];
    var r3 := r2 + [0];
    assert r1[..0] == [] && RawCrossings(r1, 2) == [];
    assert r2[..1] == r1 && RawCrossings(r2, 2) == [1];
    assert r3[..2] == r2 && RawCrossings(r3, 2) == [1];
    assert r3 == [0, 2, 0];
  }

  lemma HorizontalLineRaw()
    ensures RawCrossings([0, 2, 0, 2, 0], 2) == [1, 3]
  {
    var r3: seq<byte> := [0, 2, 0];
    var r4 := r3 + [2];
    var r5 := r4 + [0];
    HorizontalLinePrefixRaw();
    assert r4[..3] == r3 && RawCrossings(r4, 2) == [1, 3];
    assert r5[..4] == r4 && RawCrossings(r5, 2) == [1, 3];
    assert r5 == [0, 2, 0, 2, 0];
  }

  lemma HorizontalLineCrossings()
    ensures Crossings([0, 2, 0, 2, 0], 2) == [1, 3]
  {
    HorizontalLineRaw();
    assert RunEnd([1, 3], 0) == 0 && RunEnd([1, 3], 1) == 1;
    assert Consolidate([1, 3], 2) == [];
    assert Consolidate([1, 3], 1) == [3];
  }

  /** The even-odd rule of `InfillRow`, cell by cell, for a named crossing list. */
  lemma InfillRowAt(row: seq<byte>, m: byte, cr: seq<nat>, x: nat)
    requires x < |row| && cr == Crossings(row, m)
    ensures InfillRow(row, m)[x] == if row[x] == m || CountBelow(cr, x) % 2 == 1 then m else row[x]
  {
  }

  lemma CountBelowPair()
    ensures CountBelow([1, 3], 0) == 0 && CountBelow([1, 3], 2) == 1 && CountBelow([1, 3], 4) == 2
  {
    assert [1, 3][..1] == [1] && [1, 3][..1][..0] == [];
  }

  lemma HorizontalLineCells(row: seq<byte>)
    requires row == [0, 2, 0, 2, 0]
    ensures InfillRow(row, 2)[0] == 0 && InfillRow(row, 2)[1] == 2 && InfillRow(row, 2)[2] == 2
    ensures InfillRow(row, 2)[3] == 2 && InfillRow(row, 2)[4] == 0
  {
    HorizontalLineCrossings();
    CountBelowPair();
    InfillRowAt(row, 2, [1, 3], 0);
    InfillRowAt(row, 2, [1, 3], 1);
    InfillRowAt(row, 2, [1, 3], 2);
    InfillRowAt(row, 2, [1, 3], 3);
    InfillRowAt(row, 2, [1, 3], 4);
  }

  lemma HorizontalLineExample(row: seq<byte>)
    requires row == [0, 2, 0, 2, 0]
    ensures InfillRow(row, 2) == [0, 2, 2, 2, 0]
  {
    var r := InfillRow(row, 2);
    HorizontalLineCells(row);
    assert r == [r[0], r[1], r[2], r[3], r[4]];
  }

  lemma OddMarkersPrefixRaw()
    ensures RawCrossings([0, 3], 3) == [1]
  {
    var r1: seq<byte> := [0];
    var r2 := r1 + [3];
    assert r1[..0] == [] && RawCrossings(r1, 3) == [];
    assert r2[..1] == r1 && RawCrossings(r2, 3) == [1];
    assert r2 == [0, 3];
  }

  lemma OddMarkersRaw()
    ensures RawCrossings([0, 3, 0, 0], 3) == [1]
  {
    var r2: seq<byte> := [0, 3];
    var r3 := r2 + [0];
    var r4 := r3 + [0];
    OddMarkersPrefixRaw();
    assert r3[..2] == r2 && RawCrossings(r3, 3) == [1];
    assert r4[..3] == r3 && RawCrossings(r4, 3) == [1];
    assert r4 == [0, 3, 0, 0];
  }

  lemma OddMarkersCrossings()
    ensures Crossings([0, 3, 0, 0], 3) == [1]
  {
    OddMarkersRaw();
    assert RunEnd([1], 0) == 0;
  }

  lemma OddMarkersExample(row: seq<byte>)
    requires row == [0, 3, 0, 0]
    ensures InfillRow(row, 3) == [0, 3, 3, 3]
  {
    OddMarkersCrossings();
    var r := InfillRow(row, 3);
    assert [1][..0] == [];
    assert CountBelow([1], 0) == 0 && CountBelow([1], 2) == 1 && CountBelow([1], 3) == 1;
    InfillRowAt(row, 3, [1], 0);
    InfillRowAt(row, 3, [1], 1);
    InfillRowAt(row, 3, [1], 2);
    InfillRowAt(row, 3, [1], 3);
    assert r == [r[0], r[1], r[2], r[3]];
  }

  /** `raw_crossings` of row `y`, collected left to right. */
  method CollectCrossings(data: array2<byte>, y: nat, m: byte) returns (raw: seq<nat>)
    requires y < data.Length0
    ensures raw == RawCrossings(Snapshot(data)[y], m)
  {
    ghost var row := Snapshot(data)[y];
    raw := [];
    for x := 0 to data.Length1
      invariant raw == RawCrossings(row[..x], m)
    {
      assert row[..x + 1][..x] == row[..x];
      if data[y, x] == m {
        raw := raw + [x];
      }
    }
    assert row[..data.Length1] == row;
  }

  lemma AppendAssoc<T>(a: seq<T>, b: seq<T>, c: seq<T>)
    ensures (a + b) + c == a + (b + c)
  {
  }

  lemma ConsolidateStep(raw: seq<nat>, i: nat)
    requires i < |raw|
    ensures Consolidate(raw, i) ==
      (if raw[i] == raw[RunEnd(raw, i)] then [raw[i]] else [raw[i], raw[RunEnd(raw, i)]]) + Consolidate(raw, RunEnd(raw, i) + 1)
  {
  }

  /** The inner loop of the consolidation: advances from `i` to the last
      index of its run of consecutive columns. */
  method FindRunEnd(raw: seq<nat>, i: nat) returns (j: nat, end: nat)
    requires i < |raw|
    ensures j == RunEnd(raw, i) && end == raw[j]
  {
    j := i;
    end := raw[i];
    while j + 1 < |raw| && raw[j + 1] == raw[j] + 1
      invariant i <= j < |raw| && end == raw[j]
      invariant RunEnd(raw, i) == RunEnd(raw, j)
      decreases |raw| - j
    {
      j := j + 1;
      end := raw[j];
    }
  }

  /** The consolidation loop: each run of consecutive columns contributes its
      start, and its end when that differs. */
  method ConsolidateCrossings(raw: seq<nat>) returns (crossings: seq<nat>)
    ensures crossings == Consolidate(raw, 0)
  {
    crossings := [];
    var i := 0;
    while i < |raw|
      invariant i <= |raw|
      invariant crossings + Consolidate(raw, i) == Consolidate(raw, 0)
      decreases |raw| - i
    {
      crossings, i := TakeRun(raw, i, crossings);
    }
  }

  /** One pass of the consolidation loop: appends the crossings of the run
      starting at `i` and moves past it. */
  method TakeRun(raw: seq<nat>, i: nat, crossings: seq<nat>) returns (out: seq<nat>, next: nat)
    requires i < |raw|
    ensures i < next <= |raw|
    ensures out + Consolidate(raw, next) == crossings + Consolidate(raw, i)
  {
    var start := raw[i];
    var last, end := FindRunEnd(raw, i);
    ghost var head := if start == end then [start] else [start, end];
    ghost var rest := Consolidate(raw, last + 1);
    ConsolidateStep(raw, i);
    assert Consolidate(raw, i) == head + rest;
    if start == end {
      out := crossings + [start];
    } else {
      out := crossings + [start, end];
    }
    assert out == crossings + head;
    AppendAssoc(crossings, head, rest);
    next := last + 1;
  }

  /** Sets columns `lo .. hi - 1` of row `y` to the marker. */
  method FillSpan(data: array2<byte>, y: nat, lo: nat, hi: nat, m: byte)
    requires y < data.Length0 && hi <= data.Length1
    modifies data
    ensures forall r, c :: 0 <= r < data.Length0 && 0 <= c < data.Length1 ==>
              data[r, c] == if r == y && lo <= c < hi then m else old(data[r, c])
  {
    var x := lo;
    while x < hi
      invariant x == lo || lo <= x <= hi
      invariant forall r, c :: 0 <= r < data.Length0 && 0 <= c < data.Length1 ==>
                  data[r, c] == if r == y && lo <= c < x then m else old(data[r, c])
    {
      data[y, x] := m;
      x := x + 1;
    }
  }

  lemma Parity(k: nat)
    requires k % 2 == 0
    ensures (k + 1) % 2 == 1 && (k + 2) % 2 == 0
  {
  }

  /** Filling the span between crossings `k` and `k + 1` (with `k` even)
      extends the finished prefix of the row up to crossing `k + 1`. */
  lemma PairStep(row: seq<byte>, m: byte, k: nat, c: nat)
    requires k % 2 == 0 && k + 1 < |Crossings(row, m)| && c < |row|
    ensures (if Crossings(row, m)[k] + 1 <= c < Crossings(row, m)[k + 1] then m
             else if k > 0 && c <= Crossings(row, m)[k - 1] then InfillRow(row, m)[c] else row[c])
            == (if c <= Crossings(row, m)[k + 1] then InfillRow(row, m)[c] else row[c])
  {
    var cr := Crossings(row, m);
    Parity(k);
    if k > 0 && c <= cr[k - 1] {
    } else if c <= cr[k] {
      FinalBetween(row, m, k, c);
    } else if c <= cr[k + 1] {
      FinalBetween(row, m, k + 1, c);
    }
  }

  /** After the pairs, filling right of the last crossing when their number
      is odd finishes the row. */
  lemma TailStep(row: seq<byte>, m: byte, k: nat, c: nat)
    requires k % 2 == 0 && k <= |Crossings(row, m)| && k + 1 >= |Crossings(row, m)| && c < |row|
    ensures (if |Crossings(row, m)| % 2 == 1 && |Crossings(row, m)| > 0 && Crossings(row, m)[|Crossings(row, m)| - 1] + 1 <= c then m
             else if k > 0 && c <= Crossings(row, m)[k - 1] then InfillRow(row, m)[c] else row[c])
            == InfillRow(row, m)[c]
  {
    var cr := Crossings(row, m);
    Parity(k);
    if k > 0 && c <= cr[k - 1] {
    } else if k < |cr| && c <= cr[k] {
      FinalBetween(row, m, k, c);
    } else if k < |cr| {
      FinalBetween(row, m, k + 1, c);
    } else {
      FinalBetween(row, m, k, c);
    }
  }

  /** One scanline: row `y` becomes `InfillRow` of its old value, and no
      other row changes. */
  method InfillScanline(data: array2<byte>, y: nat, m: byte)
    requires y < data.Length0
    modifies data
    ensures forall c :: 0 <= c < data.Length1 ==> data[y, c] == InfillRow(old(Snapshot(data))[y], m)[c]
    ensures forall r, c :: 0 <= r < data.Length0 && r != y && 0 <= c < data.Length1 ==> data[r, c] == old(data[r, c])
  {
    ghost var row := Snapshot(data)[y];
    var raw := CollectCrossings(data, y, m);
    var crossings := ConsolidateCrossings(raw);
    assert crossings == Crossings(row, m);
    var cols := data.Length1;
    var k := 0;
    while k + 1 < |crossings|
      invariant k % 2 == 0 && k <= |crossings|
      invariant forall r, c :: 0 <= r < data.Length0 && r != y && 0 <= c < cols ==> data[r, c] == old(data[r, c])
      invariant forall c :: 0 <= c < cols ==>
                  data[y, c] == if k > 0 && c <= crossings[k - 1] then InfillRow(row, m)[c] else row[c]
      decreases |crossings| - k
    {
      FillSpan(data, y, crossings[k] + 1, crossings[k + 1], m);
      forall c | 0 <= c < cols
        ensures data[y, c] == if c <= crossings[k + 1] then InfillRow(row, m)[c] else row[c]
      {
        PairStep(row, m, k, c);
      }
      Parity(k);
      k := k + 2;
    }
    if |crossings| % 2 == 1 {
      var last := crossings[|crossings| - 1];
      FillSpan(data, y, last + 1, cols, m);
    }
    forall c | 0 <= c < cols
      ensures data[y, c] == InfillRow(row, m)[c]
    {
      TailStep(row, m, k, c);
    }
  }

  /** `infill_poly(data, point_marker)`: every row becomes `InfillRow` of its
      old value; the dimensions are unchanged. */
  method InfillPoly(data: array2<byte>, m: byte)
    modifies data
    ensures Snapshot(data) == InfillGrid(old(Snapshot(data)), m)
  {
    ghost var g0 := Snapshot(data);
    for y := 0 to data.Length0
      invariant forall r, c :: 0 <= r < data.Length0 && 0 <= c < data.Length1 ==>
                  data[r, c] == if r < y then InfillRow(g0[r], m)[c] else g0[r][c]
    {
      assert Snapshot(data)[y] == g0[y];
      InfillScanline(data, y, m);
    }
    GridExt(Snapshot(data), InfillGrid(g0, m), data.Length0, data.Length1);
  }
}

/** `create_all_possible_operations` and its `_cloned` twin: every sequence
    of `k` entries drawn from `set` (here `items`), in the order of itertools'
    `multi_cartesian_product` (lexicographic by position in `items`, the last
    entry varying fastest). */
module Combos {
  import opened RustInt

  /** `[x] + t` for every `t` in `rest`, for every `x` in `items` in turn. */
  function Prefixed<T>(items: seq<T>, rest: seq<seq<T>>): (r: seq<seq<T>>)
  {
    if items == [] then [] else seq(|rest|, j requires 0 <= j < |rest| => [items[0]] + rest[j]) + Prefixed(items[1..], rest)
  }

  lemma {:induction false} PrefixedLength<T>(items: seq<T>, rest: seq<seq<T>>)
    ensures |Prefixed(items, rest)| == |items| * |rest|
    decreases |items|
  {
    if items != [] {
      PrefixedLength(items[1..], rest);
      MulSucc(|items| - 1, |rest|);
    }
  }

  lemma MulSucc(x: nat, m: nat)
    ensures (x + 1) * m == x * m + m
  {
  }

  /** `repeat_n(items.iter(), k).multi_cartesian_product()`, for `k >= 1`. */
  function CartesianPower<T>(items: seq<T>, k: nat): (r: seq<seq<T>>)
    requires k >= 1
    decreases k
  {
    if k == 1 then seq(|items|, i requires 0 <= i < |items| => [items[i]])
    else Prefixed(items, CartesianPower(items, k - 1))
  }

  /** The product has `|items|^k` elements. */
  lemma {:induction false} CartesianPowerLength<T>(items: seq<T>, k: nat)
    requires k >= 1
    ensures |CartesianPower(items, k)| == Pow(|items|, k)
    decreases k
  {
    if k > 1 {
      CartesianPowerLength(items, k - 1);
      PrefixedLength(items, CartesianPower(items, k - 1));
    }
  }

  lemma {:induction false} PrefixedAt<T>(items: seq<T>, rest: seq<seq<T>>, a: nat, j: nat)
    requires a < |items| && j < |rest|
    ensures a * |rest| + j < |Prefixed(items, rest)|
    ensures Prefixed(items, rest)[a * |rest| + j] == [items[a]] + rest[j]
    decreases |items|
  {
    var m := |rest|;
    PrefixedLength(items, rest);
    PrefixedLength(items[1..], rest);
    MulSucc(|items| - 1, m);
    if a > 0 {
      PrefixedAt(items[1..], rest, a - 1, j);
      MulSucc(a - 1, m);
      var head := seq(m, j requires 0 <= j < m => [items[0]] + rest[j]);
      assert Prefixed(items, rest) == head + Prefixed(items[1..], rest);
      assert a * m + j == m + ((a - 1) * m + j);
    }
  }

  /** The entries of element `i` of a `k`-fold product: the base-`|items|`
      digits of `i`, most significant first. */
  function IndexDigits(i: nat, n: nat, k: nat): (ds: seq<nat>)
    requires n > 0
    ensures |ds| == k && forall t :: 0 <= t < k ==> ds[t] < n
    decreases k
  {
    if k == 0 then [] else IndexDigits(i / n, n, k - 1) + [i % n]
  }

  /** Element `i` of the product takes entry `t` from `items` at the `t`-th
      base-`|items|` digit of `i`.  This pins down the order and shows the map
      from index to sequence is a bijection. */
  lemma {:induction false} CartesianPowerAt<T>(items: seq<T>, k: nat, i: nat)
    requires k >= 1 && i < |CartesianPower(items, k)|
    ensures |items| > 0 && i < Pow(|items|, k)
    ensures |CartesianPower(items, k)[i]| == k
    ensures forall t :: 0 <= t < k ==> CartesianPower(items, k)[i][t] == items[IndexDigits(i, |items|, k)[t]]
    decreases k
  {
    var n := |items|;
    CartesianPowerLength(items, k);
    PowZero(k);
    if k == 1 {
      DivUnique(i, n, 0, i);
      assert IndexDigits(i, n, 1) == IndexDigits(i / n, n, 0) + [i % n];
    } else {
      var m := Pow(n, k - 1);
      var a, j := SplitIndex(i, n, m);
      CartesianPowerLength(items, k - 1);
      PrefixedAt(items, CartesianPower(items, k - 1), a, j);
      CartesianPowerAt(items, k - 1, j);
      IndexDigitsSplit(i, n, k);
      var ds := IndexDigits(i, n, k);
      assert ds == [a] + IndexDigits(j, n, k - 1);
      var row := CartesianPower(items, k)[i];
      assert row == [items[a]] + CartesianPower(items, k - 1)[j];
      forall t | 0 <= t < k ensures row[t] == items[ds[t]] {
        if t > 0 {
          assert row[t] == CartesianPower(items, k - 1)[j][t - 1];
        }
      }
    }
  }

  lemma {:induction false} PowZero(k: nat)
    ensures k >= 1 ==> Pow(0, k) == 0
  {
  }

  /** An index below `n * m` is `a * m + j` with `a < n` and `j < m`. */
  lemma SplitIndex(i: nat, n: nat, m: nat) returns (a: nat, j: nat)
    requires m > 0 && i < n * m
    ensures a == i / m && j == i % m && a < n && j < m && i == a * m + j
  {
    a, j := i / m, i % m;
    NatDivMod(i, m);
    if a >= n {
      MulLe(m, n, a);
    }
  }

  /** The leading digit of `i` is `i / n^(k-1)` and the rest are the digits
      of `i % n^(k-1)`. */
  lemma {:induction false} IndexDigitsSplit(i: nat, n: nat, k: nat)
    requires n > 0 && k >= 1 && i < Pow(n, k)
    ensures IndexDigits(i, n, k) == [i / Pow(n, k - 1)] + IndexDigits(i % Pow(n, k - 1), n, k - 1)
    decreases k
  {
    if k > 1 {
      var m := Pow(n, k - 2);
      assert Pow(n, k - 1) == n * m;
      DivDiv(i, n, m);
      assert i / n < Pow(n, k - 1) by {
        DivBelow(i, n, Pow(n, k - 1));
      }
      IndexDigitsSplit(i / n, n, k - 1);
      ModMod(i, n, m);
    }
  }

  lemma DivBelow(i: nat, n: nat, m: nat)
    requires n > 0 && i < n * m
    ensures i / n < m
  {
    if i / n >= m {
      MulLe(n, m, i / n);
    }
  }

  /** `(i % (n * m)) / n == (i / n) % m` and `(i % (n * m)) % n == i % n`. */
  lemma ModMod(i: nat, n: nat, m: nat)
    requires n > 0 && m > 0
    ensures n * m > 0
    ensures (i % (n * m)) / n == (i / n) % m && (i % (n * m)) % n == i % n
  {
    MulPositive(n, m);
    var q, r := i / n, i % n;
    var q2, r2 := q / m, q % m;
    DivDiv(i, n, m);
    NatDivMod(i, n);
    NatDivMod(q, m);
    MulParts(n, m, q2, r2);
    // i == (n * m) * q2 + (n * r2 + r), with n * r2 + r < n * m
    MulLe(n, r2, m - 1);
    DivUnique(i, n * m, q2, n * r2 + r);
    DivUnique(n * r2 + r, n, r2, r);
  }

  /** Every sequence in the product has length `k` and entries from `items`. */
  lemma EntriesFromSet<T>(items: seq<T>, k: nat, i: nat)
    requires k >= 1 && i < |CartesianPower(items, k)|
    ensures |CartesianPower(items, k)[i]| == k
    ensures forall t :: 0 <= t < k ==> CartesianPower(items, k)[i][t] in items
  {
    CartesianPowerAt(items, k, i);
  }

  /** The index of the sequence choosing `items[ds[t]]` at each position. */
  function IndexOf(ds: seq<nat>, n: nat): nat
  {
    if ds == [] then 0 else IndexOf(ds[..|ds| - 1], n) * n + ds[|ds| - 1]
  }

  lemma {:induction false} IndexOfDigits(ds: seq<nat>, n: nat)
    requires n > 0 && forall t :: 0 <= t < |ds| ==> ds[t] < n
    ensures IndexOf(ds, n) < Pow(n, |ds|)
    ensures IndexDigits(IndexOf(ds, n), n, |ds|) == ds
    decreases |ds|
  {
    if ds != [] {
      var init := ds[..|ds| - 1];
      IndexOfDigits(init, n);
      var x, d := IndexOf(init, n), ds[|ds| - 1];
      DivUnique(x * n + d, n, x, d);
      MulLe(n, x, Pow(n, |init|) - 1);
      assert ds == init + [d];
    }
  }

  /** Every sequence of length `k` over `items` is in the product. */
  lemma AllSequencesPresent<T>(items: seq<T>, k: nat, s: seq<T>)
    requires k >= 1 && |s| == k && forall t :: 0 <= t < k ==> s[t] in items
    ensures s in CartesianPower(items, k)
  {
    var ds := seq(k, t requires 0 <= t < k => IndexIn(items, s[t]));
    assert s[0] in items;
    IndexOfDigits(ds, |items|);
    var i := IndexOf(ds, |items|);
    CartesianPowerLength(items, k);
    CartesianPowerAt(items, k, i);
    assert CartesianPower(items, k)[i] == s;
  }

  function IndexIn<T(==)>(items: seq<T>, x: T): (i: nat)
    requires x in items
    ensures i < |items| && items[i] == x
  {
    if items[0] == x then 0 else 1 + IndexIn(items[1..], x)
  }

  /** With distinct entries in `items`, no sequence appears twice. */
  lemma NoRepeats<T>(items: seq<T>, k: nat, i: nat, j: nat)
    requires k >= 1 && i < j < |CartesianPower(items, k)|
    requires forall a, b :: 0 <= a < b < |items| ==> items[a] != items[b]
    ensures CartesianPower(items, k)[i] != CartesianPower(items, k)[j]
  {
    var n := |items|;
    CartesianPowerAt(items, k, i);
    CartesianPowerAt(items, k, j);
    CartesianPowerLength(items, k);
    var di, dj := IndexDigits(i, n, k), IndexDigits(j, n, k);
    DigitsIndex(i, n, k);
    DigitsIndex(j, n, k);
    if di == dj {
      assert false;
    }
    var t :| 0 <= t < k && di[t] != dj[t];
    assert CartesianPower(items, k)[i][t] != CartesianPower(items, k)[j][t];
  }

  lemma {:induction false} DigitsIndex(i: nat, n: nat, k: nat)
    requires n > 0 && i < Pow(n, k)
    ensures IndexOf(IndexDigits(i, n, k), n) == i
    decreases k
  {
    if k > 0 {
      var q, d := i / n, i % n;
      var init := IndexDigits(q, n, k - 1);
      var ds := init + [d];
      assert ds == IndexDigits(i, n, k);
      assert ds[..|ds| - 1] == init;
      DivBelow(i, n, Pow(n, k - 1));
      DigitsIndex(q, n, k - 1);
      NatDivMod(i, n);
      assert IndexOf(ds, n) == IndexOf(init, n) * n + d;
    }
  }

  /** `create_all_possible_operations_cloned`: the product collected into a
      vector, one push per combination. */
  method CreateAllPossibleOperationsCloned<T>(items: seq<T>, k: nat) returns (results: seq<seq<T>>)
    requires k >= 1
    ensures results == CartesianPower(items, k)
  {
    var combos := CartesianPower(items, k);
    results := [];
    for i := 0 to |combos|
      invariant results == combos[..i]
    {
      results := results + [combos[i]];
    }
  }

  lemma ProductExample()
    ensures CartesianPower([0, 1], 2) == [[0, 0], [0, 1], [1, 0], [1, 1]]
  {
    var items := [0, 1];
    var one := CartesianPower(items, 1);
    assert one == [[0], [1]];
    CartesianPowerLength(items, 2);
    assert Pow(2, 2) == 4;
    PrefixedAt(items, one, 0, 0);
    PrefixedAt(items, one, 0, 1);
    PrefixedAt(items, one, 1, 0);
    PrefixedAt(items, one, 1, 1);
    var r := CartesianPower(items, 2);
    assert r == Prefixed(items, one);
    assert r[0] == [0, 0] && r[1] == [0, 1] && r[2] == [1, 0] && r[3] == [1, 1];
  }
}

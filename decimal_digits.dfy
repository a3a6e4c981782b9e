/** `DecimalDigits`: an iterator over the decimal digits of a number, most
    significant first.  It keeps the number and `pos`, the count of digits
    still to come; each `next` lowers `pos` and reads the digit `pos`
    places from the right. */
module DecimalDigitsIter {
  import opened Wrappers
  import opened RustInt
  import Text

  /** The decimal digits of `n`, most significant first. */
  function Digits(n: nat): (ds: seq<nat>)
    ensures |ds| == Text.NumDigits(n)
    ensures forall i :: 0 <= i < |ds| ==> ds[i] < 10
    ensures n > 0 ==> ds[0] > 0
  {
    if n < 10 then [n] else Digits(n / 10) + [n % 10]
  }

  /** The number spelled by `ds`, most significant first. */
  function FromDigits(ds: seq<nat>): nat
  {
    if ds == [] then 0 else FromDigits(ds[..|ds| - 1]) * 10 + ds[|ds| - 1]
  }

  /** Reading the digits back gives the number. */
  lemma {:induction false} FromDigitsOfDigits(n: nat)
    ensures FromDigits(Digits(n)) == n
  {
    if n >= 10 {
      FromDigitsOfDigits(n / 10);
      var ds := Digits(n);
      assert ds[..|ds| - 1] == Digits(n / 10);
    }
  }

  /** `ilog10(n) + 1` is the number of decimal digits. */
  lemma {:induction false} NumDigitsIsILog10(n: nat)
    requires n > 0
    ensures Text.NumDigits(n) == ILog10(n) + 1
  {
    if n >= 10 {
      NumDigitsIsILog10(n / 10);
    }
  }

  /** The digit `p` places from the right end is `(n / 10^(p-1)) % 10`. */
  lemma {:induction false} DigitAt(n: nat, p: nat)
    requires 1 <= p <= Text.NumDigits(n)
    ensures Digits(n)[Text.NumDigits(n) - p] == (n / Pow(10, p - 1)) % 10
  {
    if n >= 10 && p > 1 {
      DigitAt(n / 10, p - 1);
      DivDiv(n, 10, Pow(10, p - 2));
      assert Pow(10, p - 1) == 10 * Pow(10, p - 2);
    }
  }

  class DecimalDigits {
    var number: nat
    var pos: nat

    ghost predicate Valid()
      reads this
    {
      number > 0 && pos <= Text.NumDigits(number)
    }

    /** The digits `next` has still to yield. */
    ghost function Remaining(): seq<nat>
      reads this
      requires Valid()
    {
      Digits(number)[Text.NumDigits(number) - pos..]
    }

    /** The shared body of both `From` impls: `pos` is `ilog10 + 1`. */
    constructor Init(n: nat)
      requires n > 0
      ensures Valid() && number == n && pos == Text.NumDigits(n)
      ensures Remaining() == Digits(n)
    {
      number := n;
      pos := ILog10(n) + 1;
      NumDigitsIsILog10(n);
    }

    /** `len`: the number of digits still to come. */
    function Len(): (l: nat)
      reads this
      requires Valid()
      ensures l == |Remaining()|
    {
      pos
    }

    /** `Iterator::next`. */
    method Next() returns (d: Option<nat>)
      requires Valid()
      modifies this
      ensures Valid() && number == old(number)
      ensures d.None? <==> old(pos) == 0
      ensures d.None? ==> pos == 0
      ensures d.Some? ==> d.value == old(Remaining())[0] && Remaining() == old(Remaining())[1..]
    {
      if pos == 0 {
        d := None;
      } else {
        pos := pos - 1;
        var div := Pow(10, pos);
        d := Some((number / div) % 10);
        DigitAt(number, pos + 1);
      }
    }

    /** `collect`: drains the iterator. */
    method Collect() returns (ds: seq<nat>)
      requires Valid()
      modifies this
      ensures Valid() && number == old(number) && pos == 0
      ensures ds == old(Remaining())
    {
      ds := [];
      ghost var all := Remaining();
      while true
        invariant Valid() && number == old(number)
        invariant all == ds + Remaining()
        decreases pos
      {
        ghost var before := Remaining();
        var d := Next();
        if d.None? {
          return;
        }
        MoveHead(ds, before);
        ds := ds + [d.value];
      }
    }
  }

  lemma MoveHead(ds: seq<nat>, r: seq<nat>)
    requires |r| > 0
    ensures ds + r == (ds + [r[0]]) + r[1..]
  {
    assert r == [r[0]] + r[1..];
  }

  /** `From<u64>`; `ilog10` panics at zero. */
  method FromU64(n: nat) returns (r: Result<DecimalDigits>)
    ensures r.Panic? <==> n == 0
    ensures r.Ok? ==> fresh(r.value) && r.value.Valid() && r.value.number == n && r.value.Remaining() == Digits(n)
  {
    if n == 0 {
      r := Panic("argument of integer logarithm must be positive");
    } else {
      var it := new DecimalDigits.Init(n);
      r := Ok(it);
    }
  }

  /** `From<&str>`: `parse::<u64>().unwrap()` and then as `From<u64>`. */
  method FromStr(s: Text.Bytes) returns (r: Result<DecimalDigits>)
    ensures r.Panic? <==> Text.ParseUnsigned(s).None? || Text.ParseUnsigned(s).value == 0
                          || Text.ParseUnsigned(s).value >= U64_LIMIT
    ensures r.Ok? ==> fresh(r.value) && r.value.Valid() && r.value.number == Text.ParseUnsigned(s).value
                      && r.value.Remaining() == Digits(r.value.number)
  {
    match Text.ParseUnsignedBelow(s, U64_LIMIT)
    case None =>
      r := Panic("called `Result::unwrap()` on an `Err` value");
    case Some(n) =>
      r := FromU64(n);
  }

  /** A fresh iterator yields `Digits(n)`, of length `len()`, which spell
      `n`; after that `next` yields nothing. */
  lemma CollectSpellsNumber(n: nat)
    requires n > 0
    ensures |Digits(n)| == Text.NumDigits(n)
    ensures FromDigits(Digits(n)) == n
  {
    FromDigitsOfDigits(n);
  }

  lemma DigitsExamples()
    ensures Digits(9876) == [9, 8, 7, 6]
    ensures Digits(123) == [1, 2, 3]
    ensures Text.NumDigits(12345) == 5 && Text.NumDigits(7) == 1
  {
    assert Digits(9) == [9];
    assert Digits(98) == [9, 8];
    assert Digits(987) == [9, 8, 7];
    assert Digits(1) == [1];
    assert Digits(12) == [1, 2];
  }
}

/** Text as the Rust standard library sees it, on bytes.  File contents and
    `String`s are UTF-8 byte sequences; every helper below works byte-wise, as
    the Rust functions do for the ASCII input the solvers read. */
module Text {
  import opened Wrappers

  type byte = x: int | 0 <= x < 256
  type Bytes = seq<byte>

  const NL: byte := 10
  const CR: byte := 13
  const SPACE: byte := 32
  const ZERO: byte := 48
  const PLUS: byte := 43
  const MINUS: byte := 45

  /** A Dafny string literal as the bytes of its ASCII spelling. */
  function Ascii(s: string): (r: Bytes)
    requires forall i :: 0 <= i < |s| ==> s[i] as int < 128
    ensures |r| == |s| && forall i :: 0 <= i < |s| ==> r[i] == s[i] as int
  {
    seq(|s|, i requires 0 <= i < |s| => s[i] as int)
  }

  predicate IsDigit(b: byte) { ZERO <= b <= ZERO + 9 }

  /** ASCII whitespace as `char::is_whitespace` classifies it. */
  predicate IsWhitespace(b: byte) { b == SPACE || 9 <= b <= 13 }

  predicate AllDigits(s: Bytes) { forall i :: 0 <= i < |s| ==> IsDigit(s[i]) }

  predicate Contains(s: Bytes, b: byte) { b in s }

  /** The first index of `b` in `s`, or `|s|` when there is none. */
  function IndexOf(s: Bytes, b: byte): (i: nat)
    ensures i <= |s|
    ensures i < |s| ==> s[i] == b
    ensures forall k :: 0 <= k < i ==> s[k] != b
    ensures i == |s| <==> b !in s
  {
    if s == [] then 0
    else if s[0] == b then 0
    else 1 + IndexOf(s[1..], b)
  }

  /** In `a + [sep] + b` with no `sep` in `a`, the first `sep` is at `|a|`. */
  lemma FirstSeparator(a: Bytes, sep: byte, b: Bytes)
    requires sep !in a
    ensures IndexOf(a + [sep] + b, sep) == |a|
  {
    var s := a + [sep] + b;
    assert s[|a|] == sep;
    assert forall k :: 0 <= k < |a| ==> s[k] == a[k];
  }

  /** Drops one trailing carriage return. */
  function StripCR(s: Bytes): (r: Bytes)
    ensures r == s || (r + [CR] == s)
  {
    if |s| > 0 && s[|s| - 1] == CR then s[..|s| - 1] else s
  }

  /** `str::lines`: pieces ended by `\n` (with a `\r` before it dropped too);
      the final line ending is optional, and a `\r` on a last line that has no
      `\n` is kept. */
  function Lines(s: Bytes): (r: seq<Bytes>)
    ensures forall k :: 0 <= k < |r| ==> NL !in r[k]
    ensures s == [] <==> r == []
    decreases |s|
  {
    if s == [] then []
    else
      var i := IndexOf(s, NL);
      if i == |s| then [s]
      else [StripCR(s[..i])] + Lines(s[i + 1..])
  }

  /** `filter(|s| !s.is_empty())`: the pieces that are not empty, in order. */
  function NonEmpty(pieces: seq<Bytes>): (r: seq<Bytes>)
    ensures forall k :: 0 <= k < |r| ==> r[k] != []
    ensures forall x :: x in r <==> x in pieces && x != []
    ensures |r| <= |pieces|
  {
    if pieces == [] then []
    else if pieces[0] == [] then NonEmpty(pieces[1..])
    else [pieces[0]] + NonEmpty(pieces[1..])
  }

  /** `str::split` on one byte: always at least one piece, empty pieces kept. */
  function Split(s: Bytes, sep: byte): (r: seq<Bytes>)
    ensures |r| >= 1
    ensures forall k :: 0 <= k < |r| ==> sep !in r[k]
    decreases |s|
  {
    var i := IndexOf(s, sep);
    if i == |s| then [s] else [s[..i]] + Split(s[i + 1..], sep)
  }

  /** The pieces put back together with the separator between them. */
  function Join(pieces: seq<Bytes>, sep: byte): Bytes
    requires |pieces| >= 1
  {
    if |pieces| == 1 then pieces[0] else pieces[0] + [sep] + Join(pieces[1..], sep)
  }

  /** Splitting loses nothing: joining the pieces gives the text back. */
  lemma {:induction false} JoinSplit(s: Bytes, sep: byte)
    ensures Join(Split(s, sep), sep) == s
    decreases |s|
  {
    var i := IndexOf(s, sep);
    if i < |s| {
      var head, tail := s[..i], s[i + 1..];
      var pieces := Split(s, sep);
      assert pieces == [head] + Split(tail, sep);
      JoinSplit(tail, sep);
      assert pieces[1..] == Split(tail, sep);
      assert Join(pieces, sep) == head + [sep] + Join(Split(tail, sep), sep);
      assert s == head + [sep] + tail;
    }
  }

  /** Splitting a text built from a separator-free head and the separator
      yields the head first. */
  lemma SplitCons(a: Bytes, sep: byte, b: Bytes)
    requires sep !in a
    ensures Split(a + [sep] + b, sep) == [a] + Split(b, sep)
  {
    var s := a + [sep] + b;
    assert IndexOf(s, sep) == |a| by {
      assert s[|a|] == sep;
      assert forall k :: 0 <= k < |a| ==> s[k] == a[k];
    }
    assert s[..|a|] == a;
    assert s[|a| + 1..] == b;
  }

  lemma SplitNoSep(a: Bytes, sep: byte)
    requires sep !in a
    ensures Split(a, sep) == [a]
  {
  }

  /** `str::split_once` on one byte: the text before and after the first
      occurrence, or `None`. */
  function SplitOnce(s: Bytes, sep: byte): (r: Option<(Bytes, Bytes)>)
    ensures r.None? <==> sep !in s
    ensures r.Some? ==> s == r.value.0 + [sep] + r.value.1 && sep !in r.value.0
  {
    var i := IndexOf(s, sep);
    if i == |s| then None
    else
      assert s == s[..i] + [sep] + s[i + 1..];
      Some((s[..i], s[i + 1..]))
  }

  /** Leading whitespace dropped (`str::trim_start`). */
  function TrimStart(s: Bytes): (r: Bytes)
    ensures |r| <= |s| && r == s[|s| - |r|..]
    ensures r == [] || !IsWhitespace(r[0])
    ensures forall k :: 0 <= k < |s| - |r| ==> IsWhitespace(s[k])
  {
    if s != [] && IsWhitespace(s[0]) then TrimStart(s[1..]) else s
  }

  /** Trailing whitespace dropped (`str::trim_end`). */
  function TrimEnd(s: Bytes): (r: Bytes)
    ensures |r| <= |s| && r == s[..|r|]
    ensures r == [] || !IsWhitespace(r[|r| - 1])
    ensures forall k :: |r| <= k < |s| ==> IsWhitespace(s[k])
  {
    if s != [] && IsWhitespace(s[|s| - 1]) then TrimEnd(s[..|s| - 1]) else s
  }

  /** `str::trim`. */
  function Trim(s: Bytes): Bytes
  {
    TrimEnd(TrimStart(s))
  }

  /** Trimming text that already starts and ends in non-whitespace changes
      nothing. */
  lemma TrimNoop(s: Bytes)
    requires s == [] || (!IsWhitespace(s[0]) && !IsWhitespace(s[|s| - 1]))
    ensures Trim(s) == s
  {
  }

  /** The length of the leading run of non-whitespace. */
  function WordLength(s: Bytes): (i: nat)
    ensures i <= |s|
    ensures forall k :: 0 <= k < i ==> !IsWhitespace(s[k])
    ensures i < |s| ==> IsWhitespace(s[i])
  {
    if s == [] || IsWhitespace(s[0]) then 0 else 1 + WordLength(s[1..])
  }

  /** A non-empty run of non-whitespace. */
  predicate IsWord(w: Bytes) { w != [] && forall j :: 0 <= j < |w| ==> !IsWhitespace(w[j]) }

  /** `str::split_whitespace`: the maximal runs of non-whitespace, in order. */
  function SplitWhitespace(s: Bytes): (r: seq<Bytes>)
    ensures forall k :: 0 <= k < |r| ==> IsWord(r[k])
    decreases |s|
  {
    var t := TrimStart(s);
    if t == [] then []
    else
      var n := WordLength(t);
      WordPrefix(t);
      var rest := SplitWhitespace(t[n..]);
      ConsWords(t[..n], rest);
      [t[..n]] + rest
  }

  /** A line that starts with a non-whitespace byte starts with a word. */
  lemma WordPrefix(t: Bytes)
    requires t != [] && !IsWhitespace(t[0])
    ensures WordLength(t) >= 1 && IsWord(t[..WordLength(t)])
  {
  }

  lemma ConsWords(w: Bytes, rest: seq<Bytes>)
    requires IsWord(w) && forall k :: 0 <= k < |rest| ==> IsWord(rest[k])
    ensures forall k :: 0 <= k < |[w] + rest| ==> IsWord(([w] + rest)[k])
  {
  }

  /** Words joined by single spaces split back into the same words. */
  lemma {:induction false} SplitWhitespaceOfSpaced(words: seq<Bytes>)
    requires forall k :: 0 <= k < |words| ==> IsWord(words[k])
    ensures SplitWhitespace(Spaced(words)) == words
    decreases |words|
  {
    if |words| == 1 {
      SplitWhitespaceCons(words[0], []);
      assert words[0] + [] == words[0];
    } else if |words| > 1 {
      var tail := words[1..];
      var rest := [SPACE] + Spaced(tail);
      calc {
        SplitWhitespace(Spaced(words));
        { assert Spaced(words) == words[0] + rest; }
        SplitWhitespace(words[0] + rest);
        { SplitWhitespaceCons(words[0], rest); }
        [words[0]] + SplitWhitespace(rest);
        { SplitWhitespaceSkipsLeading(rest, Spaced(tail)); }
        [words[0]] + SplitWhitespace(Spaced(tail));
        { SplitWhitespaceOfSpaced(tail); }
        [words[0]] + tail;
        { assert words == [words[0]] + tail; }
        words;
      }
    } else {
      assert TrimStart(Spaced(words)) == [];
    }
  }

  /** A word followed by whitespace (or nothing) is the first token. */
  lemma SplitWhitespaceCons(w: Bytes, rest: Bytes)
    requires IsWord(w)
    requires rest == [] || IsWhitespace(rest[0])
    ensures SplitWhitespace(w + rest) == [w] + SplitWhitespace(rest)
  {
    var s := w + rest;
    assert TrimStart(s) == s;
    WordLengthOf(w, rest);
    assert s[..|w|] == w;
    assert s[|w|..] == rest;
  }

  lemma {:induction false} WordLengthOf(w: Bytes, rest: Bytes)
    requires forall j :: 0 <= j < |w| ==> !IsWhitespace(w[j])
    requires rest == [] || IsWhitespace(rest[0])
    ensures WordLength(w + rest) == |w|
    decreases |w|
  {
    if w != [] {
      assert (w + rest)[1..] == w[1..] + rest;
      WordLengthOf(w[1..], rest);
    } else {
      assert w + rest == rest;
    }
  }

  lemma SplitWhitespaceSkipsLeading(s: Bytes, t: Bytes)
    requires |s| == |t| + 1 && IsWhitespace(s[0]) && s[1..] == t
    ensures SplitWhitespace(s) == SplitWhitespace(t)
  {
    assert TrimStart(s) == TrimStart(t);
  }

  /** Words joined by single spaces. */
  function Spaced(words: seq<Bytes>): Bytes
  {
    if words == [] then [] else if |words| == 1 then words[0] else words[0] + [SPACE] + Spaced(words[1..])
  }

  /** The value of a run of decimal digits, most significant first. */
  function DigitsValue(s: Bytes): (v: nat)
    requires AllDigits(s)
  {
    if s == [] then 0 else DigitsValue(s[..|s| - 1]) * 10 + (s[|s| - 1] - ZERO)
  }

  /** `str::parse::<uN>()`: an optional `+`, then at least one decimal digit.
      Values too wide for the Rust type are not rejected here. */
  function ParseUnsigned(s: Bytes): (r: Option<nat>)
    ensures r.Some? <==> (|s| > 0 && s[0] == PLUS && |s| > 1 && AllDigits(s[1..])) || (|s| > 0 && AllDigits(s))
  {
    var body := if |s| > 0 && s[0] == PLUS then s[1..] else s;
    if |body| > 0 && AllDigits(body) then Some(DigitsValue(body)) else None
  }

  /** `str::parse::<iN>()`: an optional `+` or `-`, then at least one digit. */
  function ParseSigned(s: Bytes): (r: Option<int>)
    ensures |s| > 0 && s[0] != MINUS ==> r == (match ParseUnsigned(s) case Some(v) => Some(v as int) case None => None)
  {
    if |s| > 0 && s[0] == MINUS then
      (if |s| > 1 && AllDigits(s[1..]) then var v: int := DigitsValue(s[1..]); Some(-v) else None)
    else
      match ParseUnsigned(s)
      case Some(v) => Some(v as int)
      case None => None
  }

  /** `str::parse` into an unsigned type whose values lie below `limit`:
      text that does not fit is an error, as Rust's `PosOverflow`. */
  function ParseUnsignedBelow(s: Bytes, limit: nat): (r: Option<nat>)
    ensures r.Some? <==> ParseUnsigned(s).Some? && ParseUnsigned(s).value < limit
    ensures r.Some? ==> r.value == ParseUnsigned(s).value
  {
    match ParseUnsigned(s)
    case Some(v) => if v < limit then Some(v) else None
    case None => None
  }

  /** `str::parse` into a signed type holding `lo..=hi`: text outside the
      range is an error, as Rust's `PosOverflow`/`NegOverflow`. */
  function ParseSignedWithin(s: Bytes, lo: int, hi: int): (r: Option<int>)
    ensures r.Some? <==> ParseSigned(s).Some? && lo <= ParseSigned(s).value <= hi
    ensures r.Some? ==> r.value == ParseSigned(s).value
  {
    match ParseSigned(s)
    case Some(v) => if lo <= v <= hi then Some(v) else None
    case None => None
  }

  /** `u64::to_string`: decimal, no sign, no leading zeros. */
  function Decimal(n: nat): (r: Bytes)
    ensures |r| >= 1 && AllDigits(r)
    ensures |r| > 1 ==> r[0] != ZERO
  {
    if n < 10 then [ZERO + n] else Decimal(n / 10) + [ZERO + n % 10]
  }

  /** Printing then parsing is the identity. */
  lemma {:induction false} DecimalValue(n: nat)
    ensures DigitsValue(Decimal(n)) == n
  {
    if n >= 10 {
      DecimalValue(n / 10);
      var d := Decimal(n);
      assert d[..|d| - 1] == Decimal(n / 10);
    }
  }

  lemma DecimalParses(n: nat)
    ensures ParseUnsigned(Decimal(n)) == Some(n)
    ensures ParseSigned(Decimal(n)) == Some(n)
  {
    DecimalValue(n);
  }

  /** Parsing then printing is the identity on digit runs without a leading
      zero. */
  lemma {:induction false} DecimalOfDigits(s: Bytes)
    requires |s| >= 1 && AllDigits(s) && (|s| > 1 ==> s[0] != ZERO)
    ensures Decimal(DigitsValue(s)) == s
    decreases |s|
  {
    if |s| > 1 {
      var h := s[..|s| - 1];
      DecimalOfDigits(h);
      DigitsValuePositive(h);
    }
  }

  lemma {:induction false} DigitsValuePositive(s: Bytes)
    requires |s| >= 1 && AllDigits(s) && s[0] != ZERO
    ensures DigitsValue(s) >= 1
    decreases |s|
  {
    if |s| > 1 {
      DigitsValuePositive(s[..|s| - 1]);
    }
  }

  /** Distinct numbers print differently. */
  lemma DecimalInjective(a: nat, b: nat)
    requires Decimal(a) == Decimal(b)
    ensures a == b
  {
    DecimalValue(a);
    DecimalValue(b);
  }

  /** The number of decimal digits of `n`, i.e. `ilog10(n) + 1` for `n > 0`. */
  function NumDigits(n: nat): (k: nat)
    ensures k >= 1
  {
    if n < 10 then 1 else 1 + NumDigits(n / 10)
  }

  lemma {:induction false} DecimalLength(n: nat)
    ensures |Decimal(n)| == NumDigits(n)
  {
    if n >= 10 {
      DecimalLength(n / 10);
    }
  }
}

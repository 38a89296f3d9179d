/** Character-level helpers shared by the subtitle model: decimal printing and
    parsing of natural numbers (Python's `str(n)` and zero-padded `{n:0w}`),
    joining and splitting on a separator character, and flattening a sequence
    of sequences. */
module Strings {
  import opened Wrappers

  function Pow10(k: nat): (p: nat)
    ensures p >= 1
  {
    if k == 0 then 1 else 10 * Pow10(k - 1)
  }

  predicate IsDigit(c: char) { '0' <= c <= '9' }

  predicate AllDigits(s: string) { forall i :: 0 <= i < |s| ==> IsDigit(s[i]) }

  function DigitChar(d: nat): (c: char)
    requires d < 10
    ensures IsDigit(c)
  {
    ('0' as int + d) as char
  }

  function DigitValue(c: char): (d: nat)
    requires IsDigit(c)
    ensures d < 10
    ensures DigitChar(d) == c
  {
    c as int - '0' as int
  }

  /** The shortest decimal numeral of `n`: no leading zero except for `n == 0`. */
  function Decimal(n: nat): (s: string)
    ensures 1 <= |s|
    ensures AllDigits(s)
    ensures |s| > 1 ==> s[0] != '0'
  {
    if n < 10 then [DigitChar(n)] else Decimal(n / 10) + [DigitChar(n % 10)]
  }

  /** The value of a numeral; leading zeros are allowed. */
  function ParseDecimal(s: string): (n: nat)
    requires AllDigits(s)
    ensures n < Pow10(|s|)
  {
    if s == [] then 0 else ParseDecimal(s[..|s| - 1]) * 10 + DigitValue(s[|s| - 1])
  }

  function Zeros(k: nat): (z: string)
    ensures |z| == k && AllDigits(z)
  {
    seq(k, _ => '0')
  }

  /** Python's `f"{n:0w}"` for a non-negative integer: at least `w` characters,
      padded on the left with zeros, never truncated. */
  function PadZero(n: nat, w: nat): (s: string)
    ensures AllDigits(s)
    ensures |s| == Max(w, |Decimal(n)|)
  {
    var d := Decimal(n);
    if |d| < w then Zeros(w - |d|) + d else d
  }

  lemma {:induction false} ParseDecimalOfDecimal(n: nat)
    ensures ParseDecimal(Decimal(n)) == n
  {
    var d := Decimal(n);
    if n < 10 {
      assert d[..|d| - 1] == [];
    } else {
      assert d[..|d| - 1] == Decimal(n / 10);
      ParseDecimalOfDecimal(n / 10);
    }
  }

  lemma {:induction false} ParseDecimalOfZeros(k: nat)
    ensures ParseDecimal(Zeros(k)) == 0
  {
    if k > 0 {
      assert Zeros(k)[..k - 1] == Zeros(k - 1);
      ParseDecimalOfZeros(k - 1);
    }
  }

  lemma {:induction false} ParseDecimalLeadingZeros(k: nat, s: string)
    requires AllDigits(s)
    ensures ParseDecimal(Zeros(k) + s) == ParseDecimal(s)
    decreases |s|
  {
    var z := Zeros(k) + s;
    if s == [] {
      assert z == Zeros(k);
      ParseDecimalOfZeros(k);
    } else {
      assert z[..|z| - 1] == Zeros(k) + s[..|s| - 1];
      assert z[|z| - 1] == s[|s| - 1];
      ParseDecimalLeadingZeros(k, s[..|s| - 1]);
    }
  }

  /** Reading back a zero-padded numeral gives the number that was printed. */
  lemma PadZeroRoundTrip(n: nat, w: nat)
    ensures ParseDecimal(PadZero(n, w)) == n
  {
    var d := Decimal(n);
    ParseDecimalOfDecimal(n);
    if |d| < w {
      ParseDecimalLeadingZeros(w - |d|, d);
    }
  }

  lemma {:induction false} DecimalLength(n: nat, k: nat)
    requires 1 <= k && n < Pow10(k)
    ensures |Decimal(n)| <= k
  {
    if n >= 10 {
      assert Pow10(1) == 10;
      assert k >= 2;
      assert n / 10 < Pow10(k - 1);
      DecimalLength(n / 10, k - 1);
    }
  }

  /** A number below `10^w` is printed in exactly `w` characters by `{n:0w}`. */
  lemma PadZeroWidth(n: nat, w: nat)
    requires 1 <= w && n < Pow10(w)
    ensures |PadZero(n, w)| == w
  {
    DecimalLength(n, w);
  }

  /** Python's `sep.join(xs)` for a one-character separator. */
  function Join(xs: seq<string>, sep: char): string
  {
    if |xs| == 0 then "" else if |xs| == 1 then xs[0] else xs[0] + [sep] + Join(xs[1..], sep)
  }

  /** Python's `s.split(sep)` for a one-character separator: every occurrence
      splits, so the result always has one more piece than `s` has separators. */
  function Split(s: string, sep: char): (parts: seq<string>)
    ensures |parts| >= 1
  {
    if s == [] then [""]
    else
      var rest := Split(s[1..], sep);
      if s[0] == sep then [""] + rest else [[s[0]] + rest[0]] + rest[1..]
  }

  predicate Free(s: string, sep: char) { forall i :: 0 <= i < |s| ==> s[i] != sep }

  lemma {:induction false} SplitFreePrefix(a: string, rest: string, sep: char)
    requires Free(a, sep)
    ensures Split(a + rest, sep) == [a + Split(rest, sep)[0]] + Split(rest, sep)[1..]
    decreases |a|
  {
    if a != [] {
      assert (a + rest)[1..] == a[1..] + rest;
      SplitFreePrefix(a[1..], rest, sep);
      assert [a[0]] + (a[1..] + Split(rest, sep)[0]) == a + Split(rest, sep)[0];
    } else {
      var parts := Split(rest, sep);
      assert a + rest == rest;
      assert a + parts[0] == parts[0];
      assert parts == [parts[0]] + parts[1..];
    }
  }

  /** Splitting a join gives back the pieces, provided no piece holds the separator. */
  lemma {:induction false} SplitJoin(xs: seq<string>, sep: char)
    requires |xs| >= 1
    requires forall k :: 0 <= k < |xs| ==> Free(xs[k], sep)
    ensures Split(Join(xs, sep), sep) == xs
  {
    if |xs| == 1 {
      SplitFreePrefix(xs[0], "", sep);
      assert xs[0] + "" == xs[0];
    } else {
      var tail := Join(xs[1..], sep);
      SplitJoin(xs[1..], sep);
      assert Join(xs, sep) == xs[0] + ([sep] + tail);
      SplitFreePrefix(xs[0], [sep] + tail, sep);
      assert ([sep] + tail)[1..] == tail;
      assert Split([sep] + tail, sep) == [""] + xs[1..];
      assert xs[0] + "" == xs[0];
      assert xs == [xs[0]] + xs[1..];
    }
  }

  function Concat<T>(xss: seq<seq<T>>): seq<T>
  {
    if xss == [] then [] else xss[0] + Concat(xss[1..])
  }

  lemma {:induction false} ConcatAppend<T>(a: seq<seq<T>>, b: seq<seq<T>>)
    ensures Concat(a + b) == Concat(a) + Concat(b)
  {
    if a == [] {
      assert a + b == b;
    } else {
      assert (a + b)[1..] == a[1..] + b;
      ConcatAppend(a[1..], b);
    }
  }

  /** The pieces `f(first, xs[0])`, `f(first + 1, xs[1])`, ... written one after the other. */
  function ConcatIndexed<T>(xs: seq<T>, first: nat, f: (nat, T) -> string): string
  {
    if xs == [] then "" else f(first, xs[0]) + ConcatIndexed(xs[1..], first + 1, f)
  }

  lemma {:induction false} ConcatIndexedAppend<T>(a: seq<T>, b: seq<T>, first: nat, f: (nat, T) -> string)
    ensures ConcatIndexed(a + b, first, f) == ConcatIndexed(a, first, f) + ConcatIndexed(b, first + |a|, f)
  {
    if a == [] {
      assert a + b == b;
    } else {
      assert (a + b)[1..] == a[1..] + b;
      ConcatIndexedAppend(a[1..], b, first + 1, f);
    }
  }

  /** One more element writes one more piece, numbered after the others. */
  lemma ConcatIndexedStep<T>(xs: seq<T>, i: nat, first: nat, f: (nat, T) -> string)
    requires i < |xs|
    ensures ConcatIndexed(xs[..i + 1], first, f) == ConcatIndexed(xs[..i], first, f) + f(first + i, xs[i])
  {
    ConcatIndexedAppend(xs[..i], [xs[i]], first, f);
    assert xs[..i + 1] == xs[..i] + [xs[i]];
    assert ConcatIndexed([xs[i]], first + i, f) == f(first + i, xs[i]) + ConcatIndexed([], first + i + 1, f);
  }

  /** The pieces `f(first, xs[0])`, `f(first + 1, xs[1])`, ... as a sequence. */
  function MapIndexed<T, U>(xs: seq<T>, first: nat, f: (nat, T) -> U): (ys: seq<U>)
    ensures |ys| == |xs|
    ensures forall i :: 0 <= i < |xs| ==> ys[i] == f(first + i, xs[i])
  {
    if xs == [] then [] else [f(first, xs[0])] + MapIndexed(xs[1..], first + 1, f)
  }

  lemma {:induction false} ConcatIndexedIsConcat<T>(xs: seq<T>, first: nat, f: (nat, T) -> string)
    ensures ConcatIndexed(xs, first, f) == Concat(MapIndexed(xs, first, f))
  {
    if xs != [] {
      ConcatIndexedIsConcat(xs[1..], first + 1, f);
      assert MapIndexed(xs, first, f)[1..] == MapIndexed(xs[1..], first + 1, f);
    }
  }

  /** Splitting `a --> b` on spaces gives the three pieces back. */
  lemma SplitAroundArrow(a: string, b: string)
    requires Free(a, ' ') && Free(b, ' ')
    ensures Split(a + " --> " + b, ' ') == [a, "-->", b]
  {
    JoinThree(a, "-->", b, ' ');
    assert a + " --> " + b == a + [' '] + "-->" + [' '] + b;
    SplitJoin([a, "-->", b], ' ');
  }

  lemma JoinThree(a: string, b: string, c: string, sep: char)
    ensures Join([a, b, c], sep) == a + [sep] + b + [sep] + c
  {
    assert [a, b, c][1..] == [b, c];
    assert [b, c][1..] == [c];
    assert Join([c], sep) == c;
    assert Join([b, c], sep) == b + [sep] + c;
  }
}

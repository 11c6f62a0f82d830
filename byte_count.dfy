/**
  byteCountDecimalSize: a byte count as a human-readable size with decimal SI
  prefixes (each step x1000, prefixes k, M, G, T, P, E).

  Sizes below 1000 are shown as they are ("%d B"). Otherwise a loop picks the
  largest power of 1000 that fits into the size: the divisor `div`, the prefix
  index `exp` and the running quotient `n`. The text is then size/div with one
  decimal and the prefix character "kMGTPE"[exp]. The model keeps size/div as
  the exact pair (size, div) instead of a floating-point number.
 */
module ByteCount {
  import Decimal

  /** Go's int64. Using it for the loop's variables makes every `div * 1000`
      an obligation that the product stays in range. */
  newtype int64 = x: int | -0x8000_0000_0000_0000 <= x < 0x8000_0000_0000_0000

  const Int64Max: int64 := 0x7FFF_FFFF_FFFF_FFFF

  /** The multiplier between successive prefixes. */
  const Unit: int64 := 1000

  /** The prefix characters, indexed by the exponent `exp`. */
  const Prefixes: string := "kMGTPE"

  /** What byteCountDecimalSize chooses for a size: either the plain byte
      count, or a divisor with the index and character of its prefix. */
  datatype Scaling =
    | Plain(size: int64)
    | Scaled(size: int64, div: int64, exp: nat, prefix: char)

  /** 1000 to the power `k`. */
  function Pow1000(k: nat): (r: nat)
    ensures r >= 1
    ensures k >= 1 ==> r >= 1000
  {
    if k == 0 then 1 else 1000 * Pow1000(k - 1)
  }

  /** How many times `n` can be divided by 1000 while it is at least 1000. */
  function Steps(n: int): nat
    decreases n
  {
    if n < 1000 then 0 else 1 + Steps(n / 1000)
  }

  /** Exponent `e` is the right one for `size`: size lies in
      [1000^(e+1), 1000^(e+2)), so that size / 1000^(e+1) lies in [1, 1000). */
  ghost predicate Fits(size: int, e: nat) {
    Pow1000(e + 1) <= size < Pow1000(e + 2)
  }

  // ---------------------------------------------------------------------------
  // Arithmetic facts about powers of 1000 and division

  lemma {:induction false} Pow1000Monotone(i: nat, j: nat)
    requires i < j
    ensures Pow1000(i + 1) <= Pow1000(j)
    decreases j
  {
    if j > i + 1 {
      Pow1000Monotone(i, j - 1);
    }
  }

  lemma Pow1000Values()
    ensures Pow1000(1) == 1000
    ensures Pow1000(2) == 1_000_000
    ensures Pow1000(3) == 1_000_000_000
    ensures Pow1000(4) == 1_000_000_000_000
    ensures Pow1000(5) == 1_000_000_000_000_000
    ensures Pow1000(6) == 1_000_000_000_000_000_000
    ensures Pow1000(7) == 1_000_000_000_000_000_000_000
  {
    assert Pow1000(1) == 1000 * Pow1000(0);
    assert Pow1000(2) == 1000 * Pow1000(1);
    assert Pow1000(3) == 1000 * Pow1000(2);
    assert Pow1000(4) == 1000 * Pow1000(3);
    assert Pow1000(5) == 1000 * Pow1000(4);
    assert Pow1000(6) == 1000 * Pow1000(5);
    assert Pow1000(7) == 1000 * Pow1000(6);
  }

  /** Steps(n) brackets n between consecutive powers of 1000. */
  lemma {:induction false} StepsBracket(n: int)
    requires n >= 1
    ensures Pow1000(Steps(n)) <= n < Pow1000(Steps(n) + 1)
    decreases n
  {
    if n >= 1000 {
      var m := n / 1000;
      StepsBracket(m);
      assert 1000 * m <= n < 1000 * (m + 1);
    }
  }

  /** The exponent the loop arrives at is the one that fits. */
  lemma ExponentFits(size: int)
    requires size >= 1000
    ensures Fits(size, Steps(size / 1000))
  {
    var m := size / 1000;
    StepsBracket(m);
    assert 1000 * m <= size < 1000 * (m + 1);
  }

  /** At most one exponent fits a size. */
  lemma FitsUnique(size: int, e1: nat, e2: nat)
    requires Fits(size, e1) && Fits(size, e2)
    ensures e1 == e2
  {
    if e1 < e2 {
      Pow1000Monotone(e1 + 1, e2 + 1);
    } else if e2 < e1 {
      Pow1000Monotone(e2 + 1, e1 + 1);
    }
  }

  /** For an int64 size the exponent is at most 5, so "kMGTPE"[exp] is in bounds. */
  lemma Int64ExponentBound(size: int64, e: nat)
    requires Fits(size as int, e)
    ensures e <= 5
  {
    if e >= 6 {
      Pow1000Values();
      if e > 6 {
        Pow1000Monotone(6, e);
      }
    }
  }

  /** Multiplying by a positive number keeps a strict order. */
  lemma MulStrict(d: int, x: int, y: int)
    requires d > 0 && x < y
    ensures d * x + d <= d * y
  {
    var t := y - x - 1;
    assert d * y == d * x + d + d * t;
    assert d * t >= 0;
  }

  /** Division of a non-negative number by b and then by c is division by b * c. */
  lemma DivDiv(a: int, b: int, c: int)
    requires a >= 0 && b > 0 && c > 0
    ensures a / b / c == a / (b * c)
  {
    var q, r := a / b, a % b;
    var q2, r2 := q / c, q % c;
    var bc := b * c;
    assert b * q == b * (c * q2) + b * r2;
    assert b * (c * q2) == bc * q2;
    assert 0 <= b * r2 by {
      assert r2 >= 0;
    }
    assert b * r2 + b <= bc by {
      MulStrict(b, r2, c);
    }
    DivUnique(a, bc, q2, b * r2 + r);
  }

  lemma DivUnique(a: int, d: int, q: int, r: int)
    requires d > 0 && a == d * q + r && 0 <= r < d
    ensures a / d == q
  {
    var q', r' := a / d, a % d;
    if q' < q {
      MulStrict(d, q', q);
    } else if q' > q {
      MulStrict(d, q, q');
    }
  }

  /** A quotient of at least `k` means the dividend is at least k times the divisor. */
  lemma QuotientLowerBound(a: int, d: int, k: int)
    requires a >= 0 && d > 0 && a / d >= k
    ensures d * k <= a
  {
    var q := a / d;
    if k < q {
      MulStrict(d, k, q);
    }
  }

  /** A quotient below `k` means the dividend is below k times the divisor. */
  lemma QuotientUpperBound(a: int, d: int, k: int)
    requires a >= 0 && d > 0 && a / d < k
    ensures a < d * k
  {
    MulStrict(d, a / d, k);
  }

  /** One pass of the loop body: while n >= 1000, `div * 1000` is still at most
      the size, and `n / 1000` is the quotient by the new divisor. */
  lemma LoopStep(size: int, div: int, n: int)
    requires 0 < div <= size && n == size / div && n >= 1000
    ensures div * 1000 <= size
    ensures n / 1000 == size / (div * 1000)
  {
    QuotientLowerBound(size, div, 1000);
    DivDiv(size, div, 1000);
  }

  /** Leaving the loop: once the quotient is below 1000, the exponent fits. */
  lemma LoopExit(size: int, div: int, exp: nat)
    requires 0 < div <= size && div == Pow1000(exp + 1) && size / div < 1000
    ensures Fits(size, exp)
  {
    QuotientUpperBound(size, div, 1000);
  }

  // ---------------------------------------------------------------------------
  // The choice, as a function and as the source's loop

  /** The scaling byteCountDecimalSize picks for `size`, by its meaning:
      the plain count below 1000, otherwise the one exponent that fits. */
  function Scale(size: int64): (r: Scaling)
    ensures r.Plain? <==> size < Unit
    ensures r.Plain? ==> r.size == size
    ensures r.Scaled? ==>
              && r.size == size
              && Fits(size as int, r.exp)
              && r.div as int == Pow1000(r.exp + 1)
              && r.exp < |Prefixes|
              && r.prefix == Prefixes[r.exp]
  {
    if size < Unit then Plain(size)
    else
      var e := Steps(size as int / 1000);
      ExponentFits(size as int);
      Int64ExponentBound(size, e);
      Scaled(size, Pow1000(e + 1) as int64, e, Prefixes[e])
  }

  /** byteCountDecimalSize up to its final Sprintf: the same guard, the same
      loop over div, exp and n, and the same index into "kMGTPE". */
  method ByteCountDecimalSize(size: int64) returns (r: Scaling)
    ensures r == Scale(size)
  {
    if size < Unit {
      return Plain(size);
    }

    ghost var target := Steps(size as int / 1000);
    ExponentFits(size as int);
    Int64ExponentBound(size, target);

    var div, exp := Unit, 0;
    var n := size / Unit;
    while n >= Unit
      invariant 0 < div <= size
      invariant div as int == Pow1000(exp + 1)
      invariant n as int == size as int / div as int
      invariant exp + Steps(n as int) == target
      decreases n
    {
      LoopStep(size as int, div as int, n as int);
      div := div * Unit;
      exp := exp + 1;
      n := n / Unit;
    }

    LoopExit(size as int, div as int, exp);
    r := Scaled(size, div, exp, Prefixes[exp]);
  }

  // ---------------------------------------------------------------------------
  // Properties of the choice

  /** The scaled quotient size/div lies in [1, 1000). */
  lemma ScaledQuotientInRange(size: int64)
    requires size >= Unit
    ensures 1 <= size as int / Scale(size).div as int < 1000
  {
    var r := Scale(size);
    var d := r.div as int;
    if size as int / d < 1 {
      QuotientUpperBound(size as int, d, 1);
    }
    if size as int / d >= 1000 {
      QuotientLowerBound(size as int, d, 1000);
    }
  }

  /** The divisor never exceeds the size, so multiplying it by 1000 inside the
      loop never left the int64 range. */
  lemma DivisorAtMostSize(size: int64)
    requires size >= Unit
    ensures Unit <= Scale(size).div <= size
  {
  }

  /** The exponent is the only one that fits, i.e. the largest power of 1000
      not above the size is 1000^(exp+1). */
  lemma ScaleExponentIsUnique(size: int64, e: nat)
    requires size >= Unit
    ensures Fits(size as int, e) <==> e == Scale(size).exp
  {
    if Fits(size as int, e) {
      FitsUnique(size as int, e, Scale(size).exp);
    }
  }

  /** A larger size never gets a smaller prefix. */
  lemma ScaleMonotone(size1: int64, size2: int64)
    requires Unit <= size1 <= size2
    ensures Scale(size1).exp <= Scale(size2).exp
  {
    var e1, e2 := Scale(size1).exp, Scale(size2).exp;
    if e2 < e1 {
      Pow1000Monotone(e2 + 1, e1 + 1);
    }
  }

  /** Below 1000, negative sizes included, the size is shown as it is. */
  lemma SmallSizesArePlain(size: int64)
    requires size < Unit
    ensures Scale(size) == Plain(size)
  {
  }

  /** The "%d B" text of a size below 1000. */
  function PlainText(size: int64): (s: string)
    ensures |s| >= 3 && s[|s| - 2..] == " B"
    ensures Decimal.ParseDecimal(s[..|s| - 2]) == Decimal.Some(size as int)
  {
    Decimal.IntTextRoundTrip(size as int);
    var s := Decimal.IntText(size as int) + " B";
    assert s[..|s| - 2] == Decimal.IntText(size as int);
    s
  }

  /** The unit text after the number: "B" for the plain form, otherwise the
      prefix character followed by 'B'. */
  function UnitText(r: Scaling): (s: string)
    ensures |s| >= 1 && s[|s| - 1] == 'B'
  {
    match r
    case Plain(_) => "B"
    case Scaled(_, _, _, p) => [p, 'B']
  }

  /** The position of the first `c` in `s`, if there is one. */
  function IndexOf(s: string, c: char): (r: Decimal.Option<nat>)
    ensures r.Some? ==> r.value < |s| && s[r.value] == c && c !in s[..r.value]
    ensures r.None? ==> c !in s
  {
    if s == [] then Decimal.None
    else if s[0] == c then Decimal.Some(0)
    else
      match IndexOf(s[1..], c)
      case None => Decimal.None
      case Some(i) =>
        assert s[..i + 1] == [s[0]] + s[1..][..i];
        Decimal.Some(i + 1)
  }

  /** Reads a unit text back: Some(None) for "B", Some(Some(e)) for the
      prefix with index e followed by 'B', None for anything else. */
  function ParseUnit(s: string): (r: Decimal.Option<Decimal.Option<nat>>)
    ensures r.Some? && r.value.Some? ==> r.value.value < |Prefixes|
  {
    if s == "B" then Decimal.Some(Decimal.None)
    else if |s| == 2 && s[1] == 'B' then
      match IndexOf(Prefixes, s[0])
      case None => Decimal.None
      case Some(e) => Decimal.Some(Decimal.Some(e))
    else Decimal.None
  }

  /** No two prefixes are the same character, and none of them is 'B'. */
  lemma PrefixesDistinct(i: nat, j: nat)
    requires i < j < |Prefixes|
    ensures Prefixes[i] != Prefixes[j] && Prefixes[i] != 'B'
  {
    assert Prefixes == ['k', 'M', 'G', 'T', 'P', 'E'];
  }

  /** The unit text of a size reads back as its plainness and its exponent. */
  lemma UnitTextRoundTrip(size: int64)
    ensures ParseUnit(UnitText(Scale(size))) ==
              if Scale(size).Plain? then Decimal.Some(Decimal.None)
              else Decimal.Some(Decimal.Some(Scale(size).exp))
  {
    var r := Scale(size);
    if r.Scaled? {
      var s := UnitText(r);
      assert s == [Prefixes[r.exp], 'B'];
      if r.exp == 5 {
        PrefixesDistinct(0, 5);
      } else {
        PrefixesDistinct(r.exp, 5);
      }
      assert s != "B";
      var found := IndexOf(Prefixes, s[0]);
      assert found.Some?;
      if found.value < r.exp {
        PrefixesDistinct(found.value, r.exp);
      }
    }
  }

  /** Two sizes are shown with the same unit text exactly when both are plain
      or both use the same prefix. */
  lemma UnitTextIdentifiesScale(size1: int64, size2: int64)
    ensures UnitText(Scale(size1)) == UnitText(Scale(size2)) <==>
              || (Scale(size1).Plain? && Scale(size2).Plain?)
              || (Scale(size1).Scaled? && Scale(size2).Scaled? && Scale(size1).exp == Scale(size2).exp)
  {
    UnitTextRoundTrip(size1);
    UnitTextRoundTrip(size2);
  }

  // ---------------------------------------------------------------------------
  // Boundary cases

  lemma Example999()
    ensures Scale(999) == Plain(999)
    ensures PlainText(999) == "999 B"
  {
    assert Decimal.NatDigits(999) == Decimal.NatDigits(99) + ['9'];
    assert Decimal.NatDigits(99) == Decimal.NatDigits(9) + ['9'];
  }

  lemma Example1000()
    ensures Scale(1000) == Scaled(1000, 1000, 0, 'k')
    ensures UnitText(Scale(1000)) == "kB"
  {
  }

  lemma Example999999()
    ensures Scale(999_999).prefix == 'k'
    ensures Scale(999_999).div == 1000
  {
  }

  lemma ExampleOneMillion()
    ensures Scale(1_000_000) == Scaled(1_000_000, 1_000_000, 1, 'M')
  {
  }

  /** 1.5 MB: the divisor is one million and size/div is exactly 3/2. */
  lemma ExampleOneAndAHalfMillion()
    ensures Scale(1_500_000) == Scaled(1_500_000, 1_000_000, 1, 'M')
    ensures 2 * 1_500_000 == 3 * Scale(1_500_000).div as int
  {
  }

  /** The largest int64 gets the last prefix, 'E'. */
  lemma ExampleInt64Max()
    ensures Scale(Int64Max).exp == 5
    ensures Scale(Int64Max).prefix == 'E'
    ensures Scale(Int64Max).div == 1_000_000_000_000_000_000
  {
  }
}

/** Java's fixed-width integers as the benchmark driver uses them: the
    ranges of `int` and `long`, two's-complement wrap-around, the `/`
    operator (which truncates toward zero), `Integer.toString` and
    `Integer.valueOf`. */
module JavaInt {
  import opened Wrappers

  const MinInt: int := -0x8000_0000
  const MaxInt: int := 0x7FFF_FFFF
  const MinLong: int := -0x8000_0000_0000_0000
  const MaxLong: int := 0x7FFF_FFFF_FFFF_FFFF

  /** Values of Java's `int`. */
  type Int32 = x: int | -0x8000_0000 <= x <= 0x7FFF_FFFF

  /** Values of Java's `long`. */
  type Long = x: int | -0x8000_0000_0000_0000 <= x <= 0x7FFF_FFFF_FFFF_FFFF

  /** The `int` that a 32-bit two's-complement operation produces for the
      mathematical result `x`. */
  function Wrap32(x: int): (r: Int32)
    ensures MinInt <= x <= MaxInt ==> r == x
  {
    (x + 0x8000_0000) % 0x1_0000_0000 - 0x8000_0000
  }

  /** The `long` that a 64-bit two's-complement operation produces for the
      mathematical result `x`. */
  function Wrap64(x: int): (r: Long)
    ensures MinLong <= x <= MaxLong ==> r == x
  {
    (x + 0x8000_0000_0000_0000) % 0x1_0000_0000_0000_0000 - 0x8000_0000_0000_0000
  }

  /** Wrapping changes a value by a whole number of 2^32 steps. */
  lemma Wrap32Congruent(x: int)
    ensures (x - Wrap32(x)) % 0x1_0000_0000 == 0
  {
  }

  /** Wrapping changes a value by a whole number of 2^64 steps. */
  lemma Wrap64Congruent(x: int)
    ensures (x - Wrap64(x)) % 0x1_0000_0000_0000_0000 == 0
  {
  }

  /** Java's `+` on two `int`s: the sum, moved back into range by one
      2^32 step when it overflows. */
  function AddInt(a: Int32, b: Int32): (r: Int32)
    ensures MinInt <= a + b <= MaxInt ==> r == a + b
  {
    if a + b > MaxInt then a + b - 0x1_0000_0000
    else if a + b < MinInt then a + b + 0x1_0000_0000
    else a + b
  }

  /** Java's unary `-` on an `int`: `-Integer.MIN_VALUE` is `MIN_VALUE`. */
  function NegInt(a: Int32): (r: Int32)
    ensures a != MinInt ==> r == - (a as int)
  {
    if a == MinInt then MinInt else - (a as int)
  }

  /** Java's `+` on two `long`s. */
  function AddLong(a: Long, b: Long): (r: Long)
    ensures MinLong <= a + b <= MaxLong ==> r == a + b
  {
    if a + b > MaxLong then a + b - 0x1_0000_0000_0000_0000
    else if a + b < MinLong then a + b + 0x1_0000_0000_0000_0000
    else a + b
  }

  /** Java's `-` on two `long`s. */
  function SubLong(a: Long, b: Long): (r: Long)
    ensures MinLong <= a - b <= MaxLong ==> r == a - b
  {
    if a - b > MaxLong then a - b - 0x1_0000_0000_0000_0000
    else if a - b < MinLong then a - b + 0x1_0000_0000_0000_0000
    else a - b
  }

  /** The operators above are two's-complement arithmetic: each is the
      mathematical result wrapped to the type's width. */
  lemma AddIntWraps(a: Int32, b: Int32)
    ensures AddInt(a, b) == Wrap32(a + b)
  {
    var x := a + b;
    if x > MaxInt {
      assert (x + 0x8000_0000) % 0x1_0000_0000 == x + 0x8000_0000 - 0x1_0000_0000;
    } else if x < MinInt {
      assert (x + 0x8000_0000) % 0x1_0000_0000 == x + 0x8000_0000 + 0x1_0000_0000;
    }
  }

  lemma NegIntWraps(a: Int32)
    ensures NegInt(a) == Wrap32(- (a as int))
  {
  }

  lemma AddLongWraps(a: Long, b: Long)
    ensures AddLong(a, b) == Wrap64(a + b)
  {
    var x := a + b;
    if x > MaxLong {
      assert (x + 0x8000_0000_0000_0000) % 0x1_0000_0000_0000_0000 == x + 0x8000_0000_0000_0000 - 0x1_0000_0000_0000_0000;
    } else if x < MinLong {
      assert (x + 0x8000_0000_0000_0000) % 0x1_0000_0000_0000_0000 == x + 0x8000_0000_0000_0000 + 0x1_0000_0000_0000_0000;
    }
  }

  lemma SubLongWraps(a: Long, b: Long)
    ensures SubLong(a, b) == Wrap64(a - b)
  {
    var x := a - b;
    if x > MaxLong {
      assert (x + 0x8000_0000_0000_0000) % 0x1_0000_0000_0000_0000 == x + 0x8000_0000_0000_0000 - 0x1_0000_0000_0000_0000;
    } else if x < MinLong {
      assert (x + 0x8000_0000_0000_0000) % 0x1_0000_0000_0000_0000 == x + 0x8000_0000_0000_0000 + 0x1_0000_0000_0000_0000;
    }
  }

  /** Decrementing an `int` and then incrementing it gives it back, also at
      `Integer.MIN_VALUE`, where the decrement wraps to `MAX_VALUE`. */
  lemma DecrementIncrement(i: Int32)
    ensures AddInt(AddInt(i, -1), 1) == i
  {
  }

  lemma ModAddMultiple64(y: int, q: int)
    ensures (y + 0x1_0000_0000_0000_0000 * q) % 0x1_0000_0000_0000_0000 == y % 0x1_0000_0000_0000_0000
  {
  }

  /** Wrapping a running sum after every addition gives the same `long` as
      wrapping the mathematical sum once. */
  lemma {:induction false} WrapAdd64(a: int, b: int)
    ensures Wrap64(Wrap64(a) + b) == Wrap64(a + b)
  {
    var m := 0x1_0000_0000_0000_0000;
    var h := 0x8000_0000_0000_0000;
    var x := a + h;
    assert x == m * (x / m) + x % m;
    ModAddMultiple64(x % m + b, x / m);
  }

  function Abs(x: int): nat
  {
    if x < 0 then -x else x
  }

  /** Java's integer `/` (section 15.17.2 of the Java Language
      Specification): the quotient is rounded toward zero. */
  function JavaDiv(a: int, b: int): (q: int)
    requires b != 0
    ensures q > 0 ==> (a < 0) == (b < 0)
  {
    if a >= 0 && b > 0 then a / b
    else if a < 0 && b < 0 then (-a) / (-b)
    else if a < 0 then - ((-a) / b)
    else - (a / (-b))
  }

  lemma MultiplyAtLeast(q: nat, b: int)
    requires b >= 1
    ensures q <= q * b
  {
    assert q * b == q * (b - 1) + q;
    assert q * (b - 1) >= 0;
  }

  lemma DivAtMost(n: nat, d: int)
    requires d >= 1
    ensures n / d <= n
  {
    var q := n / d;
    assert q * d + n % d == n;
    MultiplyAtLeast(q, d);
  }

  /** The quotient is never further from zero than the dividend. */
  lemma JavaDivMagnitude(a: int, b: int)
    requires b != 0
    ensures Abs(JavaDiv(a, b)) <= Abs(a)
  {
    var n: nat := Abs(a);
    var d: nat := Abs(b);
    DivAtMost(n, d);
    assert Abs(JavaDiv(a, b)) == n / d;
  }

  /** Java's `/` on two `long`s: the quotient, except that
      `Long.MIN_VALUE / -1` overflows back to `Long.MIN_VALUE`. */
  function DivLong(a: Long, b: Long): (q: Long)
    requires b != 0
    ensures !(a == MinLong && b == -1) ==> q == JavaDiv(a, b)
  {
    if a == MinLong && b == -1 then MinLong
    else
      JavaDivMagnitude(a, b);
      JavaDiv(a, b)
  }

  lemma DivLongWraps(a: Long, b: Long)
    requires b != 0
    ensures DivLong(a, b) == Wrap64(JavaDiv(a, b))
  {
    JavaDivMagnitude(a, b);
  }

  /** Rounding toward zero (section 15.17.2 of the Java Language
      Specification): the magnitude of the quotient is the largest `q` with
      `q * |b| <= |a|`, and a non-zero quotient is negative exactly when
      the operands' signs differ. */
  lemma JavaDivTruncates(a: int, b: int)
    requires b != 0
    ensures Abs(JavaDiv(a, b)) * Abs(b) <= Abs(a) < (Abs(JavaDiv(a, b)) + 1) * Abs(b)
    ensures JavaDiv(a, b) != 0 ==> (JavaDiv(a, b) < 0 <==> (a < 0) != (b < 0))
  {
    var n: nat := Abs(a);
    var d: nat := Abs(b);
    assert Abs(JavaDiv(a, b)) == n / d;
    FloorBounds(n, d);
  }

  lemma FloorBounds(n: nat, d: nat)
    requires d >= 1
    ensures (n / d) * d <= n < (n / d + 1) * d
  {
    var q := n / d;
    assert q * d + n % d == n;
    assert (q + 1) * d == q * d + d;
  }

  /** For a non-negative dividend and a positive divisor the quotient is the
      largest `q` with `q * b <= a`. */
  lemma JavaDivBounds(a: int, b: int)
    requires a >= 0 && b > 0
    ensures JavaDiv(a, b) * b <= a < JavaDiv(a, b) * b + b
  {
  }

  /** A non-negative dividend at least as large as a positive divisor gives a
      quotient of at least one. */
  lemma JavaDivAtLeastOne(a: int, b: int)
    requires b > 0 && a >= b
    ensures JavaDiv(a, b) >= 1
  {
    JavaDivBounds(a, b);
  }

  // ----- Integer.toString -----

  function DigitChar(d: int): (c: char)
    requires 0 <= d < 10
  {
    (48 + d) as char
  }

  predicate IsDigit(c: char)
  {
    '0' <= c <= '9'
  }

  predicate AllDigits(s: string)
  {
    forall i :: 0 <= i < |s| ==> IsDigit(s[i])
  }

  /** The decimal digits of `n`, without leading zeros. */
  function NatDigits(n: nat): (s: string)
    decreases n
  {
    if n < 10 then [DigitChar(n)] else NatDigits(n / 10) + [DigitChar(n % 10)]
  }

  /** `Integer.toString(n)`, as string concatenation renders an `int`: a
      minus sign exactly for negative numbers, then the digits of the
      magnitude. */
  function Decimal(n: int): (r: string)
    ensures |r| >= 1 && (r[0] == '-' <==> n < 0)
    ensures Unsigned(r) == NatDigits(Abs(n))
  {
    NatDigitsValue(Abs(n));
    if n < 0 then "-" + NatDigits(-n)
    else
      assert IsDigit(NatDigits(n)[0]);
      NatDigits(n)
  }

  // ----- Integer.valueOf -----

  /** The number a non-empty run of decimal digits denotes. */
  function DigitsValue(s: string): nat
    requires AllDigits(s)
    decreases |s|
  {
    if s == [] then 0 else DigitsValue(s[..|s| - 1]) * 10 + (s[|s| - 1] as int - 48)
  }

  /** `s` without its leading sign, if it has one. */
  function Unsigned(s: string): string
  {
    if |s| > 0 && (s[0] == '-' || s[0] == '+') then s[1..] else s
  }

  /** A decimal numeral: an optional `-` or `+`, then at least one digit. */
  predicate IsNumeral(s: string)
  {
    |Unsigned(s)| >= 1 && AllDigits(Unsigned(s))
  }

  /** The number a numeral denotes. */
  function NumeralValue(s: string): int
    requires IsNumeral(s)
  {
    var m: int := DigitsValue(Unsigned(s));
    if s[0] == '-' then -m else m
  }

  /** `Integer.valueOf(s)`: an optional `-` or `+` followed by at least one
      decimal digit, denoting a value inside the `int` range. Every other
      string throws `NumberFormatException`, modelled as `None`. */
  function ParseInt(s: string): (r: Option<int>)
    ensures r.Some? <==> IsNumeral(s) && MinInt <= NumeralValue(s) <= MaxInt
    ensures r.Some? ==> r.value == NumeralValue(s)
  {
    if |s| == 0 then None
    else if s[0] == '-' || s[0] == '+' then
      if |s| == 1 || !AllDigits(s[1..]) then None
      else
        var m: int := DigitsValue(s[1..]);
        var v := if s[0] == '-' then -m else m;
        if MinInt <= v <= MaxInt then Some(v) else None
    else if AllDigits(s) && DigitsValue(s) <= MaxInt then Some(DigitsValue(s))
    else None
  }

  /** `n` zero digits. */
  function Zeros(n: nat): (r: string)
    decreases n
  {
    if n == 0 then "" else Zeros(n - 1) + "0"
  }

  /** A run of digits is its value's decimal digits after some leading
      zeros. */
  lemma {:induction false} DigitsCanonical(d: string) returns (k: nat)
    requires |d| >= 1 && AllDigits(d)
    ensures d == Zeros(k) + NatDigits(DigitsValue(d))
    decreases |d|
  {
    var init := d[..|d| - 1];
    var c := d[|d| - 1];
    var v := DigitsValue(d);
    assert v == DigitsValue(init) * 10 + (c as int - 48);
    if |init| == 0 {
      k := 0;
      assert DigitChar(v) == c;
      assert d == [c];
    } else {
      assert forall i :: 0 <= i < |init| ==> init[i] == d[i];
      var k' := DigitsCanonical(init);
      var w := DigitsValue(init);
      assert DigitChar(c as int - 48) == c;
      if w == 0 {
        k := k' + 1;
        assert init == Zeros(k') + "0";
        assert NatDigits(v) == [c];
        calc {
          d;
          init + [c];
          Zeros(k') + "0" + [c];
          Zeros(k) + NatDigits(v);
        }
      } else {
        k := k';
        assert v / 10 == w && v % 10 == c as int - 48;
        assert NatDigits(v) == NatDigits(w) + [c];
        calc {
          d;
          init + [c];
          Zeros(k) + NatDigits(w) + [c];
          Zeros(k) + NatDigits(v);
        }
      }
    }
  }

  /** The converse of `ParseDecimal`: a string `Integer.valueOf` accepts is
      the decimal form of its value up to a `+` sign, leading zeros, and a
      `-` in front of zero. */
  lemma ParseIntCanonical(s: string, v: int) returns (k: nat)
    requires ParseInt(s) == Some(v)
    ensures Unsigned(s) == Zeros(k) + NatDigits(Abs(v))
    ensures s[0] == '-' ==> v <= 0
    ensures s[0] != '-' && s[0] != '+' ==> s == Unsigned(s)
    ensures v < 0 ==> s[0] == '-'
  {
    k := DigitsCanonical(Unsigned(s));
  }

  lemma {:induction false} NatDigitsValue(n: nat)
    ensures |NatDigits(n)| >= 1
    ensures AllDigits(NatDigits(n))
    ensures DigitsValue(NatDigits(n)) == n
    decreases n
  {
    if n >= 10 {
      NatDigitsValue(n / 10);
      var s := NatDigits(n);
      assert s[..|s| - 1] == NatDigits(n / 10);
    }
  }

  /** `Integer.valueOf` reads back what `Integer.toString` writes, and
      rejects the decimal form of every value outside the `int` range. */
  lemma ParseDecimal(n: int)
    ensures ParseInt(Decimal(n)) == if MinInt <= n <= MaxInt then Some(n) else None
  {
    if n < 0 {
      ParseNegative(-n);
    } else {
      ParseNonNegative(n);
    }
  }

  lemma ParseNonNegative(n: nat)
    ensures ParseInt(NatDigits(n)) == if n <= MaxInt then Some(n) else None
  {
    NatDigitsValue(n);
    var s := NatDigits(n);
    assert IsDigit(s[0]);
  }

  lemma ParseNegative(m: nat)
    requires m > 0
    ensures ParseInt("-" + NatDigits(m)) == if m <= - MinInt then Some(- (m as int)) else None
  {
    NatDigitsValue(m);
    var s := "-" + NatDigits(m);
    assert s[1..] == NatDigits(m);
    assert s[0] == '-';
  }

  /** Different numbers have different decimal forms. */
  lemma DecimalInjective(a: int, b: int)
    requires Decimal(a) == Decimal(b)
    ensures a == b
  {
    NatDigitsValue(Abs(a));
    NatDigitsValue(Abs(b));
    if a < 0 && b < 0 {
      assert NatDigits(-a) == Decimal(a)[1..] == NatDigits(-b);
    }
  }
}

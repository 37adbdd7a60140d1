/** Machine words, results and power-of-two alignment, shared by every stage of the loader. */
module Words {

  const U64_LIMIT: int := 0x1_0000_0000_0000_0000

  /** An unsigned 64-bit word. Every value stored in or passed as a `u64` is proved to be in range,
      so arithmetic the loader leaves unchecked is shown not to overflow. */
  type u64 = x: int | 0 <= x < U64_LIMIT

  type byte = x: int | 0 <= x < 256

  datatype Option<+T> = None | Some(value: T)

  datatype Errno = ENOENT | EIO | E2BIG | ENOEXEC | EBADF | ENOMEM | EINVAL | ENOTSUP

  datatype Result<+T, +E> = Ok(value: T) | Err(error: E)

  predicate IsPow2(n: int)
  {
    n == 1 || (n > 1 && n % 2 == 0 && IsPow2(n / 2))
  }

  /** The remainder of `v` by `a`, by repeated subtraction; `RemIs` says that it is `%`. */
  function Rem(v: int, a: int): (r: int)
    requires a > 0
    ensures 0 <= r < a
    decreases if v < 0 then 1 else 0, if v < 0 then -v else v
  {
    if v < 0 then Rem(v + a, a) else if v < a then v else Rem(v - a, a)
  }

  /** `align_down`; `MaskIsAlignDown` relates it to the bit mask of the code. */
  function AlignDown(v: int, a: int): int
    requires a > 0
  {
    v - Rem(v, a)
  }

  /** The least multiple of `a` at or above `v`, before any overflow check. */
  function Up(v: int, a: int): int
    requires a > 0
  {
    AlignDown(v + (a - 1), a)
  }

  /** `align_up`: `None` when adding `a - 1` would leave 64 bits. */
  function AlignUp(v: u64, a: u64): (r: Option<u64>)
    requires a > 0
    ensures r.Some? ==> r.value == Up(v, a)
  {
    if v + (a - 1) < U64_LIMIT then
      AlignBounds(v + (a - 1), a);
      Some(AlignDown(v + (a - 1), a))
    else None
  }

  lemma UpOnePage(page: u64)
    requires page > 0
    ensures Up(0, page) == 0 && Up(page, page) == page
  {
    RemUnique(0 + (page - 1), page, 0, page - 1);
    RemUnique(page + (page - 1), page, 1, page - 1);
  }

  lemma OnePage(page: u64)
    requires 0 < page < 0x1_0000_0000
    ensures Rem(page, page) == 0 && Up(page, page) == page && AlignDown(0, page) == 0 && AlignUp(page, page) == Some(page)
  {
    RemUnique(page, page, 1, 0);
    UpOnePage(page);
  }

  // ---------------------------------------------------------------- multiples

  lemma AlignBounds(v: int, a: int)
    requires a > 0
    ensures v - a < AlignDown(v, a) <= v
    ensures v >= 0 ==> AlignDown(v, a) >= 0
    ensures Rem(AlignDown(v, a), a) == 0
  {
    var q := RemSplit(v, a);
    RemUnique(AlignDown(v, a), a, q, 0);
  }

  /** A non-zero multiple of `a` is at least `a` away from zero. */
  lemma MultipleSize(k: int, a: int)
    requires a > 0
    ensures k >= 1 ==> k * a >= a
    ensures k <= -1 ==> k * a <= -a
  {
    if k >= 1 {
      assert (k - 1) * a >= 0;
    } else {
      assert (-k) * a >= 0;
      assert k <= -1 ==> (-k - 1) * a >= 0;
    }
  }

  lemma DivModUnique(v: int, a: int, q: int, r: int)
    requires a > 0 && 0 <= r < a && v == q * a + r
    ensures v % a == r && v / a == q
  {
    var q' := v / a;
    assert v == a * q' + v % a;
    assert (q - q') * a == q * a - q' * a;
    MultipleSize(q - q', a);
  }

  lemma StepProduct(p: int, a: int)
    ensures (p + 1) * a == p * a + a
  {
  }

  /** The quotient that goes with the remainder. */
  lemma {:induction false} RemSplit(v: int, a: int) returns (q: int)
    requires a > 0
    ensures v == q * a + Rem(v, a)
    decreases if v < 0 then 1 else 0, if v < 0 then -v else v
  {
    if v < 0 {
      var p := RemSplit(v + a, a);
      q := p - 1;
      StepProduct(q, a);
    } else if v < a {
      q := 0;
    } else {
      var p := RemSplit(v - a, a);
      q := p + 1;
      StepProduct(p, a);
    }
  }

  lemma RemUnique(v: int, a: int, q: int, r: int)
    requires a > 0 && 0 <= r < a && v == q * a + r
    ensures Rem(v, a) == r
  {
    var p := RemSplit(v, a);
    assert (q - p) * a == q * a - p * a;
    MultipleSize(q - p, a);
  }

  lemma RemIs(v: int, a: int)
    requires a > 0
    ensures Rem(v, a) == v % a
  {
    assert v == a * (v / a) + v % a;
    RemUnique(v, a, v / a, v % a);
  }

  /** Adding a multiple of `a` moves `AlignDown` and `Up` by exactly that multiple. */
  lemma AddMultiple(v: int, b: int, a: int)
    requires a > 0 && Rem(b, a) == 0
    ensures Rem(v + b, a) == Rem(v, a)
    ensures AlignDown(v + b, a) == AlignDown(v, a) + b
    ensures Up(v + b, a) == Up(v, a) + b
  {
    ModPlus(v, b, a);
    ModPlus(v + (a - 1), b, a);
    assert v + b + (a - 1) == v + (a - 1) + b;
  }

  lemma ModPlus(v: int, b: int, a: int)
    requires a > 0 && Rem(b, a) == 0
    ensures Rem(v + b, a) == Rem(v, a)
  {
    var k := RemSplit(b, a);
    var q := RemSplit(v, a);
    assert (q + k) * a == q * a + k * a;
    RemUnique(v + b, a, q + k, Rem(v, a));
  }

  lemma MinusMultiple(v: int, b: int, a: int)
    requires a > 0 && Rem(b, a) == 0
    ensures Rem(v - b, a) == Rem(v, a)
  {
    ModPlus(v - b, b, a);
  }

  /** `Up(v, a)` is the least multiple of `a` at or above `v`. */
  lemma UpBounds(v: int, a: int)
    requires a > 0
    ensures v <= Up(v, a) < v + a && Rem(Up(v, a), a) == 0
  {
    AlignBounds(v + (a - 1), a);
  }

  lemma MultipleGap(x: int, y: int, a: int)
    requires a > 0 && Rem(x, a) == 0 && Rem(y, a) == 0 && x < y
    ensures x + a <= y
  {
    var i := RemSplit(x, a);
    var j := RemSplit(y, a);
    assert (j - i) * a == y - x;
    MultipleSize(j - i, a);
  }

  lemma UpIsLeast(v: int, x: int, a: int)
    requires a > 0 && Rem(x, a) == 0 && v <= x
    ensures Up(v, a) <= x
  {
    UpBounds(v, a);
    if x < Up(v, a) { MultipleGap(x, Up(v, a), a); }
  }

  lemma UpOfMultiple(x: int, a: int)
    requires a > 0 && Rem(x, a) == 0
    ensures Up(x, a) == x
  {
    UpBounds(x, a);
    UpIsLeast(x, x, a);
  }

  lemma DownIsGreatest(v: int, x: int, a: int)
    requires a > 0 && Rem(x, a) == 0 && x <= v
    ensures x <= AlignDown(v, a)
  {
    AlignBounds(v, a);
    if AlignDown(v, a) < x { MultipleGap(AlignDown(v, a), x, a); }
  }

  lemma UpMonotone(v: int, w: int, a: int)
    requires a > 0 && v <= w
    ensures Up(v, a) <= Up(w, a)
  {
    UpBounds(w, a);
    UpIsLeast(v, Up(w, a), a);
  }

  lemma DividesTrans(x: int, b: int, a: int)
    requires a > 0 && b > 0 && Rem(b, a) == 0 && Rem(x, b) == 0
    ensures Rem(x, a) == 0
  {
    hide Rem;
    var k := RemSplit(b, a);
    var m := RemSplit(x, b);
    Regroup(m, k, a);
    RemUnique(x, a, m * k, 0);
  }

  lemma Regroup(m: int, k: int, a: int)
    ensures m * (k * a) == (m * k) * a
  {
  }

  // ----------------------------------------------------------- powers of two

  lemma {:induction false} Pow2Divides(a: int, b: int)
    requires IsPow2(a) && IsPow2(b) && a <= b
    ensures Rem(b, a) == 0
    decreases b
  {
    if a == b {
      RemUnique(b, a, 1, 0);
    } else if a > 1 {
      Pow2Divides(a / 2, b / 2);
      var k := RemSplit(b / 2, a / 2);
      assert b == k * a by { assert 2 * (k * (a / 2)) == k * (2 * (a / 2)); }
      RemUnique(b, a, k, 0);
    } else {
      RemUnique(b, 1, b, 0);
    }
  }

  lemma DoubleProduct(a: int, h: int, b: int)
    requires a == 2 * h
    ensures a * b == 2 * (h * b)
  {
  }

  lemma DoubleIsPow2(p: int)
    requires IsPow2(p)
    ensures IsPow2(2 * p)
  {
  }

  lemma {:induction false} Pow2Product(a: int, b: int)
    requires IsPow2(a) && IsPow2(b)
    ensures IsPow2(a * b)
    decreases a
  {
    if a > 1 {
      var h := a / 2;
      Pow2Product(h, b);
      DoubleProduct(a, h, b);
      DoubleIsPow2(h * b);
    } else {
      assert a * b == b;
    }
  }

  lemma U64LimitIsPow2()
    ensures IsPow2(U64_LIMIT)
  {
    assert IsPow2(4) && IsPow2(16);
    Pow2Product(16, 16);
    Pow2Product(256, 256);
    Pow2Product(65536, 65536);
    Pow2Product(0x1_0000_0000, 0x1_0000_0000);
  }

  /** A multiple of a power-of-two `a` below 2^64 leaves room for `a - 1` more, so `align_up` of
      anything at or below it cannot overflow. */
  lemma AlignUpFits(v: int, x: int, a: u64)
    requires IsPow2(a) && 0 <= v <= x < U64_LIMIT && Rem(x, a) == 0
    ensures v + (a - 1) < U64_LIMIT
    ensures AlignUp(v, a) == Some(Up(v, a)) && Up(v, a) <= x
  {
    U64LimitIsPow2();
    Pow2Divides(a, U64_LIMIT);
    MultipleGap(x, U64_LIMIT, a);
    UpIsLeast(v, x, a);
  }

  // ------------------------------------------------- the masks of the source

  /** `v & !m` on unbounded naturals, one bit at a time. */
  function BitClear(v: nat, m: nat): nat
  {
    if v == 0 then 0
    else 2 * BitClear(v / 2, m / 2) + (if v % 2 == 1 && m % 2 == 0 then 1 else 0)
  }

  /** `v & m`. */
  function BitAnd(v: nat, m: nat): nat
  {
    if v == 0 then 0
    else 2 * BitAnd(v / 2, m / 2) + (if v % 2 == 1 && m % 2 == 1 then 1 else 0)
  }

  lemma {:induction false} ClearNothing(v: nat)
    ensures BitClear(v, 0) == v && BitAnd(v, 0) == 0
  {
    if v > 0 { ClearNothing(v / 2); }
  }

  lemma HalveMod(v: nat, a: nat)
    requires a > 0
    ensures v % (2 * a) == 2 * ((v / 2) % a) + v % 2
  {
    var h := v / 2;
    assert h == a * (h / a) + h % a;
    assert v == 2 * h + v % 2;
    assert v == (h / a) * (2 * a) + (2 * (h % a) + v % 2) by { assert (h / a) * (2 * a) == 2 * (a * (h / a)); }
    DivModUnique(v, 2 * a, h / a, 2 * (h % a) + v % 2);
  }

  lemma MaskHalves(v: nat, h: nat)
    requires h > 0
    ensures BitClear(v, 2 * h - 1) == 2 * BitClear(v / 2, h - 1)
    ensures BitAnd(v, 2 * h - 1) == 2 * BitAnd(v / 2, h - 1) + v % 2
  {
    assert (2 * h - 1) / 2 == h - 1 && (2 * h - 1) % 2 == 1;
  }

  lemma MaskStep(v: nat, h: nat, clear: nat, low: nat)
    requires h > 0 && clear == v / 2 - (v / 2) % h && low == (v / 2) % h
    ensures 2 * clear == v - v % (2 * h) && 2 * low + v % 2 == v % (2 * h)
  {
    HalveMod(v, h);
  }

  lemma {:induction false} MaskIsMod(v: nat, a: nat)
    requires IsPow2(a)
    ensures BitClear(v, a - 1) == v - v % a && BitAnd(v, a - 1) == v % a
    decreases a
  {
    if a == 1 {
      ClearNothing(v);
    } else {
      var h := a / 2;
      MaskIsMod(v / 2, h);
      MaskHalves(v, h);
      MaskStep(v, h, BitClear(v / 2, h - 1), BitAnd(v / 2, h - 1));
      assert a == 2 * h;
    }
  }

  /** For a power of two, masking off the low bits is rounding down, and keeping them is the
      remainder: the two forms the code uses are `AlignDown` and `Rem`. */
  lemma MaskIsAlignDown(v: nat, a: nat)
    requires IsPow2(a)
    ensures BitClear(v, a - 1) == AlignDown(v, a)
    ensures BitAnd(v, a - 1) == Rem(v, a) == v % a
  {
    MaskIsMod(v, a);
    RemIs(v, a);
  }

  lemma LowBit(v: nat)
    ensures BitAnd(v, 1) == v % 2
  {
    ClearNothing(v / 2);
  }

  /** The three lowest bits, tested by masks and by arithmetic. */
  lemma LowBits(v: nat)
    ensures BitAnd(v, 1) != 0 <==> v % 2 == 1
    ensures BitAnd(v, 2) != 0 <==> (v / 2) % 2 == 1
    ensures BitAnd(v, 4) != 0 <==> (v / 4) % 2 == 1
  {
    LowBit(v);
    LowBit(v / 2);
    LowBit(v / 4);
    assert BitAnd(v, 2) == 2 * BitAnd(v / 2, 1);
    assert BitAnd(v / 2, 2) == 2 * BitAnd(v / 4, 1);
    assert BitAnd(v, 4) == 2 * BitAnd(v / 2, 2);
  }

  // ------------------------------------------------------ little-endian words

  /** `to_le_bytes` on an `n`-byte word. */
  function ToLe(v: int, n: nat): (b: seq<byte>)
    requires v >= 0
    ensures |b| == n
  {
    if n == 0 then [] else [v % 256] + ToLe(v / 256, n - 1)
  }

  /** `from_le_bytes`. */
  function FromLe(b: seq<byte>): (v: int)
    ensures v >= 0
  {
    if b == [] then 0 else b[0] + 256 * FromLe(b[1..])
  }

  function Pow256(n: nat): (p: int)
    ensures p > 0
  {
    if n == 0 then 1 else 256 * Pow256(n - 1)
  }

  lemma {:induction false} LeRoundTrip(v: int, n: nat)
    requires 0 <= v < Pow256(n)
    ensures FromLe(ToLe(v, n)) == v
    decreases n
  {
    if n > 0 {
      LeRoundTrip(v / 256, n - 1);
      assert ToLe(v, n)[1..] == ToLe(v / 256, n - 1);
    }
  }

  /** Byte `i` is the `i`-th digit in base 256, the lowest first. */
  lemma {:induction false} ToLeByte(v: int, n: nat, i: nat)
    requires v >= 0 && i < n
    ensures ToLe(v, n)[i] as int == v / Pow256(i) % 256
    decreases n
  {
    if i > 0 {
      ToLeByte(v / 256, n - 1, i - 1);
      DivTwice(v, 256, Pow256(i - 1));
    }
  }

  lemma DivTwice(v: int, a: int, b: int)
    requires v >= 0 && a > 0 && b > 0
    ensures v / a / b == v / (a * b)
  {
    var q := v / a;
    var h := q / b;
    var r := (q % b) * a + v % a;
    assert v == q * a + v % a && q == h * b + q % b;
    assert v == h * (a * b) + r by { assert q * a == h * (a * b) + (q % b) * a; }
    assert 0 <= r < a * b by { MultipleBelow(q % b, b, a, v % a); }
    DivModUnique(v, a * b, h, r);
  }

  lemma MultipleBelow(x: int, b: int, a: int, r: int)
    requires 0 <= x < b && 0 <= r < a
    ensures 0 <= x * a + r < a * b
  {
    assert x * a <= (b - 1) * a;
  }

  lemma {:induction false} FromLeBound(b: seq<byte>)
    ensures FromLe(b) < Pow256(|b|)
  {
    if b != [] { FromLeBound(b[1..]); }
  }

  lemma Pow256Values()
    ensures Pow256(2) == 0x1_0000 && Pow256(4) == 0x1_0000_0000 && Pow256(8) == U64_LIMIT
  {
    assert Pow256(4) == 256 * (256 * Pow256(2));
    assert Pow256(6) == 256 * (256 * Pow256(4));
  }
}

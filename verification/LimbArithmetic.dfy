/** The multiply-add step of the two BIG headers. Both headers have the same code; only the number of
    bits in a limb differs (58 and 56), so it is a parameter here. Every operation on a Chunk is checked
    to stay within a signed 64-bit word. */
module LimbArithmetic {
  import opened Bits

  const TWO_63: int := 0x8000_0000_0000_0000

  const TWO_64: int := 0x1_0000_0000_0000_0000
  const TWO_127: int := 0x8000_0000_0000_0000_0000_0000_0000_0000

  /** A signed 64-bit word. */
  newtype Chunk = x: int | -TWO_63 <= x < TWO_63

  /** The double-width word, where the compiler has one. */
  newtype DChunk = x: int | -TWO_127 <= x < TWO_127

  /** The accumulator word that the caller passes by address. */
  class Accumulator {
    var value: Chunk

    constructor (value: Chunk)
      ensures this.value == value
    {
      this.value := value;
    }
  }

  predicate ValidBaseBits(bits: nat) {
    bits == 58 || bits == 56
  }

  /** Base of the limb representation, and of half a limb. */
  function Base(bits: nat): (b: int)
    requires ValidBaseBits(bits)
    ensures b == Pow2(bits) && b == HalfBase(bits) * HalfBase(bits) && b <= 0x400_0000_0000_0000
  {
    Pow2Add(bits / 2, bits / 2);
    if bits == 58 then PowersOf58(); 0x400_0000_0000_0000 else PowersOf56(); 0x100_0000_0000_0000
  }

  function HalfBase(bits: nat): (h: int)
    requires ValidBaseBits(bits)
    ensures h == Pow2(bits / 2) && 0 < h <= 0x2000_0000
  {
    if bits == 58 then PowersOf58(); 0x2000_0000 else PowersOf56(); 0x1000_0000
  }

  lemma PowersOf58()
    ensures Pow2(29) == 0x2000_0000 && Pow2(58) == 0x400_0000_0000_0000
  {
    PowersOf56();
    Pow2Add(28, 1);
    Pow2Add(56, 2);
  }

  lemma PowersOf56()
    ensures Pow2(28) == 0x1000_0000 && Pow2(56) == 0x100_0000_0000_0000
  {
    assert Pow2(4) == 16;
    Pow2Add(4, 3);
    Pow2Add(7, 7);
    Pow2Add(14, 14);
    Pow2Add(28, 28);
  }

  /** C's & with a mask of ones, on a word in two's complement. */
  function Mask(x: Chunk, bits: nat): (r: Chunk)
    requires bits < 63
    ensures r as int == x as int % Pow2(bits)
  {
    var pattern: nat := if x < 0 then x as int + TWO_64 else x as int;
    BitAndMask(pattern, bits);
    WrapKeepsLowBits(x as int, if x < 0 then 1 else 0, bits);
    Pow2Monotone(bits, 62);
    PowersOf58();
    Pow2Add(58, 4);
    BitAnd(pattern, Pow2(bits) - 1) as Chunk
  }

  /** Adding multiples of 2^64 does not change the low bits. */
  lemma WrapKeepsLowBits(x: int, k: int, bits: nat)
    requires bits <= 64
    ensures (x + k * TWO_64) % Pow2(bits) == x % Pow2(bits)
  {
    Pow2Add(64 - bits, bits);
    PowerOf64();
    MulAssociative(k, Pow2(64 - bits), Pow2(bits));
    ModShift(x, Pow2(bits), k * Pow2(64 - bits));
  }

  lemma PowerOf64()
    ensures Pow2(64) == TWO_64
  {
    PowersOf56();
    assert Pow2(8) == 256;
    Pow2Add(56, 8);
  }

  lemma ModShift(x: int, m: int, j: int)
    requires m > 0
    ensures (x + j * m) % m == x % m
  {
    assert x == m * (x / m) + x % m;
    MulSub(x / m, -j, m);
    ModUnique(x + j * m, m, x / m + j, x % m);
  }

  /** C's conversion of a double-width word to a word: the low 64 bits. */
  function Truncate(p: DChunk): (r: Chunk)
    ensures exists k: int :: r as int == p as int + k * TWO_64
    ensures -TWO_63 <= p as int < TWO_63 ==> r as int == p as int
  {
    var q := (p as int + TWO_63) / TWO_64;
    assert p as int + TWO_63 == TWO_64 * q + (p as int + TWO_63) % TWO_64;
    var r := p as int + (-q) * TWO_64;
    r as Chunk
  }

  lemma QuotientBound(a: int, m: int)
    requires 0 <= a && 0 < m
    ensures 0 <= a / m <= a
  {
    var q := a / m;
    assert a == m * q + a % m;
    MulAtLeast(q, m);
    assert q >= 0 ==> q * (m - 1) >= 0;
  }

  /** C's >> on a non-negative word. */
  function ShiftRight(x: Chunk, bits: nat): (r: Chunk)
    requires 0 <= x
  {
    QuotientBound(x as int, Pow2(bits));
    (x as int / Pow2(bits)) as Chunk
  }

  /** C's << on a non-negative word, defined only while the result fits. */
  function ShiftLeft(x: Chunk, bits: nat): (r: Chunk)
    requires 0 <= x && x as int * Pow2(bits) < TWO_63
  {
    (x as int * Pow2(bits)) as Chunk
  }

  /** A limb after normalisation. */
  predicate Normalised(x: Chunk, bits: nat)
    requires ValidBaseBits(bits)
  {
    0 <= x as int < Base(bits)
  }

  /** The carry and accumulator the half-word variant has room for. */
  predicate Bounded(c: Chunk, r: Chunk, bits: nat)
    requires ValidBaseBits(bits)
  {
    0 <= c && 0 <= r && c as int + r as int <= TWO_63 - 2 * Base(bits)
  }

  /** top and r' are the two halves of x*y + c + r. */
  predicate Exact(x: Chunk, y: Chunk, c: Chunk, r: Chunk, top: Chunk, r': Chunk, bits: nat)
    requires ValidBaseBits(bits)
  {
    && top as int * Base(bits) + r' as int == x as int * y as int + c as int + r as int
    && 0 <= r' as int < Base(bits)
  }

  /** The halves are determined by the inputs. */
  lemma ExactUnique(x: Chunk, y: Chunk, c: Chunk, r: Chunk, top1: Chunk, r1: Chunk, top2: Chunk, r2: Chunk, bits: nat)
    requires ValidBaseBits(bits)
    requires Exact(x, y, c, r, top1, r1, bits) && Exact(x, y, c, r, top2, r2, bits)
    ensures top1 == top2 && r1 == r2
  {
    var total := x as int * y as int + c as int + r as int;
    ModUnique(total, Base(bits), top1 as int, r1 as int);
    ModUnique(total, Base(bits), top2 as int, r2 as int);
  }

  /** Schoolbook multiplication on half limbs. */
  lemma HalfProducts(h: int, x0: int, x1: int, y0: int, y1: int)
    ensures (x1 * h + x0) * (y1 * h + y0) == x1 * y1 * (h * h) + (x0 * y1 + x1 * y0) * h + x0 * y0
  {
    assert (x1 * h + x0) * (y1 * h + y0) == x1 * h * (y1 * h) + x1 * h * y0 + x0 * (y1 * h) + x0 * y0;
    assert x1 * h * (y1 * h) == x1 * y1 * (h * h);
  }

  lemma ProductBound(a: int, b: int, h: int)
    requires 0 <= a < h && 0 <= b < h
    ensures 0 <= a * b <= (h - 1) * (h - 1)
  {
  }

  /** Quotient and remainder, with a bound on the quotient of a number below n * m. */
  lemma DivMod(a: int, m: int, n: int)
    requires 0 < m && 0 <= a < n * m
    ensures a == a / m * m + a % m && 0 <= a % m < m
    ensures 0 <= a / m < n
  {
    assert a == m * (a / m) + a % m;
    MulSub(a / m, n, m);
    MulAtLeast(a / m - n, m);
  }

  /** A normalised limb splits into two half limbs. */
  lemma HalvesOf(x: Chunk, bits: nat)
    requires ValidBaseBits(bits) && Normalised(x, bits)
    ensures x as int == ShiftRight(x, bits / 2) as int * HalfBase(bits) + Mask(x, bits / 2) as int
    ensures 0 <= Mask(x, bits / 2) as int < HalfBase(bits) && 0 <= ShiftRight(x, bits / 2) as int < HalfBase(bits)
  {
    DivMod(x as int, HalfBase(bits), HalfBase(bits));
  }

  /** The cross products leave room in a word. */
  lemma ProductsFit(h: int, x0: int, x1: int, y0: int, y1: int)
    requires 0 < h <= 0x2000_0000
    requires 0 <= x0 < h && 0 <= x1 < h && 0 <= y0 < h && 0 <= y1 < h
    ensures 0 <= x0 * y0 < h * h && 0 <= x1 * y1 < h * h
    ensures 0 <= x0 * y1 && 0 <= x1 * y0 && x0 * y1 + x1 * y0 < 2 * h * h
    ensures h * h <= 0x400_0000_0000_0000
  {
    var square := h * h;
    ProductBelow(x0, y0, h, square);
    ProductBelow(x1, y1, h, square);
    ProductBelow(x0, y1, h, square);
    ProductBelow(x1, y0, h, square);
    MulAssociative(2, h, h);
    SquareBound(h);
  }

  lemma ProductBelow(a: int, b: int, h: int, square: int)
    requires 0 <= a < h && 0 <= b < h && square == h * h
    ensures 0 <= a * b < square
  {
    ProductBound(a, b, h);
    MulSub(h, 1, h - 1);
    MulSub(h, 1, h);
  }

  lemma SquareBound(h: int)
    requires 0 < h <= 0x2000_0000
    ensures h * h <= 0x400_0000_0000_0000
  {
    ProductBound(0x2000_0000 - h, h, 0x2000_0001);
    MulSub(0x2000_0000, h, h);
  }

  /** Regrouping the partial products by weight. */
  lemma Recompose(h: int, x0: int, x1: int, y0: int, y1: int, m0: int, m1: int, rest: int, carry: int, low: int)
    requires x0 * y1 + x1 * y0 == m1 * h + m0
    requires x0 * y0 + m0 * h + rest == carry * (h * h) + low
    ensures (x1 * y1 + m1 + carry) * (h * h) + low == (x1 * h + x0) * (y1 * h + y0) + rest
  {
    HalfProducts(h, x0, x1, y0, y1);
    assert (m1 * h + m0) * h == m1 * (h * h) + m0 * h;
    assert (x1 * y1 + m1 + carry) * (h * h) == x1 * y1 * (h * h) + m1 * (h * h) + carry * (h * h);
  }

  /** The variant for compilers without a double-width integer. */
  method MulAddHalf(bits: nat, x: Chunk, y: Chunk, c: Chunk, r: Accumulator) returns (top: Chunk)
    requires ValidBaseBits(bits)
    requires Normalised(x, bits) && Normalised(y, bits) && Bounded(c, r.value, bits)
    modifies r
    ensures Exact(x, y, c, old(r.value), top, r.value, bits)
  {
    ghost var h := HalfBase(bits);
    var x0, x1 := Mask(x, bits / 2), ShiftRight(x, bits / 2);
    var y0, y1 := Mask(y, bits / 2), ShiftRight(y, bits / 2);
    HalvesOf(x, bits);
    HalvesOf(y, bits);
    ProductsFit(h, x0 as int, x1 as int, y0 as int, y1 as int);
    var bot := x0 * y0;
    top := x1 * y1;
    var mid := x0 * y1 + x1 * y0;
    ghost var a, b, s, t := x0 as int, x1 as int, y0 as int, y1 as int;
    DivMod(mid as int, h, 2 * h);
    x0, x1 := Mask(mid, bits / 2), ShiftRight(mid, bits / 2);
    MaskedShiftFits(h, x0 as int);
    bot := bot + ShiftLeft(x0, bits / 2);
    bot := bot + r.value;
    bot := bot + c;
    top := top + x1;
    DivMod(bot as int, Base(bits), 128);
    var carry := ShiftRight(bot, bits);
    bot := Mask(bot, bits);
    top := top + carry;
    Recompose(h, a, b, s, t, x0 as int, x1 as int, c as int + r.value as int, carry as int, bot as int);
    r.value := bot;
  }

  lemma MaskedShiftFits(h: int, m: int)
    requires 0 <= m < h
    ensures 0 <= m * h < h * h
  {
  }

  /** The variant for compilers with a double-width integer: it takes any non-negative carry and accumulator. */
  method MulAddWide(bits: nat, x: Chunk, y: Chunk, c: Chunk, r: Accumulator) returns (top: Chunk)
    requires ValidBaseBits(bits)
    requires Normalised(x, bits) && Normalised(y, bits) && 0 <= c && 0 <= r.value
    modifies r
    ensures Exact(x, y, c, old(r.value), top, r.value, bits)
  {
    ghost var base := Base(bits);
    ProductBound(x as int, y as int, base);
    ProductBound(base - 1, base - 1, 0x400_0000_0000_0000);
    var prod := x as DChunk * y as DChunk + c as DChunk + r.value as DChunk;
    ghost var rest := c as int + r.value as int;
    r.value := Mask(Truncate(prod), bits);
    ghost var k :| Truncate(prod) as int == prod as int + k * TWO_64;
    WrapKeepsLowBits(prod as int, k, bits);
    WideQuotient(x as int, y as int, rest, base);
    top := Truncate((prod as int / Pow2(bits)) as DChunk);
  }

  /** The top half fits a word. */
  lemma WideQuotient(x: int, y: int, rest: int, base: int)
    requires 0 <= x < base && 0 <= y < base && 0 <= rest < 2 * TWO_63 && 0x100_0000_0000_0000 <= base
    ensures x * y + rest == (x * y + rest) / base * base + (x * y + rest) % base
    ensures 0 <= (x * y + rest) / base < base + 256
  {
    ProductBound(x, y, base);
    assert (base - 1) * (base - 1) + 2 * TWO_63 <= (base + 256) * base;
    DivMod(x * y + rest, base, base + 256);
  }

  /** The two variants, given the same words, return and store the same words. */
  method MulAddVariantsAgree(bits: nat, x: Chunk, y: Chunk, c: Chunk, value: Chunk)
    returns (half: Chunk, halfRest: Chunk, wide: Chunk, wideRest: Chunk)
    requires ValidBaseBits(bits)
    requires Normalised(x, bits) && Normalised(y, bits) && Bounded(c, value, bits)
    ensures half == wide && halfRest == wideRest && Exact(x, y, c, value, half, halfRest, bits)
  {
    var r := new Accumulator(value);
    var s := new Accumulator(value);
    half := MulAddHalf(bits, x, y, c, r);
    wide := MulAddWide(bits, x, y, c, s);
    halfRest, wideRest := r.value, s.value;
    ExactUnique(x, y, c, value, half, halfRest, wide, wideRest, bits);
  }
}

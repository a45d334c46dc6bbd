/** Rounding lengths up to a power of two with a bit mask, in the 32-bit signed
    arithmetic of the guest.
  */
module Align {
  import opened Bytes

  type int32 = x: int | -0x8000_0000 <= x < 0x8000_0000

  const TWO31: nat := 0x8000_0000

  /** Two's complement reading of the low 32 bits of `x`. */
  function Wrap(x: int): (r: int32) {
    var u := x % 0x1_0000_0000;
    if u < 0x8000_0000 then u else u - 0x1_0000_0000
  }

  /** Bitwise and of two unsigned bit patterns. */
  function And(x: nat, y: nat): nat {
    if x == 0 then 0
    else (if x % 2 == 1 && y % 2 == 1 then 1 else 0) + 2 * And(x / 2, y / 2)
  }

  function AndInt(x: int32, y: int32): (r: int32) {
    Wrap(And(x % 0x1_0000_0000, y % 0x1_0000_0000))
  }

  /** Bitwise complement, the unary `^` of Go. */
  function Complement(x: int32): (r: int32) {
    -1 - x
  }

  function Pow2(k: nat): (p: nat)
    ensures p >= 1
  {
    if k == 0 then 1 else 2 * Pow2(k - 1)
  }

  function AlignUp(addr: int32, al: int32): (r: int32) {
    AndInt(Wrap(addr + al - 1), Complement(Wrap(al - 1)))
  }

  /** Go's integer division truncates toward zero. */
  function Quotient(x: int, d: int): int
    requires d > 0
  {
    if x >= 0 then x / d else -(-x / d)
  }

  function ComputePaddedLength(dataLen: int32): (r: int32) {
    var nWords := Quotient(AlignUp(Wrap(dataLen + 1), 4), 4);
    var withTrailer := AlignUp(Wrap(nWords + 2), 16);
    Wrap(withTrailer * 4)
  }

  function Multiple(al: int, q: int): int { al * q }

  /** `r` is the least multiple of `al` that is at least `addr`. */
  ghost predicate IsLeastMultiple(r: int, addr: int, al: int) {
    && (exists q: int :: r == Multiple(al, q))
    && addr <= r
    && forall q: int :: addr <= Multiple(al, q) ==> r <= Multiple(al, q)
  }

  lemma {:induction false} MultipleGaps(al: int, p: int, q: int)
    requires al > 0
    ensures p < q ==> Multiple(al, p) + al <= Multiple(al, q)
    ensures p > q ==> Multiple(al, q) + al <= Multiple(al, p)
  {
    assert p < q ==> al * p <= al * (q - 1);
    assert p > q ==> al * q <= al * (p - 1);
  }

  lemma {:induction false} LeastByDistance(al: int, q: int, addr: int)
    requires al > 0 && addr <= Multiple(al, q) < addr + al
    ensures IsLeastMultiple(Multiple(al, q), addr, al)
  {
    hide Multiple;
    forall p: int | addr <= Multiple(al, p)
      ensures Multiple(al, q) <= Multiple(al, p)
    {
      MultipleGaps(al, p, q);
    }
  }

  /** `x` without its low `k` bits. */
  function Floor(x: nat, k: nat): (t: nat)
    ensures t <= x < t + Pow2(k)
  {
    if k == 0 then x else 2 * Floor(x / 2, k - 1)
  }

  lemma {:induction false} FloorIsMultiple(x: nat, k: nat) returns (q: nat)
    ensures Floor(x, k) == Multiple(Pow2(k), q)
  {
    if k == 0 {
      q := x;
    } else {
      q := FloorIsMultiple(x / 2, k - 1);
      assert 2 * (Pow2(k - 1) * q) == (2 * Pow2(k - 1)) * q;
    }
  }

  lemma {:induction false} FloorMonotone(x: nat, y: nat, k: nat)
    requires x <= y
    ensures Floor(x, k) <= Floor(y, k)
  {
    if k > 0 {
      FloorMonotone(x / 2, y / 2, k - 1);
    }
  }

  lemma {:induction false} FloorOfPower(k: nat, n: nat)
    requires k <= n
    ensures Floor(Pow2(n), k) == Pow2(n)
  {
    if k > 0 {
      FloorOfPower(k - 1, n - 1);
    }
  }

  lemma {:induction false} Pow2Monotone(k: nat, n: nat)
    requires k <= n
    ensures Pow2(k) <= Pow2(n)
  {
    if k < n {
      Pow2Monotone(k, n - 1);
    }
  }

  /** Masking with all bits from position `k` upward clears the low `k` bits. */
  lemma {:induction false} AndMask(x: nat, k: nat, n: nat)
    requires k <= n && x < Pow2(n)
    ensures Pow2(k) <= Pow2(n)
    ensures And(x, Pow2(n) - Pow2(k)) == Floor(x, k)
    decreases n
  {
    hide And;
    Pow2Monotone(k, n);
    if n == 0 {
      AndZero(Pow2(n) - Pow2(k));
    } else if k == 0 {
      AndMask(x / 2, 0, n - 1);
      AndDouble(x, Pow2(n - 1) - 1);
    } else {
      AndMask(x / 2, k - 1, n - 1);
      AndDouble(x, Pow2(n - 1) - Pow2(k - 1));
    }
  }

  lemma {:induction false} AndZero(y: nat)
    ensures And(0, y) == 0
  {
  }

  lemma {:induction false} AndDouble(x: nat, half: nat)
    ensures And(x, 2 * half) == 2 * And(x / 2, half)
    ensures And(x, 2 * half + 1) == x % 2 + 2 * And(x / 2, half)
  {
    assert (2 * half) % 2 == 0 && (2 * half) / 2 == half;
    assert (2 * half + 1) % 2 == 1 && (2 * half + 1) / 2 == half;
  }

  lemma {:induction false} Pow2Values()
    ensures Pow2(2) == 4 && Pow2(4) == 16 && Pow2(31) == TWO31 && Pow2(32) == TWO32
  {
    assert Pow2(8) == 256 by { assert Pow2(6) == 64; }
    assert Pow2(16) == 0x1_0000 by { assert Pow2(12) == 0x1000; }
    assert Pow2(24) == 0x100_0000 by { assert Pow2(20) == 0x10_0000; }
    assert Pow2(28) == 0x1000_0000;
  }

  /** The two's complement form of the mask is an unsigned mask of the high bits. */
  lemma {:induction false} AlignUpIsMask(addr: int32, al: int32)
    requires addr >= 0 && al >= 1
    ensures AlignUp(addr, al) == Wrap(And(addr + al - 1, TWO32 - al))
  {
    var s := addr + al - 1;
    assert Wrap(s) % 0x1_0000_0000 == s;
    assert Complement(Wrap(al - 1)) == 0 - al;
    assert (0 - al) % 0x1_0000_0000 == TWO32 - al;
  }

  lemma {:induction false} AlignUpIsFloor(addr: int32, k: nat)
    requires addr >= 0 && k <= 30 && Pow2(k) < TWO31
    ensures AlignUp(addr, Pow2(k)) == Wrap(Floor(addr + Pow2(k) - 1, k))
  {
    hide AlignUp, And, Floor;
    AlignUpIsMask(addr, Pow2(k));
    assert Pow2(32) == TWO32 by { Pow2Values(); }
    AndMask(addr + Pow2(k) - 1, k, 32);
  }

  lemma {:induction false} RoundUp(addr: int32, k: nat)
    requires addr >= 0 && addr + Pow2(k) - 1 < TWO31
    ensures var t := Wrap(Floor(addr + Pow2(k) - 1, k)); IsLeastMultiple(t, addr, Pow2(k))
  {
    hide Floor;
    var s := addr + Pow2(k) - 1;
    var q := FloorIsMultiple(s, k);
    LeastByDistance(Pow2(k), q, addr);
    assert Wrap(Floor(s, k)) == Floor(s, k);
  }

  /** 2^31 is itself a multiple of 2^k, so rounding down cannot clear the sign bit. */
  lemma {:induction false} RoundUpOverflows(addr: int32, k: nat)
    requires addr >= 0 && k <= 30 && TWO31 <= addr + Pow2(k) - 1 < TWO32
    ensures Wrap(Floor(addr + Pow2(k) - 1, k)) < 0
  {
    hide Floor;
    assert Pow2(31) == TWO31 by { Pow2Values(); }
    FloorOfPower(k, 31);
    FloorMonotone(TWO31, addr + Pow2(k) - 1, k);
  }

  /** For every power of two, the mask form rounds up to the least multiple exactly
      when the addition does not overflow; on overflow the result is negative. */
  lemma {:induction false} AlignUpIsLeastMultiple(addr: int32, k: nat)
    requires addr >= 0 && k <= 30 && Pow2(k) < TWO31
    ensures IsLeastMultiple(AlignUp(addr, Pow2(k)), addr, Pow2(k)) <==> addr + Pow2(k) - 1 < TWO31
    ensures addr + Pow2(k) - 1 >= TWO31 ==> AlignUp(addr, Pow2(k)) < 0
  {
    hide AlignUp;
    AlignUpIsFloor(addr, k);
    if addr + Pow2(k) - 1 < TWO31 {
      RoundUp(addr, k);
    } else {
      RoundUpOverflows(addr, k);
    }
  }

  lemma {:induction false} FloorUnique(x: nat, k: nat, q: nat)
    requires Multiple(Pow2(k), q) <= x < Multiple(Pow2(k), q) + Pow2(k)
    ensures Floor(x, k) == Multiple(Pow2(k), q)
  {
    hide Floor, Multiple;
    var p := FloorIsMultiple(x, k);
    MultipleGaps(Pow2(k), p, q);
  }

  lemma {:induction false} AlignUpTo4(addr: int32, q: nat)
    requires 0 <= addr && 4 * q - 4 < addr <= 4 * q < TWO31
    ensures AlignUp(addr, 4) == 4 * q
  {
    hide AlignUp, Floor;
    assert Pow2(2) == 4 by { Pow2Values(); }
    FloorUnique(addr + 3, 2, q);
    AlignUpIsFloor(addr, 2);
  }

  lemma {:induction false} AlignUpTo16(addr: int32, q: nat)
    requires 0 <= addr && 16 * q - 16 < addr <= 16 * q < TWO31
    ensures AlignUp(addr, 16) == 16 * q
  {
    hide AlignUp, Floor;
    assert Pow2(4) == 16 by { Pow2Values(); }
    FloorUnique(addr + 15, 4, q);
    AlignUpIsFloor(addr, 4);
  }

  lemma {:induction false} WrapFits(x: int)
    requires 0 - TWO31 <= x < TWO31
    ensures Wrap(x) == x
  {
  }

  lemma {:induction false} PaddedLengthValue(n: int32, words: nat, blocks: nat)
    requires 0 <= n && 4 * words - 4 < n + 1 <= 4 * words
    requires 64 * blocks - 64 < n + 9 <= 64 * blocks < TWO31
    ensures ComputePaddedLength(n) == 64 * blocks
  {
    hide AlignUp, Wrap;
    WrapFits(n + 1);
    WrapFits(words + 2);
    WrapFits(64 * blocks);
    AlignUpTo4(n + 1, words);
    AlignUpTo16(words + 2, blocks);
    assert Quotient(4 * words, 4) == words;
  }

  /** The padded length is the least multiple of 64 that leaves room for the marker and
      the eight trailer bytes, for exactly the lengths where that number fits an int;
      it is then never zero. */
  lemma {:induction false} PaddedLengthIsLeastMultiple(n: int32)
    requires n >= 0
    ensures IsLeastMultiple(ComputePaddedLength(n), n + 9, 64) <==> n + 9 <= TWO31 - 64
    ensures n + 9 <= TWO31 - 64 ==> 64 <= ComputePaddedLength(n) < n + 9 + 64
  {
    hide ComputePaddedLength;
    if n + 9 <= TWO31 - 64 {
      var blocks := (n + 72) / 64;
      PaddedLengthValue(n, (n + 4) / 4, blocks);
      LeastByDistance(64, blocks, n + 9);
    } else {
      MultipleDoesNotFit(ComputePaddedLength(n), n);
    }
  }

  lemma {:induction false} MultipleDoesNotFit(r: int32, n: int32)
    requires n + 9 > TWO31 - 64
    ensures !IsLeastMultiple(r, n + 9, 64)
  {
    forall q: int | r == Multiple(64, q)
      ensures r < n + 9
    {
    }
  }
}

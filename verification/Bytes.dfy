/** Fixed-width integers and their byte encodings.

    The guest runs on a little-endian 32-bit machine and exchanges raw memory images
    with its host, so every format in the repository is a concatenation of
    little-endian integers. `LE(n, k)` keeps only the low `k` bytes of `n`, exactly
    like a truncating conversion followed by a store.
  */
module Bytes {
  type byte = x: nat | x < 0x100
  type word = x: nat | x < 0x1_0000_0000
  type dword = x: nat | x < 0x1_0000_0000_0000_0000

  const TWO32: nat := 0x1_0000_0000
  const TWO64: nat := 0x1_0000_0000_0000_0000

  /** 256 to the power `k`: the number of values that fit in `k` bytes. */
  function Pow256(k: nat): (p: nat)
    ensures p >= 1
  {
    if k == 0 then 1 else 256 * Pow256(k - 1)
  }

  lemma {:induction false} Pow256Values()
    ensures Pow256(1) == 0x100 && Pow256(2) == 0x1_0000 && Pow256(4) == TWO32 && Pow256(8) == TWO64
  {
    assert Pow256(3) == 0x100_0000;
    assert Pow256(5) == 0x100_0000_0000;
    assert Pow256(7) == 0x100_0000_0000_0000;
  }

  /** The low `k` bytes of `n`, least significant first. */
  function LE(n: nat, k: nat): (bs: seq<byte>)
    ensures |bs| == k
  {
    if k == 0 then [] else [n % 256] + LE(n / 256, k - 1)
  }

  function FromLE(bs: seq<byte>): nat {
    if bs == [] then 0 else bs[0] + 256 * FromLE(bs[1..])
  }

  /** The low `k` bytes of `n`, most significant first. */
  function BE(n: nat, k: nat): (bs: seq<byte>)
    ensures |bs| == k
  {
    if k == 0 then [] else BE(n / 256, k - 1) + [n % 256]
  }

  lemma {:induction false} FromLEBound(bs: seq<byte>)
    ensures FromLE(bs) < Pow256(|bs|)
  {
    if bs != [] {
      FromLEBound(bs[1..]);
    }
  }

  /** Encoding then decoding keeps the low `k` bytes. */
  lemma {:induction false} LERoundTrip(n: nat, k: nat)
    ensures FromLE(LE(n, k)) == n % Pow256(k)
  {
    if k > 0 {
      LERoundTrip(n / 256, k - 1);
      DivModSplit(n, Pow256(k - 1));
      assert LE(n, k)[1..] == LE(n / 256, k - 1);
    }
  }

  lemma {:induction false} DivModSplit(n: nat, p: nat)
    requires p >= 1
    ensures n % (256 * p) == n % 256 + 256 * (n / 256 % p)
  {
    var q, r := n / 256, n % 256;
    var h, l := q / p, q % p;
    assert n == 256 * (p * h + l) + r == (256 * p) * h + (256 * l + r);
    assert l + 1 <= p;
    assert 256 * l + r < 256 * p;
    ModUnique(n, 256 * p, h, 256 * l + r);
  }

  lemma {:induction false} ModUnique(n: nat, m: nat, q: nat, r: nat)
    requires m >= 1 && r < m && n == m * q + r
    ensures n % m == r && n / m == q
  {
    var d := n / m - q;
    assert m * d == r - n % m;
    MulGrows(m, d);
  }

  lemma {:induction false} AddMod(x: nat, y: nat, m: nat)
    requires m >= 1
    ensures (x % m + y) % m == (x + y) % m
  {
    var q, r := (x % m + y) / m, (x % m + y) % m;
    assert x + y == m * (x / m) + (m * q + r) == m * (x / m + q) + r;
    ModUnique(x + y, m, x / m + q, r);
  }

  lemma {:induction false} MulGrows(m: nat, d: int)
    requires m >= 1
    ensures d >= 1 ==> m * d >= m
    ensures d <= -1 ==> m * d <= 0 - m
  {
  }

  lemma {:induction false} LEStep(b: byte, m: nat, k: nat)
    ensures LE(b + 256 * m, k + 1) == [b] + LE(m, k)
  {
    assert (b + 256 * m) % 256 == b && (b + 256 * m) / 256 == m;
  }

  /** Decoding then encoding gives the bytes back. */
  lemma {:induction false} FromLERoundTrip(bs: seq<byte>)
    ensures LE(FromLE(bs), |bs|) == bs
  {
    hide LE;
    if bs != [] {
      FromLERoundTrip(bs[1..]);
      LEStep(bs[0], FromLE(bs[1..]), |bs| - 1);
    } else {
      LEEmpty(0);
    }
  }

  lemma {:induction false} LEEmpty(n: nat)
    ensures LE(n, 0) == []
  {
  }

  lemma {:induction false} DivDiv(n: nat, p: nat)
    requires p >= 1
    ensures n / 256 / p == n / (256 * p)
  {
    var q, r := n / 256, n % 256;
    var h, l := q / p, q % p;
    assert n == 256 * (p * h + l) + r == (256 * p) * h + (256 * l + r);
    assert l + 1 <= p;
    assert 256 * l + r < 256 * p;
    ModUnique(n, 256 * p, h, 256 * l + r);
  }

  /** Byte i of an encoding is the digit of weight 256^i. */
  lemma {:induction false} LEDigit(n: nat, k: nat, i: nat)
    requires i < k
    ensures LE(n, k)[i] == n / Pow256(i) % 256
  {
    if i > 0 {
      LEDigit(n / 256, k - 1, i - 1);
      DivDiv(n, Pow256(i - 1));
      assert LE(n, k)[1..] == LE(n / 256, k - 1);
    }
  }

  /** The big-endian encoding has the same digits in the opposite order. */
  lemma {:induction false} BEReversesLE(n: nat, k: nat, i: nat)
    requires i < k
    ensures BE(n, k)[k - 1 - i] == LE(n, k)[i]
  {
    if i > 0 {
      BEReversesLE(n / 256, k - 1, i - 1);
      assert LE(n, k)[1..] == LE(n / 256, k - 1) && BE(n, k)[..k - 1] == BE(n / 256, k - 1);
    }
  }

  /** For a value that fits, the encoding loses nothing. */
  lemma {:induction false} LEExact(n: nat, k: nat)
    requires n < Pow256(k)
    ensures FromLE(LE(n, k)) == n
  {
    LERoundTrip(n, k);
    ModUnique(n, Pow256(k), 0, n);
  }

  lemma {:induction false} LETruncates32(n: nat)
    ensures LE(n % 0x1_0000_0000, 4) == LE(n, 4)
  {
    var m := n % TWO32;
    assert Pow256(4) == TWO32 by { Pow256Values(); }
    ModUnique(m, TWO32, 0, m);
    LERoundTrip(n, 4);
    LERoundTrip(m, 4);
    FromLERoundTrip(LE(n, 4));
    FromLERoundTrip(LE(m, 4));
  }

  lemma {:induction false} LE32Exact(n: word)
    ensures FromLE(LE(n, 4)) == n
  {
    Pow256Values();
    LEExact(n, 4);
  }

  lemma {:induction false} LE64Exact(n: dword)
    ensures FromLE(LE(n, 8)) == n
  {
    Pow256Values();
    LEExact(n, 8);
  }

  /** Big-endian encodings are equal exactly when the values agree modulo 256^k. */
  lemma {:induction false} BEEqual(x: nat, y: nat, k: nat)
    ensures BE(x, k) == BE(y, k) <==> x % Pow256(k) == y % Pow256(k)
  {
    if k > 0 {
      BEEqual(x / 256, y / 256, k - 1);
      DivModSplit(x, Pow256(k - 1));
      DivModSplit(y, Pow256(k - 1));
      var a, b := BE(x / 256, k - 1), BE(y / 256, k - 1);
      assert a + [x % 256] == b + [y % 256] <==> a == b && x % 256 == y % 256 by {
        assert (a + [x % 256])[..k - 1] == a && (b + [y % 256])[..k - 1] == b;
        assert (a + [x % 256])[k - 1] == x % 256 && (b + [y % 256])[k - 1] == y % 256;
      }
    }
  }

  function Shift(n: nat, k: nat): nat {
    if k == 0 then n else Shift(n / 256, k - 1)
  }

  lemma {:induction false} BESplit(n: nat, j: nat, k: nat)
    ensures BE(n, j + k) == BE(Shift(n, k), j) + BE(n, k)
  {
    if k > 0 {
      BESplit(n / 256, j, k - 1);
    }
  }

  lemma {:induction false} BE32Injective(x: word, y: word)
    requires BE(x, 4) == BE(y, 4)
    ensures x == y
  {
    BEEqual(x, y, 4);
    assert Pow256(4) == TWO32 by { Pow256Values(); }
    ModUnique(x, TWO32, 0, x);
    ModUnique(y, TWO32, 0, y);
  }

  /** A list of integers, each written in `k` little-endian bytes. */
  function EncodeAll(xs: seq<nat>, k: nat): seq<byte> {
    if xs == [] then [] else EncodeAll(xs[..|xs| - 1], k) + LE(xs[|xs| - 1], k)
  }

  lemma {:induction false} EncodeAllLength(xs: seq<nat>, k: nat)
    ensures |EncodeAll(xs, k)| == k * |xs|
  {
    if xs != [] {
      EncodeAllLength(xs[..|xs| - 1], k);
      assert k * |xs| == k * (|xs| - 1) + k;
    }
  }

  lemma {:induction false} EncodeAllAppend(xs: seq<nat>, ys: seq<nat>, k: nat)
    ensures EncodeAll(xs + ys, k) == EncodeAll(xs, k) + EncodeAll(ys, k)
  {
    if ys == [] {
      assert xs + ys == xs;
    } else {
      var n := |ys| - 1;
      assert xs + ys == (xs + ys[..n]) + [ys[n]];
      calc {
        EncodeAll(xs + ys, k);
        { EncodeAllSnoc(xs + ys[..n], ys[n], k); }
        EncodeAll(xs + ys[..n], k) + LE(ys[n], k);
        { EncodeAllAppend(xs, ys[..n], k); }
        EncodeAll(xs, k) + EncodeAll(ys[..n], k) + LE(ys[n], k);
        EncodeAll(xs, k) + (EncodeAll(ys[..n], k) + LE(ys[n], k));
      }
    }
  }

  lemma {:induction false} EncodeAllSnoc(xs: seq<nat>, x: nat, k: nat)
    ensures EncodeAll(xs + [x], k) == EncodeAll(xs, k) + LE(x, k)
  {
    assert (xs + [x])[..|xs + [x]| - 1] == xs;
  }

  /** Integer i of a list occupies bytes k * i to k * i + k. */
  lemma {:induction false} EncodeAllAt(xs: seq<nat>, k: nat, i: nat)
    requires i < |xs|
    ensures 0 <= k * i <= k * i + k <= |EncodeAll(xs, k)|
    ensures EncodeAll(xs, k)[k * i..k * i + k] == LE(xs[i], k)
  {
    hide LE, EncodeAll;
    var front, back := xs[..i], xs[i + 1..];
    assert xs == front + [xs[i]] + back;
    EncodeAllAppend(front + [xs[i]], back, k);
    EncodeAllSnoc(front, xs[i], k);
    EncodeAllLength(front, k);
    var p, q, r := EncodeAll(front, k), LE(xs[i], k), EncodeAll(back, k);
    assert (p + q + r)[|p|..|p| + k] == q;
  }

  /** A byte string cut into `k`-byte little-endian integers. */
  function DecodeAll(bs: seq<byte>, k: nat): seq<nat>
    requires k > 0
  {
    if |bs| < k then [] else DecodeAll(bs[..|bs| - k], k) + [FromLE(bs[|bs| - k..])]
  }

  lemma {:induction false} EncodeAllRoundTrip(xs: seq<nat>, k: nat)
    requires k > 0
    requires forall i :: 0 <= i < |xs| ==> xs[i] < Pow256(k)
    ensures DecodeAll(EncodeAll(xs, k), k) == xs
  {
    if xs != [] {
      hide LE, FromLE, Pow256, EncodeAll;
      var n := |xs| - 1;
      assert xs == xs[..n] + [xs[n]];
      EncodeAllSnoc(xs[..n], xs[n], k);
      var bs := EncodeAll(xs, k);
      EncodeAllRoundTrip(xs[..n], k);
      LEExact(xs[n], k);
      assert bs[..|bs| - k] == EncodeAll(xs[..n], k);
      assert bs[|bs| - k..] == LE(xs[n], k);
    }
  }

  /** `bs` is cut into `k`-byte pieces without remainder. */
  predicate Even(bs: seq<byte>, k: nat)
    requires k > 0
  {
    bs == [] || (|bs| >= k && Even(bs[..|bs| - k], k))
  }

  lemma {:induction false} MultipleOf4IsEven(bs: seq<byte>)
    requires |bs| % 4 == 0
    ensures Even(bs, 4)
  {
    if bs != [] {
      MultipleOf4IsEven(bs[..|bs| - 4]);
    }
  }

  lemma {:induction false} DecodeStep(bs: seq<byte>, k: nat) returns (front: seq<byte>, back: seq<byte>)
    requires k > 0 && Even(bs, k) && bs != []
    ensures bs == front + back && |back| == k && Even(front, k)
    ensures DecodeAll(bs, k) == DecodeAll(front, k) + [FromLE(back)]
  {
    front, back := bs[..|bs| - k], bs[|bs| - k..];
  }

  lemma {:induction false} DecodeAllRoundTrip(bs: seq<byte>, k: nat)
    requires k > 0 && Even(bs, k)
    ensures EncodeAll(DecodeAll(bs, k), k) == bs
    ensures forall i :: 0 <= i < |DecodeAll(bs, k)| ==> DecodeAll(bs, k)[i] < Pow256(k)
    decreases |bs|
  {
    if bs != [] {
      hide LE, FromLE, Pow256, EncodeAll, DecodeAll, Even;
      var front, back := DecodeStep(bs, k);
      DecodeAllRoundTrip(front, k);
      FromLERoundTrip(back);
      FromLEBound(back);
      EncodeAllSnoc(DecodeAll(front, k), FromLE(back), k);
    }
  }

  function DecodeWords(bs: seq<byte>): (ws: seq<word>)
    requires |bs| % 4 == 0
    ensures EncodeAll(ws, 4) == bs
    ensures 4 * |ws| == |bs|
  {
    MultipleOf4IsEven(bs);
    DecodeAllRoundTrip(bs, 4);
    EncodeAllLength(DecodeAll(bs, 4), 4);
    Pow256Values();
    DecodeAll(bs, 4)
  }

  /** Lists of 32-bit words with the same encoding are the same list. */
  lemma {:induction false} WordsInjective(xs: seq<word>, ys: seq<word>)
    requires EncodeAll(xs, 4) == EncodeAll(ys, 4)
    ensures xs == ys
  {
    Pow256Values();
    EncodeAllRoundTrip(xs, 4);
    EncodeAllRoundTrip(ys, 4);
  }

  function Zeros(n: nat): (bs: seq<byte>)
    ensures |bs| == n
    ensures forall i :: 0 <= i < n ==> bs[i] == 0
  {
    seq(n, _ => 0)
  }
}

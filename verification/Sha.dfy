/** SHA-256 as the guest drives it: padding, iteration of the compression function over
    64-byte blocks, and what equal hashes imply.

    The compression function is a platform syscall. It is a parameter `c` throughout, so
    every theorem holds for any compression function, and a collision is always a pair of
    concrete inputs among the calls that the two computations make.
  */
module Sha {
  import opened Bytes

  const BLOCK_SIZE: nat := 64

  /** Eight 32-bit words: a hash state, or a digest in the word order of the guest. */
  type Digest = d: seq<word> | |d| == 8 witness [0, 0, 0, 0, 0, 0, 0, 0]

  type Block = b: seq<byte> | |b| == 64 witness Zeros(64)

  /** sys_sha_compress: the next state from a state and one block. */
  type Compressor = (Digest, Block) -> Digest

  /** One invocation of the compression function. */
  datatype Call = Call(state: Digest, block: Block) {
    function Result(c: Compressor): Digest { c(state, block) }
  }

  /** Two different calls, one from each set, with the same result. */
  ghost predicate Collide(c: Compressor, a: set<Call>, b: set<Call>) {
    exists p, q :: p in a && q in b && p != q && p.Result(c) == q.Result(c)
  }

  lemma {:induction false} CollideAt(c: Compressor, a: set<Call>, b: set<Call>, p: Call, q: Call)
    requires p in a && q in b && p != q && p.Result(c) == q.Result(c)
    ensures Collide(c, a, b)
  {
  }

  lemma {:induction false} CollideGrows(c: Compressor, a: set<Call>, b: set<Call>, a': set<Call>, b': set<Call>)
    requires Collide(c, a, b) && a <= a' && b <= b'
    ensures Collide(c, a', b')
  {
    var p, q :| p in a && q in b && p != q && p.Result(c) == q.Result(c);
    assert p in a' && q in b';
  }

  /** The compression function iterated over consecutive blocks. */
  function Fold(c: Compressor, s: Digest, bs: seq<Block>): Digest {
    if bs == [] then s else c(Fold(c, s, bs[..|bs| - 1]), bs[|bs| - 1])
  }

  /** The calls that `Fold` makes. */
  function Calls(c: Compressor, s: Digest, bs: seq<Block>): set<Call> {
    if bs == [] then {} else Calls(c, s, bs[..|bs| - 1]) + {LastCall(c, s, bs)}
  }

  function LastCall(c: Compressor, s: Digest, bs: seq<Block>): Call
    requires bs != []
  {
    Call(Fold(c, s, bs[..|bs| - 1]), bs[|bs| - 1])
  }

  lemma {:induction false} FoldSnoc(c: Compressor, s: Digest, bs: seq<Block>, b: Block)
    ensures Fold(c, s, bs + [b]) == c(Fold(c, s, bs), b)
    ensures Calls(c, s, bs + [b]) == Calls(c, s, bs) + {Call(Fold(c, s, bs), b)}
  {
    assert (bs + [b])[..|bs + [b]| - 1] == bs;
  }

  /** The calls are those of the loop: call i compresses block i from the state after the
      first i blocks. */
  lemma {:induction false} CallsAreOfLoop(c: Compressor, s: Digest, bs: seq<Block>, p: Call)
    ensures p in Calls(c, s, bs) <==> exists i: nat :: i < |bs| && p == Call(Fold(c, s, bs[..i]), bs[i])
    decreases |bs|
  {
    if bs != [] {
      var n := |bs| - 1;
      var front := bs[..n];
      CallsAreOfLoop(c, s, front, p);
      hide Fold;
      if i: nat :| i < |bs| && p == Call(Fold(c, s, bs[..i]), bs[i]) {
        assert i < n ==> front[i] == bs[i] && front[..i] == bs[..i];
      }
      if i: nat :| i < n && p == Call(Fold(c, s, front[..i]), front[i]) {
        assert front[i] == bs[i] && front[..i] == bs[..i];
      }
      assert bs[n] == bs[|bs| - 1];
    }
  }

  lemma {:induction false} FoldLast(c: Compressor, s: Digest, bs: seq<Block>)
    requires bs != []
    ensures LastCall(c, s, bs) in Calls(c, s, bs) && LastCall(c, s, bs).Result(c) == Fold(c, s, bs)
  {
  }

  lemma {:induction false} FoldAppend(c: Compressor, s: Digest, a: seq<Block>, b: seq<Block>)
    ensures Fold(c, s, a + b) == Fold(c, Fold(c, s, a), b)
    ensures Calls(c, s, a + b) == Calls(c, s, a) + Calls(c, Fold(c, s, a), b)
    decreases |b|
  {
    if b == [] {
      assert a + b == a;
    } else {
      hide Fold, Calls;
      var b', last := b[..|b| - 1], b[|b| - 1];
      assert b == b' + [last];
      assert a + b == (a + b') + [last];
      FoldAppend(c, s, a, b');
      FoldSnoc(c, s, a + b', last);
      FoldSnoc(c, Fold(c, s, a), b', last);
    }
  }

  /** A byte string parsed into 64-byte blocks; an incomplete tail is not a block. */
  function Blocks(bs: seq<byte>): seq<Block> {
    if |bs| < 64 then [] else [bs[..64]] + Blocks(bs[64..])
  }

  /** The tail that does not fill a block. */
  function Tail(bs: seq<byte>): (t: seq<byte>)
    ensures |t| < 64
  {
    if |bs| < 64 then bs else Tail(bs[64..])
  }

  predicate Whole(bs: seq<byte>) { |bs| % 64 == 0 }

  lemma {:induction false} TailLength(bs: seq<byte>)
    ensures |Tail(bs)| == |bs| % 64
  {
    if |bs| >= 64 {
      TailLength(bs[64..]);
    }
  }

  lemma {:induction false} BlocksCount(bs: seq<byte>)
    ensures |Blocks(bs)| == |bs| / 64
  {
    if |bs| >= 64 {
      BlocksCount(bs[64..]);
    }
  }

  /** Block i holds bytes 64i to 64i + 64, and the tail is what follows the last block. */
  lemma {:induction false} BlockAt(bs: seq<byte>, i: nat)
    requires 64 * i + 64 <= |bs|
    ensures i < |Blocks(bs)| && Blocks(bs)[i] == bs[64 * i..64 * i + 64]
  {
    BlocksCount(bs);
    if i > 0 {
      BlockAt(bs[64..], i - 1);
      hide Blocks;
      BlocksStep(bs, []);
      assert bs[64..][64 * (i - 1)..64 * (i - 1) + 64] == bs[64 * i..64 * i + 64];
    }
  }

  lemma {:induction false} TailIsRest(bs: seq<byte>)
    ensures Tail(bs) == bs[64 * (|bs| / 64)..]
  {
    if |bs| >= 64 {
      TailIsRest(bs[64..]);
      assert bs[64..][64 * (|bs[64..]| / 64)..] == bs[64 * (|bs| / 64)..];
    }
  }

  lemma {:induction false} BlocksAppend(a: seq<byte>, b: seq<byte>)
    requires Whole(a)
    ensures Blocks(a + b) == Blocks(a) + Blocks(b)
    ensures Tail(a + b) == Tail(b)
    decreases |a|
  {
    if a == [] {
      assert a + b == b;
    } else {
      assert |a| >= 64 && Whole(a[64..]);
      hide Blocks, Tail, Whole;
      BlocksStep(a, b);
      BlocksAppend(a[64..], b);
      assert [a[..64]] + (Blocks(a[64..]) + Blocks(b)) == ([a[..64]] + Blocks(a[64..])) + Blocks(b);
    }
  }

  lemma {:induction false} BlocksStep(a: seq<byte>, b: seq<byte>)
    requires |a| >= 64
    ensures Blocks(a + b) == [a[..64]] + Blocks(a[64..] + b)
    ensures Blocks(a) == [a[..64]] + Blocks(a[64..])
    ensures Tail(a + b) == Tail(a[64..] + b)
  {
    assert (a + b)[..64] == a[..64] && (a + b)[64..] == a[64..] + b;
  }

  lemma {:induction false} BlocksOfOne(b: Block)
    ensures Blocks(b) == [b] && Tail(b) == []
  {
    assert b[..64] == b;
  }

  lemma {:induction false} BlocksInjective(a: seq<byte>, b: seq<byte>)
    requires Whole(a) && Whole(b) && Blocks(a) == Blocks(b)
    ensures a == b
    decreases |a|
  {
    if a == [] {
      BlocksCount(b);
    } else {
      assert |a| >= 64 && Whole(a[64..]);
      BlocksCount(b);
      assert |b| >= 64 && Whole(b[64..]);
      assert Blocks(a)[1..] == Blocks(a[64..]) && Blocks(b)[1..] == Blocks(b[64..]);
      BlocksInjective(a[64..], b[64..]);
      assert a == a[..64] + a[64..] && b == b[..64] + b[64..];
    }
  }

  /** A byte string is its whole blocks followed by its tail. */
  lemma {:induction false} BlocksOfFull(bs: seq<byte>) returns (full: seq<byte>)
    ensures Whole(full) && bs == full + Tail(bs) && Blocks(full) == Blocks(bs)
    decreases |bs|
  {
    if |bs| < 64 {
      full := [];
    } else {
      var rest := BlocksOfFull(bs[64..]);
      full := bs[..64] + rest;
      assert bs == bs[..64] + bs[64..];
      assert full[..64] == bs[..64] && full[64..] == rest;
    }
  }

  // ---------- Padding ----------

  /** Zero bytes between the end marker and the eight trailer bytes. */
  function ZeroCount(n: nat): nat { (64 - (n + 9) % 64) % 64 }

  /** What follows `n` leftover bytes of a message of `total` bytes. Only the low 32 bits
      of the bit count are written; the other half of the trailer stays zero. */
  function PadFor(n: nat, total: nat): (p: seq<byte>)
    ensures |p| == 9 + ZeroCount(n)
  {
    [0x80] + Zeros(ZeroCount(n)) + Zeros(4) + BE(8 * total, 4)
  }

  function Padded(m: seq<byte>): (p: seq<byte>)
    ensures |p| >= |m| + 9
  {
    m + PadFor(|m|, |m|)
  }

  lemma {:induction false} PaddedIsWhole(t: seq<byte>, total: nat)
    ensures Whole(PaddedTail(t, total))
  {
    var n := |t| + 9;
    assert (64 - n % 64) % 64 == if n % 64 == 0 then 0 else 64 - n % 64;
    assert n == 64 * (n / 64) + n % 64;
  }

  /** The last blocks of a message: its tail, padded with the count of the whole. */
  function PaddedTail(t: seq<byte>, total: nat): seq<byte> {
    t + PadFor(|t|, total)
  }

  /** The padded text, byte by byte: the message, 0x80, zeros, and the low 32 bits of the
      bit count; its length is the least multiple of 64 with room for nine more bytes. */
  lemma {:induction false} PaddedBytes(m: seq<byte>)
    ensures var p, n := Padded(m), |m|;
            && |p| % 64 == 0 && n + 9 <= |p| < n + 9 + 64
            && p[..n] == m && p[n] == 0x80
            && (forall i :: n < i < |p| - 4 ==> p[i] == 0)
            && p[|p| - 4..] == BE(8 * n, 4)
  {
    hide BE;
  }

  function Hash(c: Compressor, s: Digest, m: seq<byte>): Digest {
    Fold(c, s, Blocks(Padded(m)))
  }

  function HashCalls(c: Compressor, s: Digest, m: seq<byte>): set<Call> {
    Calls(c, s, Blocks(Padded(m)))
  }

  /** Padding only the leftover bytes, with the total count, gives exactly the last
      blocks of the padded message. */
  lemma {:induction false} TailPaddingIsWholePadding(m: seq<byte>)
    ensures Blocks(Padded(m)) == Blocks(m) + Blocks(PaddedTail(Tail(m), |m|))
    ensures |Tail(m)| <= |m| && Padded(m) == m[..|m| - |Tail(m)|] + PaddedTail(Tail(m), |m|)
  {
    var full := BlocksOfFull(m);
    assert full == m[..|m| - |Tail(m)|];
    PadForTail(|m|);
    TailLength(m);
    hide Blocks, PadFor, Tail, Whole, ZeroCount;
    assert m + PadFor(|m|, |m|) == full + (Tail(m) + PadFor(|m|, |m|));
    BlocksAppend(full, PaddedTail(Tail(m), |m|));
  }

  lemma {:induction false} PadForTail(n: nat)
    ensures PadFor(n % 64, n) == PadFor(n, n)
  {
    ShiftMod(n / 64, n % 64 + 9);
    assert n + 9 == 64 * (n / 64) + (n % 64 + 9);
  }

  lemma {:induction false} ShiftMod(q: nat, x: nat)
    ensures (64 * q + x) % 64 == x % 64
  {
  }

  /** Finishing a hash from the running state of the full blocks. */
  lemma {:induction false} HashFromTail(c: Compressor, s: Digest, m: seq<byte>)
    ensures Hash(c, s, m) == Fold(c, Fold(c, s, Blocks(m)), Blocks(PaddedTail(Tail(m), |m|)))
    ensures HashCalls(c, s, m)
         == Calls(c, s, Blocks(m)) + Calls(c, Fold(c, s, Blocks(m)), Blocks(PaddedTail(Tail(m), |m|)))
  {
    TailPaddingIsWholePadding(m);
    FoldAppend(c, s, Blocks(m), Blocks(PaddedTail(Tail(m), |m|)));
  }

  lemma {:induction false} PadShape(m: seq<byte>, i: nat)
    requires |m| <= i < |Padded(m)| - 4
    ensures Padded(m)[i] == if i == |m| then 0x80 else 0
  {
  }

  lemma {:induction false} PaddedTrailer(m: seq<byte>)
    ensures Padded(m)[|Padded(m)| - 4..] == BE(8 * |m|, 4)
  {
  }

  /** The padded text determines the message, whatever its length: the marker is the last
      non-zero byte before the trailer. */
  lemma {:induction false} PaddedInjective(m: seq<byte>, n: seq<byte>)
    requires Padded(m) == Padded(n)
    ensures m == n
  {
    hide Padded;
    PaddedPrefix(m);
    PaddedPrefix(n);
    if |m| < |n| {
      PadShape(m, |n|);
      PadShape(n, |n|);
    } else if |n| < |m| {
      PadShape(m, |m|);
      PadShape(n, |m|);
    }
  }

  lemma {:induction false} PaddedPrefix(m: seq<byte>)
    ensures |m| + 9 <= |Padded(m)| && Padded(m)[..|m|] == m
  {
  }

  // ---------- Merkle-Damgard ----------

  /** Walking two chains of blocks backwards from equal results: either two different
      calls agree, or the longer chain returned to the initial state. */
  lemma {:induction false} EqualFoldsCollide(c: Compressor, s: Digest, a: seq<Block>, b: seq<Block>)
    requires a != b && Fold(c, s, a) == Fold(c, s, b)
    ensures || Collide(c, Calls(c, s, a), Calls(c, s, b))
            || (|a| != |b| && exists p :: p in Calls(c, s, a) + Calls(c, s, b) && p.Result(c) == s)
    decreases |a|
  {
    if a == [] {
      assert LastCall(c, s, b) in Calls(c, s, b) && LastCall(c, s, b).Result(c) == s;
    } else if b == [] {
      assert LastCall(c, s, a) in Calls(c, s, a) && LastCall(c, s, a).Result(c) == s;
    } else {
      var a', b' := a[..|a| - 1], b[..|b| - 1];
      assert a == a' + [a[|a| - 1]] && b == b' + [b[|b| - 1]];
      var p, q := LastCall(c, s, a), LastCall(c, s, b);
      if p == q {
        EqualFoldsCollide(c, s, a', b');
        if Collide(c, Calls(c, s, a'), Calls(c, s, b')) {
          CollideGrows(c, Calls(c, s, a'), Calls(c, s, b'), Calls(c, s, a), Calls(c, s, b));
        }
      } else {
        assert p.Result(c) == q.Result(c);
      }
    }
  }

  /** Any two different messages, of any lengths, with equal hashes: without a full bit
      count in the last block, the longer chain may also return to the initial state. */
  lemma {:induction false} EqualHashesCollideOrReturn(c: Compressor, s: Digest, m: seq<byte>, n: seq<byte>)
    requires m != n && Hash(c, s, m) == Hash(c, s, n)
    ensures || Collide(c, HashCalls(c, s, m), HashCalls(c, s, n))
            || exists p :: p in HashCalls(c, s, m) + HashCalls(c, s, n) && p.Result(c) == s
  {
    BlocksDiffer(m, n);
    EqualFoldsCollide(c, s, Blocks(Padded(m)), Blocks(Padded(n)));
  }

  lemma {:induction false} BlocksDiffer(m: seq<byte>, n: seq<byte>)
    requires m != n
    ensures Blocks(Padded(m)) != Blocks(Padded(n))
  {
    PaddedIsWhole(m, |m|);
    PaddedIsWhole(n, |n|);
    if Blocks(Padded(m)) == Blocks(Padded(n)) {
      BlocksInjective(Padded(m), Padded(n));
      PaddedInjective(m, n);
    }
  }

  /** The largest message length whose bit count fits the 32-bit trailer, plus one. */
  const MAX_BYTES: nat := 0x2000_0000

  lemma {:induction false} LastBlock(bs: seq<byte>)
    requires Whole(bs) && |bs| >= 64
    ensures Blocks(bs) != [] && Blocks(bs)[|Blocks(bs)| - 1] == bs[|bs| - 64..]
  {
    var init, last := bs[..|bs| - 64], bs[|bs| - 64..];
    assert Whole(init);
    hide Blocks, Whole;
    assert bs == init + last;
    BlocksAppend(init, last);
    BlocksOfOne(last);
  }

  lemma {:induction false} TrailerInLastBlock(m: seq<byte>)
    ensures var p := Padded(m); |p| >= 64 && Whole(p) && p[|p| - 64..][60..] == BE(8 * |m|, 4)
  {
    PaddedIsWhole(m, |m|);
    assert |Padded(m)| >= 64;
    hide Padded, BE, Whole;
    PaddedTrailer(m);
    var p := Padded(m);
    assert p[|p| - 64..][60..] == p[|p| - 4..];
  }

  /** Different lengths below 2^29 give different last blocks. */
  lemma {:induction false} LengthsDiffer(m: seq<byte>, n: seq<byte>)
    requires |m| < MAX_BYTES && |n| < MAX_BYTES && |m| != |n|
    ensures |Padded(m)| >= 64 && |Padded(n)| >= 64
    ensures Padded(m)[|Padded(m)| - 64..] != Padded(n)[|Padded(n)| - 64..]
  {
    hide Padded, BE, Whole;
    TrailerInLastBlock(m);
    TrailerInLastBlock(n);
    if Padded(m)[|Padded(m)| - 64..] == Padded(n)[|Padded(n)| - 64..] {
      BE32Injective(8 * |m|, 8 * |n|);
    }
  }

  /** Different messages below 2^29 bytes with equal hashes contain a collision of the
      compression function among the calls of their two hash computations. */
  lemma {:induction false} EqualHashesCollide(c: Compressor, s: Digest, m: seq<byte>, n: seq<byte>)
    requires |m| < MAX_BYTES && |n| < MAX_BYTES && m != n
    requires Hash(c, s, m) == Hash(c, s, n)
    ensures Collide(c, HashCalls(c, s, m), HashCalls(c, s, n))
  {
    hide Fold, Calls, Blocks, PadFor, Whole, Collide;
    var a, b := Blocks(Padded(m)), Blocks(Padded(n));
    TrailerInLastBlock(m);
    TrailerInLastBlock(n);
    LastBlock(Padded(m));
    LastBlock(Padded(n));
    if |m| == |n| {
      BlocksDiffer(m, n);
      BlocksCount(Padded(m));
      BlocksCount(Padded(n));
      EqualFoldsCollide(c, s, a, b);
    } else {
      LengthsDiffer(m, n);
      var p, q := LastCall(c, s, a), LastCall(c, s, b);
      assert p.block != q.block;
      FoldLast(c, s, a);
      FoldLast(c, s, b);
      CollideAt(c, HashCalls(c, s, m), HashCalls(c, s, n), p, q);
    }
  }

  /** The initial state: the constants of FIPS 180-4 with the bytes of each word reversed. */
  const IV: Digest := [
    1743128938, 2242799547, 1928556092, 989155237,
    2136084049, 2355627419, 2883158815, 432922715
  ]

  /** The hash that the guest computes with a given compression function. */
  function HashWith(c: Compressor): seq<byte> -> Digest {
    (m: seq<byte>) => Hash(c, IV, m)
  }

  function DigestBytes(d: Digest): (bs: seq<byte>)
    ensures |bs| == 32
  {
    EncodeAllLength(d, 4);
    EncodeAll(d, 4)
  }
}

/** FIPS 180-4 as an independent reference: padding on bit counts (section 5.1.1),
    parsing into 512-bit blocks of big-endian words (5.2.1), the initial value (5.3.3)
    and the block-by-block computation (6.2.2). The guest keeps every word with its bytes
    reversed; the theorems here say that this is the same hash.
  */
module Fips {
  import opened Bytes
  import opened Sha
  import opened Tagged
  import opened Claims
  import opened Text

  /** The sixteen message words of a block. */
  type Words16 = ws: seq<word> | |ws| == 16 witness seq(16, _ => 0)

  /** Section 6.2.2, steps 1 to 4, on big-endian words. */
  type RoundFunction = (Digest, Words16) -> Digest

  const INITIAL: Digest := [
    0x6a09e667, 0xbb67ae85, 0x3c6ef372, 0xa54ff53a,
    0x510e527f, 0x9b05688c, 0x1f83d9ab, 0x5be0cd19
  ]

  predicate Reaches448(l: nat, k: int) { (l + 1 + k) % 512 == 448 }

  /** Section 5.1.1: the least k with l + 1 + k = 448 modulo 512, for l message bits. */
  function ZeroBits(l: nat): (k: nat)
    ensures Reaches448(l, k)
    ensures forall j: nat :: Reaches448(l, j) ==> k <= j
  {
    (448 - (l + 1)) % 512
  }

  /** The 1 bit and the first seven zero bits make the byte 0x80; the other zero bits fill
      whole bytes; the count takes 64 bits. */
  function Padding(m: seq<byte>): seq<byte> {
    [0x80] + Zeros((ZeroBits(8 * |m|) - 7) / 8) + BE(8 * |m|, 8)
  }

  function ReadBE(bs: seq<byte>): word
    requires |bs| == 4
  {
    var x0: nat, x1: nat, x2: nat, x3: nat := bs[0], bs[1], bs[2], bs[3];
    ((x0 * 256 + x1) * 256 + x2) * 256 + x3
  }

  function BlockWords(b: Block): Words16 {
    seq(16, i requires 0 <= i < 16 => ReadBE(b[4 * i..4 * i + 4]))
  }

  /** Section 5.2.1: word t of a block holds its bytes 4t to 4t + 3, the first one most
      significant. */
  lemma {:induction false} BlockWordsAreBigEndian(b: Block, t: nat)
    requires t < 16
    ensures BE(BlockWords(b)[t], 4) == b[4 * t..4 * t + 4]
  {
    var bs := b[4 * t..4 * t + 4];
    ReadBack(bs[0], bs[1], bs[2], bs[3]);
    assert bs == [bs[0], bs[1], bs[2], bs[3]];
    hide BE;
  }

  lemma {:induction false} ReadBack(x0: byte, x1: byte, x2: byte, x3: byte)
    ensures BE(ReadBE([x0, x1, x2, x3]), 4) == [x0, x1, x2, x3]
  {
    var w := ReadBE([x0, x1, x2, x3]);
    Bytes4(w);
    hide BE, LE;
    ModUnique(w, 0x100, (x0 * 256 + x1) * 256 + x2, x3);
    ModUnique(w, 0x1_0000, x0 * 256 + x1, x2 * 256 + x3);
    ModUnique(w, 0x100_0000, x0, (x1 * 256 + x2) * 256 + x3);
    ModUnique((x0 * 256 + x1) * 256 + x2, 0x100, x0 * 256 + x1, x2);
    ModUnique(x0 * 256 + x1, 0x100, x0, x1);
  }

  /** Section 5.3.3: the first 32 bits of the fractional parts of the square roots of the
      first eight primes. With r the root's whole part, word w is such a fraction when
      r * 2^32 + w is the whole part of the root of p * 2^64. */
  lemma {:induction false} InitialIsSquareRoots(i: nat)
    requires i < 8
    ensures var p, r := [2, 3, 5, 7, 11, 13, 17, 19][i], [1, 1, 2, 2, 3, 3, 4, 4][i];
            var root := r * TWO32 + INITIAL[i];
            r * r < p < (r + 1) * (r + 1) && root * root <= p * TWO64 < (root + 1) * (root + 1)
  {
  }

  /** H(i): the value after the first i blocks. */
  function Value(f: RoundFunction, blocks: seq<Block>, i: nat): Digest
    requires i <= |blocks|
  {
    if i == 0 then INITIAL else f(Value(f, blocks, i - 1), BlockWords(blocks[i - 1]))
  }

  function Hash256(f: RoundFunction, m: seq<byte>): Digest {
    var blocks := Blocks(m + Padding(m));
    Value(f, blocks, |blocks|)
  }

  /** The digest as a byte string: each word most significant byte first. */
  function DigestBytesBE(d: seq<word>): seq<byte> {
    if d == [] then [] else DigestBytesBE(d[..|d| - 1]) + BE(d[|d| - 1], 4)
  }

  // ---------- Byte-reversed words ----------

  function Swap(w: word): (r: word) {
    FromLEBound(BE(w, 4));
    Pow256Values();
    FromLE(BE(w, 4))
  }

  function SwapAll(d: Digest): Digest {
    seq(8, i requires 0 <= i < 8 => Swap(d[i]))
  }

  /** The syscall that a platform with round function `f` offers: it works on words in
      memory order, so states enter and leave with their bytes reversed. */
  function Syscall(f: RoundFunction): Compressor {
    (s: Digest, b: Block) => SwapAll(f(SwapAll(s), BlockWords(b)))
  }

  lemma {:induction false} Bytes4(w: word)
    ensures BE(w, 4) == [w / 0x100_0000, w / 0x1_0000 % 256, w / 0x100 % 256, w % 256]
    ensures LE(w, 4) == [w % 256, w / 0x100 % 256, w / 0x1_0000 % 256, w / 0x100_0000]
  {
    assert BE(w / 256, 3) == BE(w / 256 / 256, 2) + [w / 256 % 256];
    assert LE(w / 256, 3) == [w / 256 % 256] + LE(w / 256 / 256, 2);
    assert w / 256 / 256 == w / 0x1_0000 && w / 256 / 256 / 256 == w / 0x100_0000;
    var t := w / 256 / 256;
    assert BE(t, 2) == BE(t / 256, 1) + [t % 256] && LE(t, 2) == [t % 256] + LE(t / 256, 1);
  }

  lemma {:induction false} SwapStores(w: word)
    ensures LE(Swap(w), 4) == BE(w, 4)
  {
    FromLERoundTrip(BE(w, 4));
  }

  lemma {:induction false} BEDetermines(w: word, v: word)
    requires BE(w, 4) == LE(v, 4)
    ensures Swap(w) == v
  {
    LE32Exact(v);
  }

  lemma {:induction false} SwapTwice(w: word)
    ensures Swap(Swap(w)) == w
  {
    hide Swap, BE, LE;
    var v := Swap(w);
    SwapStores(w);
    Bytes4(w);
    Bytes4(v);
    assert BE(v, 4) == LE(w, 4);
    BEDetermines(v, w);
  }

  lemma {:induction false} SwapAllTwice(d: Digest)
    ensures SwapAll(SwapAll(d)) == d
  {
    forall i | 0 <= i < 8
      ensures SwapAll(SwapAll(d))[i] == d[i]
    {
      SwapTwice(d[i]);
    }
  }

  function Compose(a: byte, b: byte, c: byte, d: byte): word {
    var h: nat, i: nat, j: nat, k: nat := a, b, c, d;
    h * 0x100_0000 + i * 0x1_0000 + j * 0x100 + k
  }

  lemma {:induction false} SwapBytes(a: byte, b: byte, c: byte, d: byte)
    ensures Swap(Compose(a, b, c, d)) == Compose(d, c, b, a)
  {
    hide LE, BE, Swap;
    ComposedBytes(a, b, c, d);
    ComposedBytes(d, c, b, a);
    BEDetermines(Compose(a, b, c, d), Compose(d, c, b, a));
  }

  lemma {:induction false} ComposedBytes(a: byte, b: byte, c: byte, d: byte)
    ensures BE(Compose(a, b, c, d), 4) == [a, b, c, d]
    ensures LE(Compose(a, b, c, d), 4) == [d, c, b, a]
  {
    hide LE, BE;
    var w := Compose(a, b, c, d);
    Bytes4(w);
    assert w / 0x100 == a * 0x1_0000 + b * 0x100 + c;
    assert w / 0x1_0000 == a * 0x100 + b;
    assert w / 0x100_0000 == a;
  }

  /** The guest's decimal constants are the standard's initial value, word by word. */
  lemma {:induction false} InitialValue()
    ensures IV == SwapAll(INITIAL)
  {
    hide Swap;
    SwapBytes(0x6a, 0x09, 0xe6, 0x67);
    SwapBytes(0xbb, 0x67, 0xae, 0x85);
    SwapBytes(0x3c, 0x6e, 0xf3, 0x72);
    SwapBytes(0xa5, 0x4f, 0xf5, 0x3a);
    SwapBytes(0x51, 0x0e, 0x52, 0x7f);
    SwapBytes(0x9b, 0x05, 0x68, 0x8c);
    SwapBytes(0x1f, 0x83, 0xd9, 0xab);
    SwapBytes(0x5b, 0xe0, 0xcd, 0x19);
  }

  // ---------- The guest's hash is SHA-256 ----------

  lemma {:induction false} TrailerIsStandard(l: nat)
    requires l < TWO64
    ensures BE(l, 8) == Zeros(4) + BE(l, 4) <==> l < TWO32
  {
    BESplit(l, 4, 4);
    ShiftValue(l);
    hide Shift;
    var high := BE(l / TWO32, 4);
    assert high + BE(l, 4) == Zeros(4) + BE(l, 4) <==> high == Zeros(4) by {
      assert (high + BE(l, 4))[..4] == high && (Zeros(4) + BE(l, 4))[..4] == Zeros(4);
    }
    Bytes4(0);
    if high == Zeros(4) {
      assert Zeros(4) == BE(0, 4);
      BE32Injective(l / TWO32, 0);
    }
  }

  lemma {:induction false} ZeroCountIsStandard(n: nat)
    ensures ZeroCount(n) == (ZeroBits(8 * n) - 7) / 8
  {
    var q, r := (n + 9) / 64, (n + 9) % 64;
    assert n + 9 == 64 * q + r;
    if r == 0 {
      ModOf512(447 - 8 * n, 1 - q, 7);
    } else {
      ModOf512(447 - 8 * n, 0 - q, 519 - 8 * r);
    }
  }

  lemma {:induction false} ModOf512(x: int, q: int, z: nat)
    requires x == 512 * q + z && z < 512
    ensures x % 512 == z
  {
  }

  lemma {:induction false} ShiftValue(n: nat)
    ensures Shift(n, 4) == n / TWO32
  {
    var a, b := n / 256, n / 256 / 256;
    assert b == n / 0x1_0000;
    assert b / 256 / 256 == b / 0x1_0000 == n / TWO32;
    assert Shift(b, 2) == Shift(b / 256, 1) == Shift(b / 256 / 256, 0) == b / 256 / 256;
    assert Shift(n, 4) == Shift(a, 3) == Shift(b, 2);
  }

  /** For messages within the standard's limit, the guest pads as the standard says exactly
      when the bit count fits the one trailer word it writes. */
  lemma {:induction false} PaddingIsStandard(m: seq<byte>)
    requires 8 * |m| < TWO64
    ensures Padded(m) == m + Padding(m) <==> |m| < MAX_BYTES
  {
    ZeroCountIsStandard(|m|);
    TrailerIsStandard(8 * |m|);
    var front := m + ([0x80] + Zeros(ZeroCount(|m|)));
    hide ZeroCount, ZeroBits, BE;
    assert Padded(m) == front + (Zeros(4) + BE(8 * |m|, 4));
    assert m + Padding(m) == front + BE(8 * |m|, 8);
    SameSuffix(front, Zeros(4) + BE(8 * |m|, 4), BE(8 * |m|, 8));
  }

  lemma {:induction false} SameSuffix(front: seq<byte>, x: seq<byte>, y: seq<byte>)
    ensures front + x == front + y <==> x == y
  {
    assert (front + x)[|front|..] == x && (front + y)[|front|..] == y;
  }

  /** The running state of the guest is the standard's value with reversed words. */
  lemma {:induction false} FoldIsValue(f: RoundFunction, blocks: seq<Block>, i: nat)
    requires i <= |blocks|
    ensures SwapAll(Fold(Syscall(f), IV, blocks[..i])) == Value(f, blocks, i)
  {
    if i == 0 {
      InitialValue();
      SwapAllTwice(INITIAL);
    } else {
      FoldIsValue(f, blocks, i - 1);
      hide SwapAll, BlockWords;
      assert blocks[..i] == blocks[..i - 1] + [blocks[i - 1]];
      FoldSnoc(Syscall(f), IV, blocks[..i - 1], blocks[i - 1]);
      SwapAllTwice(Value(f, blocks, i));
    }
  }

  lemma {:induction false} StoredReversed(d: seq<word>, e: seq<word>)
    requires |d| == |e| && forall i :: 0 <= i < |d| ==> e[i] == Swap(d[i])
    ensures EncodeAll(e, 4) == DigestBytesBE(d)
  {
    if d != [] {
      hide Swap, LE, BE;
      var n := |d| - 1;
      StoredReversed(d[..n], e[..n]);
      SwapStores(d[n]);
    }
  }

  /** Below 2^29 bytes the guest's hash, written out as bytes, is the SHA-256 digest. */
  lemma {:induction false} HashIsSha256(f: RoundFunction, m: seq<byte>)
    requires |m| < MAX_BYTES
    ensures DigestBytes(Hash(Syscall(f), IV, m)) == DigestBytesBE(Hash256(f, m))
  {
    PaddingIsStandard(m);
    var blocks := Blocks(Padded(m));
    FoldIsValue(f, blocks, |blocks|);
    assert blocks[..|blocks|] == blocks;
    var guest, standard := Hash(Syscall(f), IV, m), Hash256(f, m);
    hide Swap;
    SwapAllTwice(guest);
    StoredReversed(standard, guest);
  }

  // ---------- The documented form of tagged digests ----------

  /** The SHA-256 digest as a byte string. */
  function Sha256(f: RoundFunction, m: seq<byte>): seq<byte> {
    DigestBytesBE(Hash256(f, m))
  }

  function DigestList(ds: seq<Digest>): seq<byte> {
    if ds == [] then [] else DigestList(ds[..|ds| - 1]) + DigestBytes(ds[|ds| - 1])
  }

  lemma {:induction false} FlattenIsDigestList(ds: seq<Digest>)
    ensures EncodeAll(Flatten(ds), 4) == DigestList(ds)
  {
    if ds != [] {
      var front, last := ds[..|ds| - 1], ds[|ds| - 1];
      FlattenIsDigestList(front);
      hide EncodeAll;
      EncodeAllAppend(Flatten(front), last, 4);
    }
  }

  lemma {:induction false} PreimageBytes(p: Parts)
    ensures Preimage(p)
         == DigestBytes(p.tagDigest) + DigestList(p.digests) + EncodeAll(p.data, 4) + LE(|p.digests|, 2)
  {
    FlattenIsDigestList(p.digests);
    EncodeAllAppend(p.tagDigest + Flatten(p.digests), p.data, 4);
    EncodeAllAppend(p.tagDigest, Flatten(p.digests), 4);
    hide EncodeAll, LE, Flatten, DigestList;
  }

  /** The guest's hash function, written out. */
  lemma {:induction false} GuestHash(f: RoundFunction, m: seq<byte>)
    requires |m| < MAX_BYTES
    ensures DigestBytes(HashWith(Syscall(f))(m)) == Sha256(f, m)
  {
    HashIsSha256(f, m);
  }

  /** A tagged digest is SHA-256 of the tag's SHA-256, the digests, the words and the
      count, all written as bytes. */
  lemma {:induction false} TaggedStructIsDocumented(f: RoundFunction, tag: seq<byte>, ds: seq<Digest>, data: seq<word>)
    requires |tag| < MAX_BYTES && 34 + 32 * |ds| + 4 * |data| < MAX_BYTES
    ensures DigestBytes(TaggedStruct(HashWith(Syscall(f)), tag, ds, data))
         == Sha256(f, Sha256(f, tag) + DigestList(ds) + EncodeAll(data, 4) + LE(|ds|, 2))
  {
    hide EncodeAll, LE, Sha256, HashWith, Syscall, DigestList, DigestBytes, Preimage;
    var p := Parts(HashWith(Syscall(f))(tag), ds, data);
    GuestHash(f, tag);
    PreimageLength(p);
    GuestHash(f, Preimage(p));
    PreimageBytes(p);
  }

  lemma {:induction false} PreimageOfPair(t: Digest, d: Digest, e: Digest)
    ensures Preimage(Parts(t, [d, e], [])) == DigestBytes(t) + (DigestBytes(d) + DigestBytes(e)) + [2, 0]
  {
    var p := Parts(t, [d, e], []);
    PreimageBytes(p);
    TwoDigests(d, e);
    CountOfTwo();
    NoWords();
    hide Preimage, EncodeAll, LE, DigestList, DigestBytes;
    var front := DigestBytes(t) + (DigestBytes(d) + DigestBytes(e));
    assert front + [] == front;
  }

  /** An output digest, as the tutorial writes it down. */
  lemma {:induction false} OutputIsDocumented(f: RoundFunction, d: Digest, e: Digest)
    ensures DigestBytes(OutputDigest(HashWith(Syscall(f)), d, e))
         == Sha256(f, Sha256(f, OUTPUT) + (DigestBytes(d) + DigestBytes(e)) + [2, 0])
  {
    hide Utf8, TaggedStruct, Sha256, HashWith, Syscall, DigestBytes;
    TagsAreShort();
    PairIsDocumented(f, OUTPUT, d, e);
  }

  // The five tags as bytes: "risc0." and a name, in ASCII.

  lemma {:induction false} OutputTag()
    ensures OUTPUT == [0x72, 0x69, 0x73, 0x63, 0x30, 0x2e, 0x4f, 0x75, 0x74, 0x70, 0x75, 0x74]
  {
    hide Utf8;
    Utf8OfAscii("risc0.Output");
  }

  lemma {:induction false} SystemStateTag()
    ensures SYSTEM_STATE == [
      0x72, 0x69, 0x73, 0x63, 0x30, 0x2e, 0x53, 0x79, 0x73, 0x74, 0x65, 0x6d, 0x53, 0x74, 0x61, 0x74, 0x65]
  {
    hide Utf8;
    Utf8OfAscii("risc0.SystemState");
  }

  lemma {:induction false} ReceiptClaimTag()
    ensures RECEIPT_CLAIM == [
      0x72, 0x69, 0x73, 0x63, 0x30, 0x2e, 0x52, 0x65, 0x63, 0x65, 0x69, 0x70, 0x74, 0x43, 0x6c, 0x61, 0x69, 0x6d]
  {
    hide Utf8;
    Utf8OfAscii("risc0.ReceiptClaim");
  }

  lemma {:induction false} AssumptionTag()
    ensures ASSUMPTION == [
      0x72, 0x69, 0x73, 0x63, 0x30, 0x2e, 0x41, 0x73, 0x73, 0x75, 0x6d, 0x70, 0x74, 0x69, 0x6f, 0x6e]
  {
    hide Utf8;
    Utf8OfAscii("risc0.Assumption");
  }

  lemma {:induction false} AssumptionsTag()
    ensures ASSUMPTIONS == [
      0x72, 0x69, 0x73, 0x63, 0x30, 0x2e, 0x41, 0x73, 0x73, 0x75, 0x6d, 0x70, 0x74, 0x69, 0x6f, 0x6e, 0x73]
  {
    hide Utf8;
    Utf8OfAscii("risc0.Assumptions");
  }

  lemma {:induction false} HaltDigestInTags(f: RoundFunction, journal: seq<byte>, log: seq<Assumption>)
    requires |journal| < MAX_BYTES
    ensures var list := ListDigest(HashWith(Syscall(f)), log);
            DigestBytes(HaltDigest(HashWith(Syscall(f)), journal, log))
            == Sha256(f, Sha256(f, OUTPUT) + (Sha256(f, journal) + DigestBytes(list)) + [2, 0])
  {
    hide Sha256, HashWith, Syscall, DigestBytes, OutputDigest, ListDigest;
    OutputIsDocumented(f, HashWith(Syscall(f))(journal), ListDigest(HashWith(Syscall(f)), log));
    GuestHash(f, journal);
  }

  /** The halt digest in terms of the journal bytes and the list digest; the tag is
      "risc0.Output". */
  lemma {:induction false} HaltDigestIsDocumented(f: RoundFunction, journal: seq<byte>, log: seq<Assumption>)
    requires |journal| < MAX_BYTES
    ensures var tag := [0x72, 0x69, 0x73, 0x63, 0x30, 0x2e, 0x4f, 0x75, 0x74, 0x70, 0x75, 0x74];
            var list := ListDigest(HashWith(Syscall(f)), log);
            DigestBytes(HaltDigest(HashWith(Syscall(f)), journal, log))
            == Sha256(f, Sha256(f, tag) + (Sha256(f, journal) + DigestBytes(list)) + [2, 0])
  {
    hide Sha256, HashWith, Syscall, DigestBytes, HaltDigest, ListDigest;
    OutputTag();
    HaltDigestInTags(f, journal, log);
  }

  /** The halt digest of a guest that verifies nothing, in terms of its journal bytes. */
  lemma {:induction false} PlainHaltDigest(f: RoundFunction, journal: seq<byte>)
    requires |journal| < MAX_BYTES
    ensures var tag := [0x72, 0x69, 0x73, 0x63, 0x30, 0x2e, 0x4f, 0x75, 0x74, 0x70, 0x75, 0x74];
            DigestBytes(HaltDigest(HashWith(Syscall(f)), journal, []))
            == Sha256(f, Sha256(f, tag) + (Sha256(f, journal) + Zeros(32)) + [2, 0])
  {
    hide Sha256, HashWith, Syscall, DigestBytes, HaltDigest;
    HaltDigestIsDocumented(f, journal, []);
    ZeroDigestBytes();
  }

  /** A tagged pair of digests. */
  lemma {:induction false} PairIsDocumented(f: RoundFunction, tag: seq<byte>, d: Digest, e: Digest)
    requires |tag| < MAX_BYTES
    ensures DigestBytes(TaggedStruct(HashWith(Syscall(f)), tag, [d, e], []))
         == Sha256(f, Sha256(f, tag) + (DigestBytes(d) + DigestBytes(e)) + [2, 0])
  {
    hide Preimage, Sha256, HashWith, Syscall, DigestBytes;
    var p := Parts(HashWith(Syscall(f))(tag), [d, e], []);
    PreimageLength(p);
    PreimageOfPair(p.tagDigest, d, e);
    GuestHash(f, tag);
    GuestHash(f, Preimage(p));
  }

  lemma {:induction false} ConsInTags(f: RoundFunction, a: Assumption, tail: Digest)
    ensures var head := Sha256(f, Sha256(f, ASSUMPTION) + (DigestBytes(a.claim) + DigestBytes(a.controlRoot)) + [2, 0]);
            DigestBytes(Cons(HashWith(Syscall(f)), a, tail))
            == Sha256(f, Sha256(f, ASSUMPTIONS) + (head + DigestBytes(tail)) + [2, 0])
  {
    hide Sha256, HashWith, Syscall, DigestBytes, TaggedStruct;
    TagsAreShort();
    PairIsDocumented(f, ASSUMPTION, a.claim, a.controlRoot);
    PairIsDocumented(f, ASSUMPTIONS, AssumptionDigest(HashWith(Syscall(f)), a), tail);
  }

  /** A list cell: the tags are "risc0.Assumption" for the entry and "risc0.Assumptions"
      for the cell; the entry comes before the rest of the list. */
  lemma {:induction false} ConsIsDocumented(f: RoundFunction, a: Assumption, tail: Digest)
    ensures var entryTag := [
              0x72, 0x69, 0x73, 0x63, 0x30, 0x2e, 0x41, 0x73, 0x73, 0x75, 0x6d, 0x70, 0x74, 0x69, 0x6f, 0x6e];
            var cellTag := [
              0x72, 0x69, 0x73, 0x63, 0x30, 0x2e, 0x41, 0x73, 0x73, 0x75, 0x6d, 0x70, 0x74, 0x69, 0x6f, 0x6e, 0x73];
            var head := Sha256(f, Sha256(f, entryTag) + (DigestBytes(a.claim) + DigestBytes(a.controlRoot)) + [2, 0]);
            DigestBytes(Cons(HashWith(Syscall(f)), a, tail))
            == Sha256(f, Sha256(f, cellTag) + (head + DigestBytes(tail)) + [2, 0])
  {
    hide Sha256, HashWith, Syscall, DigestBytes, Cons;
    hide Utf8;
    AssumptionTag();
    AssumptionsTag();
    ConsInTags(f, a, tail);
  }

  lemma {:induction false} PreimageOfPostState(t: Digest)
    ensures Preimage(Parts(t, [ZERO], [0])) == DigestBytes(t) + Zeros(32) + Zeros(4) + [1, 0]
  {
    PreimageBytes(Parts(t, [ZERO], [0]));
    CountOfOne();
    ZeroWords([0]);
    ZeroDigestBytes();
    assert DigestList([ZERO]) == DigestBytes(ZERO) by {
      hide DigestBytes;
      assert [ZERO][..0] == [] && DigestList([]) == [];
    }
    hide Preimage, EncodeAll, LE, DigestList, DigestBytes;
  }

  lemma {:induction false} PostStateInTags(f: RoundFunction)
    ensures DigestBytes(PostState(HashWith(Syscall(f))))
         == Sha256(f, Sha256(f, SYSTEM_STATE) + Zeros(32) + Zeros(4) + [1, 0])
  {
    hide Preimage, Sha256, HashWith, Syscall, DigestBytes;
    TagsAreShort();
    var p := Parts(HashWith(Syscall(f))(SYSTEM_STATE), [ZERO], [0]);
    PreimageLength(p);
    PreimageOfPostState(p.tagDigest);
    GuestHash(f, SYSTEM_STATE);
    GuestHash(f, Preimage(p));
  }

  lemma {:induction false} FourDigests(a: Digest, b: Digest, d: Digest, e: Digest)
    ensures DigestList([a, b, d, e]) == DigestBytes(a) + DigestBytes(b) + DigestBytes(d) + DigestBytes(e)
  {
    hide DigestBytes;
    assert [a, b, d, e][..3] == [a, b, d] && [a, b, d][..2] == [a, b];
    TwoDigests(a, b);
    assert DigestList([a, b, d]) == DigestList([a, b]) + DigestBytes(d);
  }

  lemma {:induction false} PreimageOfClaim(t: Digest, b: Digest, d: Digest, e: Digest)
    ensures Preimage(Parts(t, [ZERO, b, d, e], [0, 0]))
         == DigestBytes(t) + (Zeros(32) + DigestBytes(b) + DigestBytes(d) + DigestBytes(e)) + Zeros(8) + [4, 0]
  {
    PreimageBytes(Parts(t, [ZERO, b, d, e], [0, 0]));
    FourDigests(ZERO, b, d, e);
    CountOfFour();
    ZeroWords([0, 0]);
    ZeroDigestBytes();
    hide Preimage, EncodeAll, LE, DigestList, DigestBytes;
  }

  lemma {:induction false} ReceiptClaimInTags(f: RoundFunction, id: ImageID, output: Digest)
    ensures var post := DigestBytes(PostState(HashWith(Syscall(f))));
            DigestBytes(ReceiptClaim(HashWith(Syscall(f)), id, output))
            == Sha256(f, Sha256(f, RECEIPT_CLAIM) + (Zeros(32) + id + post + DigestBytes(output)) + Zeros(8) + [4, 0])
  {
    hide Preimage, Sha256, HashWith, Syscall, DigestBytes, PostState;
    TagsAreShort();
    var h := HashWith(Syscall(f));
    var p := Parts(h(RECEIPT_CLAIM), [ZERO, ImageWords(id), PostState(h), output], [0, 0]);
    PreimageLength(p);
    PreimageOfClaim(p.tagDigest, ImageWords(id), PostState(h), output);
    GuestHash(f, RECEIPT_CLAIM);
    GuestHash(f, Preimage(p));
  }

  /** The claim that Verify registers for a child, down to the bytes of its image ID and
      journal. The tags are "risc0.SystemState", "risc0.Output" and "risc0.ReceiptClaim";
      the claim holds no input, the image ID, the final state, the output and two zeros. */
  lemma {:induction false} ClaimIsDocumented(f: RoundFunction, child: Child)
    requires |child.journal| < MAX_BYTES
    ensures var stateTag := [
              0x72, 0x69, 0x73, 0x63, 0x30, 0x2e, 0x53, 0x79, 0x73, 0x74, 0x65, 0x6d, 0x53, 0x74, 0x61, 0x74, 0x65];
            var outputTag := [0x72, 0x69, 0x73, 0x63, 0x30, 0x2e, 0x4f, 0x75, 0x74, 0x70, 0x75, 0x74];
            var claimTag := [
              0x72, 0x69, 0x73, 0x63, 0x30, 0x2e,
              0x52, 0x65, 0x63, 0x65, 0x69, 0x70, 0x74, 0x43, 0x6c, 0x61, 0x69, 0x6d];
            var post := Sha256(f, Sha256(f, stateTag) + Zeros(32) + Zeros(4) + [1, 0]);
            var output := Sha256(f, Sha256(f, outputTag) + (Sha256(f, child.journal) + Zeros(32)) + [2, 0]);
            DigestBytes(ClaimDigest(HashWith(Syscall(f)), child))
            == Sha256(f, Sha256(f, claimTag) + (Zeros(32) + child.imageID + post + output) + Zeros(8) + [4, 0])
  {
    var h := HashWith(Syscall(f));
    hide Sha256, HashWith, Syscall, DigestBytes, PostState, ChildOutput, ReceiptClaim, ClaimDigest, HaltDigest;
    hide Utf8;
    SystemStateTag();
    OutputTag();
    ReceiptClaimTag();
    PostStateInTags(f);
    PlainHaltDigest(f, child.journal);
    PlainHalt(h, child.journal);
    ClaimIsReceipt(h, child);
    ReceiptClaimInTags(f, child.imageID, ChildOutput(h, child.journal));
  }

  lemma {:induction false} CountOfOne()
    ensures LE(1, 2) == [1, 0]
  {
    assert LE(0, 1) == [0];
  }

  lemma {:induction false} CountOfFour()
    ensures LE(4, 2) == [4, 0]
  {
    assert LE(0, 1) == [0];
  }

  lemma {:induction false} NoWords()
    ensures EncodeAll([], 4) == []
  {
  }

  lemma {:induction false} CountOfTwo()
    ensures LE(2, 2) == [2, 0]
  {
    assert LE(0, 1) == [0];
  }

  lemma {:induction false} TwoDigests(d: Digest, e: Digest)
    ensures DigestList([d, e]) == DigestBytes(d) + DigestBytes(e)
  {
    hide DigestBytes;
    assert [d, e][..1] == [d] && [d][..0] == [];
    assert DigestList([d]) == [] + DigestBytes(d);
  }

  lemma {:induction false} ZeroDigestBytes()
    ensures DigestBytes(ZERO) == Zeros(32)
  {
    ZeroWords(ZERO);
  }

  lemma {:induction false} ZeroWords(ws: seq<word>)
    requires forall i :: 0 <= i < |ws| ==> ws[i] == 0
    ensures EncodeAll(ws, 4) == Zeros(4 * |ws|)
  {
    if ws != [] {
      ZeroWords(ws[..|ws| - 1]);
      Bytes4(0);
    }
  }
}

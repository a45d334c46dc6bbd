/** The guest library: the running journal hasher, the one-shot hasher, tagged structs,
    Verify and the public guest API.

    `absorbed` and `children` are the specification of the hidden state: the bytes that
    the running hasher stands for, and the Verify calls that the assumption digest stands
    for. `Valid` says how the fields represent them, before and after lazy initialisation.
  */
module Guests {
  import opened Bytes
  import opened Sha
  import opened Tagged
  import opened Claims
  import opened Hosts
  import opened Text
  import Align

  /** A byte view of memory has at most 2^30 elements. */
  const MAX_SLICE: nat := 0x4000_0000

  lemma {:induction false} PaddedLengthIsPadding(n: nat) returns (blocks: nat)
    requires n + 9 <= MAX_SLICE
    ensures Align.ComputePaddedLength(n) == n + 9 + ZeroCount(n) == 64 * blocks
    ensures 1 <= blocks && 64 * blocks <= MAX_SLICE
  {
    hide Align.ComputePaddedLength;
    var q, r := (n + 9) / 64, (n + 9) % 64;
    assert n + 9 == 64 * q + r;
    blocks := if r == 0 then q else q + 1;
    Align.PaddedLengthValue(n, (n + 4) / 4, blocks);
  }

  lemma {:induction false} TrailerWord(bits: word, total: nat)
    requires bits == 8 * total % TWO32
    ensures BE(bits, 4) == BE(8 * total, 4)
  {
    assert Pow256(4) == TWO32 by { Pow256Values(); }
    ModUnique(bits, TWO32, 0, bits);
    BEEqual(bits, 8 * total, 4);
  }

  /** A word-aligned buffer holding `data`, the end marker, zeros and the bit count. The
      count is written as one word after reversing its bytes, so it reads big-endian. */
  method PadBuffer(data: seq<byte>, bits: word, ghost total: nat) returns (pad: array<byte>, ghost blocks: nat)
    requires |data| + 9 <= MAX_SLICE
    requires bits == 8 * total % TWO32
    ensures fresh(pad) && pad[..] == PaddedTail(data, total)
    ensures pad.Length == 64 * blocks && blocks >= 1
  {
    blocks := PaddedLengthIsPadding(|data|);
    TrailerWord(bits, total);
    var padLen := Align.ComputePaddedLength(|data|);
    hide Align.ComputePaddedLength, BE, LE, FromLE, ZeroCount, PaddedTail;
    var padWords := padLen / 4;
    assert padWords == 16 * blocks;
    var bitsTrailer := ReverseWord(bits);
    pad := new byte[padLen](i => if 0 <= i < |data| then data[i] else 0);
    pad[|data|] := 0x80;
    StoreWord(pad, padWords - 1, bitsTrailer);
    PadContents(pad[..], data, total);
  }

  /** Writes word `k` of a word-aligned buffer. */
  method StoreWord(buf: array<byte>, k: nat, w: word)
    requires 4 * k + 4 <= buf.Length
    modifies buf
    ensures buf[4 * k..4 * k + 4] == LE(w, 4)
    ensures forall i :: 0 <= i < buf.Length && !(4 * k <= i < 4 * k + 4) ==> buf[i] == old(buf[i])
  {
    hide LE;
    var b := LE(w, 4);
    buf[4 * k], buf[4 * k + 1], buf[4 * k + 2], buf[4 * k + 3] := b[0], b[1], b[2], b[3];
  }

  /** The word whose bytes are those of `w` in reverse. */
  method ReverseWord(w: word) returns (r: word)
    ensures LE(r, 4) == BE(w, 4)
  {
    var b := BE(w, 4);
    FromLEBound(b);
    FromLERoundTrip(b);
    assert Pow256(4) == TWO32 by { Pow256Values(); }
    r := FromLE(b);
  }

  lemma {:induction false} PadContents(p: seq<byte>, data: seq<byte>, total: nat)
    requires |p| == |data| + 9 + ZeroCount(|data|)
    requires forall i :: 0 <= i < |data| ==> p[i] == data[i]
    requires p[|data|] == 0x80
    requires forall i :: |data| < i < |p| - 4 ==> p[i] == 0
    requires p[|p| - 4..] == BE(8 * total, 4)
    ensures p == PaddedTail(data, total)
  {
    hide BE, ZeroCount;
    var q := PaddedTail(data, total);
    assert |q| == |p|;
    forall i | 0 <= i < |p|
      ensures p[i] == q[i]
    {
      if i >= |p| - 4 {
        assert p[i] == p[|p| - 4..][i - (|p| - 4)];
      }
    }
  }

  /** Appends words in little-endian order. */
  method AppendWords(bs: seq<byte>, words: seq<word>) returns (out: seq<byte>)
    ensures out == bs + EncodeAll(words, 4)
  {
    out := bs;
    hide LE;
    for i := 0 to |words|
      invariant out == bs + EncodeAll(words[..i], 4)
    {
      out := out + LE(words[i], 4);
      assert words[..i + 1] == words[..i] + [words[i]];
      EncodeAllSnoc(words[..i], words[i], 4);
    }
    assert words[..|words|] == words;
  }

  lemma {:induction false} NoDigestsWritten(tagDigest: Digest, digests: seq<Digest>)
    ensures [] + EncodeAll(tagDigest, 4) == EncodeAll(tagDigest + Flatten(digests[..0]), 4)
  {
    hide LE, EncodeAll;
    assert tagDigest + Flatten(digests[..0]) == tagDigest;
  }

  lemma {:induction false} DigestWritten(tagDigest: Digest, digests: seq<Digest>, i: nat)
    requires i < |digests|
    ensures EncodeAll(tagDigest + Flatten(digests[..i]), 4) + EncodeAll(digests[i], 4)
         == EncodeAll(tagDigest + Flatten(digests[..i + 1]), 4)
  {
    hide LE, EncodeAll, Flatten;
    assert digests[..i + 1] == digests[..i] + [digests[i]];
    FlattenSnoc(digests[..i], digests[i]);
    EncodeAllAppend(tagDigest + Flatten(digests[..i]), digests[i], 4);
    assert tagDigest + (Flatten(digests[..i]) + digests[i]) == tagDigest + Flatten(digests[..i]) + digests[i];
  }

  /** The bytes of a tagged struct, appended word by word. */
  method WritePreimage(tagDigest: Digest, digests: seq<Digest>, data: seq<word>) returns (allBytes: seq<byte>)
    ensures allBytes == Preimage(Parts(tagDigest, digests, data))
  {
    hide LE, EncodeAll, Flatten;
    allBytes := AppendWords([], tagDigest);
    NoDigestsWritten(tagDigest, digests);
    for i := 0 to |digests|
      invariant allBytes == EncodeAll(tagDigest + Flatten(digests[..i]), 4)
    {
      allBytes := AppendWords(allBytes, digests[i]);
      DigestWritten(tagDigest, digests, i);
    }
    assert digests[..|digests|] == digests;
    allBytes := AppendWords(allBytes, data);
    EncodeAllAppend(tagDigest + Flatten(digests), data, 4);
    allBytes := allBytes + LE(|digests|, 2);
  }

  /** digestWordsToBytes. */
  method DigestWordsToBytes(words: Digest) returns (digest: seq<byte>)
    ensures digest == DigestBytes(words)
  {
    digest := AppendWords([], words);
  }

  /** digestBytesToWords: the inverse of the above. */
  method DigestBytesToWords(digest: ImageID) returns (words: Digest)
    ensures words == ImageWords(digest) && DigestBytes(words) == digest
  {
    words := ZERO;
    hide LE, FromLE;
    assert Pow256(4) == TWO32 by { Pow256Values(); }
    for i := 0 to 8
      invariant EncodeAll(words[..i], 4) == digest[..4 * i]
    {
      var bs := digest[4 * i..4 * i + 4];
      FromLEBound(bs);
      FromLERoundTrip(bs);
      words := words[i := FromLE(bs)];
      assert words[..i + 1] == words[..i] + [words[i]];
      EncodeAllSnoc(words[..i], words[i], 4);
      assert digest[..4 * i + 4] == digest[..4 * i] + bs;
    }
    assert words[..8] == words && digest[..32] == digest;
    WordsInjective(words, ImageWords(digest));
  }

  /** Every compression call needed to hash the given messages is among `calls`. */
  ghost predicate Covered(c: Compressor, calls: set<Call>, messages: set<seq<byte>>) {
    forall m :: m in messages ==> HashCalls(c, IV, m) <= calls
  }

  lemma {:induction false} CoveredGrows(c: Compressor, calls: set<Call>, calls': set<Call>, messages: set<seq<byte>>)
    requires Covered(c, calls, messages) && calls <= calls'
    ensures Covered(c, calls', messages)
  {
    hide HashCalls;
  }

  lemma {:induction false} NothingAbsorbed(c: Compressor)
    ensures Tail([]) == [] && Blocks([]) == [] && Fold(c, IV, []) == IV && Calls(c, IV, []) == {}
    ensures ListDigest(HashWith(c), []) == ZERO && ListMessages(HashWith(c), []) == {}
    ensures LogOf(HashWith(c), []) == [] && AllClaimMessages(HashWith(c), []) == {}
  {
  }

  /** Absorbing whole blocks: the tail is used up and the fold continues. */
  lemma {:induction false} BlocksThenBlock(c: Compressor, done: seq<byte>, b: Block)
    requires Tail(done) == []
    ensures Tail(done + b) == []
    ensures Blocks(done + b) == Blocks(done) + [b]
    ensures Fold(c, IV, Blocks(done + b)) == c(Fold(c, IV, Blocks(done)), b)
    ensures Calls(c, IV, Blocks(done + b)) == Calls(c, IV, Blocks(done)) + {Call(Fold(c, IV, Blocks(done)), b)}
  {
    TailLength(done);
    hide Tail, Blocks, Fold, Calls;
    BlocksAppend(done, b);
    BlocksOfOne(b);
    FoldSnoc(c, IV, Blocks(done), b);
  }

  /** Bytes that do not complete a block only lengthen the tail. */
  lemma {:induction false} TailGrows(bs: seq<byte>, more: seq<byte>)
    requires |Tail(bs) + more| < 64
    ensures Tail(bs + more) == Tail(bs) + more && Blocks(bs + more) == Blocks(bs)
  {
    var full := BlocksOfFull(bs);
    assert bs + more == full + (Tail(bs) + more);
    BlocksAppend(full, Tail(bs) + more);
    assert Blocks(Tail(bs) + more) == [] && Tail(Tail(bs) + more) == Tail(bs) + more;
  }

  /** Bytes that fill the tail complete exactly one block. */
  lemma {:induction false} TailFills(c: Compressor, bs: seq<byte>, more: seq<byte>)
    requires |Tail(bs) + more| == 64
    ensures Tail(bs + more) == []
    ensures Fold(c, IV, Blocks(bs + more)) == c(Fold(c, IV, Blocks(bs)), Tail(bs) + more)
    ensures Calls(c, IV, Blocks(bs + more))
         == Calls(c, IV, Blocks(bs)) + {Call(Fold(c, IV, Blocks(bs)), Tail(bs) + more)}
  {
    var full := BlocksOfFull(bs);
    var b: Block := Tail(bs) + more;
    hide Tail, Blocks, Fold, Calls;
    assert bs + more == full + b;
    BlocksAppend(full, b);
    BlocksOfOne(b);
    FoldSnoc(c, IV, Blocks(full), b);
  }

  class Guest {
    const host: Host

    // The running journal hasher.
    var state: Digest
    const bufferData: array<byte>
    var bufferLen: nat
    var totalLen: dword
    var initialized: bool

    /** The running digest of the assumption list. */
    var assumptionsDigest: Digest

    /** A scratch block for the compression syscall, shared by all hashers. */
    const shaBlock: array<byte>

    /** The bytes that the running hasher stands for. */
    ghost var absorbed: seq<byte>
    /** The list that the assumption digest stands for, oldest first. */
    ghost var assumed: seq<Assumption>
    /** The successful Verify calls. */
    ghost var children: seq<Child>

    ghost function C(): Compressor { host.compress }

    ghost function H(): HashFunction { HashWith(host.compress) }

    ghost predicate Buffers() {
      bufferData.Length == 64 && shaBlock.Length == 64 && bufferData != shaBlock
    }

    /** The state and carry buffer represent `bytes`. */
    ghost predicate Holds(bytes: seq<byte>)
      reads `state, `bufferLen, bufferData, host`calls
    {
      && Buffers()
      && bufferLen == |Tail(bytes)| && bufferData[..bufferLen] == Tail(bytes)
      && state == Fold(C(), IV, Blocks(bytes))
      && Calls(C(), IV, Blocks(bytes)) <= host.calls
    }

    /** The running hasher stands for `bytes`; before initialisation, for nothing. */
    ghost predicate Absorbs(bytes: seq<byte>)
      reads `state, `bufferLen, `totalLen, `initialized, bufferData, host`calls
    {
      && totalLen == |bytes| % TWO64
      && (if initialized then Holds(bytes) else Buffers() && bytes == [] && bufferLen == 0)
    }

    ghost predicate Valid()
      reads `state, `bufferLen, `totalLen, `initialized, `assumptionsDigest, `absorbed, `assumed
      reads bufferData, host`calls
    {
      && Buffers()
      && Absorbs(absorbed)
      && assumptionsDigest == ListDigest(H(), assumed)
      && (!initialized ==> assumed == [])
      && Covered(C(), host.calls, ListMessages(H(), assumed))
    }

    /** Between API calls the hidden state mirrors what the host has seen. */
    ghost predicate Synced()
      reads this, bufferData, host`journal, host`log, host`calls
    {
      && Valid()
      && absorbed == host.journal
      && assumed == host.log == LogOf(H(), children)
      && Covered(C(), host.calls, AllClaimMessages(H(), children))
    }

    /** The zero-initialised globals of a fresh guest. */
    constructor (host: Host)
      requires host.journal == [] && host.log == []
      ensures this.host == host && Synced() && children == [] && !initialized
      ensures fresh(bufferData) && fresh(shaBlock)
    {
      hide Fold, Calls, Blocks, Tail, ListDigest, ListMessages, HashWith, HashCalls, LogOf, AllClaimMessages;
      NothingAbsorbed(host.compress);
      this.host := host;
      state, bufferLen, totalLen, initialized, assumptionsDigest := ZERO, 0, 0, false, ZERO;
      bufferData, shaBlock := new byte[64](_ => 0), new byte[64](_ => 0);
      absorbed, assumed, children := [], [], [];
    }

    /** Hashing elsewhere does not disturb the running hasher. */
    twostate lemma StaysAbsorbed()
      requires old(Absorbs(absorbed)) && absorbed == old(absorbed) && old(host.calls) <= host.calls
      requires unchanged(this`state, this`bufferLen, this`totalLen, this`initialized, bufferData)
      ensures Absorbs(absorbed)
    {
      hide Fold, Calls, Blocks, Tail;
    }

    /** Hashing elsewhere does not disturb the hidden state. */
    twostate lemma StaysValid()
      requires old(Valid()) && unchanged(this, bufferData) && old(host.calls) <= host.calls
      ensures Valid()
    {
      hide Absorbs, ListDigest, ListMessages, HashWith, Covered;
      StaysAbsorbed();
      CoveredGrows(C(), old(host.calls), host.calls, ListMessages(H(), assumed));
    }

    twostate lemma StaysCovered()
      requires unchanged(this`children) && old(host.calls) <= host.calls
      ensures old(Covered(C(), host.calls, AllClaimMessages(H(), children)))
          ==> Covered(C(), host.calls, AllClaimMessages(H(), children))
    {
      hide AllClaimMessages, HashWith;
      if old(Covered(C(), host.calls, AllClaimMessages(H(), children))) {
        CoveredGrows(C(), old(host.calls), host.calls, AllClaimMessages(H(), children));
      }
    }

    method InitProperHasher()
      requires Valid() && !initialized
      modifies this`state, this`bufferLen, this`totalLen, this`assumptionsDigest, this`initialized
      ensures Valid() && initialized
    {
      hide Fold, Calls, Blocks, Tail, ListDigest, ListMessages, HashWith, HashCalls;
      NothingAbsorbed(C());
      for i := 0 to 8
        modifies this`state
        invariant forall k :: 0 <= k < i ==> state[k] == IV[k]
      {
        state := state[i := IV[i]];
      }
      assert state == IV;
      bufferLen := 0;
      totalLen := 0;
      for i := 0 to 8
        modifies this`assumptionsDigest
        invariant forall k :: 0 <= k < i ==> assumptionsDigest[k] == 0
      {
        assumptionsDigest := assumptionsDigest[i := 0];
      }
      assert assumptionsDigest == ZERO;
      initialized := true;
    }

    /** Copies a block into the word-aligned scratch block. */
    method LoadBlock(block: Block)
      requires Buffers()
      modifies shaBlock
      ensures shaBlock[..] == block
    {
      for i := 0 to BLOCK_SIZE
        invariant shaBlock[..i] == block[..i]
      {
        shaBlock[i] := block[i];
      }
    }

    /** Compresses one block into the running state, through the scratch block. */
    method ProcessBlock(block: Block)
      requires Buffers()
      modifies this`state, shaBlock, host`calls
      ensures state == C()(old(state), block)
      ensures host.calls == old(host.calls) + {Call(old(state), block)}
    {
      LoadBlock(block);
      assert shaBlock[..32] + shaBlock[32..] == shaBlock[..];
      var outState := host.SysShaCompress(state, shaBlock[..32], shaBlock[32..]);
      for i := 0 to 8
        modifies this`state
        invariant forall k :: 0 <= k < i ==> state[k] == outState[k]
      {
        state := state[i := outState[i]];
      }
      assert state == outState;
    }

    /** Tops the carry buffer up to a full block and compresses it. */
    method TopUp(data: seq<byte>, ghost done: seq<byte>) returns (rest: seq<byte>, ghost taken: seq<byte>)
      requires Holds(done) && bufferLen > 0
      modifies this`state, this`bufferLen, bufferData, shaBlock, host`calls
      ensures Holds(done + taken) && data == taken + rest
      ensures rest == [] || Tail(done + taken) == []
      ensures old(host.calls) <= host.calls
    {
      hide Fold, Calls, Blocks, Tail;
      rest := data;
      var need := BLOCK_SIZE - bufferLen;
      if need > |rest| {
        need := |rest|;
      }
      taken := rest[..need];
      if need > 0 {
        forall i | 0 <= i < need {
          bufferData[bufferLen + i] := rest[i];
        }
        bufferLen := bufferLen + need;
        rest := rest[need..];
      }
      assert bufferData[..bufferLen] == Tail(done) + taken;
      if bufferLen == BLOCK_SIZE {
        TailFills(C(), done, taken);
        assert bufferData[..] == bufferData[..bufferLen];
        ProcessBlock(bufferData[..]);
        bufferLen := 0;
      } else {
        TailGrows(done, taken);
      }
    }

    /** Compresses whole blocks straight from the input. A block that is not word-aligned
        in memory goes through the carry buffer; either may happen at any iteration. */
    method AbsorbBlocks(data: seq<byte>, ghost done: seq<byte>) returns (rest: seq<byte>, ghost taken: seq<byte>)
      requires Holds(done) && (data == [] || Tail(done) == [])
      modifies this`state, bufferData, shaBlock, host`calls
      ensures Holds(done + taken) && data == taken + rest && |rest| < 64
      ensures rest == [] || Tail(done + taken) == []
      ensures old(host.calls) <= host.calls
    {
      hide Fold, Calls, Blocks, Tail;
      rest, taken := data, [];
      assert done + taken == done;
      while |rest| >= BLOCK_SIZE
        invariant Holds(done + taken) && data == taken + rest
        invariant data == [] || Tail(done + taken) == []
        invariant old(host.calls) <= host.calls
      {
        var unaligned: bool := *;
        var block := rest[..BLOCK_SIZE];
        BlocksThenBlock(C(), done + taken, block);
        assert done + (taken + block) == (done + taken) + block;
        if unaligned {
          forall i | 0 <= i < BLOCK_SIZE {
            bufferData[i] := rest[i];
          }
          assert bufferData[..] == block;
          ProcessBlock(bufferData[..]);
        } else {
          ProcessBlock(block);
        }
        taken, rest := taken + block, rest[BLOCK_SIZE..];
      }
    }

    /** Keeps the bytes that do not fill a block for the next call. */
    method BufferTail(rest: seq<byte>, ghost done: seq<byte>)
      requires Holds(done) && |rest| < 64 && (rest == [] || Tail(done) == [])
      modifies this`bufferLen, bufferData
      ensures Holds(done + rest)
    {
      hide Fold, Calls, Blocks, Tail;
      if |rest| > 0 {
        forall i | 0 <= i < |rest| {
          bufferData[i] := rest[i];
        }
        bufferLen := |rest|;
        assert bufferData[..bufferLen] == rest == Tail(done) + rest;
        TailGrows(done, rest);
      } else {
        assert done + rest == done;
      }
    }

    /** The three phases of an update. */
    method Absorb(data: seq<byte>, ghost done: seq<byte>)
      requires Holds(done)
      modifies this`state, this`bufferLen, bufferData, shaBlock, host`calls
      ensures Holds(done + data) && old(host.calls) <= host.calls
    {
      hide Fold, Calls, Blocks, Tail;
      ghost var top, whole := [], [];
      var rest := data;
      assert done + top == done;
      if bufferLen > 0 {
        rest, top := TopUp(rest, done);
      }
      rest, whole := AbsorbBlocks(rest, done + top);
      BufferTail(rest, done + top + whole);
      assert done + top + whole + rest == done + data;
    }

    /** UpdateProperHasher: for any split of the input into calls and any alignment, the
        hasher stands for all bytes so far. */
    method UpdateProperHasher(data: seq<byte>)
      requires Valid()
      modifies this, bufferData, shaBlock, host`calls
      ensures Valid() && initialized
      ensures absorbed == old(absorbed) + data
      ensures assumed == old(assumed) && children == old(children)
      ensures old(host.calls) <= host.calls
    {
      hide Fold, Calls, Blocks, Tail, ListDigest, ListMessages, HashWith, Covered;
      if !initialized {
        InitProperHasher();
      }
      AddMod(|absorbed|, |data|, TWO64);
      totalLen := (totalLen + |data|) % TWO64;
      Absorb(data, absorbed);
      absorbed := absorbed + data;
      CoveredGrows(C(), old(host.calls), host.calls, ListMessages(H(), assumed));
    }

    /** shaBuffer: pads the whole message and compresses block by block through the
        scratch block. The result does not depend on what the scratch block held. */
    method ShaBuffer(initialState: Digest, bytes: seq<byte>) returns (outState: Digest)
      requires Buffers() && |bytes| + 9 <= MAX_SLICE
      modifies shaBlock, host`calls
      ensures outState == Hash(C(), initialState, bytes)
      ensures host.calls == old(host.calls) + HashCalls(C(), initialState, bytes)
    {
      var bits: word := 8 * |bytes| % 0x1_0000_0000;
      ghost var blocks;
      var pad;
      pad, blocks := PadBuffer(bytes, bits, |bytes|);
      HashUnfolds(C(), initialState, bytes);
      hide PaddedTail, Fold, Calls, Blocks, Hash, HashCalls;
      outState := CompressBlocks(initialState, pad[..], pad.Length / 64);
    }

    /** The block loop of shaBuffer. */
    method CompressBlocks(initialState: Digest, padded: seq<byte>, blocks: nat) returns (outState: Digest)
      requires Buffers() && |padded| == 64 * blocks && blocks >= 1
      modifies shaBlock, host`calls
      ensures outState == Fold(C(), initialState, Blocks(padded))
      ensures host.calls == old(host.calls) + Calls(C(), initialState, Blocks(padded))
    {
      var inState := initialState;
      outState := ZERO;
      HashStart(C(), initialState, padded);
      hide Fold, Calls, Blocks;
      for i := 0 to blocks
        modifies shaBlock, host`calls
        invariant inState == Fold(C(), initialState, Blocks(padded[..64 * i]))
        invariant i > 0 ==> outState == inState
        invariant host.calls == old(host.calls) + Calls(C(), initialState, Blocks(padded[..64 * i]))
      {
        HashStep(C(), initialState, padded, i);
        LoadBlock(padded[64 * i..64 * i + 64]);
        assert shaBlock[..32] + shaBlock[32..] == shaBlock[..];
        outState := host.SysShaCompress(inState, shaBlock[..32], shaBlock[32..]);
        inState := outState;
      }
      assert padded[..64 * blocks] == padded;
    }

    /** taggedStructWithData. */
    method TaggedStructWithData(tag: seq<byte>, digests: seq<Digest>, data: seq<word>) returns (digest: Digest)
      requires Buffers()
      requires |tag| + 9 <= MAX_SLICE && 34 + 32 * |digests| + 4 * |data| + 9 <= MAX_SLICE
      modifies shaBlock, host`calls
      ensures digest == TaggedStruct(H(), tag, digests, data)
      ensures old(host.calls) <= host.calls
      ensures Covered(C(), host.calls, TaggedMessages(H(), tag, digests, data))
    {
      hide Hash, HashCalls, Preimage;
      var tagDigest := ShaBuffer(IV, tag);
      var allBytes := WritePreimage(tagDigest, digests, data);
      PreimageLength(Parts(tagDigest, digests, data));
      digest := ShaBuffer(IV, allBytes);
    }

    /** FinalizeProperHasher: the output digest of everything committed and verified so
        far. It leaves the hidden state as it was. */
    method FinalizeProperHasher() returns (outputDigest: Digest)
      requires Valid()
      modifies this`state, this`bufferLen, this`totalLen, this`assumptionsDigest, this`initialized
      modifies shaBlock, host`calls
      ensures Valid() && initialized
      ensures old(initialized) ==> unchanged(this)
      ensures old(Synced()) ==> Synced()
      ensures outputDigest == HaltDigest(H(), absorbed, assumed)
      ensures old(host.calls) <= host.calls
      ensures Covered(C(), host.calls, OutputMessages(H(), absorbed, ListDigest(H(), assumed)))
    {
      hide Valid, HaltDigest, OutputMessages, Covered, HashWith, LogOf, AllClaimMessages, ListDigest;
      if !initialized {
        InitProperHasher();
      }
      outputDigest := FinishOutput();
      StaysCovered();
    }

    /** Everything after initialisation: no field of the hasher is written. */
    method FinishOutput() returns (outputDigest: Digest)
      requires Valid() && initialized
      modifies shaBlock, host`calls
      ensures Valid()
      ensures outputDigest == HaltDigest(H(), absorbed, assumed)
      ensures old(host.calls) <= host.calls
      ensures Covered(C(), host.calls, OutputMessages(H(), absorbed, ListDigest(H(), assumed)))
    {
      TagsAreShort();
      FinalOutput(C(), absorbed, assumed);
      assert Buffers();
      hide HaltDigest, ListDigest, ListMessages, Holds, Hash, HashCalls, Covered, HashWith, TaggedStruct, TaggedMessages;
      var journalDigest := FinishJournal();
      outputDigest := TaggedStructWithData(OUTPUT, [journalDigest, assumptionsDigest], []);
      StaysValid();
      OutputCovered(C(), absorbed, assumed, host.calls);
    }

    /** Pads the carry buffer with the total bit count and hashes the last blocks. */
    method FinishJournal() returns (journalDigest: Digest)
      requires Absorbs(absorbed) && initialized
      modifies host`calls
      ensures journalDigest == Hash(C(), IV, absorbed)
      ensures old(host.calls) <= host.calls && HashCalls(C(), IV, absorbed) <= host.calls
    {
      var finalState := state;
      var remaining := bufferData[..bufferLen];
      var bits: word := totalLen * 8 % 0x1_0000_0000_0000_0000 % 0x1_0000_0000;
      BitCount(|absorbed|);
      HashFromTail(C(), IV, absorbed);
      PaddedIsWhole(Tail(absorbed), |absorbed|);
      hide PaddedTail, Fold, Calls, Blocks, Tail, Hash, HashCalls;
      ghost var blocks;
      var pad;
      pad, blocks := PadBuffer(remaining, bits, |absorbed|);
      var padWords := pad.Length / 4;
      if padWords > 0 {
        journalDigest := host.SysShaBuffer(finalState, pad[..], padWords / 16);
      } else {
        journalDigest := finalState;
      }
    }

    /** SumSHA256: a plain digest, independent of the running hasher. */
    method SumSHA256(data: seq<byte>) returns (digest: seq<byte>)
      requires Valid() && |data| + 9 <= MAX_SLICE
      modifies shaBlock, host`calls
      ensures Valid() && old(host.calls) <= host.calls
      ensures old(Synced()) ==> Synced()
      ensures digest == DigestBytes(Hash(C(), IV, data))
    {
      hide Hash, HashCalls, ListDigest, ListMessages, DigestBytes, Holds;
      assert Buffers();
      var words := ShaBuffer(IV, data);
      digest := DigestWordsToBytes(words);
      StaysValid();
      StaysCovered();
    }

    /** The list cell for one assumption in front of a list digest (taggedListCons). */
    method ConsDigest(a: Assumption, tail: Digest) returns (list: Digest)
      requires Buffers()
      modifies shaBlock, host`calls
      ensures list == Cons(H(), a, tail)
      ensures old(host.calls) <= host.calls && Covered(C(), host.calls, ConsMessages(H(), a, tail))
    {
      TagsAreShort();
      ConsUnfolds(C(), a, tail);
      hide HashCalls, Covered, HashWith, TaggedStruct, TaggedMessages, ConsMessages, Cons;
      var head := TaggedStructWithData(ASSUMPTION, [a.claim, a.controlRoot], []);
      ghost var calls := host.calls;
      list := TaggedStructWithData(ASSUMPTIONS, [head, tail], []);
      CoveredGrows(C(), calls, host.calls, TaggedMessages(H(), ASSUMPTION, [a.claim, a.controlRoot], []));
      CoveredUnion(C(), host.calls, TaggedMessages(H(), ASSUMPTION, [a.claim, a.controlRoot], []),
        TaggedMessages(H(), ASSUMPTIONS, [head, tail], []));
    }

    /** addAssumptionDigest: conses one entry onto the running list. */
    method AddAssumptionDigest(claimDigest: Digest, controlRoot: Digest)
      requires Valid() && initialized
      modifies this`assumptionsDigest, this`assumed, shaBlock, host`calls
      ensures Valid() && assumed == old(assumed) + [Assumption(claimDigest, controlRoot)]
      ensures old(host.calls) <= host.calls
    {
      ListSnoc(H(), assumed, Assumption(claimDigest, controlRoot));
      hide Absorbs, ListDigest, ListMessages, HashWith, Covered, ConsMessages, Cons;
      var list := ConsDigest(Assumption(claimDigest, controlRoot), assumptionsDigest);
      CoveredGrows(C(), old(host.calls), host.calls, ListMessages(H(), assumed));
      CoveredUnion(C(), host.calls, ListMessages(H(), assumed),
        ConsMessages(H(), Assumption(claimDigest, controlRoot), assumptionsDigest));
      assumptionsDigest := list;
      assumed := assumed + [Assumption(claimDigest, controlRoot)];
      StaysAbsorbed();
    }

    /** Steps 1 and 3 of Verify: the output digest of a child with this journal. */
    method ChildOutputOf(journal: seq<byte>) returns (outputDigest: Digest)
      requires Buffers() && |journal| + 9 <= MAX_SLICE
      modifies shaBlock, host`calls
      ensures outputDigest == ChildOutput(H(), journal)
      ensures old(host.calls) <= host.calls && Covered(C(), host.calls, OutputMessages(H(), journal, ZERO))
    {
      TagsAreShort();
      FinalOutput(C(), journal, []);
      hide HashCalls, Hash, HashWith, Covered, TaggedStruct, TaggedMessages, OutputMessages;
      var journalDigest := ShaBuffer(IV, journal);
      outputDigest := TaggedStructWithData(OUTPUT, [journalDigest, ZERO], []);
      OutputCovered(C(), journal, [], host.calls);
    }

    /** Steps 1 to 4 of Verify: the claim that the child image halted with code 0 after
        committing this journal and assuming nothing. */
    method ClaimOf(imageID: ImageID, journal: seq<byte>) returns (claimDigest: Digest)
      requires Buffers() && |journal| + 9 <= MAX_SLICE
      modifies shaBlock, host`calls
      ensures claimDigest == ClaimDigest(H(), Child(imageID, journal))
      ensures old(host.calls) <= host.calls
      ensures Covered(C(), host.calls, ClaimMessages(H(), Child(imageID, journal)))
    {
      TagsAreShort();
      ClaimUnfolds(C(), Child(imageID, journal));
      hide HashWith, Covered, TaggedStruct, TaggedMessages, OutputMessages;
      hide ClaimDigest, PostState, ChildOutput, ImageWords, DigestBytes, ClaimMessages;
      var imageIDWords := DigestBytesToWords(imageID);
      var postStateDigest := TaggedStructWithData(SYSTEM_STATE, [ZERO], [0]);
      ghost var calls1 := host.calls;
      var outputDigest := ChildOutputOf(journal);
      ghost var calls2 := host.calls;
      claimDigest := TaggedStructWithData(
        RECEIPT_CLAIM, [ZERO, imageIDWords, postStateDigest, outputDigest], [0, 0]);
      ClaimCovered(C(), Child(imageID, journal), calls1, calls2, host.calls);
    }

    /** Verify: registers the claim of a child with the host and conses it onto the list;
        when the host has no receipt for it, the run ends. */
    method Verify(imageID: ImageID, journal: seq<byte>)
      requires Synced() && host.status.Running? && |journal| + 9 <= MAX_SLICE
      modifies this`state, this`bufferLen, this`totalLen, this`assumptionsDigest, this`initialized
      modifies this`assumed, this`children, shaBlock, host`calls, host`log, host`status
      ensures Synced() && old(host.calls) <= host.calls
      ensures var child := Child(imageID, journal);
              if (ClaimDigest(H(), child), ZERO) in host.receipts
              then children == old(children) + [child] && host.status.Running?
                   && host.log == old(host.log) + [Assumption(ClaimDigest(H(), child), ZERO)]
              else children == old(children) && host.status.Stopped?
    {
      ghost var child := Child(imageID, journal);
      LogExtends(C(), children, child);
      hide Valid, Covered, HashWith, ClaimDigest, ClaimMessages, LogOf, AllClaimMessages;
      if !initialized {
        InitProperHasher();
      }
      assert Buffers() by { BuffersExist(); }
      label hashing:
      var claimDigest := ClaimOf(imageID, journal);
      StaysValid@hashing();
      ghost var calls := host.calls;
      host.SysVerifyIntegrity(claimDigest, ZERO);
      CoveredGrows(C(), old(host.calls), calls, AllClaimMessages(H(), children));
      if !host.status.Running? {
        return;
      }
      AddAssumptionDigest(claimDigest, ZERO);
      CoveredUnion(C(), calls, AllClaimMessages(H(), children), ClaimMessages(H(), child));
      CoveredGrows(C(), calls, host.calls, AllClaimMessages(H(), children) + ClaimMessages(H(), child));
      children := children + [child];
    }

    /** Commit: writes to the journal and feeds the same bytes to the running hasher. */
    method Commit(buf: seq<byte>)
      requires Synced() && host.status.Running?
      modifies this, bufferData, shaBlock, host`calls, host`stdout, host`stderr, host`journal
      ensures Synced() && old(host.calls) <= host.calls
      ensures host.journal == old(host.journal) + buf
      ensures children == old(children) && host.stdout == old(host.stdout) && host.stderr == old(host.stderr)
    {
      if |buf| > 0 {
        CommitValue(buf);
      }
    }

    /** CommitValue: the memory image of a value, committed without a length test. */
    method CommitValue(image: seq<byte>)
      requires Synced() && host.status.Running?
      modifies this, bufferData, shaBlock, host`calls, host`stdout, host`stderr, host`journal
      ensures Synced() && old(host.calls) <= host.calls
      ensures host.journal == old(host.journal) + image
      ensures children == old(children) && host.stdout == old(host.stdout) && host.stderr == old(host.stderr)
    {
      hide Valid, Covered, HashWith, LogOf, AllClaimMessages;
      host.SysWrite(3, image);
      UpdateProperHasher(image);
      CoveredGrows(C(), old(host.calls), host.calls, AllClaimMessages(H(), children));
    }

    /** Read: fills caller memory from stdin. */
    method Read(buf: array<byte>)
      requires host.status.Running? && buf.Length <= |host.stdin|
      requires buf != bufferData && buf != shaBlock
      modifies buf, host`stdin
      ensures buf[..] == old(host.stdin)[..buf.Length] && host.stdin == old(host.stdin)[buf.Length..]
    {
      if buf.Length > 0 {
        var bs := host.SysRead(buf.Length);
        forall i | 0 <= i < buf.Length {
          buf[i] := bs[i];
        }
      }
    }

    /** ReadValue: the memory image of a value of the given size. */
    method ReadValue(size: nat) returns (image: seq<byte>)
      requires host.status.Running? && size <= |host.stdin|
      modifies host`stdin
      ensures image == old(host.stdin)[..size] && host.stdin == old(host.stdin)[size..]
    {
      image := host.SysRead(size);
    }

    /** Write and WriteStderr: private output, which the digests never see. */
    method Write(buf: seq<byte>)
      requires host.status.Running?
      modifies host`stdout, host`stderr, host`journal
      ensures host.stdout == old(host.stdout) + buf
      ensures host.stderr == old(host.stderr) && host.journal == old(host.journal)
      ensures old(Synced()) ==> Synced()
    {
      hide Valid, Covered, LogOf, AllClaimMessages;
      if |buf| > 0 {
        host.SysWrite(1, buf);
      }
    }

    method WriteStderr(buf: seq<byte>)
      requires host.status.Running?
      modifies host`stdout, host`stderr, host`journal
      ensures host.stderr == old(host.stderr) + buf
      ensures host.stdout == old(host.stdout) && host.journal == old(host.journal)
      ensures old(Synced()) ==> Synced()
    {
      hide Valid, Covered, LogOf, AllClaimMessages;
      if |buf| > 0 {
        host.SysWrite(2, buf);
      }
    }

    /** Halt: the output digest of the whole run goes to sys_halt. */
    method Halt(exitCode: byte)
      requires Synced() && host.status.Running?
      modifies this`state, this`bufferLen, this`totalLen, this`assumptionsDigest, this`initialized
      modifies shaBlock, host`calls, host`status
      ensures Synced() && old(host.calls) <= host.calls
      ensures host.status == Halted(exitCode, HaltDigest(H(), host.journal, LogOf(H(), children)))
      ensures Covered(C(), host.calls, HaltMessages(H(), host.journal, children))
    {
      hide Valid, Covered, HashWith, HaltDigest, HaltMessages, ListDigest, ListMessages, LogOf, AllClaimMessages, OutputMessages;
      var outputDigest := FinalizeProperHasher();
      assert Covered(C(), host.calls, ListMessages(H(), assumed)) by { ListIsCovered(); }
      CoveredGrows(C(), old(host.calls), host.calls, AllClaimMessages(H(), children));
      HaltCovered(C(), absorbed, children, host.calls);
      host.SysHalt(exitCode, outputDigest);
    }

    lemma {:induction false} BuffersExist()
      requires Valid()
      ensures Buffers()
    {
    }

    lemma {:induction false} ListIsCovered()
      requires Valid()
      ensures Covered(C(), host.calls, ListMessages(H(), assumed))
    {
    }
  }

  lemma {:induction false} HaltCovered(c: Compressor, journal: seq<byte>, children: seq<Child>, calls: set<Call>)
    requires var h := HashWith(c);
             && Covered(c, calls, OutputMessages(h, journal, ListDigest(h, LogOf(h, children))))
             && Covered(c, calls, ListMessages(h, LogOf(h, children)))
             && Covered(c, calls, AllClaimMessages(h, children))
    ensures Covered(c, calls, HaltMessages(HashWith(c), journal, children))
  {
    hide Covered, HashWith, OutputMessages, ListDigest, ListMessages, LogOf, AllClaimMessages;
    var h := HashWith(c);
    var output, list := OutputMessages(h, journal, ListDigest(h, LogOf(h, children))), ListMessages(h, LogOf(h, children));
    CoveredUnion(c, calls, output, list);
    CoveredUnion(c, calls, output + list, AllClaimMessages(h, children));
  }

  lemma {:induction false} LogExtends(c: Compressor, children: seq<Child>, child: Child)
    ensures var h := HashWith(c);
            && LogOf(h, children + [child]) == LogOf(h, children) + [Assumption(ClaimDigest(h, child), ZERO)]
            && AllClaimMessages(h, children + [child]) == AllClaimMessages(h, children) + ClaimMessages(h, child)
  {
    hide ClaimDigest, ClaimMessages;
    assert (children + [child])[..|children + [child]| - 1] == children;
  }

  lemma {:induction false} CoveredUnion(c: Compressor, calls: set<Call>, a: set<seq<byte>>, b: set<seq<byte>>)
    requires Covered(c, calls, a) && Covered(c, calls, b)
    ensures Covered(c, calls, a + b)
  {
    hide HashCalls;
  }

  lemma {:induction false} ConsUnfolds(c: Compressor, a: Assumption, tail: Digest)
    ensures var h := HashWith(c);
            var head := TaggedStruct(h, ASSUMPTION, [a.claim, a.controlRoot], []);
            && Cons(h, a, tail) == TaggedStruct(h, ASSUMPTIONS, [head, tail], [])
            && ConsMessages(h, a, tail)
               == TaggedMessages(h, ASSUMPTION, [a.claim, a.controlRoot], [])
                + TaggedMessages(h, ASSUMPTIONS, [head, tail], [])
  {
    hide TaggedStruct, TaggedMessages;
  }

  lemma {:induction false} ClaimUnfolds(c: Compressor, child: Child)
    ensures var h := HashWith(c);
            && PostState(h) == TaggedStruct(h, SYSTEM_STATE, [ZERO], [0])
            && ClaimDigest(h, child) == TaggedStruct(h, RECEIPT_CLAIM,
                 [ZERO, ImageWords(child.imageID), PostState(h), ChildOutput(h, child.journal)], [0, 0])
  {
    hide TaggedStruct, Hash;
  }

  lemma {:induction false} HashUnfolds(c: Compressor, s: Digest, m: seq<byte>)
    ensures Hash(c, s, m) == Fold(c, s, Blocks(PaddedTail(m, |m|)))
    ensures HashCalls(c, s, m) == Calls(c, s, Blocks(PaddedTail(m, |m|)))
  {
    hide Fold, Calls, Blocks, PadFor;
  }

  lemma {:induction false} ClaimCovered(
      c: Compressor, child: Child, calls1: set<Call>, calls2: set<Call>, calls: set<Call>)
    requires calls1 <= calls2 <= calls
    requires var h := HashWith(c);
             && Covered(c, calls1, TaggedMessages(h, SYSTEM_STATE, [ZERO], [0]))
             && Covered(c, calls2, OutputMessages(h, child.journal, ZERO))
             && Covered(c, calls, TaggedMessages(h, RECEIPT_CLAIM,
                  [ZERO, ImageWords(child.imageID), PostState(h), ChildOutput(h, child.journal)], [0, 0]))
    ensures Covered(c, calls, ClaimMessages(HashWith(c), child))
  {
    var h := HashWith(c);
    hide TaggedMessages, Covered, OutputMessages, HashWith, PostState, ChildOutput, ImageWords;
    CoveredGrows(c, calls1, calls, TaggedMessages(h, SYSTEM_STATE, [ZERO], [0]));
    CoveredGrows(c, calls2, calls, OutputMessages(h, child.journal, ZERO));
    CoveredUnion(c, calls, OutputMessages(h, child.journal, ZERO), TaggedMessages(h, SYSTEM_STATE, [ZERO], [0]));
    CoveredUnion(c, calls,
      OutputMessages(h, child.journal, ZERO) + TaggedMessages(h, SYSTEM_STATE, [ZERO], [0]),
      TaggedMessages(h, RECEIPT_CLAIM,
        [ZERO, ImageWords(child.imageID), PostState(h), ChildOutput(h, child.journal)], [0, 0]));
  }

  lemma {:induction false} FinalOutput(c: Compressor, journal: seq<byte>, log: seq<Assumption>)
    ensures var h := HashWith(c);
            HaltDigest(h, journal, log) == TaggedStruct(h, OUTPUT, [Hash(c, IV, journal), ListDigest(h, log)], [])
  {
    hide TaggedStruct, ListDigest, Hash;
  }

  lemma {:induction false} OutputCovered(c: Compressor, journal: seq<byte>, log: seq<Assumption>, calls: set<Call>)
    requires HashCalls(c, IV, journal) <= calls
    requires var h := HashWith(c);
             Covered(c, calls, TaggedMessages(h, OUTPUT, [Hash(c, IV, journal), ListDigest(h, log)], []))
    ensures Covered(c, calls, OutputMessages(HashWith(c), journal, ListDigest(HashWith(c), log)))
  {
    hide TaggedMessages, ListDigest, Hash, HashCalls;
  }

  /** The 64-bit counter and the 32-bit trailer keep the low bits of the bit count. */
  lemma {:induction false} BitCount(total: nat)
    ensures total % TWO64 * 8 % TWO64 % TWO32 == 8 * total % TWO32
  {
    var q, r := total / TWO64, total % TWO64;
    var p := r * 8 / TWO64;
    var s := r * 8 % TWO64;
    assert total == TWO64 * q + r && r * 8 == TWO64 * p + s;
    assert 8 * total == TWO32 * (TWO32 * (8 * q + p) + s / TWO32) + s % TWO32;
    ModUnique(8 * total, TWO32, TWO32 * (8 * q + p) + s / TWO32, s % TWO32);
  }

  lemma {:induction false} HashStart(c: Compressor, s: Digest, padded: seq<byte>)
    ensures padded[..0] == [] && Fold(c, s, Blocks([])) == s && Calls(c, s, Blocks([])) == {}
  {
  }

  lemma {:induction false} HashStep(c: Compressor, s: Digest, padded: seq<byte>, i: nat)
    requires 64 * i + 64 <= |padded|
    ensures var done, block := padded[..64 * i], padded[64 * i..64 * i + 64];
            && Fold(c, s, Blocks(padded[..64 * i + 64])) == c(Fold(c, s, Blocks(done)), block)
            && Calls(c, s, Blocks(padded[..64 * i + 64]))
            == Calls(c, s, Blocks(done)) + {Call(Fold(c, s, Blocks(done)), block)}
  {
    var done, block := padded[..64 * i], padded[64 * i..64 * i + 64];
    hide Fold, Calls, Blocks;
    assert padded[..64 * i + 64] == done + block;
    BlocksAppend(done, block);
    BlocksOfOne(block);
    FoldSnoc(c, s, Blocks(done), block);
  }
}

/** Tagged structs: the digest of a tag, a list of digests, trailing words and a count.

    The count is written in 16 bits, so it is exact only below 65536 digests.
  */
module Tagged {
  import opened Bytes
  import opened Sha
  import opened Wrappers

  const MAX_DIGESTS: nat := 0x1_0000

  /** What a tagged struct hashes, apart from the count. */
  datatype Parts = Parts(tagDigest: Digest, digests: seq<Digest>, data: seq<word>)

  function Flatten(ds: seq<Digest>): (ws: seq<word>)
    ensures |ws| == 8 * |ds|
  {
    if ds == [] then [] else Flatten(ds[..|ds| - 1]) + ds[|ds| - 1]
  }

  function Unflatten(ws: seq<word>, n: nat): (ds: seq<Digest>)
    requires |ws| == 8 * n
    ensures |ds| == n
  {
    if n == 0 then [] else Unflatten(ws[..8 * n - 8], n - 1) + [ws[8 * n - 8..]]
  }

  lemma {:induction false} UnflattenFlatten(ds: seq<Digest>)
    ensures Unflatten(Flatten(ds), |ds|) == ds
  {
    if ds != [] {
      var n := |ds| - 1;
      UnflattenFlatten(ds[..n]);
      assert Flatten(ds)[..8 * n] == Flatten(ds[..n]) && Flatten(ds)[8 * n..] == ds[n];
    }
  }

  lemma {:induction false} FlattenUnflatten(ws: seq<word>, n: nat)
    requires |ws| == 8 * n
    ensures Flatten(Unflatten(ws, n)) == ws
  {
    if n > 0 {
      var front, back := ws[..8 * n - 8], ws[8 * n - 8..];
      FlattenUnflatten(front, n - 1);
      FlattenSnoc(Unflatten(front, n - 1), back);
      hide Flatten;
      assert ws == front + back;
    }
  }

  lemma {:induction false} FlattenSnoc(ds: seq<Digest>, d: Digest)
    ensures Flatten(ds + [d]) == Flatten(ds) + d
  {
    assert (ds + [d])[..|ds + [d]| - 1] == ds;
  }

  lemma {:induction false} FlattenAppend(a: seq<Digest>, b: seq<Digest>)
    ensures Flatten(a + b) == Flatten(a) + Flatten(b)
  {
    if b == [] {
      assert a + b == a;
    } else {
      var n := |b| - 1;
      FlattenAppend(a, b[..n]);
      FlattenSnoc(a + b[..n], b[n]);
      FlattenSnoc(b[..n], b[n]);
      hide Flatten;
      assert a + b == a + b[..n] + [b[n]] && b == b[..n] + [b[n]];
    }
  }

  function WordsOf(p: Parts): seq<word> {
    p.tagDigest + Flatten(p.digests) + p.data
  }

  /** The bytes hashed: every word little-endian, then the low 16 bits of the count. */
  function Preimage(p: Parts): seq<byte> {
    EncodeAll(WordsOf(p), 4) + LE(|p.digests|, 2)
  }

  /** Cutting the words into the tag digest, `n` digests and the data. */
  function ParseWords(ws: seq<word>, n: nat): Option<Parts> {
    if |ws| < 8 + 8 * n then None
    else Some(Parts(ws[..8], Unflatten(ws[8..8 + 8 * n], n), ws[8 + 8 * n..]))
  }

  /** Reading a preimage back: the count is in the last two bytes. */
  function Parse(bs: seq<byte>): Option<Parts> {
    if |bs| < 2 || (|bs| - 2) % 4 != 0 then None
    else ParseWords(DecodeWords(bs[..|bs| - 2]), FromLE(bs[|bs| - 2..]))
  }

  lemma {:induction false} PreimageLength(p: Parts)
    ensures |Preimage(p)| == 34 + 32 * |p.digests| + 4 * |p.data|
  {
    EncodeAllLength(WordsOf(p), 4);
  }

  lemma {:induction false} CountRoundTrip(n: nat)
    ensures FromLE(LE(n, 2)) == n % MAX_DIGESTS
  {
    LERoundTrip(n, 2);
    assert Pow256(2) == MAX_DIGESTS by { Pow256Values(); }
  }

  /** Below 65536 digests a preimage determines every part of the struct. */
  lemma {:induction false} ParsePreimage(p: Parts)
    requires |p.digests| < MAX_DIGESTS
    ensures Parse(Preimage(p)) == Some(p)
  {
    hide LE, FromLE, EncodeAll, DecodeWords, WordsOf, Preimage, ParseWords;
    var bs, n := Preimage(p), |p.digests|;
    PreimageSlices(p);
    CountRoundTrip(n);
    WordsInjective(WordsOf(p), DecodeWords(bs[..|bs| - 2]));
    ParseWordsOf(p);
  }

  lemma {:induction false} ParseWordsOf(p: Parts)
    ensures ParseWords(WordsOf(p), |p.digests|) == Some(p)
  {
    hide Flatten, Unflatten, WordsOf;
    WordSlices(p);
    UnflattenFlatten(p.digests);
  }

  lemma {:induction false} PreimageSlices(p: Parts)
    ensures var bs := Preimage(p);
            && |bs| >= 34 && (|bs| - 2) % 4 == 0
            && bs[..|bs| - 2] == EncodeAll(WordsOf(p), 4) && bs[|bs| - 2..] == LE(|p.digests|, 2)
  {
    PreimageLength(p);
    hide LE, EncodeAll, WordsOf;
  }

  lemma {:induction false} WordSlices(p: Parts)
    ensures var ws, n := WordsOf(p), 8 + 8 * |p.digests|;
            && |ws| >= n && ws[..8] == p.tagDigest && ws[8..n] == Flatten(p.digests) && ws[n..] == p.data
  {
    hide Flatten;
  }

  /** Whatever parses is the preimage of its parts. */
  lemma {:induction false} PreimageParse(bs: seq<byte>)
    requires Parse(bs).Some?
    ensures Preimage(Parse(bs).value) == bs && |Parse(bs).value.digests| < MAX_DIGESTS
  {
    hide LE, FromLE, EncodeAll, DecodeWords, WordsOf, ParseWords;
    var front, last := bs[..|bs| - 2], bs[|bs| - 2..];
    var ws, n := DecodeWords(front), FromLE(last);
    WordsOfParse(ws, n);
    FromLERoundTrip(last);
    FromLEBound(last);
    assert Pow256(2) == MAX_DIGESTS by { Pow256Values(); }
    assert bs == front + last;
  }

  lemma {:induction false} WordsOfParse(ws: seq<word>, n: nat)
    requires ParseWords(ws, n).Some?
    ensures var p := ParseWords(ws, n).value; WordsOf(p) == ws && |p.digests| == n
  {
    hide Flatten, Unflatten;
    FlattenUnflatten(ws[8..8 + 8 * n], n);
    ThreeParts(ws, 8, 8 + 8 * n);
  }

  lemma {:induction false} ThreeParts(ws: seq<word>, i: nat, j: nat)
    requires i <= j <= |ws|
    ensures ws[..i] + ws[i..j] + ws[j..] == ws
  {
  }

  /** A struct is ambiguous when other digests and words give the same bytes. */
  ghost predicate Ambiguous(p: Parts) {
    exists q: Parts :: q != p && Preimage(q) == Preimage(p)
  }

  /** Moving 65536 digests into the words, or back, changes neither the bytes nor the
      wrapped count; nothing else is ambiguous. */
  lemma {:induction false} AmbiguousExactlyAtWrap(p: Parts)
    ensures Ambiguous(p) <==> |p.digests| >= MAX_DIGESTS || |p.data| >= 8 * MAX_DIGESTS
  {
    hide Preimage;
    if |p.digests| >= MAX_DIGESTS {
      ManyDigests(p);
    } else if |p.data| >= 8 * MAX_DIGESTS {
      ManyWords(p);
    } else {
      forall q: Parts | Preimage(q) == Preimage(p)
        ensures q == p
      {
        PreimageUnique(p, q);
      }
    }
  }

  lemma {:induction false} ManyDigests(p: Parts)
    requires |p.digests| >= MAX_DIGESTS
    ensures Ambiguous(p)
  {
    var k := |p.digests| - MAX_DIGESTS;
    var kept, moved := p.digests[..k], p.digests[k..];
    var q := Parts(p.tagDigest, kept, Flatten(moved) + p.data);
    assert p.digests == kept + moved;
    FlattenAppend(kept, moved);
    hide Flatten;
    SameBytes(p, q);
  }

  lemma {:induction false} ManyWords(p: Parts)
    requires |p.data| >= 8 * MAX_DIGESTS
    ensures Ambiguous(p)
  {
    var k := 8 * MAX_DIGESTS;
    var moved := Unflatten(p.data[..k], MAX_DIGESTS);
    var q := Parts(p.tagDigest, p.digests + moved, p.data[k..]);
    FlattenAppend(p.digests, moved);
    FlattenUnflatten(p.data[..k], MAX_DIGESTS);
    hide Flatten, Unflatten;
    assert p.data == p.data[..k] + p.data[k..];
    SameBytes(p, q);
  }

  lemma {:induction false} SameBytes(p: Parts, q: Parts)
    requires |p.digests| != |q.digests| && |p.digests| % MAX_DIGESTS == |q.digests| % MAX_DIGESTS
    requires WordsOf(p) == WordsOf(q)
    ensures Ambiguous(p)
  {
    SameCount(|p.digests|, |q.digests|);
    assert q != p && Preimage(q) == Preimage(p);
  }

  lemma {:induction false} SameCount(m: nat, n: nat)
    requires m % MAX_DIGESTS == n % MAX_DIGESTS
    ensures LE(m, 2) == LE(n, 2)
  {
    CountRoundTrip(m);
    CountRoundTrip(n);
    FromLERoundTrip(LE(m, 2));
    FromLERoundTrip(LE(n, 2));
  }

  lemma {:induction false} PreimageUnique(p: Parts, q: Parts)
    requires |p.digests| < MAX_DIGESTS && |p.data| < 8 * MAX_DIGESTS
    requires Preimage(q) == Preimage(p)
    ensures q == p
  {
    var bs := Preimage(p);
    PreimageLength(p);
    PreimageLength(q);
    assert bs[|bs| - 2..] == LE(|p.digests|, 2) == LE(|q.digests|, 2);
    hide LE, FromLE, Preimage, Parse;
    CountRoundTrip(|p.digests|);
    CountRoundTrip(|q.digests|);
    CountsAgree(|p.digests|, |q.digests|, |p.data|, |q.data|);
    ParsePreimage(p);
    ParsePreimage(q);
  }

  lemma {:induction false} CountsAgree(m: nat, n: nat, dataP: nat, dataQ: nat)
    requires m < MAX_DIGESTS && dataP < 8 * MAX_DIGESTS
    requires m % MAX_DIGESTS == n % MAX_DIGESTS && 8 * m + dataP == 8 * n + dataQ
    ensures m == n
  {
    assert n == MAX_DIGESTS * (n / MAX_DIGESTS) + m;
  }

  // ---------- Tagged digests ----------

  /** Any hash of byte strings; the guest's is `Sha.HashWith(c)`. */
  type HashFunction = seq<byte> -> Digest

  /** Two different short messages, one from each set, with the same hash. */
  ghost predicate Clash(h: HashFunction, a: set<seq<byte>>, b: set<seq<byte>>) {
    exists m, n :: m in a && n in b && m != n && h(m) == h(n) && |m| < MAX_BYTES && |n| < MAX_BYTES
  }

  lemma {:induction false} ClashGrows(h: HashFunction,
      a: set<seq<byte>>, b: set<seq<byte>>, a': set<seq<byte>>, b': set<seq<byte>>)
    requires Clash(h, a, b) && a <= a' && b <= b'
    ensures Clash(h, a', b')
  {
    var m, n :| m in a && n in b && m != n && h(m) == h(n) && |m| < MAX_BYTES && |n| < MAX_BYTES;
    assert m in a' && n in b';
  }

  function TaggedPreimage(h: HashFunction, tag: seq<byte>, digests: seq<Digest>, data: seq<word>): seq<byte> {
    Preimage(Parts(h(tag), digests, data))
  }

  function TaggedStruct(h: HashFunction, tag: seq<byte>, digests: seq<Digest>, data: seq<word>): Digest {
    h(TaggedPreimage(h, tag, digests, data))
  }

  /** The messages hashed for a tagged digest. */
  function TaggedMessages(h: HashFunction, tag: seq<byte>, digests: seq<Digest>, data: seq<word>): set<seq<byte>> {
    {tag, TaggedPreimage(h, tag, digests, data)}
  }

  /** The sizes at which a tagged digest is binding. */
  predicate Bounded(tag: seq<byte>, digests: seq<Digest>, data: seq<word>) {
    && |tag| < MAX_BYTES
    && |digests| < MAX_DIGESTS
    && 34 + 32 * |digests| + 4 * |data| < MAX_BYTES
  }

  /** Equal tagged digests have equal tags, digests and words, or expose a clash: tags
      separate domains and digests bind their contents. */
  lemma {:induction false} TaggedStructBinds(
      h: HashFunction,
      tag: seq<byte>, digests: seq<Digest>, data: seq<word>,
      tag': seq<byte>, digests': seq<Digest>, data': seq<word>)
    requires Bounded(tag, digests, data) && Bounded(tag', digests', data')
    requires TaggedStruct(h, tag, digests, data) == TaggedStruct(h, tag', digests', data')
    ensures || (tag == tag' && digests == digests' && data == data')
            || Clash(h, TaggedMessages(h, tag, digests, data), TaggedMessages(h, tag', digests', data'))
  {
    hide Preimage, Parse;
    var p, q := Parts(h(tag), digests, data), Parts(h(tag'), digests', data');
    PreimageLength(p);
    PreimageLength(q);
    ParsePreimage(p);
    ParsePreimage(q);
    assert Preimage(p) == Preimage(q) ==> p == q;
  }
}

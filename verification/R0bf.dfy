/** The R0BF container: the packer of the guest build and the extractor that takes it
    apart. `Layout` writes out any container; the packer produces one of them and the
    extractor is the inverse of `Layout`.
  */
module R0bf {
  import opened Bytes

  const MAGIC: seq<byte> := [0x52, 0x30, 0x42, 0x46]
  const ELF: seq<byte> := [0x7f, 0x45, 0x4c, 0x46]

  /** The key-value pair that the packer writes: the ABI version "1.0.0". */
  const ABI_VERSION: seq<byte> := [0x00, 0x00, 0x05, 0x31, 0x2e, 0x30, 0x2e, 0x30]

  datatype Container = Container(version: nat, header: seq<byte>, user: seq<byte>, kernel: seq<byte>)

  /** The bytes of a container; the three length and version fields are 32 bits wide. */
  function Layout(c: Container): seq<byte> {
    MAGIC + LE(c.version, 4) + LE(|c.header|, 4) + c.header + LE(|c.user|, 4) + c.user + c.kernel
  }

  /** The fields fit the format. */
  predicate InRange(c: Container) {
    c.version < TWO32 && |c.header| < TWO32 && |c.user| < TWO32
  }

  /** The header that the packer writes: one pair of eight bytes. */
  function PackedHeader(): (h: seq<byte>)
    ensures |h| == 16
  {
    LE(1, 4) + LE(8, 4) + ABI_VERSION
  }

  datatype PackResult = Packed(bytes: seq<byte>, reportedSize: nat) | UserNotElf | KernelNotElf

  /** convert_to_r0bf: header fields first, then the two images. */
  method Pack(user: seq<byte>, kernel: seq<byte>) returns (r: PackResult)
    ensures r.UserNotElf? <==> !([0x7f, 0x45, 0x4c, 0x46] <= user)
    ensures r.KernelNotElf? <==> !r.UserNotElf? && !([0x7f, 0x45, 0x4c, 0x46] <= kernel)
    ensures r.Packed? ==> r.bytes == Layout(Container(1, PackedHeader(), user, kernel))
                          && r.reportedSize == |r.bytes|
  {
    if |user| < 4 || user[..4] != ELF {
      return UserNotElf;
    }
    if |kernel| < 4 || kernel[..4] != ELF {
      return KernelNotElf;
    }
    hide LE;
    var buf := MAGIC;
    buf := buf + LE(1, 4);
    buf := buf + LE(16, 4);
    buf := buf + LE(1, 4);
    buf := buf + LE(8, 4);
    buf := buf + ABI_VERSION;
    buf := buf + LE(|user|, 4);
    PackerHeader(LE(16, 4), LE(|user|, 4));
    var bytes := buf + user + kernel;
    r := Packed(bytes, 4 + 4 + 4 + 16 + 4 + |user| + |kernel|);
  }

  /** The file that the packer writes, byte by byte: "R0BF", the version, the header's
      length, one pair of eight bytes that ends in "1.0.0", the user length and the images. */
  lemma {:induction false} PackedBytes(user: seq<byte>, kernel: seq<byte>)
    ensures var d, u := Layout(Container(1, PackedHeader(), user, kernel)), |user|;
            && |d| == 32 + u + |kernel|
            && d[..12] == [0x52, 0x30, 0x42, 0x46, 1, 0, 0, 0, 16, 0, 0, 0]
            && d[12..28] == [1, 0, 0, 0, 8, 0, 0, 0, 0x00, 0x00, 0x05, 0x31, 0x2e, 0x30, 0x2e, 0x30]
            && FromLE(d[28..32]) == u % 0x1_0000_0000 && d[32..32 + u] == user && d[32 + u..] == kernel
  {
    hide LE, FromLE, PackedHeader, Layout;
    LERoundTrip(|user|, 4);
    assert Pow256(4) == TWO32 by { Pow256Values(); }
    PackedPrefix();
    var front, header, size := MAGIC + LE(1, 4) + LE(16, 4), PackedHeader(), LE(|user|, 4);
    var d := Layout(Container(1, header, user, kernel));
    LayoutUnfolds(user, kernel);
    Field(d, [], front);
    Field(d, front, header);
    Field(d, front + header, size);
    Field(d, front + header + size, user);
    Field(d, front + header + size + user, kernel);
  }

  lemma {:induction false} LayoutUnfolds(user: seq<byte>, kernel: seq<byte>)
    ensures var front, header, size := MAGIC + LE(1, 4) + LE(16, 4), PackedHeader(), LE(|user|, 4);
            Layout(Container(1, header, user, kernel)) == [] + front + header + size + user + kernel
  {
    hide LE, PackedHeader;
  }

  lemma {:induction false} PackedPrefix()
    ensures MAGIC + LE(1, 4) + LE(16, 4) == [0x52, 0x30, 0x42, 0x46, 1, 0, 0, 0, 16, 0, 0, 0]
    ensures PackedHeader() == [1, 0, 0, 0, 8, 0, 0, 0, 0x00, 0x00, 0x05, 0x31, 0x2e, 0x30, 0x2e, 0x30]
  {
    hide LE;
    Small(1);
    Small(8);
    Small(16);
  }

  lemma {:induction false} Small(b: byte)
    ensures LE(b, 4) == [b, 0, 0, 0]
  {
    assert LE(0, 3) == [0] + LE(0, 2) && LE(0, 2) == [0] + LE(0, 1) && LE(0, 1) == [0];
  }

  lemma {:induction false} PackerHeader(x: seq<byte>, y: seq<byte>)
    ensures MAGIC + LE(1, 4) + x + LE(1, 4) + LE(8, 4) + ABI_VERSION + y
         == MAGIC + LE(1, 4) + x + PackedHeader() + y
  {
    hide LE;
  }

  datatype ExtractResult = Extracted(c: Container) | NotR0bf | OutOfBounds

  /** extract_r0bf: a running offset over the input. A file shorter than the magic is
      read as zero-padded and so is not recognised; any later access beyond the input ends
      in an out-of-range panic at the latest when the kernel is sliced off. */
  method Extract(data: seq<byte>) returns (r: ExtractResult)
    ensures r.NotR0bf? <==> !([0x52, 0x30, 0x42, 0x46] <= data)
    ensures r.Extracted? ==> InRange(r.c) && Layout(r.c) == data
    ensures !r.Extracted? ==> forall c :: InRange(c) ==> Layout(c) != data
  {
    hide LE, FromLE, Layout;
    if |data| < 4 || data[..4] != MAGIC {
      NoMagic(data);
      return NotR0bf;
    }
    if |data| < 12 {
      TooShort(data);
      return OutOfBounds;
    }
    var version, headerLen := FromLE(data[4..8]), FromLE(data[8..12]);
    var offset := 12 + headerLen;
    if |data| < offset + 4 {
      NoUserLength(data, headerLen);
      return OutOfBounds;
    }
    var userLen := FromLE(data[offset..offset + 4]);
    offset := offset + 4;
    if |data| < offset + userLen {
      NoUserImage(data, headerLen, userLen);
      return OutOfBounds;
    }
    var user := data[offset..offset + userLen];
    offset := offset + userLen;
    var kernel := data[offset..];
    r := Extracted(Container(version, data[12..12 + headerLen], user, kernel));
    LayoutOfParts(data, headerLen, userLen);
  }

  /** Where each field of a layout sits. */
  lemma {:induction false} LayoutFields(c: Container)
    requires InRange(c)
    ensures var d, h, u := Layout(c), |c.header|, |c.user|;
            && |d| == 16 + h + u + |c.kernel|
            && d[..4] == [0x52, 0x30, 0x42, 0x46] && FromLE(d[4..8]) == c.version && FromLE(d[8..12]) == h
            && d[12..12 + h] == c.header && FromLE(d[12 + h..16 + h]) == u
            && d[16 + h..16 + h + u] == c.user && d[16 + h + u..] == c.kernel
  {
    LE32Exact(c.version);
    LE32Exact(|c.header|);
    LE32Exact(|c.user|);
    hide LE, FromLE;
    var v, l, m, d := LE(c.version, 4), LE(|c.header|, 4), LE(|c.user|, 4), Layout(c);
    var p := MAGIC + v + l + c.header + m + c.user;
    hide Layout;
    Field(d, p, c.kernel);
    Field(d, MAGIC + v + l + c.header + m, c.user);
    Field(d, MAGIC + v + l + c.header, m);
    Field(d, MAGIC + v + l, c.header);
    Field(d, MAGIC + v, l);
    Field(d, MAGIC, v);
  }

  lemma {:induction false} Field(d: seq<byte>, front: seq<byte>, field: seq<byte>)
    requires front + field <= d
    ensures front <= d && |front| + |field| <= |d| && d[|front|..|front| + |field|] == field
  {
    var p := front + field;
    assert p[..|front|] == front && p[|front|..] == field;
    assert d[..|p|] == p;
  }

  lemma {:induction false} NoMagic(data: seq<byte>)
    requires |data| < 4 || data[..4] != MAGIC
    ensures forall c :: InRange(c) ==> Layout(c) != data
  {
    forall c | InRange(c) ensures Layout(c) != data { LayoutFields(c); }
  }

  lemma {:induction false} TooShort(data: seq<byte>)
    requires |data| < 16
    ensures forall c :: InRange(c) ==> Layout(c) != data
  {
    forall c | InRange(c) ensures Layout(c) != data { LayoutFields(c); }
  }

  lemma {:induction false} NoUserLength(data: seq<byte>, headerLen: nat)
    requires |data| >= 12 && FromLE(data[8..12]) == headerLen && |data| < 16 + headerLen
    ensures forall c :: InRange(c) ==> Layout(c) != data
  {
    hide LE, FromLE, Layout;
    forall c | InRange(c) ensures Layout(c) != data { LayoutFields(c); }
  }

  lemma {:induction false} NoUserImage(data: seq<byte>, headerLen: nat, userLen: nat)
    requires |data| >= 16 + headerLen && FromLE(data[8..12]) == headerLen
    requires FromLE(data[12 + headerLen..16 + headerLen]) == userLen && |data| < 16 + headerLen + userLen
    ensures forall c :: InRange(c) ==> Layout(c) != data
  {
    hide LE, FromLE, Layout;
    forall c | InRange(c) ensures Layout(c) != data { LayoutFields(c); }
  }

  /** Conservation: the parts that the extractor cuts out make up the whole input. */
  lemma {:induction false} LayoutOfParts(data: seq<byte>, headerLen: nat, userLen: nat)
    requires |data| >= 16 + headerLen + userLen && data[..4] == MAGIC
    requires FromLE(data[8..12]) == headerLen && FromLE(data[12 + headerLen..16 + headerLen]) == userLen
    ensures var end := 16 + headerLen + userLen;
            var c := Container(FromLE(data[4..8]), data[12..12 + headerLen], data[16 + headerLen..end], data[end..]);
            InRange(c) && Layout(c) == data
  {
    var h, end := headerLen, 16 + headerLen + userLen;
    FromLERoundTrip(data[4..8]);
    FromLERoundTrip(data[8..12]);
    FromLERoundTrip(data[12 + h..16 + h]);
    FromLEBound(data[4..8]);
    FromLEBound(data[8..12]);
    FromLEBound(data[12 + h..16 + h]);
    assert Pow256(4) == TWO32 by { Pow256Values(); }
    hide LE, FromLE;
    Adjoin(data, 4, 8);
    Adjoin(data, 8, 12);
    Adjoin(data, 12, 12 + h);
    Adjoin(data, 12 + h, 16 + h);
    Adjoin(data, 16 + h, end);
    Adjoin(data, end, |data|);
  }

  lemma {:induction false} Adjoin(d: seq<byte>, i: nat, j: nat)
    requires i <= j <= |d|
    ensures d[..i] + d[i..j] == d[..j] && d[..|d|] == d && d[i..|d|] == d[i..]
  {
  }

  /** A container is determined by its bytes. */
  lemma {:induction false} LayoutInjective(c: Container, d: Container)
    requires InRange(c) && InRange(d) && Layout(c) == Layout(d)
    ensures c == d
  {
    hide Layout, FromLE;
    LayoutFields(c);
    LayoutFields(d);
  }

  /** Packing and extracting: for every pair of ELF images, the extractor returns both
      unchanged exactly when the user image has a 32-bit length; a longer one is cut at its
      truncated length and the remainder is taken for the kernel. */
  method PackThenExtract(user: seq<byte>, kernel: seq<byte>) returns (p: PackResult, r: ExtractResult)
    requires [0x7f, 0x45, 0x4c, 0x46] <= user && [0x7f, 0x45, 0x4c, 0x46] <= kernel
    ensures p.Packed? && p.reportedSize == |p.bytes| && r.Extracted?
    ensures r.c.version == 1 && r.c.header == PackedHeader() && r.c.user + r.c.kernel == user + kernel
    ensures (r.c.user == user && r.c.kernel == kernel) <==> |user| < TWO32
  {
    hide LE, FromLE, Layout;
    p := Pack(user, kernel);
    r := Extract(p.bytes);
    var cut := |user| % TWO32;
    LongUserImage(user, kernel);
    var seen := Container(1, PackedHeader(), user[..cut], user[cut..] + kernel);
    if r.Extracted? {
      LayoutInjective(r.c, seen);
    }
    assert user[..cut] + (user[cut..] + kernel) == user + kernel;
    if |user| < TWO32 {
      assert user[..cut] == user && user[cut..] + kernel == kernel;
    }
  }

  /** Only the low 32 bits of the user length are stored. */
  lemma {:induction false} LongUserImage(user: seq<byte>, kernel: seq<byte>)
    ensures var cut := |user| % TWO32;
            var c := Container(1, PackedHeader(), user[..cut], user[cut..] + kernel);
            InRange(c) && Layout(Container(1, PackedHeader(), user, kernel)) == Layout(c)
  {
    var cut := |user| % TWO32;
    LETruncates32(|user|);
    hide LE;
    assert user + kernel == user[..cut] + (user[cut..] + kernel);
    var front := MAGIC + LE(1, 4) + LE(16, 4) + PackedHeader() + LE(cut, 4);
    assert front + user + kernel == front + (user + kernel);
    assert front + user[..cut] + (user[cut..] + kernel) == front + (user[..cut] + (user[cut..] + kernel));
  }
}

/** The reference host's binary codecs: what it feeds to a guest's stdin and how it reads
    a journal back. A decoder that would panic returns None.
  */
module HostCodec {
  import opened Bytes
  import opened Wrappers

  const POLICY_SUMMARY_LEN: nat := 40

  method AppendU32LE(out: seq<byte>, value: word) returns (r: seq<byte>)
    ensures r == out + LE(value, 4)
  {
    r := out + LE(value, 4);
  }

  method AppendU64LE(out: seq<byte>, value: dword) returns (r: seq<byte>)
    ensures r == out + LE(value, 8)
  {
    r := out + LE(value, 8);
  }

  method AppendU64Slice(out: seq<byte>, values: seq<dword>) returns (r: seq<byte>)
    ensures r == out + EncodeAll(values, 8)
  {
    hide LE;
    r := out;
    for i := 0 to |values|
      invariant r == out + EncodeAll(values[..i], 8)
    {
      r := AppendU64LE(r, values[i]);
      assert values[..i + 1] == values[..i] + [values[i]];
      EncodeAllSnoc(values[..i], values[i], 8);
    }
    assert values[..|values|] == values;
  }

  function DecodeU32LE(bytes: seq<byte>, offset: nat): Option<word> {
    if offset + 4 > |bytes| then None
    else
      FromLEBound(bytes[offset..offset + 4]);
      Pow256Values();
      Some(FromLE(bytes[offset..offset + 4]))
  }

  function DecodeU64LE(bytes: seq<byte>, offset: nat): Option<dword> {
    if offset + 8 > |bytes| then None
    else
      FromLEBound(bytes[offset..offset + 8]);
      Pow256Values();
      Some(FromLE(bytes[offset..offset + 8]))
  }

  lemma {:induction false} DecodeU32At(bs: seq<byte>, offset: nat, v: word)
    requires offset + 4 <= |bs| && bs[offset..offset + 4] == LE(v, 4)
    ensures DecodeU32LE(bs, offset) == Some(v)
  {
    LE32Exact(v);
  }

  lemma {:induction false} DecodeU64At(bs: seq<byte>, offset: nat, v: dword)
    requires offset + 8 <= |bs| && bs[offset..offset + 8] == LE(v, 8)
    ensures DecodeU64LE(bs, offset) == Some(v)
  {
    LE64Exact(v);
  }

  // ---------- Policy check ----------

  /** The stdin of the policy guest; the item count is truncated to 32 bits. */
  function PolicyWitness(items: seq<dword>, discount: dword, limit: dword): seq<byte> {
    LE(|items|, 4) + (EncodeAll(items, 8) + (LE(discount, 8) + LE(limit, 8)))
  }

  method EncodePolicyWitness(items: seq<dword>, discount: dword, limit: dword) returns (stdin: seq<byte>)
    ensures stdin == PolicyWitness(items, discount, limit)
  {
    LETruncates32(|items|);
    RightNested(LE(|items|, 4), EncodeAll(items, 8), LE(discount, 8), LE(limit, 8));
    hide LE, EncodeAll;
    var itemCount: word := |items| % 0x1_0000_0000;
    stdin := AppendU32LE([], itemCount);
    stdin := AppendU64Slice(stdin, items);
    stdin := AppendU64LE(stdin, discount);
    stdin := AppendU64LE(stdin, limit);
  }

  /** Where each number of a witness sits. */
  lemma {:induction false} PolicyWitnessFields(items: seq<dword>, discount: dword, limit: dword)
    ensures var w, n := PolicyWitness(items, discount, limit), |items|;
            && |w| == 4 + 8 * n + 16 && FromLE(w[0..4]) == n % 0x1_0000_0000
            && FromLE(w[4 + 8 * n..12 + 8 * n]) == discount && FromLE(w[12 + 8 * n..20 + 8 * n]) == limit
  {
    hide LE, FromLE, EncodeAll;
    var w, n := PolicyWitness(items, discount, limit), |items|;
    EncodeAllLength(items, 8);
    LERoundTrip(n, 4);
    assert Pow256(4) == TWO32 by { Pow256Values(); }
    LE64Exact(discount);
    LE64Exact(limit);
    var tail := LE(discount, 8) + LE(limit, 8);
    assert w[4 + 8 * n..] == tail;
    assert w[0..4] == LE(n, 4);
    assert w[4 + 8 * n..12 + 8 * n] == tail[..8] == LE(discount, 8);
    assert w[12 + 8 * n..20 + 8 * n] == tail[8..] == LE(limit, 8);
  }

  lemma {:induction false} PolicyWitnessItem(items: seq<dword>, discount: dword, limit: dword, i: nat)
    requires i < |items|
    ensures var w := PolicyWitness(items, discount, limit);
            12 + 8 * i <= |w| && FromLE(w[4 + 8 * i..12 + 8 * i]) == items[i]
  {
    hide LE, FromLE, EncodeAll;
    var w, body, tail := PolicyWitness(items, discount, limit), EncodeAll(items, 8), LE(discount, 8) + LE(limit, 8);
    EncodeAllAt(items, 8, i);
    LE64Exact(items[i]);
    assert (body + tail)[8 * i..8 * i + 8] == body[8 * i..8 * i + 8];
    assert w[4..] == body + tail;
    assert w[4 + 8 * i..12 + 8 * i] == w[4..][8 * i..8 * i + 8];
  }

  lemma {:induction false} RightNested(x: seq<byte>, y: seq<byte>, z: seq<byte>, w: seq<byte>)
    ensures [] + x + y + z + w == x + (y + (z + w))
  {
  }

  datatype PolicySummary = PolicySummary(
    itemCount: word, approved: bool, subtotal: dword, discount: dword, total: dword, limit: dword)

  /** The journal of the policy guest. */
  function PolicyJournal(
      itemCount: word, approved: word, subtotal: dword, discount: dword, total: dword, limit: dword): seq<byte>
  {
    LE(itemCount, 4) + LE(approved, 4) + LE(subtotal, 8) + LE(discount, 8) + LE(total, 8) + LE(limit, 8)
  }

  function DecodePolicySummary(bytes: seq<byte>): Option<PolicySummary> {
    if |bytes| != POLICY_SUMMARY_LEN then None
    else
      var itemCount, approved := DecodeU32LE(bytes, 0), DecodeU32LE(bytes, 4);
      var subtotal, discount := DecodeU64LE(bytes, 8), DecodeU64LE(bytes, 16);
      var total, limit := DecodeU64LE(bytes, 24), DecodeU64LE(bytes, 32);
      Some(PolicySummary(
        itemCount.value, approved.value != 0, subtotal.value, discount.value, total.value, limit.value))
  }

  /** Where each committed number sits. */
  lemma {:induction false} PolicyJournalFields(
      itemCount: word, approved: word, subtotal: dword, discount: dword, total: dword, limit: dword)
    ensures var j := PolicyJournal(itemCount, approved, subtotal, discount, total, limit);
            && |j| == 40
            && FromLE(j[0..4]) == itemCount && FromLE(j[4..8]) == approved
            && FromLE(j[8..16]) == subtotal && FromLE(j[16..24]) == discount
            && FromLE(j[24..32]) == total && FromLE(j[32..40]) == limit
  {
    LE32Exact(itemCount);
    LE32Exact(approved);
    LE64Exact(subtotal);
    LE64Exact(discount);
    LE64Exact(total);
    LE64Exact(limit);
    hide LE, FromLE;
    var j := PolicyJournal(itemCount, approved, subtotal, discount, total, limit);
    assert j[0..4] == LE(itemCount, 4) && j[4..8] == LE(approved, 4);
    assert j[8..16] == LE(subtotal, 8) && j[16..24] == LE(discount, 8);
    assert j[24..32] == LE(total, 8) && j[32..40] == LE(limit, 8);
  }

  /** The host's reading of any journal: 40 bytes, each field at its own offset. */
  lemma {:induction false} DecodedPolicyFields(bytes: seq<byte>)
    ensures DecodePolicySummary(bytes).Some? <==> |bytes| == 40
    ensures |bytes| == 40 ==>
              var s := DecodePolicySummary(bytes).value;
              && s.itemCount == FromLE(bytes[0..4]) && (s.approved <==> FromLE(bytes[4..8]) != 0)
              && s.subtotal == FromLE(bytes[8..16]) && s.discount == FromLE(bytes[16..24])
              && s.total == FromLE(bytes[24..32]) && s.limit == FromLE(bytes[32..40])
  {
    hide FromLE;
  }

  /** The host reads back every field that a guest committed. */
  lemma {:induction false} PolicyJournalRoundTrip(
      itemCount: word, approved: word, subtotal: dword, discount: dword, total: dword, limit: dword)
    ensures DecodePolicySummary(PolicyJournal(itemCount, approved, subtotal, discount, total, limit))
         == Some(PolicySummary(itemCount, approved != 0, subtotal, discount, total, limit))
  {
    hide PolicyJournal, DecodePolicySummary, FromLE;
    PolicyJournalFields(itemCount, approved, subtotal, discount, total, limit);
    DecodedPolicyFields(PolicyJournal(itemCount, approved, subtotal, discount, total, limit));
  }

  // ---------- Multiply ----------

  /** The stdin of the multiply guest. */
  method EncodeMultiplyWitness(a: dword, b: dword) returns (stdin: seq<byte>)
    ensures stdin == LE(a, 8) + LE(b, 8)
  {
    stdin := AppendU64LE([], a);
    stdin := AppendU64LE(stdin, b);
  }
}

/** Two example guests against the witnesses that the reference host encodes: what they
    commit is exact over the integers, although they compute in wrapping 64-bit words.
  */
module Examples {
  import opened Bytes
  import opened Sha
  import opened Tagged
  import opened Claims
  import opened Hosts
  import opened Guests
  import opened HostCodec
  import opened Text
  import opened Wrappers

  /** A running guest that has committed and verified nothing. */
  ghost predicate Fresh(g: Guest)
    reads g, g.bufferData, g.host
  {
    g.Synced() && g.host.status.Running? && g.host.journal == [] && g.children == []
  }

  /** A run that verified nothing and ended with this code and journal. */
  ghost predicate EndedWith(g: Guest, code: byte, journal: seq<byte>)
    reads g, g.bufferData, g.host
  {
    && g.Synced() && g.host.journal == journal && g.children == []
    && g.host.status == Halted(code, ChildOutput(g.H(), journal))
  }

  method ReadU32(g: Guest) returns (v: word)
    requires g.host.status.Running? && 4 <= |g.host.stdin|
    modifies g.host`stdin
    ensures v == FromLE(old(g.host.stdin)[..4]) && g.host.stdin == old(g.host.stdin)[4..]
  {
    var image := g.ReadValue(4);
    FromLEBound(image);
    Pow256Values();
    v := FromLE(image);
  }

  method ReadU64(g: Guest) returns (v: dword)
    requires g.host.status.Running? && 8 <= |g.host.stdin|
    modifies g.host`stdin
    ensures v == FromLE(old(g.host.stdin)[..8]) && g.host.stdin == old(g.host.stdin)[8..]
  {
    var image := g.ReadValue(8);
    FromLEBound(image);
    Pow256Values();
    v := FromLE(image);
  }

  lemma {:induction false} ReadsBack64(v: dword, rest: seq<byte>)
    ensures |LE(v, 8) + rest| >= 8
    ensures FromLE((LE(v, 8) + rest)[..8]) == v && (LE(v, 8) + rest)[8..] == rest
  {
    LE64Exact(v);
    hide LE, FromLE;
    assert (LE(v, 8) + rest)[..8] == LE(v, 8);
  }

  lemma {:induction false} ReadsBack32(v: word, rest: seq<byte>)
    ensures |LE(v, 4) + rest| >= 4
    ensures FromLE((LE(v, 4) + rest)[..4]) == v && (LE(v, 4) + rest)[4..] == rest
  {
    LE32Exact(v);
    hide LE, FromLE;
    assert (LE(v, 4) + rest)[..4] == LE(v, 4);
  }

  /** Halt once the guest is done. */
  method Finish(g: Guest, code: byte)
    requires g.Synced() && g.host.status.Running? && g.children == []
    modifies g, g.bufferData, g.shaBlock, g.host
    ensures g.host.stdin == old(g.host.stdin)
    ensures EndedWith(g, code, old(g.host.journal))
  {
    hide Guest.Synced, HashWith, HaltDigest, ChildOutput, LogOf;
    PlainHalt(g.H(), g.host.journal);
    g.Halt(code);
  }

  /** The error exit: a debug line, then Halt(1). */
  method Fail(g: Guest, message: string)
    requires g.Synced() && g.host.status.Running? && g.children == []
    modifies g, g.bufferData, g.shaBlock, g.host
    ensures EndedWith(g, 1, old(g.host.journal))
  {
    hide Guest.Synced, EndedWith, Utf8;
    g.WriteStderr(Utf8(message));
    Finish(g, 1);
  }

  // ---------- Multiply ----------

  /** The wrapped product divided by one factor gives the other exactly when the true
      product fits in 64 bits. */
  lemma {:induction false} DivisionDetectsOverflow(a: dword, b: dword)
    requires a != 0
    ensures a * b % TWO64 / a == b <==> a * b < TWO64
  {
    var p := a * b;
    if p < TWO64 {
      ModUnique(p, TWO64, 0, p);
      ModUnique(p, a, b, 0);
    } else {
      var q, r := p / TWO64, p % TWO64;
      assert p == TWO64 * q + r && q >= 1;
      assert a * (r / a) <= r < p;
    }
  }

  /** What the multiply guest does with two factors. */
  method CommitProduct(g: Guest, a: dword, b: dword)
    requires Fresh(g)
    modifies g, g.bufferData, g.shaBlock, g.host
    ensures if a >= 2 && b >= 2 && a * b < TWO64 then EndedWith(g, 0, LE(a * b, 8)) else EndedWith(g, 1, [])
  {
    hide LE, Guest.Synced, EndedWith, Utf8;
    if a == 0 || b == 0 {
      Fail(g, "Error: Zero factor\n");
      return;
    }
    if a == 1 || b == 1 {
      Fail(g, "Error: Trivial factors\n");
      return;
    }
    var product: dword := a * b % TWO64;
    DivisionDetectsOverflow(a, b);
    if product / a != b {
      Fail(g, "Error: Integer overflow\n");
      return;
    }
    Exact(a * b);
    Succeed(g, LE(product, 8), "Successfully computed product\n");
  }

  lemma {:induction false} Exact(n: nat)
    requires n < TWO64
    ensures n % TWO64 == n
  {
  }

  /** Commit the only public value, print, and halt with 0. */
  method Succeed(g: Guest, image: seq<byte>, message: string)
    requires Fresh(g)
    modifies g, g.bufferData, g.shaBlock, g.host
    ensures EndedWith(g, 0, image)
  {
    hide Guest.Synced, EndedWith, Utf8;
    g.CommitValue(image);
    assert g.host.journal == image;
    g.Write(Utf8(message));
    Finish(g, 0);
  }

  /** The multiply guest on the host's witness: it halts with 0 exactly when both factors
      are at least 2 and the true product fits, and then commits the true product. */
  method Multiply(g: Guest, ghost a: dword, ghost b: dword, ghost rest: seq<byte>)
    requires Fresh(g) && g.host.stdin == LE(a, 8) + (LE(b, 8) + rest)
    modifies g, g.bufferData, g.shaBlock, g.host
    ensures if a >= 2 && b >= 2 && a * b < TWO64 then EndedWith(g, 0, LE(a * b, 8)) else EndedWith(g, 1, [])
  {
    ReadsBack64(a, LE(b, 8) + rest);
    ReadsBack64(b, rest);
    hide LE, FromLE, Guest.Synced, EndedWith;
    var x := ReadU64(g);
    var y := ReadU64(g);
    CommitProduct(g, x, y);
  }

  lemma {:induction false} DecodesProduct(n: nat)
    ensures n < TWO64 ==> DecodeU64LE(LE(n, 8), 0) == Some(n)
    ensures DecodeU64LE([], 0) == None
  {
    if n < TWO64 {
      DecodeU64At(LE(n, 8), 0, n);
    }
  }

  /** A guest that has just started. */
  method Boot(c: Compressor, receipts: set<(Digest, Digest)>, stdin: seq<byte>) returns (g: Guest)
    ensures Fresh(g) && g.host.stdin == stdin && g.host.compress == c
    ensures fresh(g) && fresh(g.host) && fresh(g.bufferData) && fresh(g.shaBlock)
  {
    hide Guest.Synced;
    var host := new Host(c, receipts, stdin);
    g := new Guest(host);
  }

  /** Host to guest to host: the decoded journal is the true product. */
  method MultiplyEndToEnd(c: Compressor, receipts: set<(Digest, Digest)>, a: dword, b: dword)
      returns (g: Guest, product: Option<dword>)
    ensures if a >= 2 && b >= 2 && a * b < TWO64
            then product == Some(a * b) && g.host.status == Halted(0, ChildOutput(HashWith(c), g.host.journal))
            else product == None && g.host.status == Halted(1, ChildOutput(HashWith(c), []))
  {
    hide LE, FromLE, DecodeU64LE, Guest.Synced, HashWith, ChildOutput;
    var stdin := EncodeMultiplyWitness(a, b);
    assert stdin == LE(a, 8) + (LE(b, 8) + []);
    g := Boot(c, receipts, stdin);
    Multiply(g, a, b, []);
    product := DecodeU64LE(g.host.journal, 0);
    DecodesProduct(a * b);
  }

  // ---------- Policy check ----------

  const MAX_POLICY_ITEMS: nat := 16

  function Sum(items: seq<nat>): nat {
    if items == [] then 0 else Sum(items[..|items| - 1]) + items[|items| - 1]
  }

  lemma {:induction false} SumGrows(items: seq<nat>, i: nat)
    requires i <= |items|
    ensures Sum(items[..i]) <= Sum(items)
    decreases |items|
  {
    if i < |items| {
      SumGrows(items[..|items| - 1], i);
      assert items[..|items| - 1][..i] == items[..i];
    } else {
      assert items[..i] == items;
    }
  }

  lemma {:induction false} SumSnoc(items: seq<nat>, i: nat)
    requires i < |items|
    ensures Sum(items[..i + 1]) == Sum(items[..i]) + items[i] <= Sum(items)
  {
    assert items[..i + 1][..i] == items[..i];
    SumGrows(items, i + 1);
  }

  lemma {:induction false} EncodeHead(items: seq<dword>, i: nat)
    requires i < |items|
    ensures EncodeAll(items[i..], 8) == LE(items[i], 8) + EncodeAll(items[i + 1..], 8)
  {
    hide LE, EncodeAll;
    assert items[i..] == [items[i]] + items[i + 1..];
    NothingEncoded();
    EncodeAllAppend([items[i]], items[i + 1..], 8);
    EncodeAllSnoc([], items[i], 8);
    assert [] + [items[i]] == [items[i]];
  }

  lemma {:induction false} NothingEncoded()
    ensures EncodeAll([], 8) == []
  {
  }

  predicate AllNonZero(items: seq<dword>) {
    forall i :: 0 <= i < |items| ==> items[i] != 0
  }

  /** Validity over the integers: no wrap-around is mentioned. */
  predicate PolicyValid(items: seq<dword>, discount: dword) {
    && 1 <= |items| <= MAX_POLICY_ITEMS && AllNonZero(items)
    && Sum(items) < TWO64 && discount <= Sum(items)
  }

  /** The exact public summary of a valid policy witness. */
  function Summary(items: seq<dword>, discount: dword, limit: dword): PolicySummary
    requires PolicyValid(items, discount)
  {
    var total := Sum(items) - discount;
    PolicySummary(|items|, total <= limit, Sum(items), discount, total, limit)
  }

  function SummaryJournal(s: PolicySummary): seq<byte> {
    PolicyJournal(s.itemCount, if s.approved then 1 else 0, s.subtotal, s.discount, s.total, s.limit)
  }

  /** What a valid witness makes public, byte by byte and over the integers. */
  lemma {:induction false} SummaryBytes(items: seq<dword>, discount: dword, limit: dword)
    requires PolicyValid(items, discount)
    ensures var j, total := SummaryJournal(Summary(items, discount, limit)), Sum(items) - discount;
            && |j| == 40
            && FromLE(j[0..4]) == |items| && FromLE(j[4..8]) == (if total <= limit then 1 else 0)
            && FromLE(j[8..16]) == Sum(items) && FromLE(j[16..24]) == discount
            && FromLE(j[24..32]) == total && FromLE(j[32..40]) == limit
  {
    hide PolicyJournal, FromLE, Sum;
    var s := Summary(items, discount, limit);
    PolicyJournalFields(s.itemCount, if s.approved then 1 else 0, s.subtotal, s.discount, s.total, s.limit);
  }

  /** The sum is determined by these two laws. */
  lemma {:induction false} SumIsAdditive(a: seq<nat>, x: nat)
    ensures Sum([]) == 0 && Sum(a + [x]) == Sum(a) + x
  {
    assert (a + [x])[..|a + [x]| - 1] == a;
  }

  lemma {:induction false} WrapDetectsCarry(x: dword, y: dword)
    ensures (x + y) % TWO64 < x <==> x + y >= TWO64
    ensures x + y < TWO64 ==> (x + y) % TWO64 == x + y
  {
  }

  method ReadItem(g: Guest, ghost items: seq<dword>, ghost i: nat, ghost tail: seq<byte>) returns (item: dword)
    requires g.host.status.Running? && i < |items|
    requires g.host.stdin == EncodeAll(items[i..], 8) + tail
    modifies g.host`stdin
    ensures item == items[i] && g.host.stdin == EncodeAll(items[i + 1..], 8) + tail
  {
    ItemIsNext(items, i, tail);
    hide LE, FromLE, EncodeAll;
    item := ReadU64(g);
  }

  lemma {:induction false} ItemIsNext(items: seq<dword>, i: nat, tail: seq<byte>)
    requires i < |items|
    ensures var stdin := EncodeAll(items[i..], 8) + tail;
            && |stdin| >= 8 && FromLE(stdin[..8]) == items[i]
            && stdin[8..] == EncodeAll(items[i + 1..], 8) + tail
  {
    EncodeHead(items, i);
    hide LE, FromLE, EncodeAll;
    ReadsBack64(items[i], EncodeAll(items[i + 1..], 8) + tail);
    assert EncodeAll(items[i..], 8) + tail == LE(items[i], 8) + (EncodeAll(items[i + 1..], 8) + tail);
  }

  /** What must hold after `i` items have been accepted. */
  predicate Accepted(items: seq<dword>, i: nat, subtotal: nat) {
    i <= |items| && subtotal == Sum(items[..i]) && AllNonZero(items[..i])
  }

  lemma {:induction false} AcceptItem(items: seq<dword>, i: nat, subtotal: nat)
    requires i < |items| && Accepted(items, i, subtotal)
    ensures items[i] != 0 ==> Accepted(items, i + 1, subtotal + items[i])
    ensures items[i] == 0 || subtotal + items[i] >= TWO64 ==> forall d: dword :: !PolicyValid(items, d)
  {
    SumSnoc(items, i);
    hide Sum;
    var longer := items[..i + 1];
    forall k | 0 <= k < |longer| && items[i] != 0
      ensures longer[k] != 0
    {
      assert k < i ==> longer[k] == items[..i][k];
    }
  }

  /** The checked sum loop; on a bad item the run has ended with code 1. */
  method SumItems(g: Guest, itemCount: word, ghost items: seq<dword>, ghost tail: seq<byte>)
      returns (ok: bool, subtotal: dword)
    requires Fresh(g) && itemCount == |items| && g.host.stdin == EncodeAll(items, 8) + tail
    modifies g, g.bufferData, g.shaBlock, g.host
    ensures ok ==> Fresh(g) && g.host.stdin == tail && Accepted(items, |items|, subtotal)
    ensures !ok ==> EndedWith(g, 1, []) && forall d: dword :: !PolicyValid(items, d)
  {
    assert items[0..] == items && items[..0] == [];
    assert Accepted(items, 0, 0);
    ok, subtotal := true, 0;
    hide Guest.Synced, EndedWith, EncodeAll, Accepted, PolicyValid;
    for i := 0 to itemCount
      invariant Fresh(g) && Accepted(items, i, subtotal)
      invariant g.host.stdin == EncodeAll(items[i..], 8) + tail
    {
      var item := ReadItem(g, items, i, tail);
      AcceptItem(items, i, subtotal);
      if item == 0 {
        Fail(g, "Error: item value must be non-zero\n");
        ok := false;
        return;
      }
      var nextSubtotal: dword := (subtotal + item) % TWO64;
      WrapDetectsCarry(subtotal, item);
      if nextSubtotal < subtotal {
        Fail(g, "Error: subtotal overflow\n");
        ok := false;
        return;
      }
      subtotal := nextSubtotal;
    }
    NothingLeft(items, tail);
  }

  lemma {:induction false} NothingLeft(items: seq<dword>, tail: seq<byte>)
    ensures EncodeAll(items[|items|..], 8) + tail == tail
  {
  }

  /** The discount and limit rules, and the six commits. */
  method CommitSummary(g: Guest, itemCount: word, subtotal: dword, discount: dword, limit: dword)
    requires Fresh(g)
    modifies g, g.bufferData, g.shaBlock, g.host
    ensures if discount > subtotal then EndedWith(g, 1, [])
            else var total := subtotal - discount;
                 EndedWith(g, 0,
                   LE(itemCount, 4) + LE(if total <= limit then 1 else 0, 4)
                   + LE(subtotal, 8) + LE(discount, 8) + LE(total, 8) + LE(limit, 8))
  {
    hide LE, Guest.Synced, EndedWith;
    if discount > subtotal {
      Fail(g, "Error: discount exceeds subtotal\n");
      return;
    }
    var total := subtotal - discount;
    var approved: word := 0;
    if total <= limit {
      approved := 1;
    }
    g.CommitValue(LE(itemCount, 4));
    g.CommitValue(LE(approved, 4));
    g.CommitValue(LE(subtotal, 8));
    g.CommitValue(LE(discount, 8));
    g.CommitValue(LE(total, 8));
    g.CommitValue(LE(limit, 8));
    assert g.host.journal
        == LE(itemCount, 4) + LE(approved, 4) + LE(subtotal, 8) + LE(discount, 8) + LE(total, 8) + LE(limit, 8);
    Finish(g, 0);
  }

  /** The policy guest on the host's witness, for every item list that has a 32-bit count:
      it halts with 0 exactly when the witness is valid over the integers, committing the
      exact summary, and otherwise halts with 1 and an empty journal. */
  method Policy(g: Guest, ghost items: seq<dword>, ghost discount: dword, ghost limit: dword, ghost rest: seq<byte>)
    requires |items| < TWO32
    requires Fresh(g) && g.host.stdin == PolicyWitness(items, discount, limit) + rest
    modifies g, g.bufferData, g.shaBlock, g.host
    ensures if 1 <= |items| <= 16 && 0 !in items && Sum(items) < 0x1_0000_0000_0000_0000 && discount <= Sum(items)
            then EndedWith(g, 0, SummaryJournal(Summary(items, discount, limit)))
            else EndedWith(g, 1, [])
  {
    WitnessParts(items, discount, limit, rest);
    hide LE, FromLE, Guest.Synced, EndedWith, EncodeAll, AfterItems, PolicyWitness, PolicyJournal;
    var itemCount := ReadU32(g);
    if itemCount == 0 || itemCount > MAX_POLICY_ITEMS {
      Fail(g, "Error: invalid item count\n");
      return;
    }
    PolicyBody(g, itemCount, items, discount, limit, rest);
  }

  /** What follows the items in stdin. */
  ghost function AfterItems(discount: dword, limit: dword, rest: seq<byte>): seq<byte> {
    LE(discount, 8) + (LE(limit, 8) + rest)
  }

  method ReadDiscountAndLimit(g: Guest, ghost discount: dword, ghost limit: dword, ghost rest: seq<byte>)
      returns (d: dword, l: dword)
    requires g.host.status.Running? && g.host.stdin == AfterItems(discount, limit, rest)
    modifies g.host`stdin
    ensures d == discount && l == limit
  {
    ReadsBack64(discount, LE(limit, 8) + rest);
    ReadsBack64(limit, rest);
    hide LE, FromLE;
    d := ReadU64(g);
    l := ReadU64(g);
  }

  /** The policy guest once it has read an acceptable item count. */
  method PolicyBody(g: Guest, itemCount: word,
                    ghost items: seq<dword>, ghost discount: dword, ghost limit: dword, ghost rest: seq<byte>)
    requires 1 <= itemCount <= MAX_POLICY_ITEMS && |items| == itemCount
    requires Fresh(g) && g.host.stdin == EncodeAll(items, 8) + AfterItems(discount, limit, rest)
    modifies g, g.bufferData, g.shaBlock, g.host
    ensures if PolicyValid(items, discount)
            then EndedWith(g, 0, SummaryJournal(Summary(items, discount, limit)))
            else EndedWith(g, 1, [])
  {
    hide LE, Guest.Synced, EndedWith, EncodeAll, AfterItems, PolicyValid, Accepted, Sum;
    var ok, subtotal := SumItems(g, itemCount, items, AfterItems(discount, limit, rest));
    if !ok {
      return;
    }
    Accepts(items, subtotal, discount);
    var d, l := ReadDiscountAndLimit(g, discount, limit, rest);
    CommitSummary(g, itemCount, subtotal, d, l);
  }

  lemma {:induction false} Accepts(items: seq<dword>, subtotal: dword, discount: dword)
    requires Accepted(items, |items|, subtotal) && 1 <= |items| <= MAX_POLICY_ITEMS
    ensures subtotal == Sum(items)
    ensures PolicyValid(items, discount) <==> discount <= subtotal
  {
    assert items[..|items|] == items;
  }

  lemma {:induction false} WitnessParts(items: seq<dword>, discount: dword, limit: dword, rest: seq<byte>)
    requires |items| < TWO32
    ensures var afterItems := AfterItems(discount, limit, rest);
            var stdin := PolicyWitness(items, discount, limit) + rest;
            && |stdin| >= 4 && FromLE(stdin[..4]) == |items| && stdin[4..] == EncodeAll(items, 8) + afterItems
  {
    var afterItems := AfterItems(discount, limit, rest);
    ReadsBack32(|items|, EncodeAll(items, 8) + afterItems);
    hide LE, FromLE, EncodeAll;
    assert PolicyWitness(items, discount, limit) + rest == LE(|items|, 4) + (EncodeAll(items, 8) + afterItems);
  }

  /** Host to guest to host: a valid witness decodes to its exact summary, and any other
      leaves nothing to decode. */
  method PolicyEndToEnd(c: Compressor, receipts: set<(Digest, Digest)>,
                        items: seq<dword>, discount: dword, limit: dword)
      returns (g: Guest, summary: Option<PolicySummary>)
    requires |items| < TWO32
    ensures if 1 <= |items| <= 16 && 0 !in items && Sum(items) < 0x1_0000_0000_0000_0000 && discount <= Sum(items)
            then var total := Sum(items) - discount;
                 && summary == Some(PolicySummary(|items|, total <= limit, Sum(items), discount, total, limit))
                 && g.host.status == Halted(0, ChildOutput(HashWith(c), g.host.journal))
            else summary == None && g.host.status == Halted(1, ChildOutput(HashWith(c), []))
  {
    hide LE, Guest.Synced, HashWith, ChildOutput, PolicyWitness, DecodePolicySummary, PolicyJournal, Sum;
    var stdin := EncodePolicyWitness(items, discount, limit);
    g := Boot(c, receipts, stdin);
    assert stdin + [] == stdin;
    Policy(g, items, discount, limit, []);
    summary := DecodePolicySummary(g.host.journal);
    NothingToDecode();
    if PolicyValid(items, discount) {
      SummaryRoundTrip(Summary(items, discount, limit));
    }
  }

  lemma {:induction false} NothingToDecode()
    ensures DecodePolicySummary([]) == None
  {
  }

  lemma {:induction false} SummaryRoundTrip(s: PolicySummary)
    ensures DecodePolicySummary(SummaryJournal(s)) == Some(s)
  {
    PolicyJournalRoundTrip(s.itemCount, if s.approved then 1 else 0, s.subtotal, s.discount, s.total, s.limit);
  }
}

/** The digests that a guest run stands for: receipt claims, the hash-linked list of
    assumptions, and the output digest passed to sys_halt.
  */
module Claims {
  import opened Bytes
  import opened Sha
  import opened Tagged
  import opened Text

  type ImageID = bs: seq<byte> | |bs| == 32 witness Zeros(32)

  const ZERO: Digest := [0, 0, 0, 0, 0, 0, 0, 0]

  const OUTPUT: seq<byte> := Utf8("risc0.Output")
  const SYSTEM_STATE: seq<byte> := Utf8("risc0.SystemState")
  const RECEIPT_CLAIM: seq<byte> := Utf8("risc0.ReceiptClaim")
  const ASSUMPTION: seq<byte> := Utf8("risc0.Assumption")
  const ASSUMPTIONS: seq<byte> := Utf8("risc0.Assumptions")

  lemma {:induction false} TagsAreShort()
    ensures |OUTPUT| <= 72 && |SYSTEM_STATE| <= 72 && |RECEIPT_CLAIM| <= 72
    ensures |ASSUMPTION| <= 72 && |ASSUMPTIONS| <= 72
  {
    hide Utf8;
    Utf8Length("risc0.Output");
    Utf8Length("risc0.SystemState");
    Utf8Length("risc0.ReceiptClaim");
    Utf8Length("risc0.Assumption");
    Utf8Length("risc0.Assumptions");
  }

  // ---------- Output and claim ----------

  function OutputDigest(h: HashFunction, journalDigest: Digest, assumptions: Digest): Digest {
    TaggedStruct(h, OUTPUT, [journalDigest, assumptions], [])
  }

  /** A child proof that a guest depends on. */
  datatype Child = Child(imageID: ImageID, journal: seq<byte>)

  function ImageWords(id: ImageID): (d: Digest)
    ensures DigestBytes(d) == id
  {
    DecodeWords(id)
  }

  function PostState(h: HashFunction): Digest {
    TaggedStruct(h, SYSTEM_STATE, [ZERO], [0])
  }

  /** The output digest of a child that committed this journal and assumed nothing. */
  function ChildOutput(h: HashFunction, journal: seq<byte>): Digest {
    OutputDigest(h, h(journal), ZERO)
  }

  /** The claim that the image halted with code 0 and the given output digest. */
  function ReceiptClaim(h: HashFunction, id: ImageID, output: Digest): Digest {
    TaggedStruct(h, RECEIPT_CLAIM, [ZERO, ImageWords(id), PostState(h), output], [0, 0])
  }

  function ClaimDigest(h: HashFunction, child: Child): Digest {
    ReceiptClaim(h, child.imageID, ChildOutput(h, child.journal))
  }

  function OutputMessages(h: HashFunction, journal: seq<byte>, assumptions: Digest): set<seq<byte>> {
    {journal} + TaggedMessages(h, OUTPUT, [h(journal), assumptions], [])
  }

  function ClaimMessages(h: HashFunction, child: Child): set<seq<byte>> {
    OutputMessages(h, child.journal, ZERO)
    + TaggedMessages(h, SYSTEM_STATE, [ZERO], [0])
    + TaggedMessages(h, RECEIPT_CLAIM,
        [ZERO, ImageWords(child.imageID), PostState(h), ChildOutput(h, child.journal)], [0, 0])
  }

  // ---------- The assumption list ----------

  /** An entry of the sys_verify_integrity log. */
  datatype Assumption = Assumption(claim: Digest, controlRoot: Digest)

  function AssumptionDigest(h: HashFunction, a: Assumption): Digest {
    TaggedStruct(h, ASSUMPTION, [a.claim, a.controlRoot], [])
  }

  function Cons(h: HashFunction, a: Assumption, tail: Digest): Digest {
    TaggedStruct(h, ASSUMPTIONS, [AssumptionDigest(h, a), tail], [])
  }

  function ConsMessages(h: HashFunction, a: Assumption, tail: Digest): set<seq<byte>> {
    TaggedMessages(h, ASSUMPTION, [a.claim, a.controlRoot], [])
    + TaggedMessages(h, ASSUMPTIONS, [AssumptionDigest(h, a), tail], [])
  }

  /** The list digest of a log, oldest entry innermost, starting from the zero digest. */
  function ListDigest(h: HashFunction, log: seq<Assumption>): Digest
    decreases |log|
  {
    if log == [] then ZERO
    else Cons(h, log[|log| - 1], ListDigest(h, log[..|log| - 1]))
  }

  function ListMessages(h: HashFunction, log: seq<Assumption>): set<seq<byte>>
    decreases |log|
  {
    if log == [] then {}
    else ListMessages(h, log[..|log| - 1]) + ConsMessages(h, log[|log| - 1], ListDigest(h, log[..|log| - 1]))
  }

  lemma {:induction false} ListSnoc(h: HashFunction, log: seq<Assumption>, a: Assumption)
    ensures ListDigest(h, log + [a]) == Cons(h, a, ListDigest(h, log))
    ensures ListMessages(h, log + [a]) == ListMessages(h, log) + ConsMessages(h, a, ListDigest(h, log))
  {
    assert (log + [a])[..|log + [a]| - 1] == log;
  }

  /** The log that a sequence of Verify calls leaves. */
  function LogOf(h: HashFunction, children: seq<Child>): (log: seq<Assumption>)
    ensures |log| == |children|
    decreases |children|
  {
    if children == [] then []
    else LogOf(h, children[..|children| - 1]) + [Assumption(ClaimDigest(h, children[|children| - 1]), ZERO)]
  }

  /** Entry i is the claim of child i, with the zero control root. */
  lemma {:induction false} LogAt(h: HashFunction, children: seq<Child>, i: nat)
    requires i < |children|
    ensures LogOf(h, children)[i] == Assumption(ClaimDigest(h, children[i]), ZERO)
    decreases |children|
  {
    hide ClaimDigest;
    if i < |children| - 1 {
      LogAt(h, children[..|children| - 1], i);
    }
  }

  function AllClaimMessages(h: HashFunction, children: seq<Child>): set<seq<byte>>
    decreases |children|
  {
    if children == [] then {}
    else AllClaimMessages(h, children[..|children| - 1]) + ClaimMessages(h, children[|children| - 1])
  }

  // ---------- The halt digest ----------

  /** What Halt passes to sys_halt. */
  function HaltDigest(h: HashFunction, journal: seq<byte>, log: seq<Assumption>): Digest {
    OutputDigest(h, h(journal), ListDigest(h, log))
  }

  /** Without assumptions the halt digest is the output digest of a child. */
  lemma {:induction false} PlainHalt(h: HashFunction, journal: seq<byte>)
    ensures HaltDigest(h, journal, []) == ChildOutput(h, journal)
    ensures LogOf(h, []) == []
  {
    hide OutputDigest;
  }

  lemma {:induction false} ClaimIsReceipt(h: HashFunction, child: Child)
    ensures ClaimDigest(h, child) == ReceiptClaim(h, child.imageID, ChildOutput(h, child.journal))
  {
    hide ReceiptClaim, ChildOutput;
  }

  /** The messages hashed for the halt digest of a run. */
  function HaltMessages(h: HashFunction, journal: seq<byte>, children: seq<Child>): set<seq<byte>> {
    OutputMessages(h, journal, ListDigest(h, LogOf(h, children)))
    + ListMessages(h, LogOf(h, children))
    + AllClaimMessages(h, children)
  }
}

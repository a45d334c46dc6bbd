/** Whole guest runs: any interleaving of API calls, ended by Halt or by a Verify for
    which the host has no receipt.
  */
module Runs {
  import opened Bytes
  import opened Sha
  import opened Tagged
  import opened Claims
  import opened Binding
  import opened Hosts
  import opened Guests

  /** One call of the guest API. `Finalize` computes the output digest early. */
  datatype Step =
    | Commit(bytes: seq<byte>)
    | CommitValue(bytes: seq<byte>)
    | Verify(child: Child)
    | SumSHA256(bytes: seq<byte>)
    | Read(len: nat)
    | ReadValue(len: nat)
    | Write(bytes: seq<byte>)
    | WriteStderr(bytes: seq<byte>)
    | Finalize
  {
    /** What the step adds to the journal. */
    function Journal(): seq<byte> {
      match this
      case Commit(bs) => bs
      case CommitValue(bs) => bs
      case _ => []
    }

    /** What the step adds to the assumptions. */
    function Assumes(): seq<Child> {
      match this
      case Verify(child) => [child]
      case _ => []
    }

    function Input(): nat {
      match this
      case Read(len) => len
      case ReadValue(len) => len
      case _ => 0
    }

    /** The one-shot hasher's buffer must fit a byte view of memory. */
    predicate Fits() {
      match this
      case Verify(child) => |child.journal| + 9 <= MAX_SLICE
      case SumSHA256(bs) => |bs| + 9 <= MAX_SLICE
      case _ => true
    }

    /** The host ends the run at a claim that it has no receipt for. */
    predicate Rejected(h: HashFunction, receipts: set<(Digest, Digest)>) {
      Verify? && (ClaimDigest(h, child), ZERO) !in receipts
    }
  }

  function Committed(steps: seq<Step>): seq<byte> {
    if steps == [] then [] else Committed(steps[..|steps| - 1]) + steps[|steps| - 1].Journal()
  }

  function Verified(steps: seq<Step>): seq<Child> {
    if steps == [] then [] else Verified(steps[..|steps| - 1]) + steps[|steps| - 1].Assumes()
  }

  function InputUsed(steps: seq<Step>): nat {
    if steps == [] then 0 else InputUsed(steps[..|steps| - 1]) + steps[|steps| - 1].Input()
  }

  ghost predicate Runnable(steps: seq<Step>, stdin: seq<byte>) {
    (forall i :: 0 <= i < |steps| ==> steps[i].Fits()) && InputUsed(steps) <= |stdin|
  }

  /** The host has a receipt for every Verify among the steps. */
  ghost predicate NoneRejected(h: HashFunction, receipts: set<(Digest, Digest)>, steps: seq<Step>) {
    forall i :: 0 <= i < |steps| ==> !steps[i].Rejected(h, receipts)
  }

  lemma {:induction false} NoneRejectedSnoc(h: HashFunction, receipts: set<(Digest, Digest)>, steps: seq<Step>, i: nat)
    requires i < |steps| && NoneRejected(h, receipts, steps[..i]) && !steps[i].Rejected(h, receipts)
    ensures NoneRejected(h, receipts, steps[..i + 1])
  {
    hide Step.Rejected;
    var longer := steps[..i + 1];
    forall k | 0 <= k < |longer|
      ensures !longer[k].Rejected(h, receipts)
    {
      assert k < i ==> longer[k] == steps[..i][k];
    }
  }

  lemma {:induction false} InputGrows(steps: seq<Step>, i: nat)
    requires i <= |steps|
    ensures InputUsed(steps[..i]) <= InputUsed(steps)
    decreases |steps|
  {
    if i == |steps| {
      assert steps[..i] == steps;
    } else {
      InputGrows(steps[..|steps| - 1], i);
      assert steps[..|steps| - 1][..i] == steps[..i];
    }
  }

  lemma {:induction false} OneMore(steps: seq<Step>, i: nat)
    requires i < |steps|
    ensures Committed(steps[..i + 1]) == Committed(steps[..i]) + steps[i].Journal()
    ensures Verified(steps[..i + 1]) == Verified(steps[..i]) + steps[i].Assumes()
    ensures InputUsed(steps[..i + 1]) == InputUsed(steps[..i]) + steps[i].Input()
    ensures InputUsed(steps[..i + 1]) <= InputUsed(steps)
  {
    assert steps[..i + 1][..i] == steps[..i];
    InputGrows(steps, i + 1);
  }

  lemma {:induction false} NothingYet(steps: seq<Step>, h: HashFunction, receipts: set<(Digest, Digest)>)
    ensures NoneRejected(h, receipts, steps[..0])
    ensures Committed(steps[..0]) == [] && Verified(steps[..0]) == [] && InputUsed(steps[..0]) == 0
  {
  }

  /** One step of a running guest, and what it hands back to the caller. */
  method Perform(g: Guest, step: Step) returns (out: seq<byte>)
    requires g.Synced() && g.host.status.Running?
    requires step.Verify? ==> |step.child.journal| + 9 <= MAX_SLICE
    requires step.SumSHA256? ==> |step.bytes| + 9 <= MAX_SLICE
    requires step.Read? || step.ReadValue? ==> step.len <= |g.host.stdin|
    modifies g, g.bufferData, g.shaBlock, g.host
    ensures g.Synced()
    ensures g.host.journal
         == if step.Commit? || step.CommitValue? then old(g.host.journal) + step.bytes else old(g.host.journal)
    ensures if !step.Verify? then g.host.status.Running? && g.children == old(g.children)
            else if (ClaimDigest(g.H(), step.child), ZERO) in g.host.receipts
            then g.host.status.Running? && g.children == old(g.children) + [step.child]
                 && g.host.log == old(g.host.log) + [Assumption(ClaimDigest(g.H(), step.child), ZERO)]
            else g.host.status.Stopped? && g.children == old(g.children)
    ensures g.host.stdin == if step.Read? || step.ReadValue? then old(g.host.stdin)[step.len..] else old(g.host.stdin)
    ensures g.host.stdout == if step.Write? then old(g.host.stdout) + step.bytes else old(g.host.stdout)
    ensures g.host.stderr == if step.WriteStderr? then old(g.host.stderr) + step.bytes else old(g.host.stderr)
    ensures step.Read? || step.ReadValue? ==> out == old(g.host.stdin)[..step.len]
    ensures step.SumSHA256? ==> out == DigestBytes(Hash(g.C(), IV, step.bytes))
    ensures step.Finalize? ==> out == DigestBytes(HaltDigest(g.H(), g.host.journal, LogOf(g.H(), g.children)))
  {
    hide Guest.Synced, HashWith, Hash, HaltDigest, ClaimDigest, DigestBytes, LogOf;
    out := [];
    match step
    case Commit(bs) => g.Commit(bs);
    case CommitValue(bs) => g.CommitValue(bs);
    case Verify(child) => g.Verify(child.imageID, child.journal);
    case _ => out := Observe(g, step);
  }

  /** The calls that change neither the journal nor the assumptions. */
  method Observe(g: Guest, step: Step) returns (out: seq<byte>)
    requires g.Synced() && g.host.status.Running?
    requires !step.Commit? && !step.CommitValue? && !step.Verify?
    requires step.SumSHA256? ==> |step.bytes| + 9 <= MAX_SLICE
    requires step.Read? || step.ReadValue? ==> step.len <= |g.host.stdin|
    modifies g`state, g`bufferLen, g`totalLen, g`assumptionsDigest, g`initialized, g.shaBlock
    modifies g.host`calls, g.host`stdin, g.host`stdout, g.host`stderr, g.host`journal
    ensures g.Synced() && g.host.journal == old(g.host.journal)
    ensures g.host.stdin == if step.Read? || step.ReadValue? then old(g.host.stdin)[step.len..] else old(g.host.stdin)
    ensures g.host.stdout == if step.Write? then old(g.host.stdout) + step.bytes else old(g.host.stdout)
    ensures g.host.stderr == if step.WriteStderr? then old(g.host.stderr) + step.bytes else old(g.host.stderr)
    ensures step.Read? || step.ReadValue? ==> out == old(g.host.stdin)[..step.len]
    ensures step.SumSHA256? ==> out == DigestBytes(Hash(g.C(), IV, step.bytes))
    ensures step.Finalize? ==> out == DigestBytes(HaltDigest(g.H(), g.host.journal, LogOf(g.H(), g.children)))
  {
    hide Guest.Valid, Covered, HashWith, Hash, HaltDigest, LogOf, AllClaimMessages, DigestBytes;
    out := [];
    match step
    case SumSHA256(bs) => out := g.SumSHA256(bs);
    case Read(len) => out := ReadFresh(g, len);
    case ReadValue(len) => out := g.ReadValue(len);
    case Write(bs) => g.Write(bs);
    case WriteStderr(bs) => g.WriteStderr(bs);
    case Finalize =>
      var digest := g.FinalizeProperHasher();
      out := DigestBytes(digest);
  }

  /** Read into a new buffer. */
  method ReadFresh(g: Guest, len: nat) returns (out: seq<byte>)
    requires g.host.status.Running? && len <= |g.host.stdin|
    modifies g.host`stdin
    ensures out == old(g.host.stdin)[..len] && g.host.stdin == old(g.host.stdin)[len..]
  {
    var buf := new byte[len](_ => 0);
    g.Read(buf);
    out := buf[..];
  }

  /** The first `done` steps have completed, from `input` bytes of stdin. */
  ghost predicate Progress(g: Guest, steps: seq<Step>, done: nat, input: nat)
    reads g, g.bufferData, g.host
  {
    && g.Synced() && done <= |steps|
    && g.host.journal == Committed(steps[..done]) && g.children == Verified(steps[..done])
    && InputUsed(steps[..done]) + |g.host.stdin| == input
    && NoneRejected(g.H(), g.host.receipts, steps[..done])
  }

  lemma {:induction false} StepEffect(step: Step, h: HashFunction, receipts: set<(Digest, Digest)>)
    ensures step.Journal() == if step.Commit? || step.CommitValue? then step.bytes else []
    ensures step.Assumes() == if step.Verify? then [step.child] else []
    ensures step.Input() == if step.Read? || step.ReadValue? then step.len else 0
    ensures step.Rejected(h, receipts) <==> step.Verify? && (ClaimDigest(h, step.child), ZERO) !in receipts
  {
    hide ClaimDigest;
  }

  /** The next step, unless it is rejected. */
  method Advance(g: Guest, steps: seq<Step>, done: nat, ghost input: nat)
    requires Progress(g, steps, done, input) && g.host.status.Running?
    requires done < |steps| && steps[done].Fits() && InputUsed(steps) <= input
    modifies g, g.bufferData, g.shaBlock, g.host
    ensures if g.host.status.Running? then Progress(g, steps, done + 1, input)
            else g.host.status.Stopped? && Progress(g, steps, done, input)
                 && steps[done].Rejected(g.H(), g.host.receipts)
  {
    hide Guest.Synced, HashWith, Hash, HaltDigest, LogOf, DigestBytes, ClaimDigest;
    hide Step.Rejected, NoneRejected, Committed, Verified, InputUsed;
    OneMore(steps, done);
    StepEffect(steps[done], g.H(), g.host.receipts);
    var _ := Perform(g, steps[done]);
    if g.host.status.Running? {
      NoneRejectedSnoc(g.H(), g.host.receipts, steps, done);
    }
  }

  /** A sequence of steps on a fresh guest: `done` steps complete, and either that is all
      of them or the next one was rejected and ended the run. */
  method Execute(g: Guest, steps: seq<Step>) returns (done: nat)
    requires g.Synced() && g.host.status.Running? && g.host.journal == [] && g.children == []
    requires Runnable(steps, g.host.stdin)
    modifies g, g.bufferData, g.shaBlock, g.host
    ensures Progress(g, steps, done, |old(g.host.stdin)|)
    ensures if done == |steps| then g.host.status.Running?
            else g.host.status.Stopped? && steps[done].Rejected(g.H(), g.host.receipts)
  {
    NothingYet(steps, g.H(), g.host.receipts);
    done := 0;
    ghost var input := |g.host.stdin|;
    assert Progress(g, steps, 0, input);
    hide Progress, Step.Rejected, HashWith, Guest.Synced;
    while done < |steps|
      invariant Progress(g, steps, done, input) && done <= |steps| && g.host.status.Running?
    {
      Advance(g, steps, done, input);
      if !g.host.status.Running? {
        return;
      }
      done := done + 1;
    }
  }

  /** The digest that a run halts with, as a function of its two projections: the bytes
      committed and the children verified. */
  ghost function RunDigest(h: HashFunction, steps: seq<Step>): Digest {
    HaltDigest(h, Committed(steps), LogOf(h, Verified(steps)))
  }

  /** A whole run from a fresh guest. */
  method Run(c: Compressor, receipts: set<(Digest, Digest)>, stdin: seq<byte>, steps: seq<Step>, exitCode: byte)
      returns (g: Guest, done: nat)
    requires Runnable(steps, stdin)
    ensures fresh(g) && fresh(g.host) && g.host.compress == c && done <= |steps| && g.Synced()
    ensures g.host.journal == Committed(steps[..done]) && g.children == Verified(steps[..done])
    ensures NoneRejected(HashWith(c), receipts, steps[..done])
    ensures if done < |steps| then g.host.status.Stopped? && steps[done].Rejected(HashWith(c), receipts)
            else g.host.status == Halted(exitCode, RunDigest(HashWith(c), steps))
                 && Covered(c, g.host.calls, HaltMessages(HashWith(c), Committed(steps), Verified(steps)))
  {
    hide Guest.Synced, HashWith, Step.Rejected, HaltDigest, HaltMessages, Covered, LogOf;
    var host := new Host(c, receipts, stdin);
    g := new Guest(host);
    done := Execute(g, steps);
    if done == |steps| {
      assert steps[..done] == steps;
      g.Halt(exitCode);
    }
  }

  // ---------- What the digest depends on ----------

  function Commits(steps: seq<Step>): seq<Step> {
    if steps == [] then []
    else
      var last := steps[|steps| - 1];
      Commits(steps[..|steps| - 1]) + if last.Commit? || last.CommitValue? then [last] else []
  }

  function Verifies(steps: seq<Step>): seq<Step> {
    if steps == [] then []
    else
      var last := steps[|steps| - 1];
      Verifies(steps[..|steps| - 1]) + if last.Verify? then [last] else []
  }

  lemma {:induction false} Snoc(steps: seq<Step>, last: Step)
    ensures Committed(steps + [last]) == Committed(steps) + last.Journal()
    ensures Verified(steps + [last]) == Verified(steps) + last.Assumes()
  {
    assert (steps + [last])[..|steps + [last]| - 1] == steps;
  }

  lemma {:induction false} CommitsSnoc(steps: seq<Step>, last: Step)
    ensures Commits(steps + [last]) == if last.Commit? || last.CommitValue? then Commits(steps) + [last] else Commits(steps)
    ensures Verifies(steps + [last]) == if last.Verify? then Verifies(steps) + [last] else Verifies(steps)
  {
    assert (steps + [last])[..|steps + [last]| - 1] == steps;
  }

  lemma {:induction false} ProjectionsSuffice(steps: seq<Step>)
    ensures Committed(Commits(steps)) == Committed(steps)
    ensures Verified(Verifies(steps)) == Verified(steps)
    decreases |steps|
  {
    if steps != [] {
      hide Commits, Verifies, Committed, Verified;
      var front, last := steps[..|steps| - 1], steps[|steps| - 1];
      LastSplits(steps);
      ProjectionsSuffice(front);
      CommitsSnoc(front, last);
      Snoc(front, last);
      Snoc(Commits(front), last);
      Snoc(Verifies(front), last);
    }
  }

  /** Moving Verify calls past commits, and inserting or dropping any other calls, leaves
      the digest of the run unchanged. */
  lemma {:induction false} DigestDependsOnProjections(h: HashFunction, steps: seq<Step>, steps': seq<Step>)
    requires Commits(steps) == Commits(steps') && Verifies(steps) == Verifies(steps')
    ensures RunDigest(h, steps) == RunDigest(h, steps')
  {
    ProjectionsSuffice(steps);
    ProjectionsSuffice(steps');
  }

  /** How the committed bytes are cut into calls does not matter either. */
  lemma {:induction false} CuttingACommit(h: HashFunction, front: seq<Step>, a: seq<byte>, b: seq<byte>, back: seq<Step>)
    ensures RunDigest(h, front + [Commit(a + b)] + back) == RunDigest(h, front + [Commit(a), Commit(b)] + back)
    decreases |back|
  {
    hide Committed, Verified, HaltDigest, LogOf;
    var one, two := front + [Commit(a + b)], front + [Commit(a), Commit(b)];
    Snoc(front, Commit(a + b));
    Snoc(front, Commit(a));
    Snoc(front + [Commit(a)], Commit(b));
    assert two == front + [Commit(a)] + [Commit(b)];
    SameSoFar(one, two, back);
  }

  lemma {:induction false} SameSoFar(one: seq<Step>, two: seq<Step>, back: seq<Step>)
    requires Committed(one) == Committed(two) && Verified(one) == Verified(two)
    ensures Committed(one + back) == Committed(two + back) && Verified(one + back) == Verified(two + back)
    decreases |back|
  {
    hide Committed, Verified;
    if back == [] {
      assert one + back == one && two + back == two;
    } else {
      var b', last := back[..|back| - 1], back[|back| - 1];
      SameSoFar(one, two, b');
      Snoc(one + b', last);
      Snoc(two + b', last);
      assert one + back == (one + b') + [last] && two + back == (two + b') + [last];
    }
  }

  /** One call at a time: what a run commits and verifies is the concatenation of these. */
  lemma {:induction false} SingleSteps(bs: seq<byte>, child: Child, other: Step)
    requires !other.Commit? && !other.CommitValue? && !other.Verify?
    ensures Committed([Commit(bs)]) == bs && Verified([Commit(bs)]) == []
    ensures Committed([CommitValue(bs)]) == bs && Verified([CommitValue(bs)]) == []
    ensures Committed([Verify(child)]) == [] && Verified([Verify(child)]) == [child]
    ensures Committed([other]) == [] && Verified([other]) == []
  {
    Snoc([], Commit(bs));
    Snoc([], CommitValue(bs));
    Snoc([], Verify(child));
    Snoc([], other);
    assert forall s: Step :: [] + [s] == [s];
  }

  lemma {:induction false} Concatenation(a: seq<Step>, b: seq<Step>)
    ensures Committed(a + b) == Committed(a) + Committed(b)
    ensures Verified(a + b) == Verified(a) + Verified(b)
    decreases |b|
  {
    if b == [] {
      assert a + b == a;
    } else {
      hide Committed, Verified, Step.Journal, Step.Assumes;
      var front, last := b[..|b| - 1], b[|b| - 1];
      LastSplits(b);
      Associative(a, front, [last]);
      Concatenation(a, front);
      Snoc(a + front, last);
      Snoc(front, last);
      Associative(Committed(a), Committed(front), last.Journal());
      Associative(Verified(a), Verified(front), last.Assumes());
    }
  }

  lemma {:induction false} Associative<T>(x: seq<T>, y: seq<T>, z: seq<T>)
    ensures x + (y + z) == (x + y) + z
  {
  }

  /** A Verify call and a commit next to each other may change places. */
  lemma {:induction false} SwapVerifyAndCommit(h: HashFunction, front: seq<Step>, child: Child, bs: seq<byte>, back: seq<Step>)
    ensures RunDigest(h, front + [Verify(child), Commit(bs)] + back)
         == RunDigest(h, front + [Commit(bs), Verify(child)] + back)
  {
    hide Committed, Verified, HaltDigest, LogOf;
    var one, two := front + [Verify(child), Commit(bs)], front + [Commit(bs), Verify(child)];
    Snoc(front, Verify(child));
    Snoc(front, Commit(bs));
    Snoc(front + [Verify(child)], Commit(bs));
    Snoc(front + [Commit(bs)], Verify(child));
    assert one == front + [Verify(child)] + [Commit(bs)] && two == front + [Commit(bs)] + [Verify(child)];
    SameSoFar(one, two, back);
  }

  /** Reading, hashing, printing and finalising early leave the digest of the run alone. */
  lemma {:induction false} OtherCallsDoNotMatter(h: HashFunction, front: seq<Step>, other: Step, back: seq<Step>)
    requires !other.Commit? && !other.CommitValue? && !other.Verify?
    ensures RunDigest(h, front + [other] + back) == RunDigest(h, front + back)
  {
    hide Committed, Verified, HaltDigest, LogOf;
    Snoc(front, other);
    SameSoFar(front + [other], front, back);
  }

  // ---------- What the digest determines ----------

  lemma {:induction false} CollisionWasMade(
      c: Compressor, a: set<seq<byte>>, b: set<seq<byte>>, calls: set<Call>, calls': set<Call>)
    requires CompressionCollision(c, a, b) && Covered(c, calls, a) && Covered(c, calls', b)
    ensures Collide(c, calls, calls')
  {
    hide HashCalls, Collide;
    var m, n :| m in a && n in b && Collide(c, HashCalls(c, IV, m), HashCalls(c, IV, n));
    CollideGrows(c, HashCalls(c, IV, m), HashCalls(c, IV, n), calls, calls');
  }

  /** Two guests that halt with the same digest committed the same journal and verified the
      same children in the same order, unless two different compression syscalls, one made
      by each run, returned the same state, or a list cell of one run hashes to zero. */
  lemma {:induction false} EqualHaltsEqualRuns(
      c: Compressor, steps: seq<Step>, steps': seq<Step>, calls: set<Call>, calls': set<Call>)
    requires RunDigest(HashWith(c), steps) == RunDigest(HashWith(c), steps')
    requires |Committed(steps)| < MAX_BYTES && ShortJournals(Verified(steps))
    requires |Committed(steps')| < MAX_BYTES && ShortJournals(Verified(steps'))
    requires Covered(c, calls, HaltMessages(HashWith(c), Committed(steps), Verified(steps)))
    requires Covered(c, calls', HaltMessages(HashWith(c), Committed(steps'), Verified(steps')))
    ensures || (Committed(steps) == Committed(steps') && Verified(steps) == Verified(steps'))
            || Collide(c, calls, calls')
            || ZeroCell(HashWith(c), LogOf(HashWith(c), Verified(steps)))
            || ZeroCell(HashWith(c), LogOf(HashWith(c), Verified(steps')))
  {
    hide HashWith, HaltDigest, HaltMessages, Covered, LogOf, ZeroCell, CompressionCollision, Committed, Verified;
    var h := HashWith(c);
    HaltDigestBindsRun(c, Committed(steps), Verified(steps), Committed(steps'), Verified(steps'));
    var a, b := HaltMessages(h, Committed(steps), Verified(steps)), HaltMessages(h, Committed(steps'), Verified(steps'));
    if CompressionCollision(c, a, b) {
      CollisionWasMade(c, a, b, calls, calls');
    }
  }

  /** The theorem above, observed on two executions. */
  method TwoRuns(c: Compressor, receipts: set<(Digest, Digest)>,
                 stdin: seq<byte>, steps: seq<Step>, stdin': seq<byte>, steps': seq<Step>, exitCode: byte)
      returns (g: Guest, g': Guest)
    requires Runnable(steps, stdin) && Runnable(steps', stdin')
    requires |Committed(steps)| < MAX_BYTES && ShortJournals(Verified(steps))
    requires |Committed(steps')| < MAX_BYTES && ShortJournals(Verified(steps'))
    ensures var h := HashWith(c);
            g.host.status.Halted? && g'.host.status.Halted?
            && g.host.status.digest == g'.host.status.digest ==>
              || (g.host.journal == g'.host.journal && g.children == g'.children)
              || Collide(c, g.host.calls, g'.host.calls)
              || ZeroCell(h, LogOf(h, g.children))
              || ZeroCell(h, LogOf(h, g'.children))
  {
    hide Guest.Synced, HashWith, Step.Rejected, HaltDigest, HaltMessages, Covered, LogOf, RunDigest, ZeroCell, Collide;
    var done, done';
    g, done := Run(c, receipts, stdin, steps, exitCode);
    g', done' := Run(c, receipts, stdin', steps', exitCode);
    if g.host.status.Halted? && g'.host.status.Halted? && g.host.status.digest == g'.host.status.digest {
      assert steps[..done] == steps && steps'[..done'] == steps';
      EqualHaltsEqualRuns(c, steps, steps', g.host.calls, g'.host.calls);
    }
  }

  // ---------- Parent and child ----------

  /** A child that verifies nothing halts with the output digest that any parent rebuilds
      from its journal. */
  lemma {:induction false} ParentAgreesWithChild(h: HashFunction, id: ImageID, steps: seq<Step>)
    requires Verified(steps) == []
    ensures ChildOutput(h, Committed(steps)) == RunDigest(h, steps)
    ensures ClaimDigest(h, Child(id, Committed(steps))) == ReceiptClaim(h, id, RunDigest(h, steps))
  {
    hide HaltDigest, ChildOutput, ReceiptClaim, ClaimDigest, LogOf;
    PlainHalt(h, Committed(steps));
    ClaimIsReceipt(h, Child(id, Committed(steps)));
  }

  /** Running a child to its halt and verifying its journal in a parent registers the claim
      built from the very digest that the child passed to sys_halt. */
  method VerifyAfterChild(parent: Guest, id: ImageID, stdin: seq<byte>, steps: seq<Step>) returns (child: Guest)
    requires parent.Synced() && parent.host.status.Running?
    requires Runnable(steps, stdin) && Verified(steps) == [] && |Committed(steps)| + 9 <= MAX_SLICE
    modifies parent, parent.bufferData, parent.shaBlock, parent.host
    ensures child.host.status.Halted? && child.host.status.code == 0
    ensures parent.Synced() && child.host.journal == Committed(steps)
    ensures parent.host.status.Running? ==>
              parent.host.log == old(parent.host.log)
                + [Assumption(ReceiptClaim(parent.H(), id, child.host.status.digest), ZERO)]
  {
    hide HashWith, ClaimDigest, ReceiptClaim, ChildOutput, Committed, Verified, Guest.Synced;
    child := RunChild(parent.host.compress, parent.host.receipts, stdin, steps);
    ClaimIsReceipt(parent.H(), Child(id, child.host.journal));
    parent.Verify(id, child.host.journal);
  }

  /** A run that verifies nothing always reaches its halt. */
  method RunChild(c: Compressor, receipts: set<(Digest, Digest)>, stdin: seq<byte>, steps: seq<Step>)
      returns (child: Guest)
    requires Runnable(steps, stdin) && Verified(steps) == []
    ensures fresh(child) && fresh(child.host) && child.host.journal == Committed(steps)
    ensures child.host.status == Halted(0, ChildOutput(HashWith(c), Committed(steps)))
  {
    NoVerifyCalls(steps);
    hide HashWith, HaltDigest, HaltMessages, Covered, LogOf, RunDigest, ChildOutput, Committed, Verified, Guest.Valid;
    var done;
    ParentAgreesWithChild(HashWith(c), Zeros(32), steps);
    child, done := Run(c, receipts, stdin, steps, 0);
    assert done == |steps| && steps[..done] == steps;
  }

  lemma {:induction false} NoVerifyCalls(steps: seq<Step>)
    requires Verified(steps) == []
    ensures forall i :: 0 <= i < |steps| ==> !steps[i].Verify?
    decreases |steps|
  {
    if steps != [] {
      NoVerifyCalls(steps[..|steps| - 1]);
      forall i | 0 <= i < |steps|
        ensures !steps[i].Verify?
      {
        assert i < |steps| - 1 ==> steps[i] == steps[..|steps| - 1][i];
      }
    }
  }
}

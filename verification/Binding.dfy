/** What equal digests imply, level by level, down to the whole run.

    Every alternative to equality is concrete: two different messages with the same hash
    among those hashed for the two digests, which yields two different compression calls
    with the same result, or a list cell whose digest is the zero digest of the empty list.
  */
module Binding {
  import opened Bytes
  import opened Sha
  import opened Tagged
  import opened Claims
  import opened Text

  lemma {:induction false} OutputBinds(h: HashFunction, j: seq<byte>, a: Digest, j': seq<byte>, a': Digest)
    requires |j| < MAX_BYTES && |j'| < MAX_BYTES
    requires OutputDigest(h, h(j), a) == OutputDigest(h, h(j'), a')
    ensures (j == j' && a == a') || Clash(h, OutputMessages(h, j, a), OutputMessages(h, j', a'))
  {
    MessagesInOutput(h, j, a);
    MessagesInOutput(h, j', a');
    TagsAreShort();
    hide Utf8, TaggedStruct, TaggedMessages, OutputMessages, Clash;
    var p, p' := [h(j), a], [h(j'), a'];
    TaggedStructBinds(h, OUTPUT, p, [], OUTPUT, p', []);
    if p != p' {
      ClashGrows(h, TaggedMessages(h, OUTPUT, p, []), TaggedMessages(h, OUTPUT, p', []),
        OutputMessages(h, j, a), OutputMessages(h, j', a'));
    } else {
      assert p[0] == p'[0] && p[1] == p'[1];
      if j != j' {
        ClashAt(h, OutputMessages(h, j, a), OutputMessages(h, j', a'), j, j');
      }
    }
  }

  lemma {:induction false} MessagesInOutput(h: HashFunction, j: seq<byte>, a: Digest)
    ensures j in OutputMessages(h, j, a)
    ensures TaggedMessages(h, OUTPUT, [h(j), a], []) <= OutputMessages(h, j, a)
  {
    hide Utf8, TaggedMessages;
  }

  lemma {:induction false} ClashAt(h: HashFunction, a: set<seq<byte>>, b: set<seq<byte>>, m: seq<byte>, n: seq<byte>)
    requires m in a && n in b && m != n && h(m) == h(n) && |m| < MAX_BYTES && |n| < MAX_BYTES
    ensures Clash(h, a, b)
  {
  }

  function ClaimParts(h: HashFunction, x: Child): (ds: seq<Digest>)
    ensures |ds| == 4
  {
    [ZERO, ImageWords(x.imageID), PostState(h), ChildOutput(h, x.journal)]
  }

  lemma {:induction false} MessagesInClaim(h: HashFunction, x: Child)
    ensures ClaimDigest(h, x) == TaggedStruct(h, RECEIPT_CLAIM, ClaimParts(h, x), [0, 0])
    ensures TaggedMessages(h, RECEIPT_CLAIM, ClaimParts(h, x), [0, 0]) <= ClaimMessages(h, x)
    ensures OutputMessages(h, x.journal, ZERO) <= ClaimMessages(h, x)
  {
    hide Utf8, TaggedStruct, TaggedMessages, OutputMessages, OutputDigest, PostState;
  }

  /** A claim digest determines the image and the journal of the child. */
  lemma {:induction false} ClaimBinds(h: HashFunction, x: Child, y: Child)
    requires |x.journal| < MAX_BYTES && |y.journal| < MAX_BYTES
    requires ClaimDigest(h, x) == ClaimDigest(h, y)
    ensures x == y || Clash(h, ClaimMessages(h, x), ClaimMessages(h, y))
  {
    MessagesInClaim(h, x);
    MessagesInClaim(h, y);
    TagsAreShort();
    hide Utf8, Clash, TaggedStruct, TaggedMessages, OutputDigest, OutputMessages, PostState, ClaimMessages, ClaimDigest;
    var p, q := ClaimParts(h, x), ClaimParts(h, y);
    var a, b := ClaimMessages(h, x), ClaimMessages(h, y);
    TaggedStructBinds(h, RECEIPT_CLAIM, p, [0, 0], RECEIPT_CLAIM, q, [0, 0]);
    if p != q {
      ClashGrows(h, TaggedMessages(h, RECEIPT_CLAIM, p, [0, 0]), TaggedMessages(h, RECEIPT_CLAIM, q, [0, 0]), a, b);
    } else {
      assert p[1] == q[1] && p[3] == q[3];
      OutputBinds(h, x.journal, ZERO, y.journal, ZERO);
      if x.journal != y.journal {
        ClashGrows(h, OutputMessages(h, x.journal, ZERO), OutputMessages(h, y.journal, ZERO), a, b);
      }
    }
  }

  lemma {:induction false} MessagesInCons(h: HashFunction, a: Assumption, t: Digest)
    ensures Cons(h, a, t) == TaggedStruct(h, ASSUMPTIONS, [AssumptionDigest(h, a), t], [])
    ensures TaggedMessages(h, ASSUMPTIONS, [AssumptionDigest(h, a), t], []) <= ConsMessages(h, a, t)
    ensures AssumptionDigest(h, a) == TaggedStruct(h, ASSUMPTION, [a.claim, a.controlRoot], [])
    ensures TaggedMessages(h, ASSUMPTION, [a.claim, a.controlRoot], []) <= ConsMessages(h, a, t)
  {
    hide Utf8, TaggedStruct, TaggedMessages;
  }

  lemma {:induction false} ConsBinds(h: HashFunction, a: Assumption, t: Digest, b: Assumption, u: Digest)
    requires Cons(h, a, t) == Cons(h, b, u)
    ensures (a == b && t == u) || Clash(h, ConsMessages(h, a, t), ConsMessages(h, b, u))
  {
    hide Utf8, TaggedStruct, TaggedMessages, AssumptionDigest, Cons, ConsMessages, Clash;
    TagsAreShort();
    MessagesInCons(h, a, t);
    MessagesInCons(h, b, u);
    var p, q := [AssumptionDigest(h, a), t], [AssumptionDigest(h, b), u];
    var r, s := [a.claim, a.controlRoot], [b.claim, b.controlRoot];
    TaggedStructBinds(h, ASSUMPTIONS, p, [], ASSUMPTIONS, q, []);
    if p != q {
      ClashGrows(h, TaggedMessages(h, ASSUMPTIONS, p, []), TaggedMessages(h, ASSUMPTIONS, q, []),
        ConsMessages(h, a, t), ConsMessages(h, b, u));
    } else {
      assert p[0] == q[0] && p[1] == q[1];
      TaggedStructBinds(h, ASSUMPTION, r, [], ASSUMPTION, s, []);
      if r != s {
        ClashGrows(h, TaggedMessages(h, ASSUMPTION, r, []), TaggedMessages(h, ASSUMPTION, s, []),
          ConsMessages(h, a, t), ConsMessages(h, b, u));
      } else {
        assert r[0] == s[0] && r[1] == s[1];
      }
    }
  }

  // ---------- Resolving a list ----------

  /** One step of a resolver: the head it claims, and the digest of the rest. */
  datatype Opening = Opening(head: Assumption, tail: Digest)

  /** Peeling heads off a list digest, newest first, until the empty list. */
  predicate Resolves(h: HashFunction, root: Digest, ops: seq<Opening>)
    decreases |ops|
  {
    if ops == [] then root == ZERO
    else root == Cons(h, ops[0].head, ops[0].tail) && Resolves(h, ops[0].tail, ops[1..])
  }

  function Heads(ops: seq<Opening>): (log: seq<Assumption>)
    ensures |log| == |ops|
    decreases |ops|
  {
    if ops == [] then [] else Heads(ops[1..]) + [ops[0].head]
  }

  function OpeningMessages(h: HashFunction, ops: seq<Opening>): set<seq<byte>>
    decreases |ops|
  {
    if ops == [] then {} else OpeningMessages(h, ops[1..]) + ConsMessages(h, ops[0].head, ops[0].tail)
  }

  /** The openings that the log itself provides. */
  function HonestOpenings(h: HashFunction, log: seq<Assumption>): (ops: seq<Opening>)
    ensures |ops| == |log|
    decreases |log|
  {
    if log == [] then []
    else
      var n := |log| - 1;
      [Opening(log[n], ListDigest(h, log[..n]))] + HonestOpenings(h, log[..n])
  }

  /** The log's own openings resolve its list digest: peeling newest first consumes
      exactly the logged entries, in reverse order, and ends at the zero digest. */
  lemma {:induction false} HonestOpeningsResolve(h: HashFunction, log: seq<Assumption>)
    ensures Resolves(h, ListDigest(h, log), HonestOpenings(h, log))
    ensures Heads(HonestOpenings(h, log)) == log
    decreases |log|
  {
    hide Cons, ListDigest, HonestOpenings;
    if log == [] {
      HonestEmpty(h);
    } else {
      HonestStep(h, log);
      HonestOpeningsResolve(h, log[..|log| - 1]);
      LastSplits(log);
    }
  }

  lemma {:induction false} LastSplits<T>(s: seq<T>)
    requires s != []
    ensures s == s[..|s| - 1] + [s[|s| - 1]]
  {
  }

  lemma {:induction false} HonestEmpty(h: HashFunction)
    ensures HonestOpenings(h, []) == [] && ListDigest(h, []) == ZERO && ListMessages(h, []) == {}
  {
  }

  lemma {:induction false} HonestMessages(h: HashFunction, log: seq<Assumption>)
    ensures OpeningMessages(h, HonestOpenings(h, log)) == ListMessages(h, log)
    decreases |log|
  {
    hide Cons, ConsMessages, ListDigest, HonestOpenings, ListMessages;
    if log == [] {
      HonestEmpty(h);
    } else {
      HonestStep(h, log);
      HonestMessages(h, log[..|log| - 1]);
    }
  }

  lemma {:induction false} HonestStep(h: HashFunction, log: seq<Assumption>)
    requires log != []
    ensures var n, ops := |log| - 1, HonestOpenings(h, log);
            && ops[0] == Opening(log[n], ListDigest(h, log[..n]))
            && ops[1..] == HonestOpenings(h, log[..n])
            && ListDigest(h, log) == Cons(h, log[n], ListDigest(h, log[..n]))
            && ListMessages(h, log) == ListMessages(h, log[..n]) + ConsMessages(h, log[n], ListDigest(h, log[..n]))
  {
    hide Cons, ConsMessages;
  }

  /** Some list cell built for this log hashes to the digest of the empty list. */
  ghost predicate ZeroCell(h: HashFunction, log: seq<Assumption>) {
    exists k :: 0 < k <= |log| && ListDigest(h, log[..k]) == ZERO
  }

  /** Some opening presents a cell that hashes to the digest of the empty list. */
  ghost predicate ZeroOpening(h: HashFunction, ops: seq<Opening>) {
    exists k :: 0 <= k < |ops| && Cons(h, ops[k].head, ops[k].tail) == ZERO
  }

  /** Only the logged claims, in the logged order, can resolve the list digest of a log. */
  lemma {:induction false} ResolutionIsUnique(h: HashFunction, log: seq<Assumption>, ops: seq<Opening>)
    requires Resolves(h, ListDigest(h, log), ops)
    ensures || Heads(ops) == log
            || Clash(h, ListMessages(h, log), OpeningMessages(h, ops))
            || ZeroCell(h, log)
            || ZeroOpening(h, ops)
    decreases |ops|
  {
    hide Cons, ConsMessages;
    if ops == [] {
      if log != [] {
        assert log[..|log|] == log;
      }
    } else if log == [] {
      assert Cons(h, ops[0].head, ops[0].tail) == ZERO;
    } else {
      var n := |log| - 1;
      ConsBinds(h, log[n], ListDigest(h, log[..n]), ops[0].head, ops[0].tail);
      if log[n] == ops[0].head && ListDigest(h, log[..n]) == ops[0].tail {
        ResolutionIsUnique(h, log[..n], ops[1..]);
        ResolutionStep(h, log, ops);
      } else {
        ClashGrows(h, ConsMessages(h, log[n], ListDigest(h, log[..n])), ConsMessages(h, ops[0].head, ops[0].tail),
          ListMessages(h, log), OpeningMessages(h, ops));
      }
    }
  }

  lemma {:induction false} ResolutionStep(h: HashFunction, log: seq<Assumption>, ops: seq<Opening>)
    requires log != [] && ops != [] && log[|log| - 1] == ops[0].head
    requires || Heads(ops[1..]) == log[..|log| - 1]
             || Clash(h, ListMessages(h, log[..|log| - 1]), OpeningMessages(h, ops[1..]))
             || ZeroCell(h, log[..|log| - 1])
             || ZeroOpening(h, ops[1..])
    ensures || Heads(ops) == log
            || Clash(h, ListMessages(h, log), OpeningMessages(h, ops))
            || ZeroCell(h, log)
            || ZeroOpening(h, ops)
  {
    hide Cons, ConsMessages, Clash, ZeroCell, ZeroOpening;
    var n := |log| - 1;
    if Heads(ops[1..]) == log[..n] {
      LastSplits(log);
    } else if Clash(h, ListMessages(h, log[..n]), OpeningMessages(h, ops[1..])) {
      ClashGrows(h, ListMessages(h, log[..n]), OpeningMessages(h, ops[1..]), ListMessages(h, log), OpeningMessages(h, ops));
    } else if ZeroCell(h, log[..n]) {
      ZeroCellGrows(h, log, n);
    } else {
      ZeroOpeningGrows(h, ops);
    }
  }

  lemma {:induction false} ZeroCellGrows(h: HashFunction, log: seq<Assumption>, n: nat)
    requires n <= |log| && ZeroCell(h, log[..n])
    ensures ZeroCell(h, log)
  {
    hide ListDigest;
    var k :| 0 < k <= n && ListDigest(h, log[..n][..k]) == ZERO;
    assert log[..n][..k] == log[..k];
  }

  lemma {:induction false} ZeroOpeningGrows(h: HashFunction, ops: seq<Opening>)
    requires ops != [] && ZeroOpening(h, ops[1..])
    ensures ZeroOpening(h, ops)
  {
    hide Cons;
    var k :| 0 <= k < |ops[1..]| && Cons(h, ops[1..][k].head, ops[1..][k].tail) == ZERO;
    assert ops[1..][k] == ops[k + 1];
  }

  lemma {:induction false} HonestZero(h: HashFunction, log: seq<Assumption>)
    requires ZeroOpening(h, HonestOpenings(h, log))
    ensures ZeroCell(h, log)
    decreases |log|
  {
    hide Cons;
    var ops, n := HonestOpenings(h, log), |log| - 1;
    var k :| 0 <= k < |ops| && Cons(h, ops[k].head, ops[k].tail) == ZERO;
    if k == 0 {
      assert log[..|log|] == log;
    } else {
      assert ops[k] == HonestOpenings(h, log[..n])[k - 1];
      HonestZero(h, log[..n]);
      ZeroCellGrows(h, log, n);
    }
  }

  /** Equal list digests come from equal logs. */
  lemma {:induction false} ListBinds(h: HashFunction, log: seq<Assumption>, log': seq<Assumption>)
    requires ListDigest(h, log) == ListDigest(h, log')
    ensures || log == log'
            || Clash(h, ListMessages(h, log), ListMessages(h, log'))
            || ZeroCell(h, log)
            || ZeroCell(h, log')
  {
    hide ListDigest, ListMessages, HonestOpenings, OpeningMessages, Heads, Resolves, ZeroCell, ZeroOpening, Clash;
    HonestOpeningsResolve(h, log');
    HonestMessages(h, log');
    ResolutionIsUnique(h, log, HonestOpenings(h, log'));
    if ZeroOpening(h, HonestOpenings(h, log')) {
      HonestZero(h, log');
    }
  }

  // ---------- Whole runs ----------

  /** Every journal that a run hashes is short enough for its bit count. */
  predicate ShortJournals(children: seq<Child>) {
    forall i :: 0 <= i < |children| ==> |children[i].journal| < MAX_BYTES
  }

  /** Equal logs come from Verify calls on the same children in the same order. */
  lemma {:induction false} LogBinds(h: HashFunction, xs: seq<Child>, ys: seq<Child>)
    requires ShortJournals(xs) && ShortJournals(ys)
    requires LogOf(h, xs) == LogOf(h, ys)
    ensures xs == ys || Clash(h, AllClaimMessages(h, xs), AllClaimMessages(h, ys))
    decreases |xs|
  {
    hide ShortJournals, ClaimDigest, ClaimMessages, LogOf, AllClaimMessages, Clash;
    assert |LogOf(h, xs)| == |xs| && |LogOf(h, ys)| == |ys|;
    if xs != [] {
      var n := |xs| - 1;
      var xs', ys', x, y := xs[..n], ys[..n], xs[n], ys[n];
      ShortPrefix(xs);
      ShortPrefix(ys);
      LogPrefix(h, xs, ys);
      LogBinds(h, xs', ys');
      ClaimBinds(h, x, y);
      LogBindsStep(h, xs, ys);
    }
  }

  lemma {:induction false} ShortPrefix(xs: seq<Child>)
    requires ShortJournals(xs) && xs != []
    ensures ShortJournals(xs[..|xs| - 1]) && |xs[|xs| - 1].journal| < MAX_BYTES
  {
  }

  lemma {:induction false} LogPrefix(h: HashFunction, xs: seq<Child>, ys: seq<Child>)
    requires xs != [] && LogOf(h, xs) == LogOf(h, ys)
    ensures |xs| == |ys|
    ensures var n := |xs| - 1;
            && LogOf(h, xs[..n]) == LogOf(h, ys[..n])
            && ClaimDigest(h, xs[n]) == ClaimDigest(h, ys[n])
  {
    hide ClaimDigest, ClaimMessages;
    assert |LogOf(h, ys)| == |ys| == |xs|;
    LogSnoc(h, xs);
    LogSnoc(h, ys);
    hide LogOf;
  }

  lemma {:induction false} LogBindsStep(h: HashFunction, xs: seq<Child>, ys: seq<Child>)
    requires |xs| == |ys| > 0
    requires var n := |xs| - 1;
             && (xs[..n] == ys[..n] || Clash(h, AllClaimMessages(h, xs[..n]), AllClaimMessages(h, ys[..n])))
             && (xs[n] == ys[n] || Clash(h, ClaimMessages(h, xs[n]), ClaimMessages(h, ys[n])))
    ensures xs == ys || Clash(h, AllClaimMessages(h, xs), AllClaimMessages(h, ys))
  {
    hide ClaimMessages, Clash;
    var n, a, b := |xs| - 1, AllClaimMessages(h, xs), AllClaimMessages(h, ys);
    if Clash(h, AllClaimMessages(h, xs[..n]), AllClaimMessages(h, ys[..n])) {
      ClashGrows(h, AllClaimMessages(h, xs[..n]), AllClaimMessages(h, ys[..n]), a, b);
    } else if xs[n] != ys[n] {
      ClashGrows(h, ClaimMessages(h, xs[n]), ClaimMessages(h, ys[n]), a, b);
    } else {
      assert xs == xs[..n] + [xs[n]] && ys == ys[..n] + [ys[n]];
    }
  }

  lemma {:induction false} LogSnoc(h: HashFunction, xs: seq<Child>)
    requires xs != []
    ensures var n := |xs| - 1;
            && LogOf(h, xs)[..n] == LogOf(h, xs[..n])
            && LogOf(h, xs)[n].claim == ClaimDigest(h, xs[n])
            && AllClaimMessages(h, xs) == AllClaimMessages(h, xs[..n]) + ClaimMessages(h, xs[n])
  {
    hide ClaimDigest, ClaimMessages;
  }

  /** Two runs with the same halt digest committed the same journal and called Verify on
      the same children in the same order; otherwise the messages hashed for the two
      digests clash, or a list cell of one run hashes to the zero digest. */
  lemma {:induction false} HaltDigestBinds(
      h: HashFunction, journal: seq<byte>, children: seq<Child>, journal': seq<byte>, children': seq<Child>)
    requires |journal| < MAX_BYTES && |journal'| < MAX_BYTES
    requires ShortJournals(children) && ShortJournals(children')
    requires HaltDigest(h, journal, LogOf(h, children)) == HaltDigest(h, journal', LogOf(h, children'))
    ensures || (journal == journal' && children == children')
            || Clash(h, HaltMessages(h, journal, children), HaltMessages(h, journal', children'))
            || ZeroCell(h, LogOf(h, children))
            || ZeroCell(h, LogOf(h, children'))
  {
    hide OutputDigest, OutputMessages, ListDigest, ListMessages, AllClaimMessages, LogOf, ZeroCell, Clash;
    var log, log' := LogOf(h, children), LogOf(h, children');
    var d, d' := ListDigest(h, log), ListDigest(h, log');
    var a, b := HaltMessages(h, journal, children), HaltMessages(h, journal', children');
    OutputBinds(h, journal, d, journal', d');
    if Clash(h, OutputMessages(h, journal, d), OutputMessages(h, journal', d')) {
      ClashGrows(h, OutputMessages(h, journal, d), OutputMessages(h, journal', d'), a, b);
    } else {
      ListBinds(h, log, log');
      if Clash(h, ListMessages(h, log), ListMessages(h, log')) {
        ClashGrows(h, ListMessages(h, log), ListMessages(h, log'), a, b);
      } else if log == log' {
        LogBinds(h, children, children');
        if children != children' {
          ClashGrows(h, AllClaimMessages(h, children), AllClaimMessages(h, children'), a, b);
        }
      }
    }
  }

  // ---------- Down to the compression function ----------

  /** Two different compression calls with the same result, made while hashing a message
      of each set. */
  ghost predicate CompressionCollision(c: Compressor, a: set<seq<byte>>, b: set<seq<byte>>) {
    exists m, n :: m in a && n in b && Collide(c, HashCalls(c, IV, m), HashCalls(c, IV, n))
  }

  lemma {:induction false} ClashIsCollision(c: Compressor, a: set<seq<byte>>, b: set<seq<byte>>)
    requires Clash(HashWith(c), a, b)
    ensures CompressionCollision(c, a, b)
  {
    hide Hash, HashCalls, Collide;
    var h := HashWith(c);
    var m, n :| m in a && n in b && m != n && h(m) == h(n) && |m| < MAX_BYTES && |n| < MAX_BYTES;
    EqualHashesCollide(c, IV, m, n);
  }

  /** Whole-run binding for the guest's own hash: equal halt digests mean the same journal
      and the same verified children in the same order, or two different compression calls
      behind the two digests have the same result, or a list cell hashes to zero. */
  lemma {:induction false} HaltDigestBindsRun(
      c: Compressor, journal: seq<byte>, children: seq<Child>, journal': seq<byte>, children': seq<Child>)
    requires |journal| < MAX_BYTES && |journal'| < MAX_BYTES
    requires ShortJournals(children) && ShortJournals(children')
    requires var h := HashWith(c);
             HaltDigest(h, journal, LogOf(h, children)) == HaltDigest(h, journal', LogOf(h, children'))
    ensures var h := HashWith(c);
            || (journal == journal' && children == children')
            || CompressionCollision(c, HaltMessages(h, journal, children), HaltMessages(h, journal', children'))
            || ZeroCell(h, LogOf(h, children))
            || ZeroCell(h, LogOf(h, children'))
  {
    var h := HashWith(c);
    hide HashWith, HaltDigest, HaltMessages, LogOf, ZeroCell, Clash;
    HaltDigestBinds(h, journal, children, journal', children');
    if Clash(h, HaltMessages(h, journal, children), HaltMessages(h, journal', children')) {
      ClashIsCollision(c, HaltMessages(h, journal, children), HaltMessages(h, journal', children'));
    }
  }

  /** The same for a resolver: whoever peels the list digest of a run down to the zero
      digest has named exactly the registered claims. */
  lemma {:induction false} ResolutionNamesRegisteredClaims(c: Compressor, log: seq<Assumption>, ops: seq<Opening>)
    requires Resolves(HashWith(c), ListDigest(HashWith(c), log), ops)
    ensures var h := HashWith(c);
            || Heads(ops) == log
            || CompressionCollision(c, ListMessages(h, log), OpeningMessages(h, ops))
            || ZeroCell(h, log)
            || ZeroOpening(h, ops)
  {
    var h := HashWith(c);
    hide HashWith, ListDigest, ListMessages, OpeningMessages, ZeroCell, ZeroOpening, Clash;
    ResolutionIsUnique(h, log, ops);
    if Clash(h, ListMessages(h, log), OpeningMessages(h, ops)) {
      ClashIsCollision(c, ListMessages(h, log), OpeningMessages(h, ops));
    }
  }
}

/** The host side of a guest run: the syscalls of the zkVM platform and the state that
    they read and write.
  */
module Hosts {
  import opened Bytes
  import opened Sha
  import opened Claims

  /** A run goes on until the guest halts, or until the host has no receipt for a claim. */
  datatype Status = Running | Stopped | Halted(code: byte, digest: Digest)

  class Host {
    const compress: Compressor
    /** The (claim, control root) pairs for which the host holds a receipt. */
    const receipts: set<(Digest, Digest)>

    var stdin: seq<byte>
    var stdout: seq<byte>
    var stderr: seq<byte>
    var journal: seq<byte>
    var log: seq<Assumption>
    var status: Status
    /** Every compression call made so far. */
    ghost var calls: set<Call>

    constructor (compress: Compressor, receipts: set<(Digest, Digest)>, stdin: seq<byte>)
      ensures this.compress == compress && this.receipts == receipts && this.stdin == stdin
      ensures stdout == [] && stderr == [] && journal == [] && log == [] && status == Running && calls == {}
    {
      this.compress, this.receipts, this.stdin := compress, receipts, stdin;
      stdout, stderr, journal, log, status := [], [], [], [], Running;
      calls := {};
    }

    /** sys_read: the next `len` bytes of stdin. */
    method SysRead(len: nat) returns (bs: seq<byte>)
      requires status.Running? && len <= |stdin|
      modifies this`stdin
      ensures bs == old(stdin)[..len] && stdin == old(stdin)[len..]
    {
      bs := stdin[..len];
      stdin := stdin[len..];
    }

    /** sys_write to file descriptor 1, 2 or 3. */
    method SysWrite(fd: nat, bs: seq<byte>)
      requires status.Running? && 1 <= fd <= 3
      modifies this`stdout, this`stderr, this`journal
      ensures stdout == if fd == 1 then old(stdout) + bs else old(stdout)
      ensures stderr == if fd == 2 then old(stderr) + bs else old(stderr)
      ensures journal == if fd == 3 then old(journal) + bs else old(journal)
    {
      match fd
      case 1 => stdout := stdout + bs;
      case 2 => stderr := stderr + bs;
      case _ => journal := journal + bs;
    }

    /** sys_verify_integrity: logs the claim, or ends the run when there is no receipt. */
    method SysVerifyIntegrity(claim: Digest, controlRoot: Digest)
      requires status.Running?
      modifies this`log, this`status
      ensures (claim, controlRoot) in receipts ==>
                log == old(log) + [Assumption(claim, controlRoot)] && status.Running?
      ensures (claim, controlRoot) !in receipts ==> log == old(log) && status.Stopped?
    {
      if (claim, controlRoot) in receipts {
        log := log + [Assumption(claim, controlRoot)];
      } else {
        status := Stopped;
      }
    }

    /** sys_halt does not return to the guest. */
    method SysHalt(code: byte, digest: Digest)
      requires status.Running?
      modifies this`status
      ensures status == Halted(code, digest)
    {
      status := Halted(code, digest);
    }

    /** sys_sha_compress: one block, passed as two halves. */
    method SysShaCompress(inState: Digest, block1: seq<byte>, block2: seq<byte>) returns (outState: Digest)
      requires |block1| == 32 && |block2| == 32
      modifies this`calls
      ensures calls == old(calls) + {Call(inState, block1 + block2)}
      ensures outState == compress(inState, block1 + block2)
    {
      outState := compress(inState, block1 + block2);
      calls := calls + {Call(inState, block1 + block2)};
    }

    /** sys_sha_buffer: `count` consecutive blocks. */
    method SysShaBuffer(inState: Digest, buf: seq<byte>, count: nat) returns (outState: Digest)
      requires |buf| == 64 * count
      modifies this`calls
      ensures calls == old(calls) + Calls(compress, inState, Blocks(buf))
      ensures outState == Fold(compress, inState, Blocks(buf))
    {
      outState := Fold(compress, inState, Blocks(buf));
      calls := calls + Calls(compress, inState, Blocks(buf));
    }
  }
}

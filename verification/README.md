# Verification of go-zkvm's guest digests and wire formats

go-zkvm lets Go programs run as RISC Zero guests. A guest reads a private witness, commits
bytes to a public journal, may call `Verify` on the journals of other proofs, and halts with
one 32-byte digest that stands for all of it. This project models that machinery and proves
what the digest means, together with the byte formats that guest, host and build tools share.

The compression function is a platform syscall. It is a parameter everywhere, so every theorem
holds for any compression function, and a collision is always a pair of different calls among
those that the two computations at hand make.

| file | content |
|---|---|
| `Bytes.dfy`, `Text.dfy`, `Wrappers.dfy` | machine integers, little- and big-endian bytes, UTF-8, option types |
| `Align.dfy` | rounding with a bit mask in 32-bit signed arithmetic |
| `Sha.dfy` | blocks, padding, iterated compression, what equal hashes imply |
| `Fips.dfy` | FIPS 180-4 as an independent reference, and the documented form of tagged digests |
| `Tagged.dfy` | tagged structs: unique reading, where the 16-bit count becomes ambiguous, binding |
| `Claims.dfy`, `Binding.dfy` | receipt claims, the assumption list, the halt digest, and what they determine |
| `Host.dfy`, `Guest.dfy` | the syscalls, and the guest library as a class over its globals |
| `Runs.dfy` | whole runs under any interleaving of API calls |
| `HostCodec.dfy`, `Examples.dfy` | the reference host's codecs and two example guests, end to end |
| `R0bf.dfy`, `Hex.dfy`, `Paths.dfy` | the R0BF container, hexadecimal text, derivation paths |

## How to read it

`Guests.Guest` has the fields of the Go globals. Its ghost fields `absorbed`, `assumed` and
`children` say what the running hasher and the running assumption digest stand for; `Synced`
says that they agree with what the host has seen. Every API method keeps `Synced`, so a run's
result is stated in terms of the journal and the list of children alone. Some Go functions
are written as several methods, one per phase: `UpdateProperHasher` is `TopUp`,
`AbsorbBlocks` and `BufferTail`; `FinalizeProperHasher` is `FinishJournal` and `FinishOutput`;
`Verify` is `ChildOutputOf`, `ClaimOf` and `AddAssumptionDigest`; the padding that
`FinalizeProperHasher` and `shaBuffer` both write out is `PadBuffer`. Whether a block of the
input is word-aligned is an arbitrary choice at every iteration.

Digests that are only composed are functions over an arbitrary hash of byte strings
(`HashFunction`); `Sha.HashWith(c)` is the guest's. `Host.calls` records every compression
call, so the binding theorem for two executions names calls that those executions made.

Assumptions about the platform: `sys_write` appends, `sys_read` delivers the next bytes,
`sys_verify_integrity` either logs its arguments or ends the run, `sys_halt` does not return,
`sys_sha_buffer` is the compression function iterated over the given blocks. Memory is
little-endian and `int` has 32 bits in the guest, 64 in the host tools.

## Where code and documentation differ

The model follows the code.

- The assumption list has the newest entry outermost (zkvm/sha256_proper.go:394-398); the
  comment at 370-375 lists entry 0 first.
- The scalar words of a receipt claim are two zeros (zkvm/verify.go:79); the comment at 73-75
  lists an exit code and an input.
- The policy journal has 40 bytes (go-guest-host/src/main.rs:24), not the 28 of
  docs/tutorial.md:466.
- The bit count in the padding is 32 bits wide (zkvm/sha256_proper.go:187-196, 320-326), not
  the 64-bit trailer of the comment at 230-231. `Fips.PaddingIsStandard` says exactly when
  this matters.
- `Halt` passes the running assumptions digest (zkvm/sha256_proper.go:214-217), not the empty
  one of zkvm/zkvm.go:114.
- The hasher is also initialised lazily by `Verify` and by `FinalizeProperHasher`, not only by
  the first `Commit` as docs/tutorial.md describes.

## Model

| member | source | states |
|---|---|---|
| Align.AlignUpIsLeastMultiple | zkvm/sha256_proper.go:246-249 | for every power of two, the mask form is the least multiple not below the address if and only if the addition does not overflow; on overflow the result is negative |
| Align.PaddedLengthIsLeastMultiple | zkvm/sha256_proper.go:229-244 | the padded length is the least multiple of 64 that is at least n + 9, for exactly the n where that number is an int, and is then never zero |
| Sha.TailPaddingIsWholePadding | zkvm/sha256_proper.go:168-196 | padding the leftover bytes with the total bit count gives exactly the last blocks of the padded whole message |
| Sha.HashFromTail | zkvm/sha256_proper.go:165-210 | finishing from the running state of the full blocks gives the hash of the whole message and makes exactly the same compression calls |
| Sha.PaddedInjective | zkvm/sha256_proper.go:304-326 | padded texts are equal only for equal messages, at every length, despite the 32-bit count |
| Sha.EqualFoldsCollide | zkvm/sha256_proper.go:328-345 | two block sequences with equal results contain two different calls with one result, or the longer one returned to the initial state |
| Sha.EqualHashesCollideOrReturn | zkvm/sha256_proper.go:301-346 | the same for any two different messages of any lengths |
| Sha.EqualHashesCollide | zkvm/sha256_proper.go:301-346 | two different messages below 2^29 bytes with equal hashes always contain a collision of the compression function |
| Fips.PaddingIsStandard | zkvm/sha256_proper.go:229-244 | within the standard's message limit, the padding is that of FIPS 180-4 section 5.1.1 if and only if the message is shorter than 2^29 bytes |
| Sha.PaddedBytes | zkvm/sha256_proper.go:304-326 | the padded text byte by byte: message, 0x80, zeros, low 32 bits of the bit count, in the least multiple of 64 with room for nine more bytes |
| Sha.BlockAt | zkvm/sha256_proper.go:328-345 | block i is bytes 64i to 64i + 64 |
| Sha.CallsAreOfLoop | zkvm/sha256_proper.go:328-345 | the recorded calls are exactly those of the block loop: block i from the state after the first i blocks |
| Fips.InitialValue | zkvm/sha256_proper.go:42-57 | the eight decimal constants are the initial value of FIPS 180-4 section 5.3.3 with the bytes of each word reversed |
| Fips.InitialIsSquareRoots | zkvm/sha256_proper.go:42-57 | the initial value is the first 32 fractional bits of the square roots of the first eight primes, as section 5.3.3 defines it |
| Fips.BlockWordsAreBigEndian | zkvm/sha256_proper.go:141-156 | word t of a block holds bytes 4t to 4t + 3, most significant first, as section 5.2.1 of FIPS 180-4 parses it |
| Fips.FoldIsValue | zkvm/sha256_proper.go:141-156 | after every block the guest's state is the intermediate hash value of FIPS 180-4 section 6.2.2 with reversed words |
| Fips.HashIsSha256 | zkvm/sha256_proper.go:223-227 | below 2^29 bytes the digest bytes of the one-shot hash are the SHA-256 digest |
| Fips.TaggedStructIsDocumented | zkvm/sha256_proper.go:251-296 | a tagged digest is SHA-256 of the tag's SHA-256, the digest bytes, the words and the count |
| Fips.PlainHaltDigest | docs/tutorial.md:636-645 | a guest that verified nothing halts with SHA-256 of: the SHA-256 of the twelve bytes of the tag, the SHA-256 of its journal, 32 zero bytes and 02 00 |
| Fips.HaltDigestIsDocumented | zkvm/sha256_proper.go:212-220 | the same for any log: the digest of the assumption list takes the place of the zero bytes; the tag is given by its bytes |
| Fips.ClaimIsDocumented | zkvm/verify.go:51-80 | the claim of a child as SHA-256 of explicit bytes, down to its image ID, its journal and the bytes of the three tags |
| Fips.ConsIsDocumented | zkvm/sha256_proper.go:377-399 | a list cell as SHA-256 of explicit bytes: the tags, the entry, then the rest of the list |
| Claims.LogAt | zkvm/verify.go:82-88 | entry i of the log is the claim of child i with the zero control root |
| Tagged.ParsePreimage | zkvm/sha256_proper.go:271-295 | below 65536 digests, the hashed bytes determine tag digest, digests and words |
| Tagged.PreimageParse | zkvm/sha256_proper.go:271-295 | whatever parses is the preimage of its parts, so reading and writing are inverse |
| Tagged.AmbiguousExactlyAtWrap | zkvm/sha256_proper.go:292-293 | another struct with the same bytes exists if and only if there are 65536 digests, or words for 65536 digests, or more |
| Tagged.TaggedStructBinds | zkvm/sha256_proper.go:263-296 | equal tagged digests have equal tags, digests and words, or two different hashed messages have one hash |
| Binding.ClaimBinds | zkvm/verify.go:51-80 | a claim digest determines the image ID and the journal of the child |
| Binding.HonestOpeningsResolve | zkvm/sha256_proper.go:389-399 | peeling the list digest newest first consumes exactly the logged entries in reverse order and ends at the zero digest |
| Binding.ResolutionIsUnique | docs/tutorial.md:1613-1636 | any openings that peel a log's list digest down to zero name exactly the logged entries in order, or expose a hash clash or a cell that hashes to zero |
| Binding.ResolutionNamesRegisteredClaims | docs/tutorial.md:1613-1636 | the same for the guest's hash, down to two different compression calls with one result |
| Binding.ListBinds | zkvm/sha256_proper.go:377-399 | equal list digests come from equal logs, with the same exceptions |
| Binding.HaltDigestBinds | zkvm/sha256_proper.go:212-220 | for any hash of byte strings, equal halt digests mean equal journals and equal ordered children, or two different messages behind the two digests share a hash, or a list cell hashes to zero |
| Binding.HaltDigestBindsRun | zkvm/sha256_proper.go:160-221 | equal halt digests mean equal journals and equal ordered Verify calls, or a compression collision behind the two digests, or a list cell that hashes to zero |
| Hosts.Host.SysVerifyIntegrity | zkvm/verify.go:82-88 | logs the claim and goes on, or ends the run when the host has no receipt for it |
| Guests.PadBuffer | zkvm/sha256_proper.go:171-196 | the word buffer holds the data, the marker, zeros and the big-endian bit count; neither marker nor trailer overwrites data |
| Guests.Guest.InitProperHasher | zkvm/sha256_proper.go:81-92 | lazy initialisation makes the state stand for the same, still empty, bytes and assumptions |
| Guests.Guest.ProcessBlock | zkvm/sha256_proper.go:137-156 | the state becomes the compression of the old state and the block, whatever the scratch block held |
| Guests.Guest.UpdateProperHasher | zkvm/sha256_proper.go:94-135 | the hasher stands for its earlier bytes followed by the data, for any buffer fill and any alignment |
| Guests.Guest.ShaBuffer | zkvm/sha256_proper.go:298-346 | returns the hash of the message and makes exactly the calls of its padded blocks, whatever the scratch block held |
| Guests.Guest.TaggedStructWithData | zkvm/sha256_proper.go:263-296 | returns the tagged digest of the tag, digests and words |
| Guests.Guest.FinishJournal | zkvm/sha256_proper.go:165-210 | the padded carry buffer and the running state give the one-shot hash of all absorbed bytes, at any length |
| Guests.Guest.FinalizeProperHasher | zkvm/sha256_proper.go:158-221 | returns the output digest of everything committed and assumed, and leaves every field as it was once initialised |
| Guests.Guest.SumSHA256 | zkvm/sha256_proper.go:223-227 | returns the plain digest bytes without disturbing the running hasher |
| Guests.DigestBytesToWords | zkvm/sha256_proper.go:359-368 | inverse of the conversion of a digest to bytes |
| Guests.Guest.AddAssumptionDigest | zkvm/sha256_proper.go:381-399 | the running digest becomes that of the list with the new entry outermost |
| Guests.Guest.ClaimOf | zkvm/verify.go:51-80 | rebuilds the claim that the child image halted with the output of its journal and no assumptions |
| Guests.Guest.Verify | zkvm/verify.go:46-93 | with a receipt, the claim is logged and the list grows by it, in lockstep; without one the run ends with both unchanged; also before the first commit |
| Guests.Guest.Commit | zkvm/zkvm.go:84-94 | the journal grows by the bytes and the hasher still stands for exactly the journal |
| Guests.Guest.CommitValue | zkvm/zkvm.go:96-107 | the same for the memory image of a value |
| Guests.Guest.Read | zkvm/zkvm.go:51-58 | caller memory receives the next bytes of stdin, which are consumed |
| Guests.Guest.Halt | zkvm/zkvm.go:109-121 | sys_halt receives the output digest of the journal and of all verified children |
| Runs.Perform | zkvm/zkvm.go:51-121 | any API call in any reachable state keeps the hidden state equal to what the host saw; each kind of call has exactly its own effect on journal, children, stdin, stdout and stderr, and Read, ReadValue, SumSHA256 and early finalising return what they promise |
| Runs.Run | zkvm/zkvm.go:118-121 | any sequence of calls completes up to the first rejected Verify; a completed run halts with the digest of its committed bytes and verified children |
| Runs.SingleSteps | zkvm/zkvm.go:84-107 | a commit of either kind commits its bytes, a Verify call its child, and every other call nothing |
| Runs.Concatenation | zkvm/zkvm.go:84-107 | the bytes and children of a sequence of calls are those of its parts, in order |
| Runs.DigestDependsOnProjections | zkvm/sha256_proper.go:212-220 | reordering Verify calls against commits, and inserting any other calls, leaves the digest unchanged |
| Runs.SwapVerifyAndCommit | zkvm/sha256_proper.go:212-220 | a Verify call and a commit next to each other may change places without changing the digest |
| Runs.OtherCallsDoNotMatter | zkvm/sha256_proper.go:158-221 | hashing, reading, printing or finalising early anywhere in a run leaves its digest unchanged |
| Runs.CuttingACommit | zkvm/sha256_proper.go:94-135 | splitting a commit in two leaves the digest unchanged |
| Runs.EqualHaltsEqualRuns | zkvm/sha256_proper.go:158-221 | equal digests of two runs mean equal committed bytes and equal verified children, or two different compression calls, one made by each run, have one result, or a list cell hashes to zero |
| Runs.TwoRuns | zkvm/zkvm.go:118-121 | the same, for two executions and the compression syscalls they issued |
| Runs.ParentAgreesWithChild | zkvm/verify.go:56-71 | the output that Verify rebuilds from a journal is the digest of every run that commits it in any chunks and verifies nothing |
| Runs.VerifyAfterChild | zkvm/verify.go:56-92 | verifying a child that has run registers the claim over the very digest the child passed to sys_halt |
| HostCodec.EncodePolicyWitness | go-guest-host/src/main.rs:423-428 | the stdin of the policy guest |
| HostCodec.PolicyWitnessFields | go-guest-host/src/main.rs:423-428 | count, discount and limit sit at their offsets in the witness; the count is truncated to 32 bits |
| HostCodec.PolicyWitnessItem | go-guest-host/src/main.rs:423-428 | item i sits at offset 4 + 8i |
| HostCodec.PolicyJournalFields | examples/policy_check/main.go:57-62 | the six numbers sit at offsets 0, 4, 8, 16, 24 and 32 of the 40 committed bytes |
| HostCodec.DecodedPolicyFields | go-guest-host/src/main.rs:224-236 | any 40 bytes decode to the numbers at those offsets, and nothing else decodes |
| HostCodec.PolicyJournalRoundTrip | go-guest-host/src/main.rs:224-236 | the host decodes every committed field of a policy journal |
| Examples.DivisionDetectsOverflow | examples/multiply/main.go:25-31 | the wrapped product divided by a factor gives the other if and only if the true product fits |
| Examples.Multiply | examples/multiply/main.go:9-39 | on the host's witness: halts 0 with the true product if and only if both factors are at least 2 and it fits; otherwise halts 1 with an empty journal |
| Examples.MultiplyEndToEnd | go-guest-host/src/main.rs:497-498 | the host reads back the true product exactly in those cases |
| Examples.SumItems | examples/policy_check/main.go:24-39 | the wrapping loop accepts exactly the item lists without zeros whose true sum fits, and returns that sum |
| Examples.CommitSummary | examples/policy_check/main.go:46-63 | the discount and limit rules over the integers, and the six fields in order |
| Examples.SummaryBytes | examples/policy_check/main.go:52-62 | the committed bytes by position, over the integers: count, approval, true sum, discount, difference and limit |
| Examples.Policy | examples/policy_check/main.go:15-64 | for every item list with a 32-bit count: halts 0 with the exact summary if and only if the witness is valid over the integers, otherwise halts 1 with an empty journal |
| Examples.PolicyEndToEnd | go-guest-host/src/main.rs:224-236 | the host decodes the exact summary of every valid witness and nothing of any other |
| R0bf.Pack | convert_to_r0bf.go:39-111 | accepts exactly two ELF images and writes the container; the reported size is its length |
| R0bf.PackedBytes | convert_to_r0bf.go:66-105 | the packed file byte by byte: magic, version, header with the ABI version, truncated user length, both images |
| R0bf.LayoutFields | extract_r0bf.go:27-55 | each field of a container sits at the running offset where the extractor reads it |
| R0bf.Extract | extract_r0bf.go:27-55 | returns the only container with these bytes, or fails when there is none |
| R0bf.LayoutInjective | extract_r0bf.go:27-55 | a container in range is determined by its bytes |
| R0bf.PackThenExtract | convert_to_r0bf.go:66-111 | extracting a packed container returns both images if and only if the user image is shorter than 2^32 bytes; the two parts together are always preserved |
| Hex.PrintHex | go-guest-host/src/main.rs:34-41 | two lower-case digits per byte, the high one first |
| Hex.DigitMeaning | go-guest-host/src/main.rs:52-57 | a character has a digit's value if and only if it is that digit in either case |
| Hex.DecodeHex | go-guest-host/src/main.rs:43-64 | strips one leading 0x and nothing else; accepts exactly an even number of hex digits after it; printing the result gives them in lower case; reports the first bad byte |
| Hex.PrintThenRead | go-guest-host/src/main.rs:34-64 | reading printed bytes gives them back, for every byte string |
| Hex.HexTextInjective | go-guest-host/src/main.rs:34-41 | different bytes print differently |
| Paths.PathRoundTrip | go-guest-host/src/main.rs:82-115 | every list of 32-bit indices in canonical text parses back to itself |
| Paths.PathIsItsPieces | go-guest-host/src/main.rs:82-115 | a path is accepted if and only if every piece between slashes is a component, and its indices are those of the pieces in order |
| Paths.EmptyPath | go-guest-host/src/main.rs:83-91 | a path of white space and an optional m/ is the empty list |
| Paths.EveryPath | go-guest-host/src/main.rs:82-91 | every text is covered by one of the two rows above |
| Paths.SplitRejoins | go-guest-host/src/main.rs:93-94 | the pieces contain no slash and rejoin to the text |
| Paths.LenientPath | go-guest-host/src/main.rs:82-91 | surrounding white space and the m/ prefix do not change what a path means |
| Paths.ComponentMeaning | go-guest-host/src/main.rs:95-113 | each spelling of a component has its numeric meaning, or is rejected exactly when out of range; hardening never wraps |
| Paths.AcceptedIsSpelling | go-guest-host/src/main.rs:95-113 | no other component is accepted |
| Paths.DefaultPath | go-guest-host/src/main.rs:14-20 | the host's default path is the parse of its text and is accepted |
| Paths.Bip86Errors | go-guest-host/src/main.rs:117-137 | which error each list of indices gets |
| Paths.CanonicalBip86Texts | go-guest-host/src/main.rs:117-137 | the canonical texts that pass the check are exactly m/86'/c'/a'/b/i with b 0 or 1, the shape in the "Public key derivation" section of BIP-86 |

## Left out

- The SHA-256 round function and message schedule: they are platform code; the compression function is a parameter.
- Guests.Guest.ReadValue: requires enough stdin, because the code discards the read count and its result on a short stream is not defined there; the same holds for `Read`.
- Guests.Guest.ShaBuffer: requires a padded length of at most 2^30 bytes, where the code's byte view of the buffer would panic; the hash functions and their theorems have no such bound.
- Runs.Run: runs do not include direct calls of `InitProperHasher` or `UpdateProperHasher` by a guest, which bypass `Commit`.
- R0bf.Extract: a file shorter than the magic is reported as not recognised, since the reader's buffer is zero beyond the end; every other out-of-range access is one outcome.
- The recursion and resolution pipeline of the prover: only described in documents; the theorems say what a guest's list can be opened to.
- The FFI, JSON, base64 and receipt code of host, host-core and host-ffi: field copying around an external prover.
- Command lines, printing, file access and process exits of the host and the R0BF tools.
- Examples.Policy: which debug line precedes a failed exit is written as in the source but not stated; the same holds for `Multiply`.
- Paths.ParsePath: a rejected path has one outcome; the error text that names the bad component is not modelled.
- The CSV item parser and the BIP-32 witness of the reference host: their readers are easy or in another repository.
- `CycleCount`, the `simple` example, build scripts and the application encodings of docs/tutorial.md.

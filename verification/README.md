# A verified model of fire-crab's storage, backup and login cores

fire-crab is a Rust conversion of parts of the Firebird database engine. This project models, in
Dafny, the parts where its correctness is hardest to see from the code, and proves what they promise:

- **Login arithmetic** (`Words`, `Power`, `Congruence`, `LimbValue`, `ByteStrings`, `BigUints`,
  `KnuthDivision`, `Montgomery`, `ModPow`). Numbers of 32-bit limbs: Knuth's algorithm D, Montgomery
  multiplication, and modular powers on both paths. The machine words are newtypes, so every `+`, `-`
  and `*` that verifies neither overflows nor wraps; the loops over arrays are proved against the values
  of their limb sequences.
- **The SRP-6a exchange** (`HexText`, `NumberTheory`, `Srp`; section 2.6 of RFC 5054). Client and server
  as expressions over values; the hashes are parameters known only by their output lengths.
- **Careful writes** (`PrecedenceGraph`, `PageCache`, `CarefulPlan`, `CrashPrefix`). The page cache with
  no log, in which crash safety is the order of writes: the cache as a class, its operations as steps,
  whole runs, the page-type plan, and what a crash leaves behind.
- **Blobs** (`LittleEndian`, `Layout`, `BlobFraming`, `BlobStore`). Headers, framings, and storage at three levels,
  with the bytes of headers and pages spelled out.
- **The difference file** (`DeltaFile`, `DeltaUpsert`, `DeltaRuns`, `DeltaLayout`). The table a database in
  backup mode is read through.
- **Events** (`Events`, `EventRuns`, `EventOrder`). Counters and interests, over any interleaving of sessions
  and transactions: who is told what, and in which order.
- **The write token** (`WriteToken`). Threads sharing one image, as interleaved steps.
- **Backup and restore** (`CivilDate`, `RunLength`, `LongRuns`, `XdrRow`, `XdrSlice`, `BackupRecords`, `BackupTables`,
  `BackupStream`, `BackupReader`, `BackupRestore`, `BackupWriter`, `XdrLayout`, `SliceLayout`, `BackupLayout`). Time stamps, run-length packing,
  canonical rows and array slices (RFC 4506), attribute records, and the round trip of whole tables. The
  layout modules say where every byte goes, without the functions that write and read it.

What the Rust code updates in place is a class or a loop over an array or sequence here, proved against a
specification function; what it computes as an expression is a function. Every method's contract says
what its result or its new state is, and the lemmas say what follows for whole runs.

`dafny verify dfyconfig.toml` checks everything (Dafny 4.11). Many proofs need little of what they
mention, and say so with `hide`.

## Where the code does not do what one would expect

These are results of the proofs. In each case the code was kept as it is, the exact condition under
which it does what is promised was proved where it could be, and an input outside it was given.

- *Write order.* A precedence search gives up after a thousand pops and answers yes; the window page is
  then written at once. The graph stays sound, but the write order of a plan obeys the page-type rules if
  and only if no search of the plan gives up (`CarefulPlan.BuildPlan`). Change sets of up to 45 pages are
  safe; a PIP, a pointer page and a thousand data pages are written out of order whatever they hold
  (`CarefulPlan.DisorderExists`).
- *Login.* The client's exponent is reduced modulo N and not modulo the order of the group. Client and
  server agree if and only if a + u*x < N or g^(b*N) = 1 modulo N (`Srp.AgreementExactly`), and there are
  inputs for which they do not: with private keys N - 1 and 1 they disagree, whatever the hash functions,
  unless the scramble or the user's hash happens to be zero (`Srp.LargestKeyDisagrees`).
- *Division.* The comment at crates/auth/src/crypto.rs:1572-1587 says that the sweep of edge limbs never
  reaches the guard `qhat >= B`. It does: 2^127 over 2^95 + 1, both made of swept limbs, gets there in its
  second step (`KnuthDivision.CapIsReached`).
- *The last row of a difference file.* A table with exactly `per_alloc` rows sends the reader on to an
  allocation page that the writer never writes, so the upsert that fills the table makes the file
  unreadable (`DeltaRuns.RunEndsReadable`); crates/cch/src/pool.rs:298 ignores that error. A table that
  is already chained is not refused, as the comment at crates/ods/src/delta.rs:62-65 has it, but destroyed
  by an append (`DeltaRuns.TableAfterUpsert`), and a page listed twice goes stale (`DeltaRuns.ContentsAfterUpsert`).
- *Long runs in backup rows.* The packer writes runs of more than 128 equal bytes in an extended form that
  the backup reader takes for "the next byte, once". A packed row comes back, with nothing behind it
  touched, if and only if it has no such run (`LongRuns.RowReadsExactly`, for the rows of a backup
  `BackupWriter.WrittenRowReadsExactly`). No other bytes in the row and nothing behind it can make up for
  one: from the first extended run on the reader stays behind the packer (`LongRuns.NeverCatchesUp`).
  Seventeen zero integer columns are enough to lose a row (`BackupWriter.ZeroRowsAreLost`).
- *Empty arrays.* The reader knows the end of an array record only by its slice, which an empty array does
  not have: a record comes back exactly when its array has elements (`BackupReader.ArrayReadsExactly`).
- *Long varying array elements.* Their counts travel as signed 16-bit numbers. A slice is read back exactly
  when no element holds 32768 bytes or more, and refused otherwise (`XdrSlice.SliceRoundTrip`).
- *Blob segments.* Trailing empty segments are not read back; all others are (`BlobFraming.SegmentsExactly`).
- *Shared image.* A reload that runs while a writer holds the token is overwritten by that writer's next
  publish (`WriteToken.LostAcrossReload`; no update is lost exactly when none runs, `WriteToken.NoLostUpdate`).
- *Crash prefixes.* After all writes the file agrees with the new image on every page exactly when the old
  image has nothing past the new one's end (`CrashPrefix.FullPrefixAgrees`).

## Model

| member | source | states |
|---|---|---|
| BigUints.BigUint.FromBytesBe | crates/auth/src/crypto.rs:351-367 | the number has the value of the big-endian bytes, and no zero limb on top, for every byte string |
| BigUints.BigUint.ToBytesBe | crates/auth/src/crypto.rs:369-378 | exactly the minimal big-endian bytes of the value |
| BigUints.BigUint.Trim | crates/auth/src/crypto.rs:380-384 | dropping zero limbs keeps the value and leaves none on top |
| BigUints.BigUint.Cmp | crates/auth/src/crypto.rs:400-413 | the order of the limb lists is the order of the values, in both directions |
| BigUints.BigUint.Sub | crates/auth/src/crypto.rs:414-432 | for operands in order, the borrow chain yields the difference of the values, trimmed |
| BigUints.BigUint.Add | crates/auth/src/crypto.rs:433-454 | the sum of the values, trimmed, with no carry lost |
| BigUints.BigUint.Mul | crates/auth/src/crypto.rs:455-487 | the product of the values, trimmed; no 64-bit step overflows |
| BigUints.MulPass | crates/auth/src/crypto.rs:455-487 | one row of the product: adds one limb times the other operand, one place up, leaving the other limbs |
| BigUints.BitOfValue | crates/auth/src/crypto.rs:388-393 | a bit of the limbs is that bit of the value |
| BigUints.BitsBound | crates/auth/src/crypto.rs:394-399 | the bit length is exact: the value lies below its power of two and, unless zero, not below the previous one |
| KnuthDivision.Rem | crates/auth/src/crypto.rs:488-589 | value(self) mod value(m), trimmed, for every m; self itself when m is zero; every u64 and i64 step stays in width |
| KnuthDivision.EstimateDigit | crates/auth/src/crypto.rs:534-550 | the estimate is the two-limb quotient, capped below 2^32 and corrected by the third limb: never below the digit |
| KnuthDivision.EstimateAtMostOneTooLarge | crates/auth/src/crypto.rs:534-550 | the estimated digit is right or one too large |
| KnuthDivision.SubtractMultiple | crates/auth/src/crypto.rs:551-562 | the signed borrow chain subtracts the multiple modulo the window, and says whether it went below zero |
| KnuthDivision.AddBack | crates/auth/src/crypto.rs:563-573 | one add-back restores the window, the carry out of the top dropped |
| KnuthDivision.DivideStep | crates/auth/src/crypto.rs:534-574 | one step leaves the window below the divisor and congruent to what it was; one add-back suffices |
| KnuthDivision.DivideAll | crates/auth/src/crypto.rs:534-575 | all steps leave the remainder of the shifted dividend in the low limbs |
| KnuthDivision.ShiftInto | crates/auth/src/crypto.rs:507-532 | normalisation multiplies the value by the power of two |
| KnuthDivision.ShiftOutOf | crates/auth/src/crypto.rs:577-588 | denormalisation divides it again |
| KnuthDivision.RemByOneLimb | crates/auth/src/crypto.rs:493-503 | a one-limb divisor needs only the running remainder |
| KnuthDivision.CapDecidesExactly | crates/auth/src/crypto.rs:534-550 | the guard qhat >= B decides the first estimate exactly when the window's top two limbs equal the divisor's and the lower of them is the smaller |
| KnuthDivision.CapIsReached | crates/auth/src/crypto.rs:1572-1587 | dividing 2^127 by 2^95 + 1, both made of swept limbs, the first step leaves its window and the second takes its first estimate of B through that guard, against the comment |
| Montgomery.MontMul | crates/auth/src/crypto.rs:710-762 | out < m and out * 2^(32n) congruent to a * b modulo m, for odd m, b < m and the inverse limb n0 |
| Montgomery.MultiplyPass | crates/auth/src/crypto.rs:716-725 | adds one limb times b to the running value, top limbs included, without overflow |
| Montgomery.ReducePass | crates/auth/src/crypto.rs:727-739 | adds the multiple of m that clears the bottom limb and shifts one limb down, without overflow |
| Montgomery.BottomLimbCleared | crates/auth/src/crypto.rs:729-730 | with n0 * m[0] = -1 the reduction clears the bottom limb |
| Montgomery.StaysBelowTwice | crates/auth/src/crypto.rs:715-740 | the running value stays below 2m at every pass |
| Montgomery.TopLimbIsBit | crates/auth/src/crypto.rs:742-743 | so t[n] is 0 or 1 when the passes end |
| Montgomery.ReachesModulus | crates/auth/src/crypto.rs:742-752 | the top-down comparison decides whether the value has reached m |
| Montgomery.SubtractModulus | crates/auth/src/crypto.rs:753-761 | the final subtraction is exact, its borrow absorbed by t[n] |
| ModPow.Modpow | crates/auth/src/crypto.rs:603-628 | base^exp mod m for every base, every exponent and every m of at least 1, on either path |
| ModPow.ModPowPlain | crates/auth/src/crypto.rs:603-628 | square and multiply with a reduction at each step |
| ModPow.ModPowOdd | crates/auth/src/crypto.rs:629-679 | the Montgomery path yields the same power |
| ModPow.NegInverseOf | crates/auth/src/crypto.rs:633-640 | five Newton steps give the negated inverse of any odd limb modulo 2^32 |
| ModPow.NewtonStep | crates/auth/src/crypto.rs:636-639 | each step doubles the number of correct bits |
| ModPow.EnterDomain | crates/auth/src/crypto.rs:642-659 | the two reductions give the domain forms of 1 and of the base |
| ModPow.AddMod | crates/auth/src/crypto.rs:681-684 | the sum modulo m |
| ModPow.MulMod | crates/auth/src/crypto.rs:695-700 | the product modulo m |
| ModPow.SubMod | crates/auth/src/crypto.rs:685-694 | the difference modulo m, for operands in either order |
| HexText.TextRoundTrip | crates/auth/src/srp.rs:99-145 | the minimal hex text of any bytes parses back to bytes of the same value |
| HexText.TextIsMinimal | crates/auth/src/srp.rs:111-145 | the text is upper-case hex digits without a leading zero, of the value of the bytes |
| HexText.TextIsUnique | crates/auth/src/srp.rs:111-145 | and no other such text has that value |
| HexText.PairsAt | crates/auth/src/srp.rs:99-110 | each byte parsed is the value of its two digits |
| HexText.MatchesByValue | crates/auth/src/srp.rs:90-98 | a proof matches exactly when the two numbers are equal, leading zeros aside |
| Srp.HexRoundTrip | crates/auth/src/srp.rs:134-145 | a public number survives its hex text |
| Srp.StoredVerifierRoundTrip | crates/auth/src/srp.rs:357-373 | a verifier reloaded from its stored bytes is the verifier |
| Srp.SecretsAgreeExactly | crates/auth/src/srp.rs:275-398 | the two formulas give the same secret if and only if a + u*x < N or g^(b*N) = 1 modulo N |
| Srp.AgreementExactly | crates/auth/src/srp.rs:275-398 | the same for a whole exchange over hex text, for any hashes of the stated lengths |
| Srp.ProofAccepted | crates/auth/src/srp.rs:275-433 | then the server accepts the client's proof and both hold the same key, with the verifier reloaded, too; what the proof and the user hash depend on is in the rows below |
| Srp.ExchangeNumbers | crates/auth/src/srp.rs:153-398 | every number of an exchange in terms of the digests and of powers modulo N: A, v, B, x of user, colon and password, u, and both secrets |
| Srp.MultiplierInput | crates/auth/src/srp.rs:228-235 | the multiplier is the digest of the 256 bytes of N and of the base padded to the length of N |
| Srp.PasswordMatters | crates/auth/src/srp.rs:153-159 | another password gives another user hash, unless and only unless one of two explicit pairs of byte strings, that hold the two passwords, collides under SHA-1 |
| Srp.SaltMatters | crates/auth/src/srp.rs:153-159 | so does another salt, up to one explicit collision |
| Srp.ScrambleDependsOn | crates/auth/src/srp.rs:220-224 | equal scrambles are a collision or the same bytes of A in front of B; of equal lengths, the same A and the same B |
| Srp.ProofDependsOn | crates/auth/src/srp.rs:242-266 | a proof is the plugin's digest of group, user, salt, A, B and key in that order; equal ones are a collision or equal inputs, and inputs of equal lengths are equal part by part |
| Srp.WrongPasswordRefused | crates/auth/src/srp.rs:275-433 | a client with another password is refused, unless one of four explicit pairs of byte strings collides, or the two secrets coincide although the user hashes in them differ |
| Srp.AcceptsExactly | crates/auth/src/srp.rs:410-433 | the server accepts exactly the proofs equal in value to its own, and then returns its key |
| Srp.LargestKeyDisagrees | crates/auth/src/srp.rs:275-398 | for any hashes and credentials, with private keys N - 1 and 1 the two sides agree only if the scramble or the user hash is zero |
| NumberTheory.NeverOneModuloItself | crates/auth/src/srp.rs:296-296 | 2^n is never 1 modulo n, which the disagreement rests on |
| PrecedenceGraph.Related | crates/cch/src/lib.rs:136-160 | the search says yes exactly when the target is reachable or the search cost exceeds its budget |
| PrecedenceGraph.RankedIsAcyclic | crates/cch/src/lib.rs:111-131 | a graph with a rank that every edge lowers has no cycle |
| PrecedenceGraph.EdgeKeepsRank | crates/cch/src/lib.rs:111-131 | an edge whose first page does not reach the window can be added with a new rank |
| PageCache.RunsAreSafe | crates/cch/src/lib.rs:95-219 | in every state of every run the graph is acyclic, its maps transposed, every first page dirty, the image the replay of the writes, and no window written before a recorded first |
| PageCache.StepKeepsValid | crates/cch/src/lib.rs:95-219 | every operation keeps that invariant, whatever the search budget |
| PageCache.DrainKeeps | crates/cch/src/lib.rs:163-205 | a drain cleans exactly its pages and takes exactly their edges down |
| PageCache.DrainsCompose | crates/cch/src/lib.rs:163-178 | draining one first page and then going on is one drain of the window |
| PageCache.PrecedenceOutcome | crates/cch/src/lib.rs:111-131 | with a dirty first page, the edge is live afterwards or the window is clean |
| PageCache.FlushLeavesNothing | crates/cch/src/lib.rs:209-219 | a flush writes each dirty page exactly once, in order, and leaves no dirty page and no edge |
| PageCache.OutOfOrderIsNeeded | crates/cch/src/lib.rs:163-219 | a page goes out before a lower one only when a third, no higher than that one, had to come after it |
| PageCache.WithoutEdgesAscending | crates/cch/src/lib.rs:207-219 | with no edges the order of a flush is ascending |
| PageCache.CleanBuffersMatch | crates/cch/src/lib.rs:77-101 | in every state of every run a clean buffer holds what the image has for its page |
| PageCache.Cache.Attach | crates/cch/src/lib.rs:64-76 | a cache over an image starts with nothing buffered |
| PageCache.Cache.Fetch | crates/cch/src/lib.rs:77-90 | the page's bytes, zeros past the end, kept in a clean buffer |
| PageCache.Cache.Mark | crates/cch/src/lib.rs:95-101 | the buffer takes the bytes and becomes dirty, nothing else changes |
| PageCache.Cache.Precedence | crates/cch/src/lib.rs:111-131 | the precedence step: an edge recorded, or the window written at once |
| PageCache.Cache.WriteBuffer | crates/cch/src/lib.rs:163-178 | the recursive drain terminates and writes the page after everything ahead of it |
| PageCache.Cache.WritePage | crates/cch/src/lib.rs:179-190 | one physical write: image grown, page copied, logged, edges cleared |
| PageCache.Cache.ClearPrecedence | crates/cch/src/lib.rs:194-205 | exactly the edges naming the page come down, in both maps |
| PageCache.Cache.Flush | crates/cch/src/lib.rs:209-219 | every dirty page is written once; the lowest page number left goes next, with everything it must come after in front of it; a clean cache and an empty graph afterwards |
| CarefulPlan.BuildPlan | crates/cch/src/lib.rs:334-415 | writes each changed page once, obeys the page-type rules if and only if no search gives up, and ends with a flush lowest page number first - of all the changed pages, over all the rules, when none does |
| CarefulPlan.PlanEnds | crates/cch/src/lib.rs:334-415 | the same for the end of any plan's progress |
| CarefulPlan.RankingIs | crates/cch/src/lib.rs:358-411 | the ranking spelled out by page type numbers |
| CarefulPlan.LowestFirst | crates/cch/src/lib.rs:334-415 | in the closing flush a page goes out before a lower one only for a changed page no higher than that one which the rules put behind it |
| CarefulPlan.PrecedeProgress | crates/cch/src/lib.rs:358-411 | every edge asked for is laid, or its window is already written after it, or a search gave up |
| CarefulPlan.PrefixesClosed | crates/cch/src/lib.rs:262-285 | every crash prefix of an obedient order is closed under the rules |
| CarefulPlan.Lay | crates/cch/src/lib.rs:358-411 | one group of edges, every window against every first |
| CarefulPlan.MarkAll | crates/cch/src/lib.rs:341-347 | marks every changed page with its padded bytes and sorts it under its type |
| CarefulPlan.FewEdgesFit | crates/cch/src/lib.rs:39-39 | fewer than a thousand edges in all, and no search gives up |
| CarefulPlan.SmallPlansFit | crates/cch/src/lib.rs:39-39 | any change set of at most 45 pages qualifies |
| CarefulPlan.ManyDataPagesGiveUp | crates/cch/src/lib.rs:39-39 | a thousand data pages with a PIP and a pointer page do not |
| CarefulPlan.DisorderExists | crates/cch/src/lib.rs:334-415 | planning one such change list of 1002 pages writes a page before one that must precede it, whatever the pages and the file hold |
| CrashPrefix.ChangedPages | crates/cch/src/lib.rs:235-252 | exactly the pages that differ, ascending, new pages compared with zeros |
| CrashPrefix.ChangedExactly | crates/cch/src/lib.rs:235-252 | a page counts as changed exactly when its bytes in the two files differ, or it lies past the old file and is not all zeros |
| CrashPrefix.Prefix | crates/cch/src/lib.rs:420-440 | the file after the first k writes |
| CrashPrefix.FoldPage | crates/cch/src/lib.rs:420-440 | a page of that file is the new page if it was written, the old one otherwise |
| CrashPrefix.FoldLength | crates/cch/src/lib.rs:420-440 | the file is as long as it was or as the last of the pages written needs |
| CrashPrefix.FullPrefixAgrees | crates/cch/src/lib.rs:420-440 | all writes done, the file reads like the new one on every page exactly when the old one has nothing past its end |
| CrashPrefix.ReplayIsFold | crates/cch/src/lib.rs:179-190 | the image of a cache whose writes carry the new bytes is the crash prefix of its write log |
| CrashPrefix.Plan | crates/cch/src/lib.rs:286-302 | at every moment the image is a crash prefix of the order produced, and every crash prefix is the image at some moment; the order holds each changed page once |
| BlobFraming.HeaderRoundTrip | crates/blb/src/lib.rs:126-164 | every header decodes to itself, whatever follows; a slot is a blob exactly by its flag; where each field stands is in the rows below |
| BlobFraming.EncodedAt | crates/blb/src/lib.rs:150-164 | the encoded fields byte by byte: words least byte first at 0, 4, 8, 10, 12, 16 and 24, the character set at 26, the level at 27 |
| BlobFraming.DecodedFrom | crates/blb/src/lib.rs:126-148 | the decoder takes each field from there, and a slot for a blob by bit 16 of the word at 10 alone |
| BlobFraming.FramedAs | crates/blb/src/lib.rs:402-409 | a segment's frame is its length in two bytes, the lesser first, and its bytes |
| BlobFraming.SegmentsOfFrame | crates/blb/src/lib.rs:206-222 | framed segments come back up to trailing empty ones |
| BlobFraming.SegmentsExactly | crates/blb/src/lib.rs:206-222 | and come back whole if and only if the last one is not empty |
| BlobFraming.SegmentIter.Next | crates/blb/src/lib.rs:206-222 | yields the head of what is left, or nothing exactly when nothing is left |
| BlobFraming.Content | crates/blb/src/lib.rs:182-191 | a stream up to its recorded length, or the segments joined |
| BlobStore.BlobFile.Create | crates/blb/src/lib.rs:386-491 | succeeds exactly when the frames fit and some level has room; reading back gives exactly the stream, its length and counts, at the least level that fits; the slot holds flags, lengths, counts, character set and level at their byte offsets and the stream or the page list behind them, and the pages are laid out byte by byte; nothing else changes |
| BlobStore.StoredContent | crates/blb/src/lib.rs:182-196 | from any stored blob the exact content comes back, at levels 0, 1 and 2 alike |
| BlobStore.BlobsStay | crates/blb/src/lib.rs:225-261 | a stored blob reads the same after any later store |
| BlobStore.PagesReadBack | crates/blb/src/lib.rs:232-238 | the data pages, chunk by chunk, read back as the stream |
| BlobStore.PointersReadBack | crates/blb/src/lib.rs:239-255 | through pointer pages too |
| BlobStore.VectorRoundTrip | crates/blb/src/lib.rs:283-294 | a zero-terminated page vector reads back |
| BlobStore.VectorIsLaid | crates/blb/src/lib.rs:459-489 | its bytes are the page numbers as 32-bit words in order |
| BlobStore.PageRoundTrip | crates/blb/src/lib.rs:300-323 | a page laid down reads back as its data, for its own kind only |
| BlobStore.LabelRoundTrip | crates/blb/src/lib.rs:495-513 | and carries its number, its lead page and its sequence |
| BlobStore.PageIsLaid | crates/blb/src/lib.rs:495-513 | its layout byte by byte: type 8, flags, number at 12, lead at 16, sequence at 20, length at 24, data at 28, zeros elsewhere |
| BlobStore.BlobFile.WriteBlobPage | crates/blb/src/lib.rs:495-513 | one page written with each field at its byte offset, all others left |
| BlobStore.BlobFile.WriteData | crates/blb/src/lib.rs:440-443 | every data page holds its chunk, its number, the first page and its place |
| BlobStore.BlobFile.WritePointers | crates/blb/src/lib.rs:461-476 | every pointer page holds its chunk of the page list as words, the first data page as its lead and sequence 0; fails exactly when page numbers run out |
| DeltaFile.DeltaEntries | crates/ods/src/delta.rs:15-43 | the table of the chained allocation pages, or its refusal |
| DeltaFile.ApplyDelta | crates/ods/src/delta.rs:47-60 | succeeds exactly when the table reads and every page is there, and lays the pages in table order |
| DeltaFile.OverlayBytes | crates/ods/src/delta.rs:53-58 | a byte of the result is that of the last page written over it, the image's, or zero |
| DeltaFile.OverlayByLast | crates/ods/src/delta.rs:53-58 | two lists of writes with the same last writes lay the same image |
| DeltaLayout.FirstPage | crates/ods/src/delta.rs:15-28 | a difference file's table starts on page 0 |
| DeltaLayout.AllocationPage | crates/ods/src/delta.rs:24-44 | an allocation page word by word: the count, the page numbers, where their pages stand, and when a reader goes on or refuses |
| DeltaUpsert.UpsertDeltaPages | crates/ods/src/delta.rs:66-103 | succeeds exactly on acceptable changes, and leaves the file with them laid one by one; up to one allocation page the rows are overwritten in place or appended and everything else is kept |
| DeltaUpsert.Find | crates/ods/src/delta.rs:83-84 | the first row of a page |
| DeltaUpsert.RowAdded | crates/ods/src/delta.rs:86-93 | an append on the first allocation page adds exactly one row and its page |
| DeltaLayout.OverlaidBytes | crates/ods/src/delta.rs:83-103 | every byte of a file after one page is laid over it |
| DeltaLayout.AppendedBytes | crates/ods/src/delta.rs:94-103 | every byte after one row is added: count, page number, page, and all others as they were |
| DeltaUpsert.RowLost | crates/ods/src/delta.rs:86-93 | an append to a chained table leaves an impossible count |
| DeltaUpsert.Overwritten | crates/ods/src/delta.rs:83-100 | overwriting a row changes that page only |
| DeltaRuns.TableAfterUpsert | crates/ods/src/delta.rs:66-103 | the reader sees the intended table if and only if it survives: a free row left, nothing appended, or an empty second page |
| DeltaRuns.ContentsAfterUpsert | crates/ods/src/delta.rs:66-103 | the pages named are the old under the new if and only if no duplicated row is stale |
| DeltaRuns.UpsertThenApply | crates/ods/src/delta.rs:47-103 | upsert then apply equals old pages then new pages on every image, under exactly that condition |
| DeltaRuns.DistinctAfterUpsert | crates/ods/src/delta.rs:83-93 | rows stay distinct exactly when they were and no new page was given twice |
| DeltaRuns.RepeatedPageGoesStale | crates/ods/src/delta.rs:83-93 | a new page given twice is lost at its next upsert |
| DeltaRuns.RunReadsBack | crates/ods/src/delta.rs:66-103 | over any run from the empty table, below the limit, readers see all the changes |
| DeltaRuns.RunEndsReadable | crates/ods/src/delta.rs:15-103 | the run that takes the last row leaves a file no reader can open, and only that one |
| DeltaRuns.OnePageTooMany | crates/ods/src/delta.rs:34-40 | the smallest such run |
| Events.EventTable.QueueEvents | crates/evt/src/lib.rs:119-134 | an interest reached already is delivered at once, else registered; the event block exists afterwards; the delivery itself is that of `EventOrder.QueueAnswers` |
| Events.EventTable.CancelEvents | crates/evt/src/lib.rs:137-139 | exactly the session's interests go |
| Events.EventTable.PostEvent | crates/evt/src/lib.rs:146-153 | one more buffered post, nothing delivered |
| Events.EventTable.CommitPosts | crates/evt/src/lib.rs:170-198 | the buffered names land in ascending order |
| Events.EventTable.CountName | crates/evt/src/lib.rs:176-196 | one name: counter moved, reached interests delivered in order and removed |
| Events.EventTable.RollbackPosts | crates/evt/src/lib.rs:201-203 | the transaction's posts are forgotten |
| EventRuns.CommitAtOnce | crates/evt/src/lib.rs:170-198 | a commit name by name equals all counters moving at once and one look at each interest |
| EventRuns.CommitTells | crates/evt/src/lib.rs:170-198 | an interest is told the new counter plus one and removed exactly when the counter reached it |
| EventRuns.AlwaysWaiting | crates/evt/src/lib.rs:119-203 | over any interleaving every registered interest is above its counter |
| EventRuns.CountersCount | crates/evt/src/lib.rs:146-203 | each counter is the number of posts committed after somebody listened; rolled-back and unheard posts contribute nothing |
| EventRuns.NeverMisses | crates/evt/src/lib.rs:119-198 | a client that queues at its last delivered count stands exactly at the counter plus one whenever it waits |
| EventOrder.QueueAnswers | crates/evt/src/lib.rs:119-134 | after any run a queue is answered at once, by one delivery of the posts counted plus one, if and only if that count has reached what was seen; else exactly its interest is added behind the others |
| EventOrder.QueueIsAnswered | crates/evt/src/lib.rs:119-198 | over any run, a client that has queued and not cancelled since still has an interest standing or was told something by that queue or after it |
| EventOrder.CommitDelivers | crates/evt/src/lib.rs:170-198 | a commit tells each reached interest once, its counter plus one, lesser names first and in the order of queueing for one name, and keeps the others in order |
| EventOrder.FiredInOrder | crates/evt/src/lib.rs:181-195 | for one name, the interests reached are told in the order they were queued |
| EventOrder.CancelKeepsOrder | crates/evt/src/lib.rs:137-139 | a cancel keeps all other sessions' interests, in order |
| EventOrder.LessExactly | crates/evt/src/lib.rs:170-175 | names come in order of their first difference, a beginning before what it begins |
| EventRuns.DeltasCountPosts | crates/evt/src/lib.rs:119-198 | so the numbers it is told differ by exactly the posts counted in between |
| WriteToken.SharedImage.BeginWrite | crates/cch/src/pool.rs:213-245 | granted exactly when nobody else owns the token; recursion counted |
| WriteToken.SharedImage.EndWrite | crates/cch/src/pool.rs:247-257 | one level less, no owner at the last |
| WriteToken.SharedImage.PublishImage | crates/cch/src/pool.rs:186-189 | the image is replaced, the token untouched |
| WriteToken.AlwaysValid | crates/cch/src/pool.rs:108-112 | in every interleaving: one owner at most, depth equal to live tokens, no owner exactly at depth 0 |
| WriteToken.MutualExclusion | crates/cch/src/pool.rs:213-245 | while one thread holds a token no other does or can take one |
| WriteToken.TakenExactly | crates/cch/src/pool.rs:213-245 | in every state of every run a thread can take the token exactly when no other holds it, and must wait exactly when another does |
| WriteToken.NestedHold | crates/cch/src/pool.rs:213-257 | a hold inside a hold goes one level deeper, and dropping it leaves everything as it was |
| WriteToken.NeverStuck | crates/cch/src/pool.rs:213-257 | every run can be continued by dropping the live tokens, after which any thread can take the token and the image is as it was |
| WriteToken.NoLostUpdate | crates/cch/src/pool.rs:154-189 | a publish under one hold replaces exactly the image its thread read, if and only if no reload ran in between |
| WriteToken.RollbackIsOwnWork | crates/cch/src/pool.rs:180-189 | putting a snapshot back undoes the holder's installs only |
| WriteToken.LostWithoutToken | crates/cch/src/pool.rs:171-173 | without the token an update is lost |
| WriteToken.LostWhenReadTooEarly | crates/cch/src/pool.rs:171-173 | and when the read came before the token |
| WriteToken.LostAcrossReload | crates/cch/src/pool.rs:320-334 | a reload in the middle of a hold is lost to the holder's next publish |
| CivilDate.CivilIsExact | crates/burp/src/lib.rs:651-667 | for every integer day the date is valid and counts back to the day |
| CivilDate.CivilInvertsDays | crates/burp/src/lib.rs:651-667 | and every valid date is reached from its day count |
| CivilDate.CivilWalksTheCalendar | crates/burp/src/lib.rs:651-667 | the next day is the calendar's next day, from 1 January 1970 |
| CivilDate.YearOfEraExact | crates/burp/src/lib.rs:657-661 | the year estimate is exact on all 146097 days of an era |
| CivilDate.BackupDateIsExact | crates/burp/src/lib.rs:651-681 | a stamp names its second: date, time of day and weekday |
| RunLength.Pack | crates/ods/src/sqz.rs:89-137 | the packed stream is tidy tokens that mean the input, plain exactly when no byte repeats more than 128 times, and unpacks to it |
| RunLength.Unpack | crates/ods/src/sqz.rs:19-21 | the tokens expanded, nothing on a truncated stream |
| RunLength.StreamForms | crates/ods/src/sqz.rs:38-83 | the four token forms by their control byte, with their counts and their refusals |
| RunLength.UnpackPrefix | crates/ods/src/sqz.rs:38-83 | the tokens up to the one that brings as much as was wanted |
| RunLength.PrefixOfWhole | crates/ods/src/sqz.rs:23-37 | the early stop gives a beginning of the whole, enough of it or all, and differs from a refusal only on a stream cut off behind it |
| RunLength.UnpackTokens | crates/ods/src/sqz.rs:38-83 | any stream of tokens unpacks to their meanings |
| RunLength.ExpandRow | crates/burp/src/lib.rs:5858-5876 | the reader's loop stops at the wanted length |
| RunLength.ExpandForms | crates/burp/src/lib.rs:5858-5876 | the reader's two forms: literals below 128, from 128 on - 254 and 255 included - one byte repeated |
| RunLength.PackedRowReads | crates/burp/src/lib.rs:5858-5876 | a plain packed row is read back and nothing behind it touched |
| LongRuns.ExpandReads | crates/burp/src/lib.rs:5858-5876 | the reader's loop is a machine that takes one byte at a time |
| LongRuns.NeverCatchesUp | crates/burp/src/lib.rs:5858-5876 | a reader that owes bytes behind a token still owes some at the end of any tidy stream |
| LongRuns.LongRowIsLost | crates/burp/src/lib.rs:5858-5876 | behind any plain tokens, an extended run and whatever the packer puts behind it never come back, for every rest of the file |
| LongRuns.ReadsExactly | crates/burp/src/lib.rs:5858-5876 | a packed row comes back and nothing behind it is touched if and only if it was packed plainly |
| LongRuns.RowReadsExactly | crates/burp/src/lib.rs:5858-5876 | that is, if and only if the row has no run of more than 128 equal bytes |
| XdrRow.EncodeRow | crates/burp/src/lib.rs:522-647 | values in order, computed columns skipped, null flags behind; fails exactly on an unknown type |
| XdrRow.DecodeRow | crates/burp/src/lib.rs:4421-4516 | the values and nulls the bytes describe, or a refusal |
| XdrRow.FieldRoundTrip | crates/burp/src/lib.rs:4445-4503 | each stored type comes back, and the reader stops where the next value starts |
| XdrRow.NumberIsCanonical | crates/burp/src/lib.rs:522-634 | stored numbers are big-endian whole words (RFC 4506) |
| XdrRow.TextIsCanonical | crates/burp/src/lib.rs:552-575 | stored text is opaque bytes padded with zeros to four, behind a length word when it varies |
| XdrLayout.NullBit | crates/burp/src/lib.rs:527-529 | which bit of which byte makes a column null |
| XdrLayout.ShortBytes | crates/burp/src/lib.rs:522-634 | a 16-bit number goes out widened by its sign, zero when null |
| XdrLayout.NumberBytes | crates/burp/src/lib.rs:522-634 | a 32-bit or 64-bit one with its bytes reversed |
| XdrLayout.TwoLongsBytes | crates/burp/src/lib.rs:522-634 | a time stamp and a blob's id with each half reversed |
| XdrLayout.TextBytes | crates/burp/src/lib.rs:552-575 | text byte by byte, blanks when null, with its padding |
| XdrLayout.VaryingField | crates/burp/src/lib.rs:552-575 | varying text byte by byte: count, bytes cut where the image ends, padding |
| XdrLayout.FieldsInOrder | crates/burp/src/lib.rs:522-647 | values one behind the other in column order, and so the null flags |
| XdrLayout.FieldsRead | crates/burp/src/lib.rs:4421-4505 | each value is read where the one before it ended; a computed column takes nothing and is null |
| XdrLayout.FieldsRefused | crates/burp/src/lib.rs:4421-4505 | a row whose values cannot be read is refused for the first value that is |
| XdrLayout.FlagsRead | crates/burp/src/lib.rs:4506-4515 | any word but zero makes its value null; a row without room for all the words is refused |
| XdrLayout.IntegerRead | crates/burp/src/lib.rs:4446-4453 | integers are read by two's complement, greatest byte first |
| XdrLayout.NativeRead | crates/burp/src/lib.rs:4454-4481 | dates, floats, time stamps, booleans and 16-byte numbers are turned round, from any bytes |
| XdrLayout.TextRead | crates/burp/src/lib.rs:4482-4497 | text of either kind, its refusals, and where the next value starts |
| XdrRow.RowRoundTrip | crates/burp/src/lib.rs:522-647 | decoding inverts encoding for every column list and every full-length record, nulls by descriptor bit |
| XdrSlice.EncodeSlice | crates/burp/src/lib.rs:221-272 | raw length, then each element padded to four; fails on a ragged slice or unknown type |
| SliceLayout.SliceOpens | crates/burp/src/lib.rs:221-272 | a slice opens with the raw length, greatest byte first, and then has its elements |
| SliceLayout.NumberElement | crates/burp/src/lib.rs:221-272 | a number's element byte by byte |
| SliceLayout.TextElement | crates/burp/src/lib.rs:221-272 | a text's, with the count of a varying one cut to its slot |
| XdrSlice.DecodeSlice | crates/burp/src/lib.rs:4525-4576 | the native elements, or a refusal |
| SliceLayout.NumberNative | crates/burp/src/lib.rs:4525-4576 | a number's element read back byte by byte, from any bytes, or refused at their end |
| SliceLayout.TextNative | crates/burp/src/lib.rs:4525-4576 | a text's, with its refusals |
| XdrSlice.SliceRoundTrip | crates/burp/src/lib.rs:4525-4576 | the native elements come back, varying ones with zeros behind their bytes, if and only if no varying element holds 32768 bytes or more; else a refusal |
| XdrSlice.NormalAllExactly | crates/burp/src/lib.rs:4540-4550 | the array comes back identical exactly when every slot was clean |
| BackupRecords.ReadAttributes | crates/burp/src/lib.rs:4357-4413 | the attribute list, blobs apart, and where it ends |
| BackupRecords.ItemsRoundTrip | crates/burp/src/lib.rs:75-129 | reading a record gives exactly what was put in, and stops at the next byte |
| BackupRecords.IntRoundTrip | crates/burp/src/lib.rs:4331-4345 | a 32-bit attribute keeps its sign |
| BackupRecords.Rec.Int | crates/burp/src/lib.rs:80-85 | one integer attribute more |
| BackupRecords.Rec.Text | crates/burp/src/lib.rs:110-116 | one text attribute more, cut to 255 bytes |
| BackupRecords.Rec.Raw | crates/burp/src/lib.rs:95-102 | one blob attribute more |
| BackupRecords.Rec.End | crates/burp/src/lib.rs:126-128 | the file has grown by exactly the record |
| BackupTables.FieldRoundTrip | crates/burp/src/lib.rs:5590-5667 | the field record of any column within the widths rebuilds the column |
| BackupLayout.FieldLayout | crates/burp/src/lib.rs:1415-1466 | the field record byte by byte, every attribute under its number and in order |
| BackupLayout.FieldAttributes | crates/burp/src/lib.rs:1415-1466 | a reader of attributes finds there what the restore passes over: schema 48, 24, the update flag 34, 42, 43 and the description 35 |
| BackupStream.RelationRead | crates/burp/src/lib.rs:5465-5573 | the relation record rebuilds the empty table |
| BackupLayout.RelationLayout | crates/burp/src/lib.rs:1364-1396 | the relation record byte by byte: schema, name, flags, security class under 8, owner under 12, external file, kind, description |
| BackupLayout.RelationAttributes | crates/burp/src/lib.rs:1364-1396 | a reader of attributes finds 8 exactly if the table has a class, 12 exactly if it has an owner, with these texts, and 16, 18, 21 and 13 with theirs |
| BackupLayout.RelationAccepted | crates/burp/src/lib.rs:5465-5573 | a relation record is taken exactly when it has only known attributes, no view, nowhere kind 3, and a last name that is not empty |
| BackupStream.BlobRoundTrip | crates/burp/src/lib.rs:5878-5924 | a blob record is read back and nothing behind it |
| BackupLayout.BlobLayout | crates/burp/src/lib.rs:1986-1998 | the blob record byte by byte |
| BackupLayout.LongestFound | crates/burp/src/lib.rs:1979-1989 | the length of the longest segment is found under 6 |
| BackupStream.ArrayRoundTrip | crates/burp/src/lib.rs:5678-5723 | an array record is read back and nothing behind it, unless it is empty |
| BackupLayout.ArrayLayout | crates/burp/src/lib.rs:2026-2039 | the array record byte by byte |
| BackupStream.EmptyArrayRunsOn | crates/burp/src/lib.rs:2032-2039 | an empty array sends the reader on into the next record |
| BackupReader.ReadBackup | crates/burp/src/lib.rs:4579-6043 | the walk over the table records to the end mark, or a refusal |
| BackupReader.OneShorter | crates/burp/src/lib.rs:4579-6043 | every record read leaves less of the file |
| BackupReader.ArrayReadsExactly | crates/burp/src/lib.rs:5678-5723 | an array record comes back and nothing behind it is touched if and only if the array is not empty |
| BackupRestore.ReadsMeta | crates/burp/src/lib.rs:5465-5759 | reading a table's metadata appends the table |
| BackupRestore.ReadsRowBytes | crates/burp/src/lib.rs:5835-5941 | reading a row's records appends the row with its blobs and arrays |
| BackupLayout.RowLayout | crates/burp/src/lib.rs:1939-1945 | the row's own record byte by byte: its length under 1 and again under 17, the mark 2, the packed bytes |
| BackupLayout.HeadTakesSecond | crates/burp/src/lib.rs:5838-5855 | its reader goes by the second length, and refuses a negative one or another mark |
| BackupLayout.OneBlob | crates/burp/src/lib.rs:1950-1990 | a blob record stands behind a row exactly for a blob column that is not null and whose id is there |
| BackupLayout.OneArray | crates/burp/src/lib.rs:2004-2039 | an array record exactly for a column with dimensions, not null, whose id is not zero in its relation and record numbers |
| BackupLayout.ContentComesBack | crates/burp/src/lib.rs:5878-5941 | what an id names is what the restored row holds in its place |
| BackupRestore.ReadsData | crates/burp/src/lib.rs:5760-5771 | reading a table's data fills the table of its name |
| BackupLayout.DataHeadLayout | crates/burp/src/lib.rs:1828-1832 | the record that opens a table's data, byte by byte |
| BackupRestore.BackupRoundTrip | crates/burp/src/lib.rs:4579-6043 | any tables come back: columns, rows, blobs, arrays, and data order the reverse of metadata order |
| BackupWriter.WriteField | crates/burp/src/lib.rs:1415-1466 | exactly the field record |
| BackupWriter.WriteMeta | crates/burp/src/lib.rs:1364-1468 | exactly the table's metadata, whose bytes `BackupLayout.RelationLayout` and `BackupLayout.FieldLayout` spell out |
| BackupWriter.WriteRow | crates/burp/src/lib.rs:1936-2041 | succeeds exactly when row, blobs and arrays can be carried, and appends exactly their records |
| BackupWriter.WriteTables | crates/burp/src/lib.rs:1828-2044 | the whole stream, data last table first, or a refusal exactly when some row cannot be carried; tables within the premises, without long runs, are written and read back |
| BackupWriter.WrittenRowReadsExactly | crates/burp/src/lib.rs:1936-1945 | for a row the writer put out, the reader finds its length, and gets its bytes back and stops behind them if and only if it has no long run |
| BackupWriter.OkIsWritable | crates/burp/src/lib.rs:1936-2041 | tables within the round trip's premises are always carried |
| BackupWriter.ZeroRowsAreLost | crates/burp/src/lib.rs:1936-1945 | any row of 17 or more zero integer columns is packed so that the reader loses it |

## Left out

- The bodies of SHA-1, SHA-256, SHA-512, MD5 and SHA-3, the `crypt` call, RC4 and ChaCha20: the exchange needs only the hashes' output lengths.
- Timing, benchmarks, sockets, files, clocks and log lines: none of them is an input of what is proved. The difference file, the backup file and the page images are byte sequences.
- Page allocation, slots, record numbers and images of the storage layer: a blob's pages come from an allocator that counts up to 2^32 page numbers, and its slots from a map; a record's blobs and arrays in a backup come from a parameter that maps an eight-byte id to its contents.
- Page numbers past 2^32 and the wrap of byte offsets: a page number is a natural number in the cache and a bounded one in the blob and difference files.
- BlobStore.ReadSlot: a pointer page whose length is not a multiple of four would be read past its end by the code; the model stops at its last whole entry.
- BlobStore.BlobFile.Create: page sizes from 56 bytes, where a slot holds a bare header, to 65563, where the data length still fits its 16 bits.
- DeltaUpsert.UpsertDeltaPages: page numbers, page sizes and row counts below 2^32, the widths of their fields. Of a chained table that was appended to, the contract gives the bytes and the impossible count, and nothing about the pages its misplaced words land in.
- Srp.WrongPasswordRefused: nothing is claimed of two secrets that coincide although the user hashes in them differ.
- CarefulPlan.BuildPlan: of the pages that go out at once because a search gave up, the contract says what it says of all pages, and not that they go lowest first; that is said of the closing flush behind them.
- DeltaFile.ApplyDelta: the image a failing call leaves half overlaid.
- Events.EventTable.CommitPosts: counters are unbounded, so the overflow of a 64-bit counter is not modelled; session numbers are given by the caller.
- WriteToken.SharedImage.BeginWrite: one look at the token under its lock; the waiting loop is any number of such looks, and its timeout is giving up between two of them. File fingerprints and the pool of images by path are not part of this model; a reload is a step that may come at any moment.
- XdrRow.RowRoundTrip: records at least as long as their columns; the writer's zeros for shorter ones are in `XdrRow.Row` but nothing is claimed of them. Types outside the writer's surface (128-bit integers and decimal floats) are read but never written.
- BackupRestore.BackupRoundTrip: tables with distinct names and, in each, distinct field ids; attribute texts of at most 255 bytes; integers within the widths they are read back through; arrays that are not empty and whose bounds multiply to their element count; computed columns that are neither blobs nor arrays; varying array elements of at most 32767 bytes; rows without long runs. Texts are bytes, so the replacement of invalid UTF-8 is not modelled. A stream blob is one segment or none.
- Every record type besides relation, field, relation data, row, blob, array and the end marks - indexes, constraints, triggers, procedures, views, privileges and the database header - and the descriptions and domain names the reader keeps beside the columns: their framing is that of `BackupRecords`.
- LongRuns.RowReadsExactly: about the row's bytes and where the reader stops. A row it misreads may still decode to values, or be refused, or take bytes of the records behind it.
- XdrSlice.EncodeSlice: an element shorter than its type takes, which the code fails to index.
- BackupReader.ReadBackup: the record types of tables only; the reasons given with a refusal; and a negative row length, which the code turns into an allocation failure and the model into a refusal. Arithmetic on array bounds wraps around, as in a build without overflow checks.
- CivilDate.BackupDateIsExact: the printing of the stamp's digits and names.
- The simple reference implementation of the number arithmetic in the tests (crates/auth/src/crypto.rs:1130-1324): the values themselves are the reference here.
- crates/ods/src/pip.rs and the command-line tools: lookups and argument handling.

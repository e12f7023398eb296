# Verified models of prices, keys, archives and challenges

This project models the algorithms of the Hcnet Go repository that its other
packages take on trust, and proves what they promise. `dafny verify
dfyconfig.toml` checks everything. The parts are independent of each other but
for a few shared modules:

- **Prices** (`Convergents`, `Semiconvergents`, `Price`, `Exchange`): the
  continued-fraction search for a 32-bit fraction near a decimal price, in which
  sense its result is best and exactly when it is the closest, and the split of
  an offer into units bought and sold with two-word arithmetic.
- **Strkeys** (`Base32`, `Crc16`, `BurstErrors`, `StrKey`): base32 (section 6 of
  RFC 4648, without padding) with the canonicality checks in the spirit of
  SEP-0023, the table-driven CRC-16/XMODEM, and the codec built from them.
- **History archives** (`Checkpoints`, `ArchivePaths`, `ArchiveFiles`,
  `Archives`, `SlowScan`, `RepairArchive`, `Mirror`, `ErrorPump`, `HeaderChain`,
  `TxSets`): checkpoint ranges and file names, scanning, repairing and
  mirroring archives, and verifying the chain of ledger headers.
- **Challenges** (`Challenge`, `SignerOrder`, `ChallengeThreshold`,
  `ChallengeExamples`): matching signers with the signatures of a SEP-0010
  challenge transaction, exactly when the order of the signers matters, and the
  weight threshold.
- **Encodings** (`LedgerKey`, `Framing`, `Amount`, with `Octets` and
  `Decimals`): compressed ledger keys, framed XDR streams, amounts as text.

`Arithmetic`, `Bits`, `Octets`, `Decimals`, `Sequences` and `Wrappers` hold what several
parts share.

Code that works by steps is imperative here as well: classes for archives,
options, readers, the header verifier and the sorter, loops where the source
has loops. Such a method is proved against a specification function, and the
promises are proved about that function. Concurrent code is a state machine
(`Mirror`, `ErrorPump`): a run is any sequence of moves, so a lemma about all
runs is a lemma about every interleaving.

What the environment does is a parameter: every backend access of `Archives`
and `Mirror` may fail, and readers and writers may, unless they are said to be
reliable; decoding history files, hashing headers and
transactions, ed25519 hints and signatures, XDR encoding of values, and what
reading a challenge returns are functions or values that the members take as
arguments.

## Where the code does not do what one may expect

Each of these is a member with a concrete input or an exact condition, most with
both.

- Parsing a price does not always give the closest 32-bit fraction, although
  price/main.go:33-36 says so: for "0.5000000002" the result is 1/2, and
  1073741824/2147483647 is closer (`Price.ParseBeaten`). `Price.Parse` says
  exactly when the result is closest: unless the largest semiconvergent that fits
  is closer. What the result always minimises is |d * price - n|, the error
  scaled by the denominator.
- Clamping a range to an archive is not idempotent: `Checkpoints.ClampTwice` has
  the exact condition and `Checkpoints.ClampTwiceDiffers` an input.
  `RepairArchive.Repair` clamps twice for a caller.
- A slow scan notes files that do not exist too, and the report of missing files
  only asks whether something was noted, so it reports nothing
  (`SlowScan.SlowScanThenReport`), and a repair of a destination that cannot list
  its files fetches no checkpoint file (`RepairArchive.Repair`).
- Mirror replaces the destination's root state also in a dry run, and also when it
  has counted errors, because `PutRootHAS` looks at neither:
  `Mirror.DryRunReplacesRoot` has an input and
  `Mirror.DryRunChangesNothingExactly` the exact condition. Mirroring with zero
  workers can report success and advance the root state to a checkpoint of which
  it has copied nothing (`Mirror.NoWorkersNotMirrored`, `Mirror.NoWorkers`).
- A header that names the zero hash hides a gap below it
  (`HeaderChain.ZeroHashHidesGap`); `HeaderChain.ChainedExactlyWhen` has the
  exact condition.
- Data names that differ only in trailing NULs have the same compressed key
  (`LedgerKey.TrailingNulCollides`, `LedgerKey.CompressInjective`).
- A record of length zero ends a stream (`Framing.RoundTripExactly`), and a body
  of 4 GiB or more can be written with a wrong length
  (`Framing.HeaderIsRightExactly`, `Framing.HeaderCanBeWrong`).
- The verdict on a challenge can depend on the order in which the keys of the
  summary happen to be visited. With some weights and threshold it does exactly if
  some order is accepted and some client can be blocked: the signatures it made, but
  for the one the server takes, can be given out one for one to other clients that
  made them too, so that none of these has a lower one that is not given out
  (`ChallengeThreshold.SameVerdictExactly`, `SignerOrder.SameForEveryOrderExactly`,
  `SignerOrder.CanBeAcceptedExactlyWhen`). If nobody signs twice, some client can be
  blocked exactly if two clients share a signature that the server did not make
  (`SignerOrder.SignedOnceExactly`, `ChallengeThreshold.SignedOnceSameVerdict`, with
  an input in `ChallengeExamples.SharedSignatureDecidesVerdict`). If somebody does,
  sharing need not matter (`ChallengeExamples.SharingNeedNotMatter`), and the order
  can decide even whether all signatures are accounted for
  (`ChallengeExamples.OrderDecidesAcceptance`).
- A single account key that is not a well-formed address makes the whole check of a
  challenge fail, even if it did not sign (`ChallengeExamples.MalformedKeyRefusesAll`,
  `ChallengeExamples.KeyCanBeMalformed`). Weights are added in 32 bits: negative
  ones can pass a total far below the threshold, and positive ones that overflow
  are refused (`ChallengeThreshold.WrappedTotals`, exactly
  `ChallengeThreshold.ThresholdMet`).

## Model

| member | source | states |
|---|---|---|
| Price.Parse | price/main.go:33-106 | a text is refused exactly if it has the wrong form, no digit or two points; whatever decimal P/Q the text says, if not negative, it has a result exactly if it lies between 1/MaxInt32 and MaxInt32; the result has the least scaled error, and is the closest 32-bit fraction exactly unless a semiconvergent beats it; digits alone say their value over 1 |
| Decimals.ReadExactly | price/main.go:53-56 | what is read is exactly what the text says: a sign, a whole part and a fraction, either of them possibly empty, as digits over a power of ten |
| Decimals.UnreadableExactly | price/main.go:53-56 | of the texts of the pattern exactly those without a digit or with two points cannot be read |
| Decimals.PatternExactly | price/main.go:25 | the pattern: an optional minus sign and one to twenty digits and points |
| Price.ParseBeaten | price/main.go:33-106 | the text 0.5000000002 parses to 1/2, which is not the closest 32-bit fraction |
| Price.HalfIsBeaten | price/main.go:67-96 | for that price the search stops at 1/2 after 1/1, and 1073741824/2147483647 is closer |
| Price.ContinuedFraction | price/main.go:58-106 | for every P/Q >= 0, whichever test ends the loop: coprime N and D in 1..MaxInt32; no 32-bit fraction r/q has a smaller error \|qP - rQ\|; none with q <= D is strictly closer; none at all is, exactly unless the semiconvergent of the search's end is |
| Price.SearchIsClosestUnlessBeaten | price/main.go:67-96 | wherever the search stands, what it will keep is the closest 32-bit fraction exactly unless the largest fitting semiconvergent of its end is closer |
| Semiconvergents.KeptIsClosestExactly | price/main.go:77-96 | when a convergent is refused, the one kept is the closest 32-bit fraction exactly if the semiconvergent is not closer |
| Semiconvergents.OneOfTwoIsClosest | price/main.go:77-96 | every 32-bit fraction is at least as far from the price as the one kept or as the semiconvergent |
| Semiconvergents.NotCloserThanKept | price/main.go:77-96 | on the kept convergent's side of the price nothing that fits is closer than it |
| Semiconvergents.NotCloserThanSemiconvergent | price/main.go:77-96 | on the other side nothing that fits is closer than the semiconvergent |
| Convergents.ExpansionStep | price/main.go:77-93 | one Euclid step keeps P/Q as the mediant of two neighbouring convergents and flips the sign of their determinant |
| Convergents.UnimodularIsCoprime | price/main.go:79-88 | convergents are in lowest terms |
| Convergents.KeptHasLeastError | price/main.go:77-96 | once the next convergent is refused, no fraction that fits in 32 bits or has no larger a denominator has a smaller error than the one kept |
| Convergents.KeptIsBest | price/main.go:77-96 | the one kept has the least scaled error of all 32-bit fractions, and is the closest up to its own denominator |
| Price.StopOnLargeRest | price/main.go:69-71 | stopping because the rest exceeds MaxInt32 leaves the fraction of least scaled error, or the price is out of range |
| Price.StopOnOverflow | price/main.go:77-86 | stopping because the next numerator or denominator exceeds MaxInt32 leaves the fraction of least scaled error, or the price is out of range |
| Price.StopOnExact | price/main.go:88-91 | stopping because nothing is left gives the price exactly |
| Price.ExactWhenRepresentable | price/main.go:58-106 | a price that some 32-bit fraction equals has a result, and the result equals it |
| Exchange.MulFractionRoundDown | price/main.go:167-184 | for non-negative arguments the exact floor of x*n/d, with an overflow exactly if it exceeds MaxInt64 |
| Exchange.MulFractionRoundUp | price/main.go:188-207 | for non-negative arguments the exact ceiling of x*n/d, with an overflow exactly if it exceeds MaxInt64 |
| Exchange.SellingBound | price/main.go:137-152 | the corrected offer is the least amount worth as much as the offer after rounding down |
| Exchange.ConvertToBuyingUnits | price/main.go:137-163 | sold <= offer and sold <= needed; bought is the ceiling of sold*n/d; never an error for n <= d, and an exact condition for n > d |
| Exchange.RoundTrip | price/main.go:144-151 | ceiling after floor: at most the offer, the same worth, and nothing smaller has that worth |
| Exchange.SellingBoundIdempotent | price/main.go:137-163 | correcting an offer twice changes nothing, so an offer taken in full at its bound gives the same result again |
| Crc16.CrcIsRemainder | crc16/main.go:6-13 | the bit-serial register equals the remainder of long division of the message times x^16 by x^16 + x^12 + x^5 + 1 |
| Crc16.CrcLinear | crc16/main.go:95-108 | the checksum is linear over exclusive or, for bit strings of equal length |
| Crc16.ChecksumLinear | crc16/main.go:95-108 | the checksum bytes of a bytewise exclusive or are the exclusive or of the checksum bytes |
| Crc16.TableEntry | crc16/main.go:59-92 | all 256 entries of the table are the byte shifted through the polynomial eight times |
| Crc16.TableStepFeedsByte | crc16/main.go:98-102 | one turn of the table loop feeds exactly the eight bits of the byte |
| Crc16.Checksum | crc16/main.go:95-108 | the loop yields the remainder of the whole message, low byte first |
| Crc16.Validate | crc16/main.go:112-122 | accepts exactly the two checksum bytes |
| BurstErrors.BurstHasChecksum | crc16/main.go:95-108 | an error burst of at most 16 bits with a set bit has a non-zero checksum, wherever it is and whatever zeros surround it |
| BurstErrors.WindowDetected | crc16/main.go:112-122 | two messages with valid checksums never differ only within twelve neighbouring bits, also across the boundary between data and the swapped checksum bytes |
| BurstErrors.WindowOfThirteen | crc16/main.go:112-122 | within thirteen they can |
| BurstErrors.FourBits | crc16/main.go:95-108 | the checksum of four bits is three copies of them, in the places of x^12 + x^5 + 1 |
| Base32.InitDecodingTable | strkey/main.go:170-179 | the table gives each alphabet character its value and everything else the mark for unused |
| Base32.AcceptedBits | strkey/main.go:184-217 | exactly which strings decode to which bytes: at least five characters, alphabet only, the bits of the bytes followed by at most four zeros |
| Base32.DecodeEncode | strkey/main.go:184-217 | decoding an encoding gives the bytes back |
| Base32.EncodeDecode | strkey/main.go:184-217 | every accepted string is the encoding of what it decodes to |
| Base32.RefusedForExactly | strkey/main.go:184-217 | which lengths are too short or leave a character over; a character outside the alphabet is always refused, and a string over the alphabet of another length only for bits that should be zero |
| StrKey.Encode | strkey/main.go:108-133 | for the four known versions a string that decodes to the payload and starts with the version's letter, else an invalid version |
| StrKey.Decode | strkey/main.go:67-95 | refuses unknown versions, malformed strings, other versions and wrong checksums, in this order, and else gives the payload of which the string is the encoding |
| StrKey.RefusedExactly | strkey/main.go:67-95 | everything is refused but the encodings of payloads under the version asked for, and which refusal it is |
| StrKey.DecodeOfEncode | strkey/main.go:67-133 | every payload survives encoding and decoding, for every known version |
| StrKey.EncodeOfDecode | strkey/main.go:67-133 | every accepted string is the encoding of its payload |
| StrKey.OneStringPerKey | strkey/main.go:67-133 | two accepted strings are equal exactly if their versions and payloads are |
| StrKey.FirstLetter | strkey/main.go:20-34 | the first letter of an encoding is G, S, T or X, by version |
| StrKey.VersionOfEncode | strkey/main.go:146-153 | the version of an encoding can be read off it |
| StrKey.SingleCharacterErrorDetected | strkey/main.go:67-95 | changing one character of an accepted string to another of the alphabet makes it refused, for every length and position |
| StrKey.NeighbouringErrorsDetected | strkey/main.go:67-95 | so does changing two neighbouring characters |
| StrKey.SwappedCharactersDetected | strkey/main.go:67-95 | and so does swapping two neighbouring characters that differ |
| Checkpoints.ClosestCheckpoints | historyarchive/range.go:20-43 | PrevCheckpoint and NextCheckpoint are the nearest checkpoints on either side, up to the ends of the 32-bit range |
| Checkpoints.MakeRange | historyarchive/range.go:45-53 | a range that starts and ends at checkpoints and covers what was asked for |
| Checkpoints.ClampTwice | historyarchive/range.go:55-65 | exactly when clamping a clamped range changes it again |
| Checkpoints.ClampTwiceDiffers | historyarchive/range.go:55-65 | 100 to 200 clamped to an archive ending at 63 gives 63 to 127, and again gives 63 to 63 |
| Checkpoints.ClampStable | historyarchive/range.go:55-65 | a range that starts at a checkpoint is clamped once and for all |
| Checkpoints.Checkpoints | historyarchive/range.go:71-80 | what the goroutine sends, in order |
| Checkpoints.CheckpointListExact | historyarchive/range.go:71-84 | exactly the checkpoints of the range, ascending, and Size is their number |
| ArchivePaths.RangePaths | historyarchive/dirprefix.go:43-62 | the loop yields the paths at the first level at which the ends differ |
| ArchivePaths.RangePathsPartition | historyarchive/dirprefix.go:43-62 | the directory of every number of the range lies below exactly one of the range's paths |
| ArchivePaths.PathPrefixInjective | historyarchive/dirprefix.go:18-35 | directory paths agree on some levels exactly if the prefixes do |
| ArchiveFiles.ParseCheckpointPath | historyarchive/archive.go:229-252 | parsing inverts CategoryCheckpointPath |
| ArchiveFiles.ParseOtherCategory | historyarchive/archive.go:229-252 | the file of one category is never taken for another's |
| ArchiveFiles.ParseCheckpointExactly | historyarchive/archive.go:229-252 | the pattern of a category captures n exactly of names that end in the category's name, three directories, and the file name of n |
| ArchiveFiles.ParseBucketPath | historyarchive/archive.go:212-227 | parsing inverts BucketPath |
| ArchiveFiles.ParseBucketExactly | historyarchive/archive.go:212-227 | the pattern of buckets captures a hash exactly of names that end in bucket, three directories, and the file name of the hash |
| ArchiveFiles.CheckpointIsNotBucket | historyarchive/archive.go:212-227 | a checkpoint file is never taken for a bucket |
| ArchiveFiles.CheckpointDirectory | historyarchive/dirprefix.go:31-35 | the directories of a checkpoint file are the first six hexadecimal digits of its number |
| ArchiveFiles.BucketDirectory | historyarchive/dirprefix.go:37-39 | those of a bucket are the first six digits of its hash |
| ArchiveFiles.KnownPath | historyarchive/history_archive_state_test.go:52 | the directories and the number in the name of a file of an archive in use, and the name and extension of every category |
| ArchiveFiles.CanonicalAddCheckpoint | historyarchive/util.go:74-78 | storing a checkpoint file keeps every matching file at its own path |
| Archives.ListingsCover | historyarchive/scan.go:117-150 | the listings of a range together yield every number that has a file, and no other if matching files sit at their own paths |
| Archives.ListingsDisjoint | historyarchive/scan.go:117-150 | no number is listed below two of the paths |
| Archives.Archive.NoteCheckpointFile | historyarchive/scan.go:336-340 | one entry is set, the others stay |
| Archives.Archive.ScanCheckpointsFast | historyarchive/scan.go:101-160 | on success the cache has gained exactly the numbers of the range that the listings yield, per category; these include all with a file, and are just those if matching files sit at their own paths |
| Archives.Archive.ScanCheckpoints | historyarchive/scan.go:26-40 | the range is clamped to the archive's own first; then the fast scan's result with listings, the slow scan's without |
| Archives.Archive.CheckCheckpointFilesMissing | historyarchive/scan.go:359-373 | exactly the checkpoints of the range without an entry |
| Archives.Archive.ScanAllBuckets | historyarchive/scan.go:174-193 | on success exactly the hashes of the files below bucket/ whose names match |
| Archives.ParsedBuckets | historyarchive/scan.go:174-193 | those include every bucket with a file, and no other if matching files sit at their own paths |
| Archives.Archive.NoteReferencedBucket | historyarchive/scan.go:348-357 | tells the first reference from later ones |
| Archives.Archive.ScanBuckets | historyarchive/scan.go:195-306 | on success every noted history file decodes, and the buckets referenced are exactly known: no other bucket is referenced; from empty caches no referenced bucket that exists is missed, and if matching files sit at their own paths none is noted that does not exist, whether buckets were listed or probed; it succeeds if the backend does and all noted files decode |
| Archives.Archive.CheckBucketsMissing | historyarchive/scan.go:375-386 | exactly the referenced buckets not known to exist |
| Archives.Archive.ClearCachedInfo | historyarchive/scan.go:308-316 | nothing is cached any more |
| Archives.Archive.ScanCheckpointsSlow | historyarchive/scan.go:42-99 | on success every category and checkpoint of the range has an entry that says whether the file exists |
| SlowScan.SlowScanThenReport | historyarchive/scan.go:75-80 | after a slow scan nothing is ever reported missing |
| RepairArchive.CopyPath | historyarchive/util.go:36-56 | one file is copied, or skipped if it is there and Force is off, or nothing changes; success with Force, or for a new file, means the source's content is there; it fails exactly if the source lacks the file it needs, or the backend fails |
| RepairArchive.FillGaps | historyarchive/repair.go:26-44 | filling keeps all files, and without errors every missing required file is there, and optional ones the source has; new files are the source's; it succeeds if the backends do and the source has what is required |
| RepairArchive.RepairBuckets | historyarchive/repair.go:52-61 | without errors every bucket that the noted history files reference is there; there are none if the backends do not fail, the noted files decode and their buckets are in one of the archives |
| RepairArchive.Repair | historyarchive/repair.go:12-67 | every file afterwards is the one that was there or the source's; without Force none that was there is ever changed, also by a failing repair; with Force none is on success on a listing destination with empty caches; if matching files sit at their own paths too, and without DryRun, the files of the range are then complete and closed under references to buckets; if moreover the backends do not fail and nothing is missing from both archives, it succeeds; on a destination without listings no checkpoint file is fetched; a dry run changes nothing |
| RepairArchive.Survey | historyarchive/repair.go:18-24 | what is reported missing by a listing destination is absent; nothing is reported without listings |
| Mirror.EachBucketCopiedOnce | historyarchive/mirror.go:63-76 | in every interleaving no bucket is copied twice |
| Mirror.RunProgresses | historyarchive/mirror.go:43-92 | in every interleaving without errors so far: each checkpoint is waiting, being handled, or done, and each claimed bucket is stored or being copied |
| Mirror.MirrorComplete | historyarchive/mirror.go:16-114 | in every interleaving of at least one worker, a nil result without DryRun means that all files but scp of the range clamped to the source's, and all buckets its history files there reference, are at the destination: with the source's content, or without Force the file that was there |
| Mirror.MirrorSucceeds | historyarchive/mirror.go:16-114 | in every interleaving in which the backends do not fail, of a source that has all that the range takes, no error is counted, and the result is nil unless the destination should have a readable root state and has not |
| Mirror.RunConserves | historyarchive/mirror.go:43-92 | in every interleaving, also a failing one, the workers leave each destination file as it was or give it the source's content, lose none, without Force change none, in a dry run change nothing, and never touch the root state |
| Mirror.MirrorConserves | historyarchive/mirror.go:16-114 | the same for the destination that Mirror leaves behind at every path but the root state's; the root state is replaced, whatever the options, exactly if the clamped range ends at the source's current ledger and the write succeeds |
| Mirror.DryRunChangesNothingExactly | historyarchive/mirror.go:92-109 | a dry run leaves the destination as it is exactly if the root state is not replaced, or replaced by the same content |
| Mirror.DryRunReplacesRoot | historyarchive/mirror.go:96-100 | a dry run with one worker that reports an error and leaves a root state in an empty destination |
| Mirror.NoWorkers | historyarchive/mirror.go:43-114 | with zero workers: nothing copied, the root state replaced or not, and exactly when the result is nil |
| Mirror.NoWorkersNotMirrored | historyarchive/mirror.go:43-114 | with zero workers: a nil result and an advanced root state, and no file of the checkpoint |
| ErrorPump.Pump | historyarchive/util.go:94-122 | for every schedule: delivered plus buffered is what was sent, and the output is closed exactly if the input is and everything was delivered |
| ErrorPump.NothingLost | historyarchive/util.go:98-117 | in every interleaving delivered followed by buffered equals sent, and the output is enabled exactly while something is buffered, with the oldest error; while the input is open a send is taken whatever is buffered |
| ErrorPump.ClosedExactlyWhenDone | historyarchive/util.go:100-118 | the output closes only, and as soon as, the input is closed and everything delivered |
| ErrorPump.DeliveredGrows | historyarchive/util.go:94-122 | what was delivered earlier is a prefix of what is delivered later |
| ErrorPump.ReceivingDrains | historyarchive/util.go:100-117 | n receives deliver the n oldest buffered errors |
| ErrorPump.DrainingCloses | historyarchive/util.go:100-118 | after the input closed, as many receives as there are errors close the output with everything delivered |
| HeaderChain.CompareHashMaps | historyarchive/verify.go:253-269 | the number of mismatching entries, whatever the order of the map |
| HeaderChain.Verifier.VerifyLedgerHeaderHistoryEntry | historyarchive/verify.go:87-105 | a header is recorded exactly if it can be hashed and has the hash it came with, and the maps keep saying what the recorded headers say |
| HeaderChain.Verifier.VerifyCategoryCheckpoint | historyarchive/verify.go:129-192 | per category: when a file passes, and what is recorded of it, also when it fails: the entries before the first that fails |
| HeaderChain.Verifier.ReportInvalid | historyarchive/verify.go:271-322 | the numbers of mismatches of the three kinds of hashes and their sum with the invalid buckets as the error; no error exactly if all is clean; nothing at all without Verify |
| HeaderChain.CleanExactly | historyarchive/verify.go:253-322 | when sequences start at 1 and only the first header may name the zero hash: there is no error exactly if no bucket is invalid, the headers are linked, and both sets of every recorded ledger match |
| HeaderChain.BadSetsExactly | historyarchive/verify.go:293-312 | a ledger is reported for a set exactly if the recorded hash is not the one its header names, or none is recorded and the header names neither the empty set's hash nor zero |
| HeaderChain.CleanMeansVerified | historyarchive/verify.go:253-322 | a clean report means one unbroken chain of headers without gaps, whose transaction and result sets have the hashes the headers name |
| HeaderChain.CleanTopsAgree | historyarchive/verify.go:253-322 | two archives with clean reports and equal top hashes have the same height and agree on all headers they share |
| HeaderChain.NoMismatchMeansLinked | historyarchive/verify.go:271-292 | no ledger mismatch exactly if every header but the first names the hash of the one below, for sequences from 1 and non-zero previous hashes above the lowest |
| HeaderChain.ChainedExactlyWhen | historyarchive/verify.go:253-292 | without mismatches, and when no header hashes to zero, the headers form a chain exactly if only the first names the zero hash |
| HeaderChain.LinkedIsContiguous | historyarchive/verify.go:271-292 | a linked set of headers has no gap |
| HeaderChain.ChainsAgreeBelow | historyarchive/verify.go:271-292 | two chains that agree at one header agree below it |
| HeaderChain.EqualTopsAgree | historyarchive/verify.go:271-292 | two verified archives with equal top hashes have the same height and agree on all headers they share |
| HeaderChain.ZeroHashHidesGap | historyarchive/verify.go:253-269 | two recorded headers with a gap between them and no mismatch |
| TxSets.ByHash.Sort | historyarchive/verify.go:33-61 | sorting in place keeps the transactions and orders them by hash |
| TxSets.SortedIsUnique | historyarchive/verify.go:47-61 | without hash collisions there is one way to sort |
| TxSets.SortTxsForHash | historyarchive/verify.go:47-61 | the transactions are left in the order of the hashes of their encodings, or untouched if one of them cannot be encoded |
| TxSets.HashTxSet | historyarchive/verify.go:63-81 | nothing is hashed or moved if a transaction cannot be encoded; otherwise the hash is that of the previous hash followed by the encodings in hash order, each between those of the transactions before and behind it; without collisions that is one order |
| TxSets.EncodingsJoin | historyarchive/verify.go:72-77 | the encodings of two lists of transactions in turn are those of the one followed by those of the other |
| TxSets.HashBothOrders | historyarchive/verify.go:63-81 | the hash of a set does not depend on the order in which it is stored |
| Challenge.VerifyTxSignatures | txnbuild/transaction.go:1157-1196 | the signers found by the greedy assignment, in order and without repetition, each of whom made a signature with its hint that verifies; an error if the transaction cannot be hashed or a signer is not an address |
| Challenge.VerifyTxSignature | txnbuild/transaction.go:1145-1152 | one signer has signed exactly if it is an address and some signature carries its hint and verifies |
| Challenge.AssignIsGreedy | txnbuild/transaction.go:1163-1186 | only matching signatures are taken, none twice, and a signer goes without only if earlier signers took all its signatures |
| Challenge.VerifyChallengeTxSigners | txnbuild/transaction.go:1059-1143 | the outcome, with the found signers also returned when some signature is not recognized, and the panic when nobody at all is found |
| Challenge.OtherVersionsIgnored | txnbuild/transaction.go:1091-1098 | a listed seed, or hash of a transaction or preimage, changes nothing |
| SignerOrder.KeysRefusedExactly | txnbuild/transaction.go:1061-1114 | exactly when a challenge is refused for being unreadable, for the server's key, for want of clients, of a hash, or for a malformed client key |
| SignerOrder.SignaturesRefusedExactly | txnbuild/transaction.go:1111-1143 | if none of these, exactly which of the remaining refusals is given, by whether the server signed, some client has a signature the server leaves, and a signature is left over |
| Challenge.SuccessAccountsForAllSignatures | txnbuild/transaction.go:1059-1143 | on success the signatures correspond one for one to the server and the signers returned, each carrying the hint of its own and verifying under it; those returned are at least one, all different, not the server, and among the arguments |
| Challenge.ExclusiveFindsAllWhoSigned | txnbuild/transaction.go:1157-1196 | if no signature verifies under two of the listed signers, those found are those who signed |
| Challenge.AcceptedExactlyWhen | txnbuild/transaction.go:1059-1143 | under that condition acceptance is exactly: all keys well-formed, server and some client signed, every signature known, nobody signed twice |
| SignerOrder.SameForEveryOrderExactly | txnbuild/transaction.go:1157-1196 | the same signers are found in every order of the clients exactly if no client can be blocked |
| SignerOrder.UnblockableFindsAll | txnbuild/transaction.go:1157-1196 | those found are then the clients that made a signature the server does not take |
| SignerOrder.UnblockableExactlyIfPrivate | txnbuild/transaction.go:1157-1196 | if each client made at most one signature that the server leaves, none can be blocked exactly if no two share one |
| SignerOrder.SignedOnceExactly | txnbuild/transaction.go:1157-1196 | if nobody signs twice, the same signers are found in every order exactly if no two clients share a signature that the server did not make |
| SignerOrder.FoundUnlessBlocked | txnbuild/transaction.go:1163-1186 | a client goes without only if it has no signature that the server leaves, or those listed before it block it |
| SignerOrder.FirstIsFound | txnbuild/transaction.go:1163-1186 | a client listed right after the server is found if it made a signature the server does not take |
| SignerOrder.SharersNeverBothFound | txnbuild/transaction.go:1163-1186 | of two clients that share the only signature they have left one is not found |
| SignerOrder.GiveOut | txnbuild/transaction.go:1163-1186 | signatures given out one for one, nobody leaving a lower one that is not, are what the greedy search takes in some order |
| SignerOrder.CanBeAcceptedExactlyWhen | txnbuild/transaction.go:1059-1143 | some order of the signers is accepted exactly if all client keys are addresses, the server signed, and its other signatures, at least one, can be given one for one to clients that made them |
| SignerOrder.AcceptedAsListed | txnbuild/transaction.go:1059-1143 | if no client can be blocked, the order at hand is accepted exactly if some order is |
| SignerOrder.SameFailure | txnbuild/transaction.go:1059-1143 | all orders that are refused give the same error |
| SignerOrder.OrderIrrelevant | txnbuild/transaction.go:1059-1143 | if no client can be blocked, reordering or repeating signers changes neither the verdict nor who is found |
| SignerOrder.SharedSignatureGoesToTheFirst | txnbuild/transaction.go:1163-1186 | a single signature that two signers share goes to the one listed first |
| ChallengeThreshold.VerifyChallengeTxThreshold | txnbuild/transaction.go:1018-1039 | the outcome for some order of the summary's keys; if no client can be blocked or no order is accepted, the verdict and the signers are those of every order |
| ChallengeThreshold.ThresholdOrderIrrelevant | txnbuild/transaction.go:1018-1039 | under that condition the verdict and the signers are the same for any two orders of the keys |
| ChallengeThreshold.SameVerdictExactly | txnbuild/transaction.go:1018-1039 | the verdict is the same for all orders of the keys, whatever the weights and the threshold, exactly under that condition |
| ChallengeThreshold.OrderDecides | txnbuild/transaction.go:1018-1039 | otherwise there are weights, a threshold and two orders of the keys, one passing and the other not |
| ChallengeThreshold.SignedOnceSameVerdict | txnbuild/transaction.go:1018-1039 | if nobody signs twice and some order is accepted, the verdict is the same for all orders exactly if no two clients share a signature that the server did not make |
| ChallengeThreshold.WeightIsWrappedTotal | txnbuild/transaction.go:1029-1032 | adding in 32 bits in any order gives the true total wrapped once |
| ChallengeThreshold.ThresholdMet | txnbuild/transaction.go:1029-1036 | passes exactly if the wrapped total reaches the threshold, and then returns the signers found; the true total then reaches it if no weight is negative, and the two agree if the total fits |
| ChallengeThreshold.WrappedTotals | txnbuild/transaction.go:1029-1036 | for any two clients that both signed: weights whose total is negative meet the threshold 2, and weights whose total is 2^31 do not |
| ChallengeExamples.BothCanSign | txnbuild/transaction.go:1059-1143 | a challenge with three addresses at which both clients are found |
| ChallengeExamples.SharedSignatureDecidesVerdict | txnbuild/transaction.go:1018-1039 | for any two clients that share a signature: visited in one order the threshold is met, in the other it is missed |
| ChallengeExamples.SignatureCanBeShared | txnbuild/transaction.go:1163-1186 | such a challenge |
| ChallengeExamples.SharingNeedNotMatter | txnbuild/transaction.go:1163-1186 | a client signs twice and shares its second signature with another: both are found in either order |
| ChallengeExamples.OrderDecidesAcceptance | txnbuild/transaction.go:1059-1143 | it shares its first signature instead: listed second it is found with the other and all is accepted, listed first a signature is left over and all is refused |
| ChallengeExamples.CanSignTwice | txnbuild/transaction.go:1163-1186 | such challenges |
| ChallengeExamples.MalformedKeyRefusesAll | txnbuild/transaction.go:1081-1114 | one listed account key that is not an address makes the check fail, whoever signed |
| ChallengeExamples.KeyCanBeMalformed | txnbuild/transaction.go:1081-1114 | a key that has the version of an account but not its checksum |
| ChallengeExamples.WrongHintIsRefused | txnbuild/transaction.go:1172-1182 | a signature that verifies under a client but carries another hint does not count |
| ChallengeExamples.HintCanBeWrong | txnbuild/transaction.go:1172-1182 | such a challenge |
| LedgerKey.MarshalBinaryCompress | xdr/ledger_key.go:117-168 | the appends yield a form in which each part of the key stands in its place, and that can be read back, up to trailing NULs of data names, for all five key types |
| LedgerKey.DecompressCompress | xdr/ledger_key.go:117-168 | the compressed form can be read back, up to trailing NULs of data names |
| LedgerKey.CompressDecompress | xdr/ledger_key.go:117-168 | whatever can be read is the compressed form of exactly that key |
| LedgerKey.AssetRoundTrip | xdr/asset.go:278-307 | trimmed asset codes of either width are recovered |
| LedgerKey.CompressInjective | xdr/ledger_key.go:117-168 | equal forms exactly for keys equal up to trailing NULs of data names |
| LedgerKey.InjectiveWithoutTrailingNul | xdr/ledger_key.go:117-168 | equal forms mean equal keys if data names do not end in NUL |
| LedgerKey.TrailingNulCollides | xdr/ledger_key.go:149-156 | two different keys with the same form |
| Framing.MarshalFramed | xdr/main.go:104-125 | the frame is appended; or nothing is, with an error; or, only if the writer fails, a beginning of the frame is |
| Framing.UnmarshalFramed | xdr/main.go:130-151 | succeeds exactly if the first octet has its high bit set and the header announces what the decoder takes for the value behind it, unless the reader fails; the record is then consumed, and in any case a beginning of the input |
| Framing.XdrStream.ReadOne | historyarchive/xdrstream.go:143-181 | one record, taking and counting exactly its octets, unless the reader fails: a value exactly if the announced body, not empty, is there and decodes in full, and the end exactly at the end or at an empty record; which ends and errors close the reader |
| Framing.ReadOneFrame | historyarchive/xdrstream.go:143-181 | both readers give back what the writer wrote; ReadOne takes an empty record for the end |
| Framing.ReadThrough | historyarchive/xdrstream.go:143-181 | non-empty records are read back in order, and reading goes on behind them |
| Framing.RoundTripExactly | historyarchive/xdrstream.go:143-181 | a written stream reads back completely, then ends, exactly if no record is empty |
| Framing.CutInsideRecordIsAnError | historyarchive/xdrstream.go:143-181 | a stream cut inside a record gives the records before and an error, never a clean end |
| Framing.HeaderIsRightExactly | xdr/main.go:104-125 | which lengths are refused, and that a written length is right exactly up to 0x7fffffff |
| Framing.HeaderCanBeWrong | xdr/main.go:104-125 | a body of 4 GiB is written under the header of an empty one |
| Amount.StringFromInt64 | amount/main.go:121-125 | prints a valid amount of seven places that denotes exactly v |
| Amount.ParseInt64 | amount/main.go:63-83 | the one 64-bit integer that the text's digits denote in ten-millionths, exactly; each error with its exact condition; digits alone denote their value times One |
| Amount.TextDenotes | amount/main.go:121-125 | the printed text denotes exactly v |
| Amount.TextIsValid | amount/main.go:28-38 | twenty characters suffice for every 64-bit amount |
| Amount.PrintThenParse | amount/main.go:63-125 | every 64-bit amount survives printing and parsing |
| Amount.IntStringToAmount | amount/main.go:89-113 | refuses exactly what is not a sign and digits; otherwise the point is moved seven places, and the result denotes the integer divided by 10^7, exactly |
| Amount.ShiftedIsAmountText | amount/main.go:89-125 | on the decimal form of any integer it prints what StringFromInt64 prints |
| Amount.ShiftedDivides | amount/main.go:85-113 | on every accepted text the result denotes the integer divided by 10^7, exactly |

## Left out

- Price.ContinuedFraction: says nothing about negative prices beyond termination; the pattern admits a minus sign but the bound test is one-sided.
- Base32.AcceptedBits: strings with CR or LF, which Go's base32 decoder skips after the checks of strkey/main.go, are refused here as outside the alphabet; that decoder is not part of this model. The remainder tests are written with division instead of bit masks.
- Exchange.ConvertToBuyingUnits: negative amounts and prices follow the code's conversions but have no stated result.
- Archives.Archive.ScanBuckets: concurrent workers are modelled as note operations in arbitrary order, each atomic as under the source's mutex; interleavings within the backend are not. When a history file cannot be read, arbitrary buckets stand for what was decoded before the error.
- RepairArchive.Repair: completeness is not stated for a destination with a filled cache or with matching files elsewhere; and nothing is said of what a failing repair with Force may have overwritten.
- Mirror.MirrorComplete: says nothing about runs that panic (a bucket hash that does not decode) and reads the source's state for a checkpoint once.
- Error counters are natural numbers; the source counts in 32 bits.
- TxSets.ByHash.Sort: the insertion sort that Go's library uses on short slices; for longer ones it uses other algorithms with the same result by `TxSets.SortedIsUnique`.
- HeaderChain.Verifier.VerifyCategoryCheckpoint: a file is given as its decoded entries, with whether they can be hashed and the hashes of their sets; verifying buckets is not modelled.
- Framing.UnmarshalFramed: how much of a body that does not decode has been consumed is not modelled.
- Challenge.VerifyChallengeTxSigners: `ReadChallengeTx` (clock, nonce, parsing) is a parameter; addresses whose payload is not 32 bytes, on which the source panics, are treated like others.
- LedgerKey.MarshalBinaryCompress: unknown key or asset types, on which the source panics, cannot be expressed.
- Framing.XdrStream.ReadOne: reading after the reader was closed goes on; hashing the stream and gzip are not modelled.
- Logging, tickers and statistics; the HTTP, S3 and file-system backends; JSON, gzip, SHA-256 and ed25519 themselves.
- Formatting of floating-point prices, database scanners, per-operation builders and accessors.

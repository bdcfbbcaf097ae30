# Verification of the IISModuleJS core

A Dafny model of the parts of IISModuleJS where the reasoning is hard, with proofs for all inputs and all runs.

- **`SlotGate.dfy`**: the gate that admits at most 24 workers, as a step system over any number of threads with one
  recursive isolate lock. A caller waits for a slot while it holds the lock; a worker gives its slot back and notifies
  before it asks for the lock.
- **`Callbacks.dfy`**: the request notifications. Promises are one-shot cells with reactions, the microtask queue and the
  stack of nested callbacks are explicit.
- **`Paths.dfy`, `Rfc3986.dfy`**: the path normaliser, its reference on segment stacks and the cache; the comparison with
  the loop of RFC 3986.
- **`Bodies.dfy`, `RequestBodies.dfy`**: `response.write`, `response.read` and `request.read`.
- **`Accounting.dfy`**: the external memory charged for fetch, db and ipc handles.
- **`Words.dfy`, `WordArrays.dfy`**: byte strings in 32-bit words, and the WordArray object of CryptoJS.
- **`Streams.dfy`, `BufferedBlocks.dfy`**: block machines on byte streams, and the buffered block algorithm in place.
- **`Hashers.dfy`, `Hmac.dfy`, `HmacSha.dfy`**: padding and streaming over any compression function, HMAC over any hasher,
  and HMAC over the script's two.
- **`Sha.dfy`, `ShaMessages.dfy`, `ShaHashers.dfy`**: the two SHA block functions on double-precision numbers that are not
  reduced after each addition, runs of blocks, and the two hashers as a whole.
- **`Cbc.dfy`, `FirstBlocks.dfy`**: CBC with PKCS#7, one-shot and streamed, and what losing the first block does.
- **`Base64.dfy`, `OpenSsl.dfy`**: Base64, and the OpenSSL text container with the ciphers that serialise to it.
- **`Options.dfy`, `Numbers.dfy`**: what the modules share.

`dafny verify dfyconfig.toml` checks the project.

How the model reads the source:

- A missing script array element reads as 0, as the bit operators read `undefined`.
- A sum of script numbers goes through an arbitrary rounding function that is the identity up to 2^53 in magnitude, so a
  proof that nothing is rounded is a proof about every rounding.
- The server's answers (accepted chunks, sizes of partial reads, failures), random salts, the work of the worker threads
  and the directory join are parameters.
- Where the code departs from what a reader expects, the code is followed: the last of several chunks is sent with the
  more-data flag set (`Bodies.MoreDataFlags`), ".." does not remove a relative first segment (`Rfc3986.AgreesWithRfc`),
  unclamped words are padded wrongly (`Hashers.PaddingExact`), a ciphertext that begins with the marker is taken for a
  salted one (`OpenSsl.KeyedRoundTrip`), and a pad byte beyond what the decryptor holds back leaves a negative count
  after streaming (`Cbc.StreamedDecryptionExact`).
- That a handle is collected once, and only after it was made, is taken from V8. A charge is computed again at collection
  in the source; here it is a field, because the script can only read the response it is computed from.

## Model

| member | source | states |
|---|---|---|
| `SlotGate.Safety` | IISModuleJS/v8_wrapper.cpp:716-894 | every reachable state of any number of threads keeps the whole invariant: exact counter, lock ownership, no lost wake-up, roles |
| `SlotGate.CounterIsExact` | IISModuleJS/v8_wrapper.cpp:824-831 | in every reachable state the counter is the number of workers between admission and release, and lies in 0..24 |
| `SlotGate.AtMostOneWaiter` | IISModuleJS/v8_wrapper.cpp:718-721 | two threads at the gate or asleep are the same thread, and it holds the isolate lock |
| `SlotGate.NoLostWakeUpKept` | IISModuleJS/v8_wrapper.cpp:826-831 | every step keeps: a sleeper while a slot is free has a worker that must still notify |
| `SlotGate.SleeperCanBeServed` | IISModuleJS/v8_wrapper.cpp:1281-1287 | whenever a caller sleeps there is a worker that can release or notify without the isolate lock |
| `SlotGate.Progress` | IISModuleJS/v8_wrapper.cpp:1323-1334 | deadlock freedom: a state that is not at rest has an enabled step that needs no new request |
| `SlotGate.InternalStepDescends` | IISModuleJS/v8_wrapper.cpp:1323-1334 | every such step lowers a rank, whatever is scheduled |
| `SlotGate.Drains` | IISModuleJS/v8_wrapper.cpp:1961-1967 | from every reachable state some run of internal steps reaches rest |
| `SlotGate.InternalRunsAreBounded` | IISModuleJS/v8_wrapper.cpp:2002-2013 | no run of internal steps alone is longer than the rank of its start |
| `SlotGate.InternalStepsArePaid` | IISModuleJS/v8_wrapper.cpp:716-894 | in every run, whatever its schedule, the internal steps are at most 2 per entry, 1 per nesting or spurious wake-up and 8 per valid call |
| `SlotGate.WaitIsBounded` | IISModuleJS/v8_wrapper.cpp:718-721 | under every schedule a caller waits through at most 3 release, notify or test steps per busy slot, 2 per notification under way and one test, plus one per spurious wake-up, and nothing else can happen but arrivals |
| `SlotGate.WaiterIsServed` | IISModuleJS/v8_wrapper.cpp:1281-1287 | while a caller waits, one of those steps is always enabled |
| `SlotGate.Available` | IISModuleJS/v8_wrapper.cpp:716-722 | in every reachable state each thread can make every step of its phase, whatever the counter: a script thread, a worker running continuations included, can call with good or bad arguments and nest; a sleeper can wake spuriously |
| `SlotGate.SleeperIsAdmitted` | IISModuleJS/v8_wrapper.cpp:718-721 | a run in which 24 workers are busy, one more valid call sleeps, and a release, a notification and a test admit it |
| `SlotGate.SettledOnceAfterRelease` | IISModuleJS/v8_wrapper.cpp:1564-1596 | over any run a worker settles at most as often as it released, and releases at most once |
| `SlotGate.AdmissionsAreConserved` | IISModuleJS/v8_wrapper.cpp:1511-1517 | over any run the valid calls are the workers ever made plus the callers still waiting; a failed argument check takes no slot |
| `SlotGate.DrainedMeansAllSettled` | IISModuleJS/v8_wrapper.cpp:1911-1940 | at rest every worker has released exactly once and settled exactly once, and there is one worker per valid call |
| `Callbacks.Safety` | IISModuleJS/v8_wrapper.cpp:3300-3533 | every reachable state keeps the invariant: conservation of Pending answers, one-shot values, answers that fit, the callback stack |
| `Callbacks.ConservedKept` | IISModuleJS/v8_wrapper.cpp:3434-3508 | each step keeps: per promise, the notifications called back followed by those waiting are the ones answered Pending, in order |
| `Callbacks.AnsweredOnce` | IISModuleJS/v8_wrapper.cpp:3395-3508 | an immediate answer is never followed by a completion; a Pending one is completed at most once, never before its promise settled, and is completed or queued from then on; PRE_BEGIN_REQUEST never pends |
| `Callbacks.CompletedInOrder` | IISModuleJS/v8_wrapper.cpp:3466-3474 | completions of notifications that share a promise come in the order of their Pending answers |
| `Callbacks.ToldOnce` | IISModuleJS/v8_wrapper.cpp:3417-3508 | the server is never told two different things about one notification, at once or by completion |
| `Callbacks.Drained` | IISModuleJS/v8_wrapper.cpp:3434-3476 | once the microtask queue has run, exactly the Pending notifications with a settled promise are completed, each once |
| `Callbacks.EarlyOrLate` | IISModuleJS/v8_wrapper.cpp:3417-3438 | settling a promise before the callback returns it or after leads to the same verdict, told at once or by a completion |
| `Callbacks.DirectValue` | IISModuleJS/v8_wrapper.cpp:3526-3532 | a value returned directly is told as a promise settled to it would be, as GL_NOTIFICATION_HANDLED for PRE_BEGIN_REQUEST |
| `Callbacks.StatusFitsKind` | IISModuleJS/v8_wrapper.cpp:3395-3407 | PRE_BEGIN_REQUEST is only ever told CONTINUE or HANDLED, the others CONTINUE or FINISH_REQUEST |
| `Callbacks.AnswerTable` | IISModuleJS/v8_wrapper.cpp:3380-3532 | what each outcome makes the server hear, in plain statuses: a throw, another value, a number, a settled and an unsettled promise, for both groups of kinds |
| `Callbacks.PromiseTable` | IISModuleJS/v8_wrapper.cpp:3417-3474 | a promise settled early or late finishes the request if and only if its value is a number other than 0 |
| `Callbacks.CompletionTable` | IISModuleJS/v8_wrapper.cpp:3434-3474 | every completion ever indicated finishes the request if and only if the settled value is a number other than 0 |
| `Callbacks.ArrivalTable` | IISModuleJS/v8_wrapper.cpp:3302-3326 | without an engine or a callback, and after every reset, a notification continues at once; otherwise its callback is entered |
| `Callbacks.Available` | IISModuleJS/v8_wrapper.cpp:3300-3533 | in every reachable state every outcome can be returned, every promise settled and every queued reaction run |
| `Callbacks.QueueIsFifo` | IISModuleJS/v8_wrapper.cpp:3503-3508 | only the oldest queued reaction is taken, and new ones go behind the queued ones |
| `Callbacks.SampleRun` | IISModuleJS/v8_wrapper.cpp:3411-3508 | a run in which a request pends, its promise is settled to 1 and the request is completed with FINISH_REQUEST |
| `Paths.RewriteBackslashes` | IISModuleJS/v8_wrapper.cpp:163-173 | the loop replaces every backslash by a slash and leaves every other character and the length as they are |
| `Paths.SlashesSame` | IISModuleJS/v8_wrapper.cpp:165-173 | writing some backslashes as slashes beforehand changes nothing |
| `Paths.Normalize` | IISModuleJS/v8_wrapper.cpp:177-264 | the buffer loop computes the segment-stack definition of the normalised path, for every input, and the same for an input whose backslashes were written as slashes beforehand |
| `Paths.FinishIsNormalized` | IISModuleJS/v8_wrapper.cpp:188-264 | from an empty output, the rewriting steps of the loop end in the segment-stack definition, for every string |
| `Paths.FinishAbsolute` | IISModuleJS/v8_wrapper.cpp:206-262 | mid-loop: with a first segment and a stack already in the output, the rest of the loop resolves the remaining segments onto that stack |
| `Paths.NoDotSegments` | IISModuleJS/v8_wrapper.cpp:188-264 | the result has no "." or ".." segment and is no longer than the input |
| `Paths.CleanIsFixed` | IISModuleJS/v8_wrapper.cpp:254-263 | a path without dot segments is left unchanged |
| `Paths.Idempotent` | IISModuleJS/v8_wrapper.cpp:188-264 | normalising twice is normalising once |
| `Paths.IdempotentRaw` | IISModuleJS/v8_wrapper.cpp:163-264 | for raw input: what a call computes is left unchanged by a second call |
| `Paths.NoBackslash` | IISModuleJS/v8_wrapper.cpp:165-173 | the result for any raw input has no backslash |
| `Paths.SplitOfRender` | IISModuleJS/v8_wrapper.cpp:256-262 | splitting a rendered segment list returns the segments |
| `Paths.RenderOfSplit` | IISModuleJS/v8_wrapper.cpp:256-262 | rendering the segments of a string returns the string |
| `Rfc3986.RemovesDotSegments` | IISModuleJS/v8_wrapper.cpp:180-187 | the loop over two buffers of section 5.2.4 of RFC 3986 is, for every input, a definition on segments |
| `Rfc3986.AgreesWithRfc` | IISModuleJS/v8_wrapper.cpp:220-241 | the result is that of the RFC's loop if and only if no ".." climbs above a relative first segment |
| `Rfc3986.DepartsFromRfc` | IISModuleJS/v8_wrapper.cpp:226-240 | "a/.." shows the departure: "a/" instead of "/" |
| `Paths.PathCache.constructor` | IISModuleJS/v8_wrapper.cpp:152 | the cache starts empty and valid |
| `Paths.PathCache.GetRelativeFilePath` | IISModuleJS/v8_wrapper.cpp:152-271 | a call returns the uncached result, stores it under the raw key, and changes no stored entry |
| `Words.BytesOfPack` | IISModuleJS Examples/twitter-api/CryptoJS.js:36-40 | packing a byte string gives clean words that read back as it |
| `Words.PackOfBytes` | IISModuleJS Examples/twitter-api/CryptoJS.js:36-40 | clean words are the packing of their bytes |
| `Words.ByteAtMerge` | IISModuleJS Examples/twitter-api/CryptoJS.js:51 | or-ing a byte in at position p changes that byte alone, by or |
| `Words.NumberOfWordOf` | IISModuleJS Examples/twitter-api/CryptoJS.js:51 | the word of a number, read back byte by byte, is the number modulo 2^32 |
| `Words.WordOfNumberOf` | IISModuleJS Examples/twitter-api/CryptoJS.js:51 | the number of a word gives back the word |
| `Words.SmallNumber` | IISModuleJS Examples/twitter-api/CryptoJS.js:51 | a word below 256 stands for its value |
| `Words.ShiftMultiplies` | IISModuleJS Examples/twitter-api/CryptoJS.js:51 | shifting a word by a byte multiplies its number by 256 modulo 2^32 |
| `WordArrays.WordArray.Clamp` | IISModuleJS Examples/twitter-api/CryptoJS.js:58-63 | the value is kept; spare words and everything after the last byte are gone, the shift by 32 included |
| `WordArrays.WordArray.Concat` | IISModuleJS Examples/twitter-api/CryptoJS.js:44-57 | the value becomes the old bytes followed by the argument's, on all three paths and also when the argument is the object itself |
| `WordArrays.WordArray.MergeBytes` | IISModuleJS Examples/twitter-api/CryptoJS.js:50-51 | the unaligned path appends byte by byte and leaves clean words |
| `WordArrays.WordArray.CopyWords` | IISModuleJS Examples/twitter-api/CryptoJS.js:52-53 | the bulk path copies every word of the argument behind the old words |
| `Streams.RunSplit` | IISModuleJS Examples/twitter-api/CryptoJS.js:153-155 | running a block machine over two inputs in turn is running it over their concatenation |
| `Streams.FeedAllIsRun` | IISModuleJS Examples/twitter-api/CryptoJS.js:142-162 | for every split into chunks, the outputs so far are one run over a prefix of the concatenation and the rest is buffered |
| `Streams.StreamThenTail` | IISModuleJS Examples/twitter-api/CryptoJS.js:142-162 | finishing after any chunks with any tail gives the one-shot run over everything |
| `BufferedBlocks.Buffered.Append` | IISModuleJS Examples/twitter-api/CryptoJS.js:135-141 | the buffer grows by the argument's bytes and the byte total by their number |
| `BufferedBlocks.Buffered.Sweep` | IISModuleJS Examples/twitter-api/CryptoJS.js:153-155 | the in-place block loop is the run of the block machine over the first blocks and touches no later word |
| `BufferedBlocks.Buffered.Process` | IISModuleJS Examples/twitter-api/CryptoJS.js:142-162 | output, remaining buffer and state are those of draining the ready blocks, or when flushing of all of them, the last completed with whatever follows, which is zeros in a clamped buffer |
| `BufferedBlocks.FilledIsLeast` | IISModuleJS Examples/twitter-api/CryptoJS.js:147-150 | filling up for a flush adds only zeros, fewer than a block of them, up to whole blocks |
| `Hashers.PaddingIsMinimal` | IISModuleJS Examples/twitter-api/CryptoJS.js:270-273 | no smaller number of zero bytes fills the last block |
| `Hashers.PaddingMeans` | IISModuleJS Examples/twitter-api/CryptoJS.js:265-273 | the padding is 0x80, zeros, and eight bytes that spell the number of bits modulo 2^64, most significant first |
| `Hashers.StoredLength` | IISModuleJS Examples/twitter-api/CryptoJS.js:268-272 | whatever the buffer held, its last eight bytes after the three stores spell the number of bits modulo 2^64 |
| `Hashers.BlockCountIsMinimal` | IISModuleJS Examples/twitter-api/CryptoJS.js:271-272 | ((e + 64) >>> 9) + 1 blocks are exactly what message and padding need, and the least that hold them |
| `Hashers.PaddingExact` | IISModuleJS Examples/twitter-api/CryptoJS.js:265-273 | the in-place padding is that of section 5.1.1 of FIPS 180-4 if and only if the words behind the message hold nothing harmful |
| `Hashers.CleanIsHarmless` | IISModuleJS Examples/twitter-api/CryptoJS.js:58-63 | clamped words hold nothing harmful |
| `Hashers.UnclampedIsHashedWrong` | IISModuleJS Examples/twitter-api/CryptoJS.js:270 | an unclamped one-byte array is padded wrongly |
| `Hashers.AbsorbSplit` | IISModuleJS Examples/twitter-api/CryptoJS.js:182-188 | absorbing whole blocks and then more is absorbing the concatenation |
| `Hashers.FeedAbsorbs` | IISModuleJS Examples/twitter-api/CryptoJS.js:182-188 | an update keeps: whole blocks of the message absorbed, the rest buffered |
| `Hashers.StreamedHash` | IISModuleJS Examples/twitter-api/CryptoJS.js:182-192 | for every split into updates and a last piece, the result is the hash of the concatenation |
| `Hashers.Hasher.constructor` | IISModuleJS Examples/twitter-api/CryptoJS.js:173-181 | a new hasher has absorbed the empty message |
| `Hashers.Hasher.Reset` | IISModuleJS Examples/twitter-api/CryptoJS.js:177-181 | after a reset the hasher has absorbed the empty message |
| `Hashers.Hasher.Update` | IISModuleJS Examples/twitter-api/CryptoJS.js:182-188 | the message grows by the argument's bytes and stays absorbed or buffered |
| `Hashers.Hasher.Finalize` | IISModuleJS Examples/twitter-api/CryptoJS.js:189-192 | returns the hash of everything updated and the last piece |
| `Hmac.ShortenKey` | IISModuleJS Examples/twitter-api/CryptoJS.js:298-299 | the key of one block: hashed when longer than a block, clamped |
| `Hmac.HmacMeans` | IISModuleJS Examples/twitter-api/CryptoJS.js:318-323 | for a key of at most a block, the code is the two nested hashes over the key bytes xor-ed with 0x5C and 0x36, zero-extended |
| `Hmac.LongKey` | IISModuleJS Examples/twitter-api/CryptoJS.js:298 | a key longer than a block gives the code of its hash |
| `Hmac.XorClone` | IISModuleJS Examples/twitter-api/CryptoJS.js:301-305 | the clone holds the zero-extended key xor-ed with the pad byte |
| `Hmac.Hmac.constructor` | IISModuleJS Examples/twitter-api/CryptoJS.js:293-307 | a new object has the given key and has absorbed the inner key block alone |
| `Hmac.Hmac.SetKeys` | IISModuleJS Examples/twitter-api/CryptoJS.js:298-305 | both key blocks are those of section 2 of RFC 2104 for every key length |
| `Hmac.Hmac.Reset` | IISModuleJS Examples/twitter-api/CryptoJS.js:308-312 | the key stays and the message is empty again |
| `Hmac.Hmac.Update` | IISModuleJS Examples/twitter-api/CryptoJS.js:313-317 | the message grows by the argument's bytes; the buffer stays the same object with less than a block in it, so any call can follow |
| `Hmac.Hmac.Finalize` | IISModuleJS Examples/twitter-api/CryptoJS.js:318-323 | returns H(opad-key, H(ipad-key, message)) of section 2 of RFC 2104 for the updates since the last reset and a last piece, and keeps the key for a reset |
| `Hmac.UpdateAll` | IISModuleJS Examples/twitter-api/CryptoJS.js:313-317 | any number of updates appends the concatenation of their bytes |
| `Hmac.Authenticate` | IISModuleJS Examples/twitter-api/CryptoJS.js:292-324 | a new object, any number of updates and a last piece give the RFC's code of the concatenation, for every split, key length and hasher |
| `HmacSha.KeyBlock256` | IISModuleJS Examples/twitter-api/CryptoJS.js:298-299 | the script's SHA-256 object shortens a long key to the standard's digest of it |
| `HmacSha.UpdateAll256` | IISModuleJS Examples/twitter-api/CryptoJS.js:182-188 | any number of updates of the SHA-256 object appends the concatenation of their bytes |
| `HmacSha.Digest256` | IISModuleJS Examples/twitter-api/CryptoJS.js:309-320 | reset, a first piece, any number of others and a last one give the SHA-256 digest of the concatenation |
| `HmacSha.Outer256` | IISModuleJS Examples/twitter-api/CryptoJS.js:321-322 | the second hash is the SHA-256 digest of the outer key block and the inner digest |
| `HmacSha.Code256` | IISModuleJS Examples/twitter-api/CryptoJS.js:301-322 | under a key block the two nested digests are those of section 2 of RFC 2104 |
| `HmacSha.HmacSha256` | IISModuleJS Examples/twitter-api/CryptoJS.js:199-203 | HmacSHA256 on the script's own numbers is the RFC's code over the SHA-256 of FIPS 180-4, for every key length and split |
| `HmacSha.KeyBlock1` | IISModuleJS Examples/twitter-api/CryptoJS.js:298-299 | the script's SHA-1 object shortens a long key to the standard's digest of it |
| `HmacSha.UpdateAll1` | IISModuleJS Examples/twitter-api/CryptoJS.js:182-188 | any number of updates of the SHA-1 object appends the concatenation of their bytes |
| `HmacSha.Digest1` | IISModuleJS Examples/twitter-api/CryptoJS.js:309-320 | reset, a first piece, any number of others and a last one give the SHA-1 digest of the concatenation |
| `HmacSha.Outer1` | IISModuleJS Examples/twitter-api/CryptoJS.js:321-322 | the second hash is the SHA-1 digest of the outer key block and the inner digest |
| `HmacSha.Code1` | IISModuleJS Examples/twitter-api/CryptoJS.js:301-322 | under a key block the two nested digests are those of section 2 of RFC 2104 |
| `HmacSha.HmacSha1` | IISModuleJS Examples/twitter-api/SHA1.js:21-95 | HmacSHA1 on the script's own numbers is the RFC's code over the SHA-1 of FIPS 180-4, for every key length and split |
| `Sha.SizeCapped` | IISModuleJS Examples/twitter-api/CryptoJS.js:239-243 | the unreduced schedule grows at most as a recurrence caps it |
| `Sha.SizeBelow` | IISModuleJS Examples/twitter-api/CryptoJS.js:239-243 | entry p of the schedule stays below 382 * 2^31, far from 2^53 |
| `Sha.BitsAreNumbers` | IISModuleJS Examples/twitter-api/CryptoJS.js:239 | taking 32 bits of a number and reading them back is reduction modulo 2^32, and the other way round the identity |
| `Sha.DoublesRound` | IISModuleJS Examples/twitter-api/CryptoJS.js:242-245 | the assumption on sums admits a rounding that changes numbers just above 2^53 |
| `Sha.SigmaValues` | IISModuleJS Examples/twitter-api/CryptoJS.js:242-245 | where the four sigma functions send single bits |
| `Sha.ChooseAndVote` | IISModuleJS Examples/twitter-api/CryptoJS.js:244-245 | Ch chooses between its last two words and Maj takes the majority |
| `Sha.BigAgree` | IISModuleJS Examples/twitter-api/CryptoJS.js:244-245 | the script's signed shift forms are the standard's big sigma functions modulo 2^32 |
| `Sha.SmallAgree` | IISModuleJS Examples/twitter-api/CryptoJS.js:242 | the script's signed shift forms are the standard's small sigma functions modulo 2^32 |
| `Sha.ChMajAgree` | IISModuleJS Examples/twitter-api/CryptoJS.js:244-245 | Ch and Maj on signed numbers are the standard's modulo 2^32 |
| `Sha.ScheduleEntry` | IISModuleJS Examples/twitter-api/CryptoJS.js:240-242 | a schedule entry is summed without rounding, agrees with the standard modulo 2^32 and obeys the size recurrence |
| `Sha.RoundEntry` | IISModuleJS Examples/twitter-api/CryptoJS.js:244-253 | one round on unreduced numbers is exact and is step 3 of section 6.2.2 of FIPS 180-4 modulo 2^32 |
| `Sha.FillEntry256` | IISModuleJS Examples/twitter-api/CryptoJS.js:239-243 | entry p of the shared scratch array is the standard's schedule word modulo 2^32 and obeys the size recurrence; earlier entries stay |
| `Sha.Loop256` | IISModuleJS Examples/twitter-api/CryptoJS.js:238-254 | the 64 rounds over the shared scratch array are the standard's rounds modulo 2^32 |
| `Sha.ProcessBlock256` | IISModuleJS Examples/twitter-api/CryptoJS.js:237-264 | the in-place block step is section 6.2.2 of FIPS 180-4 modulo 2^32 and leaves 32-bit words, with no sum ever rounded |
| `Sha.FAgrees` | IISModuleJS Examples/twitter-api/SHA1.js:51-59 | the four round functions, in their or-forms, are the standard's modulo 2^32 |
| `Sha.KAgrees` | IISModuleJS Examples/twitter-api/SHA1.js:51-59 | the four constants, two written as subtractions, are the standard's modulo 2^32 |
| `Sha.RoundEntry1` | IISModuleJS Examples/twitter-api/SHA1.js:50-65 | one round with the untruncated accumulator is exact and is section 6.1.2 of FIPS 180-4 modulo 2^32 |
| `Sha.FillEntry1` | IISModuleJS Examples/twitter-api/SHA1.js:43-48 | entry i of the shared scratch array is the standard's schedule word, as a 32-bit number; earlier entries stay |
| `Sha.Loop1` | IISModuleJS Examples/twitter-api/SHA1.js:42-66 | the 80 rounds are the standard's modulo 2^32 |
| `Sha.ProcessBlock1` | IISModuleJS Examples/twitter-api/SHA1.js:30-74 | the in-place block step is section 6.1.2 of FIPS 180-4 modulo 2^32, with no sum ever rounded |
| `ShaMessages.Blocks256` | IISModuleJS Examples/twitter-api/CryptoJS.js:153-155 | all blocks in turn, on unreduced numbers, are the standard's compression function folded over the blocks |
| `ShaMessages.Blocks1` | IISModuleJS Examples/twitter-api/CryptoJS.js:153-155 | all SHA-1 blocks in turn are the standard's compression function folded over the blocks |
| `ShaHashers.DropBlocks` | IISModuleJS Examples/twitter-api/CryptoJS.js:157-158 | cutting whole blocks off the buffer leaves the bytes after them, and clamped words clamped |
| `ShaHashers.Sha256.constructor` | IISModuleJS Examples/twitter-api/CryptoJS.js:234-236 | a new hasher has absorbed the empty message from the given initial words, with an empty, clamped buffer |
| `ShaHashers.Sha256.Reset` | IISModuleJS Examples/twitter-api/CryptoJS.js:177-181 | after a reset the hasher has absorbed the empty message and its buffer is empty and clamped |
| `ShaHashers.Sha256.Process` | IISModuleJS Examples/twitter-api/CryptoJS.js:142-162 | the script's block step over all whole blocks of the buffer is the standard's compression function folded over them, and the rest stays |
| `ShaHashers.Sha256.Update` | IISModuleJS Examples/twitter-api/CryptoJS.js:182-188 | the message grows by the argument's bytes, its whole blocks absorbed as the standard does and the rest, less than a block, buffered |
| `ShaHashers.Sha256.DoFinalize` | IISModuleJS Examples/twitter-api/CryptoJS.js:265-278 | in-place padding and the remaining block steps give the digest of section 6.2 of FIPS 180-4 |
| `ShaHashers.Sha256.Finalize` | IISModuleJS Examples/twitter-api/CryptoJS.js:189-192 | for every split into updates and a last piece, the script's numbers end as the SHA-256 digest of the concatenation |
| `ShaHashers.Sha256.Digest` | IISModuleJS Examples/twitter-api/CryptoJS.js:277 | the hash words handed on are the standard's digest words |
| `ShaHashers.Sha1.constructor` | IISModuleJS Examples/twitter-api/SHA1.js:22-28 | a new hasher has absorbed the empty message from the given initial words, with an empty, clamped buffer |
| `ShaHashers.Sha1.Reset` | IISModuleJS Examples/twitter-api/CryptoJS.js:177-181 | after a reset the hasher has absorbed the empty message and its buffer is empty and clamped |
| `ShaHashers.Sha1.Process` | IISModuleJS Examples/twitter-api/CryptoJS.js:142-162 | the SHA-1 block step over all whole blocks of the buffer is the standard's compression function folded over them |
| `ShaHashers.Sha1.Update` | IISModuleJS Examples/twitter-api/CryptoJS.js:182-188 | the message grows by the argument's bytes, its whole blocks absorbed as the standard does and the rest, less than a block, buffered |
| `ShaHashers.Sha1.DoFinalize` | IISModuleJS Examples/twitter-api/SHA1.js:76-95 | in-place padding and the remaining block steps give the digest of section 6.1 of FIPS 180-4 |
| `ShaHashers.Sha1.Finalize` | IISModuleJS Examples/twitter-api/CryptoJS.js:189-192 | for every split into updates and a last piece, the script's numbers end as the SHA-1 digest of the concatenation |
| `ShaHashers.Sha1.Digest` | IISModuleJS Examples/twitter-api/SHA1.js:93-94 | the hash words handed on are the standard's digest words |
| `Cbc.CbcMode.XorMask` | IISModuleJS Examples/twitter-api/CryptoJS.js:625-632 | xors one block with the IV the first time and with the previous block later, and touches nothing else |
| `Cbc.CbcMode.EncryptorProcessBlock` | IISModuleJS Examples/twitter-api/CryptoJS.js:646-654 | rewrites one block in place to the CBC encryption step |
| `Cbc.CbcMode.DecryptorProcessBlock` | IISModuleJS Examples/twitter-api/CryptoJS.js:655-664 | rewrites one block in place to the CBC decryption step |
| `Cbc.CbcMode.ProcessBlocks` | IISModuleJS Examples/twitter-api/CryptoJS.js:692-694 | block after block in place is the same run of the block machine that the buffer's sweep makes |
| `Cbc.Pad` | IISModuleJS Examples/twitter-api/CryptoJS.js:667-674 | appends 1 to 16 bytes up to a whole block, each of which equals the number appended |
| `Cbc.EveryPadByte` | IISModuleJS Examples/twitter-api/CryptoJS.js:667-674 | every byte of the padding equals its length (section 6.3 of RFC 5652) |
| `Cbc.Unpad` | IISModuleJS Examples/twitter-api/CryptoJS.js:675-677 | drops as many bytes as the last byte of the last word says; the count returned may be negative |
| `Cbc.StepRoundTrip` | IISModuleJS Examples/twitter-api/CryptoJS.js:646-664 | decrypting an encrypted block returns it and both modes agree on the next mask |
| `Cbc.RunRoundTrip` | IISModuleJS Examples/twitter-api/CryptoJS.js:646-664 | the same for any number of blocks |
| `Cbc.CbcEncryption` | IISModuleJS Examples/twitter-api/CryptoJS.js:646-654 | each ciphertext block encrypts its padded block xor the ciphertext block before it, the first one xor the IV (section 6.2 of NIST SP 800-38A) |
| `Cbc.EncryptionIsWhole` | IISModuleJS Examples/twitter-api/CryptoJS.js:698-701 | a ciphertext is a non-empty number of whole blocks that decrypts to message and padding |
| `Cbc.RoundTrip` | IISModuleJS Examples/twitter-api/CryptoJS.js:695-705 | decrypting an encryption returns the message, for every message, IV and invertible block cipher |
| `Cbc.StreamedEncryption` | IISModuleJS Examples/twitter-api/CryptoJS.js:593-601 | for every split into process calls and a last piece, the outputs concatenate to the one-shot ciphertext |
| `Cbc.StreamedOutcome` | IISModuleJS Examples/twitter-api/CryptoJS.js:593-601 | for every ciphertext and every split, the outputs are the one-shot bytes when the pad byte is at most the piece held at the end, and the count goes negative otherwise |
| `Cbc.StreamedDecryptionIsOneShot` | IISModuleJS Examples/twitter-api/CryptoJS.js:593-601 | for every split of a ciphertext of any length, the outputs concatenate to the one-shot plaintext when the pad byte is at most 16 + n % 16 or above the length n |
| `Cbc.StreamedDecryptionNeedsPadding` | IISModuleJS Examples/twitter-api/CryptoJS.js:675-677 | with any other pad byte, a ciphertext processed at once and then finished ends in a negative count, though it decrypts at one go |
| `Cbc.StreamedDecryptionExact` | IISModuleJS Examples/twitter-api/CryptoJS.js:593-601 | for every ciphertext, all splits agree with the one-shot plaintext if and only if the pad byte is at most 16 + n % 16 or above the length n |
| `Cbc.JoinedPieces` | IISModuleJS Examples/twitter-api/CryptoJS.js:44-57 | for every split of any ciphertext the raw pieces up to the sum of the counts, the last of which may be negative, are the one-shot plaintext; the sum is negative exactly when that is |
| `Cbc.StreamingFails` | IISModuleJS Examples/twitter-api/CryptoJS.js:675-677 | a 32-byte ciphertext under the identity cipher decrypts to 15 bytes at one go and to a negative count when streamed |
| `Cbc.StreamedRoundTrip` | IISModuleJS Examples/twitter-api/CryptoJS.js:593-601 | any split of any encryption decrypts to the message |
| `Cbc.BlockCipher.constructor` | IISModuleJS Examples/twitter-api/CryptoJS.js:684-691 | a new cipher has an empty buffer, the mode set to the IV, and holds back one block when decrypting |
| `Cbc.BlockCipher.Process` | IISModuleJS Examples/twitter-api/CryptoJS.js:593-597 | output, buffer and mode are those of feeding the chunk to the block machine |
| `Cbc.BlockCipher.FinalizeEncryption` | IISModuleJS Examples/twitter-api/CryptoJS.js:695-705 | returns the encryption of what is buffered, the last piece and its padding |
| `Cbc.BlockCipher.FinalizeDecryption` | IISModuleJS Examples/twitter-api/CryptoJS.js:695-705 | returns the decryption of what is buffered and the last piece without padding, or tells that the count is negative |
| `Base64.MapIndex` | IISModuleJS Examples/twitter-api/CryptoJS.js:366 | searching the map string finds exactly the alphabet's indices |
| `Base64.Vectors` | IISModuleJS Examples/twitter-api/CryptoJS.js:331-348 | the vectors of section 10 of RFC 4648 for one, two and three bytes |
| `Base64.SextetIsGroup` | IISModuleJS Examples/twitter-api/CryptoJS.js:338-342 | the bits cut from the 24-bit number are the 6-bit groups of section 4 of RFC 4648, zero-filled at the end |
| `Base64.Stringify` | IISModuleJS Examples/twitter-api/CryptoJS.js:331-348 | the text is the Base64 encoding of the value with its padding; the value is kept and clamped |
| `Base64.WideAt` | IISModuleJS Examples/twitter-api/CryptoJS.js:357-359 | a 10- or 12-bit intermediate sets its byte and spills into the one before, or off the word |
| `Base64.Builds` | IISModuleJS Examples/twitter-api/CryptoJS.js:355-362 | each character finishes one byte: the spilled bits repeat bits already there, so the bytes before stay |
| `Base64.Parse` | IISModuleJS Examples/twitter-api/CryptoJS.js:349-365 | the words are the decoding of the text, clean, for every text of alphabet characters before the first padding; the byte count for every text |
| `Base64.UngroupOfGroups` | IISModuleJS Examples/twitter-api/CryptoJS.js:331-365 | ungrouping the 6-bit groups of a byte string returns it |
| `Base64.RoundTrip` | IISModuleJS Examples/twitter-api/CryptoJS.js:331-365 | decoding the encoding of any byte string returns it |
| `OpenSsl.SaltedRoundTrip` | IISModuleJS Examples/twitter-api/CryptoJS.js:716-737 | a salted container is read back if and only if the salt has eight bytes |
| `OpenSsl.UnsaltedRoundTrip` | IISModuleJS Examples/twitter-api/CryptoJS.js:716-737 | an unsalted one is read back if and only if the ciphertext does not begin with the marker |
| `OpenSsl.MarkerSpells` | IISModuleJS Examples/twitter-api/CryptoJS.js:720 | the marker bytes spell Salted__ |
| `OpenSsl.KeyThenIv` | IISModuleJS Examples/twitter-api/CryptoJS.js:772-774 | the derived words are the key words, as many as the key size, followed by the IV words |
| `OpenSsl.PrintedRoundTrip` | IISModuleJS Examples/twitter-api/CryptoJS.js:716-737 | the same through the printed Base64 text |
| `OpenSsl.MarkedWords` | IISModuleJS Examples/twitter-api/CryptoJS.js:726 | the test on two words is the test on the first eight bytes |
| `OpenSsl.Stringify` | IISModuleJS Examples/twitter-api/CryptoJS.js:717-721 | the text is the Base64 of marker, salt and ciphertext, or of the ciphertext alone; both values are kept |
| `OpenSsl.Parse` | IISModuleJS Examples/twitter-api/CryptoJS.js:722-736 | ciphertext, count and salt are those of opening the decoded text, the negative count and the short salt of a text below 16 bytes included |
| `FirstBlocks.WithoutFirstBlock` | IISModuleJS Examples/twitter-api/CryptoJS.js:695-705 | without its first block an encryption decrypts to the message if and only if the message is empty, or has 16 bytes, ends in 0, and byte for byte is 0x10 xor the first ciphertext block xor the IV |
| `OpenSsl.KeyedRoundTrip` | IISModuleJS Examples/twitter-api/CryptoJS.js:738-766 | under a bare key the text decrypts to the message if and only if the ciphertext does not begin with the marker, or one of the two cases above holds; exactly a marked ciphertext loses its first block |
| `OpenSsl.KeyedRoundTripFails` | IISModuleJS Examples/twitter-api/CryptoJS.js:722-736 | the message "Salted__" under the identity cipher and a zero IV comes back empty |
| `OpenSsl.CoincidenceHappens` | IISModuleJS Examples/twitter-api/CryptoJS.js:722-736 | an invertible cipher and a 16-byte message whose marked ciphertext decrypts right all the same |
| `OpenSsl.PasswordRoundTrip` | IISModuleJS Examples/twitter-api/CryptoJS.js:782-801 | text made under a password decrypts under it to the message, for every message, password, 8-byte salt, key derivation and invertible cipher |
| `OpenSsl.EncryptWithPassword` | IISModuleJS Examples/twitter-api/CryptoJS.js:786-793 | the composed objects produce the text that the theorem speaks about |
| `OpenSsl.DecryptWithPassword` | IISModuleJS Examples/twitter-api/CryptoJS.js:794-800 | the composed objects return the plaintext that the theorem speaks about, under a random salt when the text has none |
| `Bodies.PiecesCover` | IISModuleJS/v8_wrapper.cpp:2903-2931 | the pieces concatenate to the body, are max(1, ceil(n / 65535)) in number, full but for the last, and fit a USHORT |
| `Bodies.MoreDataFlags` | IISModuleJS/v8_wrapper.cpp:2905-2929 | every chunk that another follows is flagged; the flag is right on all chunks if and only if there is just one chunk |
| `Bodies.LastChunkIsFlagged` | IISModuleJS/v8_wrapper.cpp:2929-2931 | a body of 65536 bytes sends a last chunk of one byte with the flag set |
| `Bodies.Response.Write` | IISModuleJS/v8_wrapper.cpp:2903-2931 | the chunks sent are the body's pieces up to the first failing call, whatever that is, with no wrapping subtraction; it succeeds if and only if the server takes them all |
| `Bodies.Response.Read` | IISModuleJS/v8_wrapper.cpp:2709-2830 | returns the concatenation of all memory chunks in either form, null when that is empty |
| `Bodies.Gather` | IISModuleJS/v8_wrapper.cpp:2745-2768 | the offset loop fills the buffer with the memory chunks in order |
| `Bodies.WriteThenRead` | IISModuleJS/v8_wrapper.cpp:2903-2931 | a write adds the bytes of the chunks the server took, the whole body when it succeeds |
| `Bodies.ReadBack` | IISModuleJS/v8_wrapper.cpp:2709-2830 | after any run of writes, failing ones included, read returns in order all that was there and was taken, the same in both forms |
| `RequestBodies.LegalReadsAll` | IISModuleJS/v8_wrapper.cpp:3007-3031 | partial reads of 1 to 4096 bytes, however cut, read everything |
| `RequestBodies.LegalMeans` | IISModuleJS/v8_wrapper.cpp:2992 | a single reply is legal if and only if it gives 1 to 4096 bytes |
| `RequestBodies.FailedRead` | IISModuleJS/v8_wrapper.cpp:3021 | a read that yields nothing throws; what was read before it is lost and the rest stays |
| `RequestBodies.FailedRewrite` | IISModuleJS/v8_wrapper.cpp:3043-3059 | a refused allocation or a failed insertion throws, and the body is gone |
| `RequestBodies.GoodRead` | IISModuleJS/v8_wrapper.cpp:3035-3067 | otherwise the body is returned, and stays if and only if it is rewritten |
| `RequestBodies.Request.Read` | IISModuleJS/v8_wrapper.cpp:2988-3067 | the outcome and the body left are those of the specification, on null, thrown and returned paths |
| `RequestBodies.RepeatedReads` | IISModuleJS/v8_wrapper.cpp:2988-3067 | over any run of reads each returns the whole body until the first that does not rewrite, and null afterwards |
| `RequestBodies.OnlySuffixes` | IISModuleJS/v8_wrapper.cpp:3007-3060 | over any run, failures included, what is left and what is returned is the end of the original body |
| `Accounting.InvKept` | IISModuleJS/v8_wrapper.cpp:870-882 | a creation or a collection changes counter, charges and freed objects in step |
| `Accounting.Charges` | IISModuleJS/v8_wrapper.h:268-306 | what a creation charges and a collection pays back: the sizes of a db or ipc context, or the capacities, status and headers of a response |
| `Accounting.Conservation` | IISModuleJS/v8_wrapper.cpp:858-887 | any interleaving keeps: the counter is the baseline plus the charges of live handles |
| `Accounting.Accounted` | IISModuleJS/v8_wrapper.h:251-311 | from the start: the counter is exact, each native object is freed exactly once when collected and not before, and collecting all returns to the baseline |

## Left out

- The V8, zlib and OpenSSL headers under Include: interfaces without bodies.
- The AES tables and rounds: the block cipher is any pair of functions on four words where one inverts the other.
- The generation of the SHA-256 constants from roots, MD5 and the EvpKDF loop: the constants and the key derivation are parameters.
- The Hex, Latin1 and Utf8 encoders and StreamCipher: easy next to Base64 and the block ciphers.
- The bodies of the foreign calls (httplib, cppdb, bcrypt, gzip, IPC_KV): a worker ends in resolve or reject.
- Header, status, redirect and URL accessors, `print`, `report_exception`: thin wrappers.
- `load_and_watch` and directory notifications; file reads and writes; the join of the base directory with the normalised path is a function parameter.
- Type dispatch of `write` on strings and array buffers: the model starts from the byte buffer. `WriteEntityChunks` keeps a pointer to that buffer; the model takes the bytes as they are when written.
- The conversion of a request body to a script string: the model stops at the bytes handed to it.
- The pass-through object of the callbacks: compiled out by `DISABLE_INTERNAL_POINTER_RESET`.
- The emptiness test of a callback comes before the lock in the source; the model takes test and call as one step, so it claims nothing about a reset between them.
- Settling a promise with another promise: the adoption is a later settlement of the first.
- The wrap-around of the 64-bit external-memory counter, and byte counts of 2^32 or more in word arrays, where `>>> 2` would wrap.
- Words shared by two WordArray objects: `words` is a sequence value, so a script array that two objects hold is not modelled.
- SlotGate.Drains: each critical section on the counter's mutex is one step; the mutex itself is not modelled.
- Base64.Parse: for characters outside the alphabet only the byte count is stated; there the script decodes the index -1.
- Hashers.Hasher.Finalize: needs 8 * count + 64 below 2^32 for the buffered bytes, beyond which `>>>` drops bits of the count, and promises the hash when the last piece is clamped.
- ShaHashers.Sha256.Finalize: the same bound, and a clamped last piece, or without one a buffer with nothing harmful behind it.
- ShaHashers.Sha1.Finalize: the same.
- ShaHashers.Sha256.DoFinalize: the same bound.
- ShaHashers.Sha1.DoFinalize: the same bound.
- HmacSha.Digest256: a clamped last piece, and the same bound.
- HmacSha.Digest1: a clamped last piece, and the same bound.
- HmacSha.Code256: a clamped last piece, and the same bound.
- HmacSha.Code1: a clamped last piece, and the same bound.
- Hashers.BlockCountIsMinimal: stated below the same bound.
- Hashers.PaddingExact: stated below the same bound.
- Hashers.StoredLength: stated below the same bound.
- Hmac.Hmac.Finalize: needs a clamped last piece, and the same bound.
- Hmac.Authenticate: a clamped last piece, a clamped key when it is longer than a block, and the same bound on each.
- HmacSha.HmacSha256: the same as Authenticate.
- HmacSha.HmacSha1: the same as Authenticate.
- HmacSha.KeyBlock256: the same as ShortenKey.
- HmacSha.KeyBlock1: the same as ShortenKey.
- Hmac.ShortenKey: a key longer than a block has to be clamped, and below the same bound.
- Hmac.Hmac.constructor: the same as ShortenKey.
- Hmac.Hmac.SetKeys: the same as ShortenKey.
- Cbc.BlockCipher.FinalizeDecryption: the last piece, or without one the buffer, has to be clamped unless the bytes make whole blocks.
- Cbc.Unpad: a negative byte count is returned, not stored.
- OpenSsl.Parse: nothing is stated about texts with characters outside the Base64 alphabet.
- OpenSsl.DecryptWithPassword: needs a readable text that opens to a ciphertext; a negative byte count is not carried into decryption.

# Verified models of the node tooling and the bridge relayer

This project models the algorithms and state machines inside the Foundry tree
(`cast`, `anvil`, `chisel`, `forge doc`) and the Python bridge relayer, and
proves what each of them promises over every input or every run.

| file | what it models |
|---|---|
| `Rlp.dfy`, `RlpText.dfy` | RLP items: bytes, the append stream, the printed form, `from_rlp` and `to_rlp` |
| `Json.dfy` | the JSON reader behind `to_rlp` |
| `Logs.dfy` | `filter_logs`, the log subscription and the log filter |
| `Filters.dfy` | the filter registry and its keep-alive protocol |
| `Service.dfy` | the block producer and the node's event loop |
| `GasSearch.dfy` | the gas-limit bisection |
| `Relayer.dfy` | the bridge relayer |
| `Numerals.dfy`, `Numbers.dfy` | number text: radix printing, signed text, fixed point |
| `Instructions.dfy` | the EVM instruction iterator and the final program counter |
| `Toml.dfy` | the TOML table merge |
| `Brackets.dfy` | the closed-snippet validator |
| `Prelude.dfy` | options, bytes, powers |

`dafny verify dfyconfig.toml` checks everything.

How the outside world enters the model:

- Futures, channels and the miner are scripts of poll results; an exhausted
  script keeps answering Pending. Every theorem ranges over all scripts.
- The relayer's fetches are numbered, and an arbitrary function of the number
  says which of them raise. The heads it sees are an arbitrary list.
- The EVM is an arbitrary function from a gas limit to how a call ends; `Passed`
  stands for every exit reason that the search does not treat as a failure.
- The clock appears as the time of each critical section of the registry, plus
  the reading an eviction took before it waited for the lock.
- The RLP byte layer lives in the `rlp` crate and is modelled from Appendix B of
  the Ethereum Yellow Paper; the JSON reader is modelled from RFC 8259.

Three results say where the code falls short of what one would expect of it, each
with the exact condition:

- The gas search returns a limit that is too small, from 28 gas on, exactly for
  thresholds of three times the measured gas or more and for at most seven
  fractions of it (`GasSearch.StopsExactly`).
- Signed text below -2^255 does not print back as itself
  (`Numbers.SignedRoundTrip`, `Numbers.FixedPointValue`).
- The relayer submits a log once for every time the heads it sees move from below
  the log's block to it or beyond (less often only if a fetch raises), so a head
  that goes back and forth again over a block with wanted logs repeats them, and
  nothing else does (`Relayer.Run`, `Relayer.RepeatsExactly`,
  `Relayer.RewindRepeats`).

## Model

| member | source | states |
|---|---|---|
| `Rlp.RlpStream.Append` | enterprise-blockchain/foundry/cast/src/rlp_converter.rs:14-29 | Writing an item of any nesting through begin, append and finalize calls extends the stream by exactly the item's encoding and leaves the open lists as they were. |
| `Rlp.RlpStream.FinalizeUnboundedList` | enterprise-blockchain/foundry/cast/src/rlp_converter.rs:22-22 | Closing the innermost list over the encodings of some items leaves the encoding of the list of these items, and everything before it as it was. |
| `Rlp.DecodeEncode` | enterprise-blockchain/foundry/cast/src/rlp_converter.rs:14-38 | Decoding an encoding followed by any bytes yields the item and consumes exactly the encoding. |
| `Rlp.EncodeDecode` | enterprise-blockchain/foundry/cast/src/rlp_converter.rs:31-38 | Whatever the strict decoder accepts encodes to exactly the bytes that were consumed. |
| `Rlp.DecodeExact` | enterprise-blockchain/foundry/cast/src/rlp_converter.rs:31-38 | The strict decoder answers an item and a length if and only if the input begins with that item's encoding of that length. |
| `Rlp.StrictIsLeast` | enterprise-blockchain/foundry/cast/src/rlp_converter.rs:31-38 | Any decoder that reads all encodings, however lenient, agrees with the strict one wherever that answers; what it accepts beyond that never encodes back to the bytes it read. |
| `Rlp.EncodePrefixFree` | enterprise-blockchain/foundry/cast/src/rlp_converter.rs:14-29 | No encoding is a prefix of another item's encoding; in particular encoding is injective. |
| `Rlp.PayloadSplitsOnce` | enterprise-blockchain/foundry/cast/src/rlp_converter.rs:17-23 | A list payload is the concatenation of item encodings in only one way. |
| `Rlp.AppendixBData` | enterprise-blockchain/foundry/cast/src/rlp_converter.rs:24-26 | The bytes of a byte string as Appendix B of the Ethereum Yellow Paper lays them down: a single byte below 0x80 is itself; up to 55 bytes follow 0x80 plus their number; more follow 0xb7 plus the number of length bytes and these, whose weighted sum is the length and whose first is not zero. There is an encoding exactly below 2^64 bytes. |
| `Rlp.AppendixBList` | enterprise-blockchain/foundry/cast/src/rlp_converter.rs:17-23 | The same for lists, with 0xc0 and 0xf7, over the concatenation of the elements' encodings. |
| `Rlp.NoPartialList` | enterprise-blockchain/foundry/cast/src/rlp_converter.rs:17-23 | A list with an element that has no encoding has none. |
| `Rlp.TestVectors` | enterprise-blockchain/foundry/cast/src/rlp_converter.rs:106-134 | The bytes of the seven items that the repository's tests fix. |
| `RlpText.Formatter.Display` | enterprise-blockchain/foundry/cast/src/rlp_converter.rs:67-88 | Writing an item extends the text by its printed form at every nesting. |
| `RlpText.Formatter.DisplayElements` | enterprise-blockchain/foundry/cast/src/rlp_converter.rs:75-82 | The peeking loop separates elements by commas with none after the last. |
| `RlpText.PrintRoundTrip` | enterprise-blockchain/foundry/cast/src/rlp_converter.rs:41-88 | The printed form reads as the JSON value that converts back to the item, for every nesting and byte content. |
| `RlpText.PrintedIsJson` | enterprise-blockchain/foundry/cast/src/rlp_converter.rs:67-88 | What is printed is a JSON text of the item's value in which no blank occurs. |
| `RlpText.PrintInjective` | enterprise-blockchain/foundry/cast/src/rlp_converter.rs:67-88 | Different items print differently. |
| `RlpText.ConversionOutcome` | enterprise-blockchain/foundry/cast/src/rlp_converter.rs:41-58 | Conversion succeeds exactly when every scalar is null or spells bytes in hexadecimal, in either case and with or without prefix; otherwise it ends as the first bad scalar does, in error for booleans and objects and in a panic for other text and numbers. |
| `RlpText.ConversionMirrors` | enterprise-blockchain/foundry/cast/src/rlp_converter.rs:41-58 | A conversion answers an item if and only if the item mirrors the value: lists become arrays of the same length element by element, null the empty byte string, and text or numbers the bytes whose hexadecimal they are after dropping a prefix and lowering capitals. |
| `RlpText.HexDecodeExactly` | enterprise-blockchain/foundry/cast/src/lib.rs:1213-1213 | Hexadecimal text decodes to given bytes if and only if those bytes encode to the text in lower case. |
| `RlpText.HexEncodeAt` | enterprise-blockchain/foundry/cast/src/lib.rs:1237-1237 | Each byte takes two places, high digit first, out of 0 to 9 and a to f. |
| `Json.FromStrExactly` | enterprise-blockchain/foundry/cast/src/lib.rs:1233-1235 | Text reads as a value if and only if it is a text of that value under the grammar of RFC 8259, with blanks wherever they are allowed. |
| `RlpText.ToRlpOfJson` | enterprise-blockchain/foundry/cast/src/lib.rs:1233-1238 | For every JSON text of a value and the item that mirrors the value, `to_rlp` gives the hexadecimal encoding of that item. |
| `RlpText.NullToRlp` | enterprise-blockchain/foundry/cast/src/lib.rs:1233-1238 | `null` between any blanks is encoded as 0x80. |
| `RlpText.DocumentedExamples` | enterprise-blockchain/foundry/cast/src/lib.rs:1203-1228 | All nine examples of the commands' documentation, for every decoder that reads all encodings. |
| `RlpText.FromRlpThenToRlp` | enterprise-blockchain/foundry/cast/src/lib.rs:1211-1238 | For every decoder that reads all encodings, however lenient: `from_rlp` then `to_rlp` gives the encoding of the decoded item, and restores the input bytes if and only if they are an encoding. |
| `RlpText.StrictFromRlpThenToRlp` | enterprise-blockchain/foundry/cast/src/lib.rs:1211-1238 | For the strict decoder: the bytes used come back, and all input bytes if and only if none follow the item. |
| `RlpText.CanonicalTextRestored` | enterprise-blockchain/foundry/cast/src/lib.rs:1211-1238 | For every item and every decoder that reads all encodings, the item's hexadecimal encoding and its printed form are turned into each other by the two commands. |
| `RlpText.BareHexIsData` | enterprise-blockchain/foundry/cast/src/lib.rs:1233-1238 | Unquoted prefixed hexadecimal is not JSON, so `to_rlp` falls back to encoding it as one byte string. |
| `Logs.FilterLogs` | enterprise-blockchain/foundry/anvil/src/pubsub.rs:183-215 | The nested loops with one running counter compute the same as numbering every log of the block first and filtering afterwards. |
| `Logs.FilteredSound` | enterprise-blockchain/foundry/anvil/src/pubsub.rs:152-216 | Every returned log passes the four tests of the filter (address, topics, block range, block hash), carries the transaction, position and block data of its own place, has as index the number of logs before it in the block, and indices strictly increase. |
| `Logs.FilteredComplete` | enterprise-blockchain/foundry/anvil/src/pubsub.rs:152-216 | Every log that passes the four tests is returned, with all fields of its place. |
| `Logs.LogsSubscription.Poll` | enterprise-blockchain/foundry/anvil/src/pubsub.rs:36-67 | Emitted plus queued logs always equal the filtered logs of the notifications consumed. A queued log is emitted before anything is consumed; otherwise the poll reads past stored blocks without matching logs and stops exactly at the first other result: it emits the first log of a matching block, finishes if and only if the listener is closed, and waits if it has nothing or the block is not stored. |
| `Logs.LogsFilter.Poll` | enterprise-blockchain/foundry/anvil/src/filter.rs:175-185 | All answers together equal the historic logs once, then the filtered logs of the notifications consumed; a poll takes notifications until the listener has none. |
| `Logs.ListenersAgree` | enterprise-blockchain/foundry/anvil/src/filter.rs:175-185 | A subscription and a filter on the same notifications have delivered prefixes of one common sequence, one of them a prefix of the other. |
| `Logs.RunSchedule` | enterprise-blockchain/foundry/anvil/src/pubsub.rs:36-67 | Under any interleaving of polls the two deliver the same logs; one poll per poll result and log empties the subscription completely, one per poll result completes the filter. |
| `Filters.ActiveExactly` | enterprise-blockchain/foundry/anvil/src/filter.rs:43-104 | In every interleaving with a monotone clock a filter is present if and only if it was added and since then neither uninstalled nor met by an eviction whose reading no later touch covers. |
| `Filters.KeepAlive` | enterprise-blockchain/foundry/anvil/src/filter.rs:88-104 | A filter touched at time t stays while it is not uninstalled and no eviction reads a clock beyond t plus the keep-alive, whatever else runs in between. |
| `Filters.RegistryExactly` | enterprise-blockchain/foundry/anvil/src/filter.rs:31-105 | The registry object, after any calls, holds a filter if and only if its history of critical sections keeps that filter alive. |
| `Filters.ActiveIsAlive` | enterprise-blockchain/foundry/anvil/src/filter.rs:43-65 | The deadline of a present filter is the time of one of its touches since it was added plus the keep-alive. |
| `Filters.Registry.AddFilter` | enterprise-blockchain/foundry/anvil/src/filter.rs:43-49 | The registry stays the result of its history, extended by the addition. |
| `Filters.Registry.GetFilterChanges` | enterprise-blockchain/foundry/anvil/src/filter.rs:51-65 | A known filter answers, advances and gets a new deadline; an unknown one changes nothing. |
| `Filters.Registry.UninstallFilter` | enterprise-blockchain/foundry/anvil/src/filter.rs:77-80 | Removes the filter and hands it back if it was there. |
| `Filters.Registry.EvictStale` | enterprise-blockchain/foundry/anvil/src/filter.rs:93-104 | Removes exactly the filters whose deadline is before the reading and leaves the others unchanged. |
| `Service.BlockProducer.PollNext` | enterprise-blockchain/foundry/anvil/src/service.rs:133-158 | A future is polled if and only if one is in progress or can be started, each poll meets one result, and the answer is Ready if and only if that result is. Ready finishes exactly the oldest unfinished set with its own outcome and frees the backend; Pending with no block in progress means an empty backlog. |
| `Service.NodeService.Poll` | enterprise-blockchain/foundry/anvil/src/service.rs:69-104 | One wake-up feeds exactly the sets the miner hands out, finishes one set for each Ready result met, tells the pool each outcome once and in order, and leaves sets unfinished only when the last future polled was Pending. |
| `Service.NodeService.DrainProducer` | enterprise-blockchain/foundry/anvil/src/service.rs:75-79 | Polls until Pending: one set is finished per Ready result met, none is left or the last result was Pending, a backlog implies a block in progress, and the pool knows every finished block. |
| `Service.DrainCounts` | enterprise-blockchain/foundry/anvil/src/service.rs:75-79 | Draining finishes exactly as many sets as it meets Ready results, and stops with none left or on Pending. |
| `Service.WakeProgress` | enterprise-blockchain/foundry/anvil/src/service.rs:69-104 | A wake-up finishes no more sets than there are Ready results, and all of them when every result is Ready and there are enough. |
| `Service.RunService` | enterprise-blockchain/foundry/anvil/src/service.rs:66-105 | Over any list of wake-ups: finished, in-flight and queued sets are the sets handed out, in order; how many are unfinished follows from the poll results alone; the pool holds the outcomes of the finished ones; no stall. |
| `Service.OutcomesAt` | enterprise-blockchain/foundry/anvil/src/service.rs:75-79 | The k-th outcome given to the pool is that of mining the k-th set. |
| `GasSearch.EstimateGas` | enterprise-blockchain/foundry/chisel/src/runner.rs:145-186 | Probes lie strictly between g and 3g, number at most the ceiling of log2(2g), and no 64-bit operation over- or underflows; a changed result was probed and passed, and exceeds the largest limit known to fail by less than a ninth of itself; the environment limit is restored unless a probe errors. |
| `GasSearch.EstimateGasAboveThreshold` | enterprise-blockchain/foundry/chisel/src/runner.rs:154-183 | If probes pass exactly from t on, an early stop gives a limit of at least t exceeding it by less than a ninth; the result is sufficient if and only if the search stopped early or t is the measured gas; from 28 gas on it stops early exactly for the thresholds that do not stall. |
| `GasSearch.StopsExactly` | enterprise-blockchain/foundry/chisel/src/runner.rs:154-183 | From 28 gas on the bisection reaches its early stop if and only if the threshold is below 3g and is none of at most seven listed fractions of g. |
| `GasSearch.LastStretch` | enterprise-blockchain/foundry/chisel/src/runner.rs:167-180 | Once half the interval is under a tenth of its upper end, the search stops early exactly when the threshold is below that end. |
| `GasSearch.CeilLog2Least` | enterprise-blockchain/foundry/chisel/src/runner.rs:157-158 | The bound on the number of probes is the least exponent whose power of two reaches the width. |
| `Relayer.Relayer.HandleLogs` | enterprise-blockchain/relayer/main.py:64-80 | Submits, in order, exactly the `SendRemoteMessage` logs addressed to the destination chain, each with its own data, and nothing else. |
| `Relayer.WantedExactly` | enterprise-blockchain/relayer/main.py:50-80 | A block wants a submission if and only if some transaction of the block goes to the bridge, the submission's log is a `SendRemoteMessage` of the block addressed to the destination chain, and the call carries that log's target, source, value, nonce and data under the source chain's id. |
| `Relayer.Relayer.FindDirect` | enterprise-blockchain/relayer/main.py:50-54 | Fetches transactions up to the first that goes to the bridge, or all, and finds out whether there is one; a raising fetch ends the search. |
| `Relayer.Relayer.HandleEvents` | enterprise-blockchain/relayer/main.py:56-58 | Makes one fetch per event kind and submits all wanted logs when none raises; otherwise ends with the first raising fetch, having submitted exactly the logs of the kinds before it. |
| `Relayer.Relayer.ProcessBlock` | enterprise-blockchain/relayer/main.py:49-58 | Moves the cursor to the block whatever happens; a visit without a raising fetch makes all fetches and submits everything wanted, any other ends with its first raising fetch, having submitted what the fetches before it brought. |
| `Relayer.Relayer.Round` | enterprise-blockchain/relayer/main.py:40-62 | Visits consecutive blocks after the cursor up to the head; all visits but the last are without a raise, and stopping short of the head means the last one raised; a head behind the cursor moves the cursor back. |
| `Relayer.Run` | enterprise-blockchain/relayer/main.py:29-62 | In every run, whatever raises, each submission is due (a message event for the destination chain in a block with a direct transaction to the bridge, carried over field by field) and goes out at most as often as the heads cross its block, and exactly as often when no fetch raises; then the cursor ends at the last head and everything due up to it is out. Over heads that never go back: submissions are in block order without repetition, every block from start to cursor is visited once, a block visited without a raising fetch has all that is due submitted, and a raising fetch costs logs of its own block only. |
| `Relayer.SentOrdered` | enterprise-blockchain/relayer/main.py:48-58 | Visiting consecutive blocks submits in strictly increasing order of block, event kind and position. |
| `Relayer.SentExactly` | enterprise-blockchain/relayer/main.py:48-58 | What is due for a visited block is submitted if and only if that block's own visit submitted it. |
| `Relayer.RepeatsExactly` | enterprise-blockchain/relayer/main.py:40-58 | Nothing is submitted twice if the heads cross no block with something due twice, and only then when no fetch raises. |
| `Relayer.TimesSent` | enterprise-blockchain/relayer/main.py:48-58 | A submission goes out at most once per visit of its block, exactly once per visit when no fetch raises, and never unless it is due. |
| `Relayer.RoundCounts` | enterprise-blockchain/relayer/main.py:41-49 | A round visits a block, or comes to owe a visit held up by a raising fetch, only against a crossing of that block by the head; without raises visits and crossings agree. |
| `Relayer.RewindRepeats` | enterprise-blockchain/relayer/main.py:43-45 | A concrete run, with the head going back by one block and forth again, that submits a log twice. |
| `Numbers.FormatRadix` | enterprise-blockchain/foundry/cast/src/base.rs:424-443 | For every 256-bit value in base 2 or 8 the 256-place buffer is never overrun, and the text's digits evaluate to the value in that base, without leading zeros. |
| `Numerals.NumeralValue` | enterprise-blockchain/foundry/cast/src/base.rs:421-443 | A numeral's digits evaluate back to the number, and it starts with 0 only for 0 itself. |
| `Numerals.NumeralLength` | enterprise-blockchain/foundry/cast/src/base.rs:429-441 | A numeral has at most k places if and only if the number is below the k-th power of the radix. |
| `Numerals.NumeralPrefix` | enterprise-blockchain/foundry/cast/src/lib.rs:1008-1010 | Cutting d digits off a numeral divides the number by the d-th power of the radix. |
| `Numerals.ValueConcat` | enterprise-blockchain/foundry/cast/src/lib.rs:1004-1010 | The value of joined digits is the first value shifted by the places of the second, plus the second. |
| `Numbers.NegativeFillsBuffer` | enterprise-blockchain/foundry/cast/src/base.rs:429-442 | The binary text of a 256-bit word fills all 256 places if and only if its sign bit is set; octal text needs at most 86. |
| `Numbers.SignedRoundTrip` | enterprise-blockchain/foundry/cast/src/base.rs:404-455 | For every 256-bit n, "-n" is stored as 2^256 - n (0 for 0), and printing gives "-n" back if and only if n is from 1 to 2^255. |
| `Numbers.UnsignedRoundTrip` | enterprise-blockchain/foundry/cast/src/base.rs:404-455 | Every non-negative 256-bit value survives parsing and printing. |
| `Numbers.HexadecimalRead` | enterprise-blockchain/foundry/cast/src/base.rs:129-187 | Prefixed hexadecimal text is detected as such and read as its value. |
| `Numbers.ParseExactly` | enterprise-blockchain/foundry/cast/src/base.rs:129-187 | Text is accepted, with given sign, magnitude and base, if and only if it is one optional sign followed by decimal digits below 2^256, or by up to 64 hexadecimal digits that, without 0x, are not all decimal and do not start like a binary prefix; the stored word is the magnitude or its two's complement. |
| `Numbers.PlusRead` | enterprise-blockchain/foundry/cast/src/base.rs:444-455 | A plus sign changes nothing. |
| `Numbers.BareHexadecimalRead` | enterprise-blockchain/foundry/cast/src/base.rs:170-185 | Unprefixed text with a digit above 9 is read as hexadecimal. |
| `Numbers.FormatValue` | enterprise-blockchain/foundry/cast/src/base.rs:404-422 | In bases 2, 8 and 16 the text has the value of the stored word, in base 10 its magnitude. |
| `Numbers.FixedPointValue` | enterprise-blockchain/foundry/cast/src/lib.rs:993-1014 | The text has exactly the requested number of decimals, and reads as the denoted integer over that power of ten if and only if the integer is at least -2^255. |
| `Numbers.FixedPointText` | enterprise-blockchain/foundry/cast/src/lib.rs:993-1014 | For every 256-bit magnitude and 64-bit number of decimals there is an answer: the sign, the quotient by the power of ten without leading zeros, the point, and the remainder in exactly as many digits as asked for; below -2^255 quotient and remainder are those of 2^256 minus the magnitude. |
| `Numbers.PlacesRead` | enterprise-blockchain/foundry/cast/src/lib.rs:1002-1002 | Every 64-bit number of decimals is read as itself. |
| `Numbers.InsertPointValue` | enterprise-blockchain/foundry/cast/src/lib.rs:1004-1011 | Through the padding and the insertion branch alike, the text reads as the digits over ten to the decimals. |
| `Numbers.InsertPointText` | enterprise-blockchain/foundry/cast/src/lib.rs:1004-1011 | Through both branches the point splits a numeral into the quotient's numeral and the remainder's digits. |
| `Instructions.InstructionIter.Next` | enterprise-blockchain/foundry/chisel/src/executor.rs:1193-1210 | Opcodes 0x60 to 0x7f carry opcode - 0x5f bytes of data and all others none: returns the instruction at the offset with these bytes padded by zeros to 32 and moves past them, ends after the last byte, and panics exactly when the data runs past the end. |
| `Instructions.Collect` | enterprise-blockchain/foundry/chisel/src/executor.rs:1193-1210 | Running the iterator to its end gives all instructions of the code, unless some instruction is cut off, and then it panics. |
| `Instructions.AssembleAll` | enterprise-blockchain/foundry/chisel/src/executor.rs:1193-1210 | Opcodes with their data concatenate to the code. |
| `Instructions.PcsAreStarts` | enterprise-blockchain/foundry/chisel/src/executor.rs:1195-1209 | A position is the pc of some instruction if and only if it is an instruction start in the sense of section 9.4.3 of the Ethereum Yellow Paper. |
| `Instructions.PcsIncrease` | enterprise-blockchain/foundry/chisel/src/executor.rs:1195-1209 | The pcs strictly increase. |
| `Instructions.FinalPc` | enterprise-blockchain/foundry/chisel/src/executor.rs:92-105 | The maximum taken is the pc of the last source map entry at the location, 0 without one; it panics if and only if a cut-off PUSH is paired with an entry. |
| `Toml.MergeTomlTable` | enterprise-blockchain/foundry/doc/src/helpers.rs:4-28 | Taking the override's entries in any order gives the key-by-key merge over the union of keys. |
| `Toml.MergedLookup` | enterprise-blockchain/foundry/doc/src/helpers.rs:6-26 | Seen through paths of any length: a path exists in the merge if and only if the base has it, or the override has it and no base array is in the way; what one side has is taken unchanged; where both have a value, tables unite their keys, arrays gain the new entries in order, both ignore other kinds, and every other value is replaced. |
| `Toml.PushMissing` | enterprise-blockchain/foundry/doc/src/helpers.rs:16-20 | The inner loop appends the entries not yet present, as `Toml.AddMissingOrder` describes them. |
| `Toml.MergeTwice` | enterprise-blockchain/foundry/doc/src/helpers.rs:4-28 | Merging the same override twice equals merging it once, at every depth. |
| `Toml.MergeKeeps` | enterprise-blockchain/foundry/doc/src/helpers.rs:7-22 | At every depth tables stay tables with all their keys, and arrays stay arrays with the base array as a prefix. |
| `Toml.AddMissingKeeps` | enterprise-blockchain/foundry/doc/src/helpers.rs:13-21 | A merged array extends the base array and contains exactly the entries of both. |
| `Toml.AddMissingDistinct` | enterprise-blockchain/foundry/doc/src/helpers.rs:16-20 | No appended entry equals an earlier one. |
| `Toml.AddMissingOrder` | enterprise-blockchain/foundry/doc/src/helpers.rs:16-20 | The appended entries are those of the override that the base lacks, in the override's order, each at its first occurrence. |
| `Toml.MergeSettles` | enterprise-blockchain/foundry/doc/src/helpers.rs:6-26 | What becomes of two values met under one key, kind by kind. |
| `Brackets.ValidateClosed` | enterprise-blockchain/foundry/chisel/src/solidity_helper.rs:151-186 | Valid if and only if in no suffix of the tokens the openers of any kind outnumber its closers. |
| `Brackets.SuffixStep` | enterprise-blockchain/foundry/chisel/src/solidity_helper.rs:159-179 | Each saturating counter is the largest number of openers less closers of any suffix read so far. |

## Left out

- Decode: follows Appendix B of the Ethereum Yellow Paper strictly and refuses bytes that are no canonical encoding, some of which the `rlp` crate accepts (a prefixed single small byte, a list whose tail does not split). The crate is not part of this model; `FromRlp` takes the decoder as a parameter.
- EncodeDecode: speaks of the strict decoder; for lenient ones only `StrictIsLeast` holds.
- DecodeExact: speaks of the strict decoder, as `EncodeDecode` does.
- Append: an item with a payload of 2^64 bytes or more has no encoding in the standard, so it is outside the precondition.
- FromStrExactly: covers values without objects, string escapes and numbers other than 64-bit integers; for these `to_rlp` gives the outcome Unmodelled. serde_json's nesting limit is not modelled.
- Detect: does not tell malformed binary or octal text from well-formed one, since parsing refuses both.
- FilterLogs: requires what the source would panic on, a transaction for every receipt with logs and fewer than 2^32 logs; constant fields (log type, removed flag) are dropped.
- FilteredParams: the four filter tests live in the `ethers` crate and are arbitrary predicates here.
- LogsSubscription: waker registration is not modelled, only what is delivered.
- EstimateGas: covers the search after the first successful call; the `fs_commit` re-execution and the committing call around it are not modelled, and inputs with ten times the measured gas reaching 2^64 are outside its precondition.
- EstimateGasAboveThreshold: below 28 gas the early stop is given by the recursive definition only, not by the list of fractions.
- Relayer: the contents of a block number are fixed over a run, `get_logs` is taken to return the logs of the block it names, failures of the submitted transaction are swallowed as in the source and do not change what counts as submitted, and `kill` shows as a shorter list of heads.
- MergeTomlTable: works on table values, so update in place is not shown; floats are reals, so no value differs from itself.
- ValidateClosed: takes the lexer's tokens as given.
- Registry: filter ids come from the caller instead of a random generator, and instants do not overflow.
- The block and pending-transaction variants of filters and subscriptions, the fee history task and the eviction timer of the event loop are not modelled.
- Transaction pool, mining modes, EVM, ABI coding, Solidity parsing and type inference, command lines, launchers and proxies are not part of this model.

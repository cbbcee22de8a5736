# Votechain: verified model

Votechain is a blockchain for elections. Its runtime stores elections, candidates and votes in five maps, charges
transaction fees whose multiplier follows the load of the chain, and splits those fees between a treasury and the block
author. A benchmark program and a block inspector come with it, and a web client shows the results. This project models
these parts in Dafny and proves what they keep, over whole histories where there is one.

- `Elections.dfy`: the election pallet. A class with the five storage maps performs the four calls write by write; each
  method is proved to do to the storage, and to answer, exactly what the function `Step` says. Everything below about the
  pallet is proved of `Run`, the storage after any list of calls from any signers, failing calls included.
- `Answers.dfy`: what each call answers and what it changes, key by key, told by its guards and by the calls before it.
- `Indexes.dfy`, `Agreement.dfy`, `Conservation.dfy`, `Ordering.dfy`, `Closing.dfy`: the laws of the pallet. Votes are
  stored twice, by election and by candidate, and so are candidates; the laws say how far the copies agree, that no vote
  is lost or invented, in which order votes may be included, and what closing an election fixes.
- `ResultTable.dfy`: the table the client draws from that storage.
- `Powers.dfy`, `FeeMultiplier.dfy`: the reference update of the fee multiplier over exact real numbers, with the
  quantitative claims of its tests proved for whole runs of blocks.
- `FeeSplit.dfy`: the 80/20 split of fees and tips, with 128-bit saturation.
- `SizePools.dfy`, `SimpleTries.dfy`, `Benchmarks.dfy`, `Decimals.dfy`: the benchmark's sampler, overlay storage, summary
  and number printer.
- `Addresses.dfy`: the inspector's address parsers.

How the model reads the code:

- A hash is a natural number computed by an unspecified function of the configuration. Nothing is assumed about it,
  except in lemmas that ask for `CollisionFree`.
- The length of a byte vector is compared after its cast to `u32`, so it is taken modulo 2^32.
- Only `create_election` is transactional. `create_vote` puts a vote into the list of its election before it looks for the
  candidate, and the vote stays there when the answer is `CandidateNotFound`. A voter who names an unknown candidate has
  therefore used up the vote (`VoteIsUsedUp`), and these are the only failing calls that change the storage
  (`FailedCallWritesIff`). The comment above the call does not say so; the model follows the code.
- "An election created at most once" is a property of the history: no two accepted calls create the same id. Creating one
  again empties its lists. `RecreationBreaksAgreement` shows what that can cost, and `AgreementKeptIff` and
  `OneRecordedKeptIff` say exactly which calls break agreement of the indexes and one recorded vote per author.
- The sampler gives the first size one draw more, and the last one draw fewer, than its count: the code's cut-offs are
  inclusive. The model follows the code.
- The real-number multiplier is clamped at the minimum on the way in, as in `truth_value_update`, and on the way out, as
  the test on lines 142-148 of `votechain/runtime/src/impls.rs` requires of the runtime's own update.
- Sorting a vector, dividing an imbalance, the database and the hexadecimal decoders are library code; the model gives
  each a plain definition and proves what it needs of it.

## Model

| member | source | states |
|---|---|---|
| Elections.Pallet.constructor | votechain/pallets/votechain/src/lib.rs:82-105 | the storage starts with all five maps empty |
| Elections.Pallet.CreateElection | votechain/pallets/votechain/src/lib.rs:183-216 | the whole new storage and the answer, for every origin and description: root only, both length bounds strict on the cast length, id from the hash of the open election, all three election entries reset |
| Elections.Pallet.CloseElection | votechain/pallets/votechain/src/lib.rs:221-244 | the whole new storage and the answer: only an open, known election is closed, its description kept; otherwise ElectionNotFound and no change |
| Elections.Pallet.CreateCandidate | votechain/pallets/votechain/src/lib.rs:250-289 | the whole new storage and the answer: the candidate is appended to its election and stored at its own hash with an empty vote list, or nothing changes |
| Elections.Pallet.CreateVote | votechain/pallets/votechain/src/lib.rs:294-352 | the whole new storage and the answer, with the scan for an earlier vote: the vote reaches the election list even when the candidate is then not found |
| Answers.ElectionAfter | votechain/pallets/votechain/src/lib.rs:199-244 | after any call in any state, each key of the election map: created open by a root call with a description within the bounds, closed by a root close of an open election, otherwise as before |
| Answers.CandidateAfter | votechain/pallets/votechain/src/lib.rs:265-285 | the same for each key of the candidate map: stored by a root call with a name within the bounds for an election with a candidate list, otherwise as before |
| Answers.ElectionListsAfter | votechain/pallets/votechain/src/lib.rs:207-211 | the same for both lists of each election: emptied by its creation, grown by the one candidate or the one taken vote, otherwise as before |
| Answers.CandidateVotesAfter | votechain/pallets/votechain/src/lib.rs:273-348 | the same for each candidate's votes: emptied by its registration, grown by the one taken vote for it, otherwise as before |
| Answers.ElectionAnswers | votechain/pallets/votechain/src/lib.rs:183-216 | from any state and for every origin and description: Ok with the stored event if and only if root and both bounds on the length modulo 2^32 hold, and exactly when each of the three errors is answered |
| Answers.CloseAnswers | votechain/pallets/votechain/src/lib.rs:221-244 | after any history a close is answered Ok if and only if root closes an election that was created and not closed since; BadOrigin exactly for other origins, ElectionNotFound exactly for the rest |
| Answers.CandidateAnswers | votechain/pallets/votechain/src/lib.rs:250-289 | after any history a candidate is answered Ok, with its hash, if and only if root names it within the bounds for an election that some call created, open or closed; exactly when each of the four errors is answered, the bounds before the election |
| Indexes.ReachableIsIndexed | votechain/pallets/votechain/src/lib.rs:199-285 | in every reachable state the three election maps share their keys, the two candidate maps share theirs, every election sits at the hash of its description as open even after closing, every candidate at its own hash under a known election, and listed candidates name their election |
| Indexes.ListedIsStored | votechain/pallets/votechain/src/lib.rs:265-285 | with a collision-free hash, each candidate listed under an election is the one stored at its hash, and has a vote list |
| Indexes.StoredIsListed | votechain/pallets/votechain/src/lib.rs:265-285 | conversely, every candidate stored for an election created at most once is in its list |
| Indexes.ElectionsAreTheCreated | votechain/pallets/votechain/src/lib.rs:204-205 | an election id is in storage if and only if some call of the history, by root and with a description within the bounds, created it; nothing removes one |
| Indexes.ReachableOneVoteEach | votechain/pallets/votechain/src/lib.rs:320-339 | in every reachable state the authors in each election list are pairwise distinct and every vote there names that election |
| Indexes.ListIsWhatWasAnswered | votechain/pallets/votechain/src/lib.rs:308-348 | the list of an election created at most once is, in order, exactly the votes whose calls answered Ok or CandidateNotFound |
| Indexes.CandidateListIsWhatWasAccepted | votechain/pallets/votechain/src/lib.rs:273-348 | in every history the vote list of a candidate is, in order, exactly the votes for it answered Ok since its last accepted registration |
| Indexes.CandidatesAreThoseRegistered | votechain/pallets/votechain/src/lib.rs:265-289 | the candidates of an election created at most once are, in order and with repetitions, exactly those whose calls answered Ok |
| Answers.OpenFromHistory | votechain/pallets/votechain/src/lib.rs:199-240 | after any history an election is open if and only if some call of root with a description within the bounds created it and no close by root came after that |
| Answers.VotedFromHistory | votechain/pallets/votechain/src/lib.rs:320-348 | after any history an author is in the list of an election if and only if one of the author's votes there was answered Ok or CandidateNotFound since its last creation |
| Answers.VoteAnswers | votechain/pallets/votechain/src/lib.rs:294-352 | the answer to a vote from the earlier calls and their answers alone, for every history and origin: BadOrigin unless signed; ElectionNotFound unless the election was created and not closed since and the author has had no vote there answered Ok or CandidateNotFound since; then CandidateNotFound unless an accepted call registered the candidate; otherwise Ok |
| Answers.VoteIsUsedUp | votechain/pallets/votechain/src/lib.rs:323-346 | a vote answered CandidateNotFound or Ok is used up: every later vote of the author in that election is answered ElectionNotFound until the election is created again |
| Answers.FailedCallWritesIff | votechain/pallets/votechain/src/lib.rs:183-352 | a failing call changes the storage if and only if it is a signed vote in an open election that does not list the author yet, for a candidate that is not registered |
| Indexes.ReachableWithinBounds | votechain/pallets/votechain/src/lib.rs:189-197 | every stored description and candidate name has a cast length strictly between its bounds |
| Agreement.AgreementKeptIff | votechain/pallets/votechain/src/lib.rs:183-352 | one call keeps the two vote indexes in agreement on an election if and only if it does not create that election while some candidate list already holds a vote for it |
| Agreement.IndexesAgree | votechain/pallets/votechain/src/lib.rs:250-352 | in every history that creates an election at most once, each candidate's votes for it are, in order, a suffix of the election's votes for the candidate, failed calls and re-registered candidates included |
| Agreement.RecordedIsListed | votechain/pallets/votechain/src/lib.rs:320-348 | under agreement, every vote for an election kept by a candidate is in the election's list and names that candidate |
| Agreement.OneVoteAcrossCandidates | votechain/pallets/votechain/src/lib.rs:320-348 | for an election created at most once, no author has two recorded votes in all candidate lists together |
| Agreement.OneRecordedKeptIff | votechain/pallets/votechain/src/lib.rs:183-352 | from any state, one call keeps "no author has two recorded votes for the election" if and only if it is not a signed vote in that open election, by an author whom its list does not show but who has a recorded vote for it, for a registered candidate |
| Agreement.RecreationBreaksAgreement | votechain/pallets/votechain/src/lib.rs:204-211 | for any configuration and acceptable names, a five-call history that creates one election twice leaves the indexes in disagreement and one author with two recorded votes |
| Conservation.VotesAreConserved | votechain/pallets/votechain/src/lib.rs:183-352 | over every history from every state: election lists gain one vote per accepted vote and per CandidateNotFound, candidate lists one per accepted vote, less exactly what re-created elections and re-registered candidates threw away |
| Conservation.FreshHistoriesConserve | votechain/pallets/votechain/src/lib.rs:183-352 | with fresh ids, all candidate lists together hold as many votes as calls answered Ok, and all election lists that many plus one per CandidateNotFound |
| Ordering.ElectionListGains | votechain/pallets/votechain/src/lib.rs:320-339 | from any state and for any list of votes, an election list gains, in order, exactly the first vote of each author whom the election would still take |
| Ordering.CandidateListGains | votechain/pallets/votechain/src/lib.rs:341-348 | the list of a candidate gains, in order, exactly those first votes that name it, if it is registered |
| Ordering.AnsweredByFirstVote | votechain/pallets/votechain/src/lib.rs:294-352 | the answer of each call in any list of votes, from the starting state and the votes before it |
| Ordering.AnsweredAsIfAlone | votechain/pallets/votechain/src/lib.rs:294-352 | among votes of distinct voters, each call gets the answer it would get as the only one |
| Ordering.ElectionListCount | votechain/pallets/votechain/src/lib.rs:320-339 | how often each vote is in an election list after any list of votes, from the starting state and each author's first choice |
| Ordering.CandidateListCount | votechain/pallets/votechain/src/lib.rs:341-348 | the same for each candidate list |
| Ordering.OrderMattersForFirstVotes | votechain/pallets/votechain/src/lib.rs:294-352 | for any two lists of votes from any state, such as two orders of the same calls: they leave the same multiset of votes in every list if and only if every author whom an election still takes names the same candidate there first in both |
| Ordering.PermutedVotersAreDistinct | votechain/pallets/votechain/src/lib.rs:294-352 | being votes of distinct voters does not depend on the order of the calls |
| Ordering.OrderDoesNotMatter | votechain/pallets/votechain/src/lib.rs:294-352 | from any state, two orders of the same votes by distinct (author, election) pairs give each call the same answer and leave the same multiset of votes in every list |
| Ordering.SecondVoteLoses | votechain/pallets/votechain/src/lib.rs:323-337 | two votes of one author in one election may change places if and only if they name the same candidate or the election is not open to the author in the starting state |
| Closing.ClosedIsFinal | votechain/pallets/votechain/src/lib.rs:229-318 | from any state where an election is closed, along any history that does not create it again, it stays closed, its list is unchanged, and each candidate's votes for it are the same or, after the candidate was registered again, none |
| Closing.ReopenedIff | votechain/pallets/votechain/src/lib.rs:199-211 | a closed election is closed after a call if and only if the call does not create it; creating it leaves it open and without votes |
| Closing.CloseTakesEffect | votechain/pallets/votechain/src/lib.rs:221-244 | once a close call has answered Ok and the election is not created again, the history ends with it closed and with the list it had when it was closed |
| Closing.ClosedUnlessRepeated | votechain/pallets/votechain/src/lib.rs:229-240 | from a reachable state and with a collision-free hash, it is enough that no call repeats the election's description |
| ResultTable.RowsAreTheCandidates | client/src/votechain/VotechainContext.js:69-92 | the rows are exactly the stored candidates of the election, each once, with its own name and its own count, in any order of the storage entries |
| ResultTable.OptionsKeepOrder | client/src/votechain/VotechainContext.js:69-92 | the rows stand in the order in which the node returned the entries |
| ResultTable.TableAddsUp | client/src/votechain/ElectionResult.js:80-96 | the counts add up to at most the total shown, and to the total if and only if every vote names a candidate stored for the election; an unknown election shows zeros |
| ResultTable.ShownCountCoversRecorded | client/src/votechain/ElectionResult.js:86-88 | in every history that creates the election at most once, a candidate's count is at least the votes its own list recorded for it |
| FeeMultiplier.FactorRange | votechain/runtime/src/impls.rs:83-90 | the factor is 1 at the target and lies between those of an empty and a full block, which have the stated values |
| FeeMultiplier.FactorOfShare | votechain/runtime/src/impls.rs:71-92 | the factor of every block is 1 + t + t^2/2 at t = 0.00001 times its share of the normal weight less a quarter, with the share cut off at 1 |
| FeeMultiplier.UpdateDirection | votechain/runtime/src/impls.rs:132-148 | a block raises the multiplier exactly if it is above the target or the multiplier is below the minimum, and lowers it exactly if it is below the target and the multiplier above the minimum |
| FeeMultiplier.RunRises | votechain/runtime/src/impls.rs:71-92 | for equally long runs, pointwise heavier blocks and a higher start never give a lower multiplier |
| FeeMultiplier.RunRange | votechain/runtime/src/impls.rs:71-92 | after n blocks the multiplier lies between the n-th powers of the empty and full factors times the clamped start, and not below the minimum |
| FeeMultiplier.RunIsLargestRestart | votechain/runtime/src/impls.rs:71-92 | closed form of every run from every start: the clamped multiplier is the largest of what all blocks make of the start and what the last k blocks make of the minimum, over all k |
| FeeMultiplier.HeavyRunGrows | votechain/runtime/src/impls.rs:284-300 | any run of blocks above the target raises the multiplier at every step, from any start, zero included |
| FeeMultiplier.HeavyRun | votechain/runtime/src/impls.rs:284-300 | for any run of blocks not below the target the clamped multiplier is the clamped start times the factors of all blocks |
| FeeMultiplier.LightRun | votechain/runtime/src/impls.rs:71-92 | for any run of blocks not above the target and any start, cutting off at the minimum at every step equals cutting off the plain product of start and factors once at the end |
| FeeMultiplier.LightRunShrinks | votechain/runtime/src/impls.rs:304-316 | in any run of blocks below the target and from any start, a step lowers the multiplier if and only if the start times the factors of the blocks before it is above the minimum |
| FeeMultiplier.LightRunShrinksFor | votechain/runtime/src/impls.rs:304-316 | step i of such a run lowers the multiplier whenever the start times the i-th power of the empty factor is above the minimum |
| FeeMultiplier.HundredLightBlocks | votechain/runtime/src/impls.rs:304-316 | a hundred blocks below the target lower a multiplier of one half at every step |
| FeeMultiplier.EmptyRun | votechain/runtime/src/impls.rs:162-176 | n empty blocks from 1 give the n-th power of the empty factor, or the minimum if that is larger |
| FeeMultiplier.EmptyChainDuration | votechain/runtime/src/impls.rs:151-161 | an empty chain stays above the minimum for 8.0 million blocks and sits on it from 8.4 million on |
| FeeMultiplier.TimeToReachZero | votechain/runtime/src/impls.rs:162-175 | the loop ends, counts exactly the updates that leave the multiplier above the minimum, and the count is more than 533,333, in fact between 8.0 and 8.4 million |
| FeeMultiplier.MinChangePerDay | votechain/runtime/src/impls.rs:179-190 | a day of full blocks takes 1 to the 28,800th power of the full factor, above 1.234 and in fact between 1.238 and 1.242 |
| FeeSplit.DealWithFees.OnUnbalanceds | votechain/runtime/src/lib.rs:133-144 | after a payment of no, one or two amounts: the treasury gains four fifths of each, rounded down, the author the rest if the block has one, and otherwise the rest burns; later amounts are ignored |
| FeeSplit.DealWithFees.OnAuthor | votechain/runtime/src/impls.rs:9-15 | the author's share goes to the author if the block has one and is dropped otherwise |
| FeeSplit.RationRounds | votechain/runtime/src/lib.rs:135-140 | the treasury part never exceeds 80% and misses it by at most four fifths of a unit if and only if 80 times the amount fits a balance |
| FeeSplit.WhoIsPaid | votechain/runtime/src/lib.rs:132-145 | over any payments, saturated or not: the treasury has four fifths of every fee and tip, the authors the rests of exactly the payments with a known author, and the rests of the others are burned |
| FeeSplit.PaymentsConserve | votechain/runtime/src/lib.rs:132-145 | over any payments that fit, treasury, author and burned amounts add up to everything paid, and nothing burns while the author is known |
| FeeSplit.TreasuryShare | votechain/runtime/src/lib.rs:132-145 | after n payments whose fees and tips each fit a balance eightyfold, the treasury is never above 80% of the total and below it by at most 0.8 for each amount rationed, less than 2n |
| SizePools.FromHistogram | votechain/bench/src/trie.rs:349-357 | the loop builds the cumulative table bar by bar, with 32-bit running totals |
| SizePools.BuildIsTable | votechain/bench/src/trie.rs:349-357 | without overflow the keys are exactly the running totals after each bar, each holding the size of its bar, and the total is the sum of the counts |
| SizePools.BuildWraps | votechain/bench/src/trie.rs:349-357 | for every histogram, with empty bars and totals past 32 bits: the total is the sum modulo 2^32, the keys are the running totals modulo 2^32, each holding the size of the last bar that ends on it |
| SizePools.Value | votechain/bench/src/trie.rs:359-366 | a draw yields the size at the first key not below the draw modulo the total |
| SizePools.RangeOfBar | votechain/bench/src/trie.rs:360-364 | a draw selects a bar if and only if it is above the running total before the bar and not above the one after it; the first bar also has zero |
| SizePools.EveryDrawHitsOneBar | votechain/bench/src/trie.rs:360-364 | every draw below the total selects one bar and no other |
| SizePools.DrawsOfBar | votechain/bench/src/trie.rs:349-366 | a bar is selected by as many draws as its count, one more for the first bar and one fewer for the last |
| SizePools.DrawsAddUp | votechain/bench/src/trie.rs:349-366 | the numbers of draws of all bars add up to the total |
| SizePools.DrawValue | votechain/bench/src/trie.rs:60-63 | building the pool and drawing from it always succeeds and gives the size of a bar the draw selects |
| SimpleTries.SimpleTrie.Get | votechain/bench/src/simple_trie.rs:45-51 | a read answers as the one plain map that overlay and database stand for |
| SimpleTries.SimpleTrie.Contains | votechain/bench/src/simple_trie.rs:53-55 | a key is present if and only if it is in that map |
| SimpleTries.SimpleTrie.Insert | votechain/bench/src/simple_trie.rs:57-61 | a read at the prefixed hash of the value gives the value, every other read is as before, and the hash is returned |
| SimpleTries.SimpleTrie.Emplace | votechain/bench/src/simple_trie.rs:63-66 | a read at the prefixed key gives the value and every other read is as before |
| SimpleTries.SimpleTrie.Remove | votechain/bench/src/simple_trie.rs:68-71 | a read at the prefixed key gives nothing, also where the database still holds it, and every other read is as before |
| SimpleTries.LastChangesShow | votechain/bench/src/simple_trie.rs:45-71 | after any run of changes a read at each key gives what its last change put there, nothing if that was a removal, and the starting map's value if no change was about it |
| SimpleTries.LastChangeExists | votechain/bench/src/simple_trie.rs:45-71 | a key that some change is about has a last change |
| SimpleTries.AppliedSets | votechain/bench/src/generator.rs:56-63 | after a transaction a key holds what its last operation says |
| SimpleTries.FlushIsTheView | votechain/bench/src/generator.rs:56-63 | a transaction with every overlay entry once, in any order, makes the database alone equal to that map |
| SimpleTries.FlushOrderDoesNotMatter | votechain/bench/src/generator.rs:57-62 | any reordering of a flush transaction leaves the same database, the combined map |
| SimpleTries.Flush | votechain/bench/src/generator.rs:56-63 | the flush loop, taking entries in no particular order, leaves the database equal to that map |
| SimpleTries.GenerateTrie | votechain/bench/src/generator.rs:31-66 | for any changes made by the trie code, the database ends with the last change of each key, where there is none with the null key's entry, and otherwise as it was |
| Benchmarks.RunBenchmark | votechain/bench/src/core.rs:125-141 | the output has the benchmark's name, the mean of all fifty durations and the mean of places 10 to 39 of their sorted rearrangement, both rounded down and cut to 64 bits |
| Benchmarks.SummaryIsTheMeans | votechain/bench/src/core.rs:135-140 | the same of the summary: 50 times the raw average is at most the sum of the durations and misses it by less than 50, and likewise with 30 for the middle ones, up to the cut to 64 bits |
| Benchmarks.SortedUnique | votechain/bench/src/core.rs:135-135 | a list has only one sorted rearrangement |
| Benchmarks.SummaryForgetsOrder | votechain/bench/src/core.rs:129-138 | the output does not depend on the order of the runs |
| Benchmarks.OutliersDoNotMatter | votechain/bench/src/core.rs:135-138 | if at least 40 of 50 durations are at most b and at least 40 at least a, the trimmed average is between a and b |
| Decimals.PrettyPrint | votechain/bench/src/trie.rs:83-92 | the loop prints the numeral grouped by threes from the right |
| Decimals.TenDigits | votechain/bench/src/trie.rs:83-92 | the digits and their values are the places of "0123456789" |
| Decimals.GroupedGrows | votechain/bench/src/trie.rs:85-90 | one more digit in front takes a comma behind it exactly when the digits so far are a positive multiple of three |
| Decimals.PrintsTheNumber | votechain/bench/src/trie.rs:83-92 | without its commas the output reads back as the number; commas stand exactly where a digit precedes and a positive multiple of three digits follows |
| Addresses.BlockRoundTrip | votechain/inspect/src/lib.rs:206-228 | every hash, block number and byte string parses back from its printed form |
| Addresses.DecodesSpellings | votechain/inspect/src/lib.rs:220-226 | hexadecimal decoding gives b exactly for the strings of two digits a byte, high one first, in either case, that spell b |
| Addresses.ReadsNumerals | votechain/inspect/src/lib.rs:214-218 | a string reads as the number v exactly if v fits and the string is v's numeral behind an optional plus sign and any number of zeros |
| Addresses.ParsesBlocks | votechain/inspect/src/lib.rs:206-228 | the block parser accepts exactly the spellings of 32 bytes as that hash, other numerals below 2^32 as that number, and 0x with a spelling as those bytes, and refuses everything else |
| Addresses.ParsesExtrinsics | votechain/inspect/src/lib.rs:239-262 | the extrinsic parser accepts exactly 0x with a spelling as those bytes, and a block reading, one of ". : ", and a numeral below 2^64 up to the end or a further separator as that pair |
| Addresses.RefusesExtrinsics | votechain/inspect/src/lib.rs:249-259 | for every string that is not raw bytes, exactly when each of the three errors is given, by its first and second piece |
| Addresses.PrintedBlocksDiffer | votechain/inspect/src/lib.rs:206-228 | different block addresses have different printed forms |
| Addresses.HashAndNumberOverlap | votechain/inspect/src/lib.rs:210-218 | a string reads both as a hash and as a number if and only if it is 64 decimal digits of a value that fits a block number; there the order of the attempts decides |
| Addresses.RawHasNoOtherReading | votechain/inspect/src/lib.rs:220-226 | what starts with 0x is never a hash or a number |
| Addresses.SpellingDoesNotMatter | votechain/inspect/src/lib.rs:210-213 | every string decodes as its lower-case form does |
| Addresses.PairRoundTrip | votechain/inspect/src/lib.rs:242-262 | a printed block, any of the three separators and an index are read as that pair, whatever follows a further separator |
| Addresses.ExtrinsicRoundTrip | votechain/inspect/src/lib.rs:239-262 | every extrinsic address parses back from its printed form, with each separator |
| Addresses.ReadsBackWithEach | votechain/inspect/src/lib.rs:248-248 | every extrinsic address parses back with a dot, with a colon and with a space |
| Addresses.PrintedFormsDiffer | votechain/inspect/src/lib.rs:239-262 | for a given separator, different extrinsic addresses have different printed forms |
| Addresses.LoneBlock | votechain/inspect/src/lib.rs:243-257 | a block address without an index is read as raw extrinsic bytes if it is 0x bytes, and otherwise refused for its missing index |
| Addresses.BadIndexRefused | votechain/inspect/src/lib.rs:255-259 | a good block with a second piece that is no number, or too large a one, is refused for its index |
| Addresses.BadBlockRefused | votechain/inspect/src/lib.rs:249-253 | a first piece that is no block address is refused as such, whether or not anything follows |

## Left out

- FeeMultiplier.TimeToReachZero: the runtime's own fixed-point update is library code that is not part of this model; the
  claim is proved for the reference formula over exact reals, so rounding to 18 decimals is not captured.
- FeeMultiplier.MinChangePerDay: as above, exact reals in place of the fixed-point update.
- FeeMultiplier.UpdateDirection: as above; what rounding does close to the target or the minimum is not captured.
- FeeMultiplier.RunIsLargestRestart: as above, exact reals in place of the fixed-point update.
- FeeMultiplier.HeavyRun: as above.
- FeeMultiplier.HeavyRunGrows: as above; the test on lines 284-300 also compares the two updates, which is left out.
- FeeMultiplier.LightRunShrinks: as above, exact reals in place of the fixed-point update.
- FeeMultiplier.LightRunShrinksFor: as above.
- FeeMultiplier.HundredLightBlocks: as above.
- FeeMultiplier.EmptyRun: as above, exact reals in place of the fixed-point update.
- FeeMultiplier.EmptyChainDuration: as above; rounding at every block is not captured.
- FeeSplit.DealWithFees.OnUnbalanceds: the balances pallet behind the two sinks (existential deposits, total issuance) is
  not part of this model; the treasury and the author are running totals.
- SizePools.DrawsOfBar: asks for positive counts whose sum fits 32 bits; with an overflow a debug build of the source stops
  and a release build wraps, and then the table is not the histogram's (`BuildWraps` says what it is).
- SizePools.Value: asks for a table that has its total as a key, as every non-empty table without overflow has; on others
  the source stops.
- SimpleTries.GenerateTrie: the trie library that decides which entries to insert and remove is any sequence of changes
  here, and the root hash it returns is left out.
- SimpleTries.Database.Write: the database is one map; caching, reference counts and column files are left out.
- Benchmarks.RunBenchmark: the name and the fifty durations are inputs; clocks and the benchmark bodies are left out.
- Addresses.BlockRoundTrip: the hash and byte decoders are strict here (an even number of digits, no blanks, 0x never in
  front of a hash and always in front of bytes), as the command line documents; the libraries' further leniency is not
  part of this model.
- Addresses.DecodesSpellings: as above, a strict decoder.
- Addresses.ParsesBlocks: as above; what the libraries would accept beyond these readings is not part of this model.
- Addresses.ParsesExtrinsics: as above.
- Addresses.RawHasNoOtherReading: that a hash never starts with 0x is how the strict hash decoder of this model reads, not
  something the cited lines say.
- Events, weights, signatures, encodings and the dispatch machinery around the pallet; an origin is root, signed or none.
- `do_something` and `cause_error`, left over from the pallet template.
- The congestion simulation and the overflow test of the multiplier, which concern the fixed-point type.
- The duration formatter, the benchmark paths and modes, and the key generation of the trie benchmarks.
- The inspector's chain lookups and printing.
- The client's forms, its block list and its connection to a node.
- The node service, command line, chain specifications and the other pallets of the runtime.

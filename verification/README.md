# verve anagram engine, modelled in Dafny

This project models the anagram and multigram engine of `verve` (`src/anagram.rs`) and the letter and word model it sits on (`src/word.rs`):

- a `Letter` is one of 26 symbols, identified with its discriminant 0..25;
- a `Word` is a sequence of letters, ordered lexicographically;
- words are parsed from lower-case ASCII bytes and printed as upper-case letter names;
- the `AnagramR` index maps every alphagram (a word's letters, sorted) to the ids of its dictionary words, and keeps a 26-ary trie of all non-empty alphagrams;
- `alphagrams_helper` walks the trie with an explicit stack and lists every stored alphagram that fits in the query's letters, optionally cut off by a "stop" alphagram;
- `multigrams` searches for lists of alphagrams that use up the query's letters exactly, then expands each list into the products of its alphagrams' word ids.

A dictionary is a `seq<Word>`, and a word's id is its position in it. Panics (`expect`, `unwrap`, `u8` overflow in a debug build) become `Result` errors, or preconditions that are proved to hold wherever the engine calls the operation.

## Modules

- `prelude.dfy` (`Prelude`): `Option`, `Result` and no-duplicate predicates.
- `words.dfy` (`Words`): letters, words, `Letter::from`, `Word::from_str`, `Display for Word` and `LetterIter`.
- `word_order.dfy` (`WordOrder`): the derived ordering of words.
- `alphagram.dfy` (`Alphagram`): `alphatize` and `alpha_subtract`.
- `trie.dfy` (`Tries`): `TrieNode` and the insertion loop of `AnagramR::new`.
- `walk.dfy` (`TrieWalk`): `stop_status`, plus the walk of `alphagrams_helper` as a recursive function over the frames of the source's stack.
- `engine.dfy` (`Engine`): `AnagramR::new`, `exact_anagrams`, `alphagrams_helper`, `anagrams_helper` and `anagrams`.
- `list_search.dfy` (`ListSearch`): the first phase of `multigrams`, the search for alphagram lists.
- `products.dfy` (`Products`): the second phase of `multigrams`, the expansion of each list into products of ids.
- `multigrams.dfy` (`Multigrams`): both phases together, the two loops of the source as methods, and what the results mean in dictionary terms.

### The stop bound

The walk takes a `SkipRule` parameter:

- `AsWritten` is the code as it is: the "skip" frame at src/anagram.rs:115 is pushed with `new_less`.
- `Intended` is the corrected rule: the skip frame keeps the frame's own `less` flag.

The methods (`Engine.AlphagramsHelper`, `Multigrams.Multigrams`, and so on) follow the code, so they compute the `AsWritten` results. Every functional definition and every lemma is stated for both rules, so the corrected behaviour is defined and proved too (see "## Findings").

### Order of results

Every function keeps the order in which the source's stacks produce results. The first phase explores depth first and takes the most recently pushed state first. In the second phase, each list is expanded from its last alphagram backwards. So a product names the list's words in reverse: position `j` of a product for a list of `k` alphagrams holds an id whose word has alphagram `list[k-1-j]`.

Under the intended rule every list descends, each alphagram sorting no later than the one before it. The products therefore list words whose alphagrams ascend. The stop bound is meant to keep the chosen alphagrams non-decreasing; because products are built from the list's last alphagram back, that holds of the products, not of the lists.

### Limit of one word

With `word_limit = Some(1)` the result is the singleton expansion of `exact_anagrams`, except for an empty dictionary word. `exact_anagrams` of the empty query returns such a word, but `multigrams` never does. `Multigrams.SingleWordLimit` states the code's behaviour.

## Model

| member | source | states |
|---|---|---|
| Words.LetterFrom | src/word.rs:64-76 | `Letter::from(i)` gives a letter exactly when `i <= 25`, and that letter's discriminant is `i` |
| Words.ParseFrom | src/word.rs:28-36 | Parsing a suffix succeeds exactly when every byte is in `a..=z`, giving one letter `byte - 97` per byte. Otherwise it reports the first offending byte, as an underflow exactly when that byte is below `a`. |
| Words.Parse | src/word.rs:26-37 | `Word::from_str` succeeds exactly on all-lower-case input, keeping the length and mapping byte `k` to letter `byte[k] - 97`. Any other input aborts at its first bad byte with no partial word. |
| Words.Display | src/word.rs:39-45 | The display text has one character per letter: the upper-case name of its variant |
| Words.LetterName | src/word.rs:39-45 | Defines the `{:?}` name of a letter, the upper-case letter of its variant; `Words.Display` and `Words.DisplayParseRoundTrip` state what it gives |
| Words.DisplayParseRoundTrip | src/word.rs:28-45 | Parsing the lower-cased display text of any word gives back that word |
| Words.Next | src/word.rs:85-88 | Defines one call of `LetterIter::next`: `Letter::from` of the counter, then the `u8` increment; `Words.TakeFrom`, `Words.LetterIterYieldsAlphabet` and `Words.TakeAll` state what calls of it yield |
| Words.TakeFrom | src/word.rs:83-89 | Successive calls of `LetterIter::next` from counter `c` yield `Letter::from(c)`, `Letter::from(c+1)`, ... while the counter does not overflow |
| Words.LetterIterYieldsAlphabet | src/word.rs:61-63 | `Letter::iter` yields A to Z in ascending order, exactly 26 letters, then `None` up to the 255th call, and the 256th call overflows the `u8` counter |
| Words.TakeAll | src/word.rs:85-88 | Calling `next` once more than the counter has values left aborts |
| WordOrder.Compare | src/word.rs:7-13 | Defines the derived lexicographic `Ord` of words; `WordOrder.CompareLessIff`, `WordOrder.CompareEqualIff`, `WordOrder.CompareFlip` and `WordOrder.CompareTransitive` state its meaning and laws |
| WordOrder.CompareLessIff | src/word.rs:7-13 | The derived order puts `a` before `b` exactly when `a` is a proper prefix of `b`, or the first differing letter of `a` is smaller |
| WordOrder.CompareEqualIff | src/word.rs:7-13 | Two words compare `Equal` exactly when they are the same word |
| WordOrder.CompareFlip | src/word.rs:7-13 | `a > b` exactly when `b < a` |
| WordOrder.CompareTransitive | src/word.rs:7-13 | The order is transitive |
| WordOrder.PrefixNotGreater | src/word.rs:7-13 | A prefix never sorts after the word it begins |
| WordOrder.ExtendBelow | src/word.rs:7-13 | A word that sorts before `s` without being its prefix still does so after being extended |
| WordOrder.PrefixStepBelow | src/word.rs:7-13 | Extending a prefix of `s` by a letter below `s`'s next letter sorts before `s` for good |
| WordOrder.PrefixStepAbove | src/word.rs:7-13 | Extending a prefix of `s` past its end, or by a letter above `s`'s next letter, sorts after `s` |
| Alphagram.InsertSorted | src/anagram.rs:190-194 | Inserting a letter into a sorted word keeps it sorted and adds exactly that letter |
| Alphagram.Alphatize | src/anagram.rs:190-194 | `alphatize` returns a sorted permutation of the word's letters |
| Alphagram.SortedUnique | src/anagram.rs:190-194 | Two sorted words with the same letters are equal, so the alphagram is unique |
| Alphagram.AlphatizeSorted | src/anagram.rs:190-194 | A sorted word is its own alphagram |
| Alphagram.AlphatizeIdempotent | src/anagram.rs:190-194 | Applying `alphatize` twice equals applying it once |
| Alphagram.SameAlphagramIff | src/anagram.rs:190-194 | Two words have the same alphagram exactly when they have the same letters |
| Alphagram.Subtract | src/anagram.rs:196-213 | Defines the merge loop of `alpha_subtract`; `Alphagram.SubtractSpec` states that it is the sorted multiset difference |
| Alphagram.SubtractSpec | src/anagram.rs:196-213 | `alpha_subtract(src, sub)`, with both sorted and `sub` within `src`, is sorted, has the letters of `src` minus those of `sub`, and has length `|src| - |sub|` |
| Alphagram.SubtractDrop | src/anagram.rs:200-208 | When the next source letter matches the pending letter of `sub`, it is consumed and the result is still the multiset difference |
| Alphagram.SubtractKeep | src/anagram.rs:200-210 | When the next source letter does not match, it is kept and the result is still the multiset difference |
| Tries.NewFullFacts | src/anagram.rs:26-31 | `new_full` gives a node with 26 empty slots that stores nothing anywhere below it |
| Tries.FindEmpty | src/anagram.rs:12-15 | Nothing lies below an `Empty` slot |
| Tries.FindPathsOk | src/anagram.rs:44-58 | In a trie where each node stores only its own path, the alphagram found at a path is that path |
| Tries.PreparedChild | src/anagram.rs:47-57 | Creating a missing child, and storing the key at the node for its last letter, keeps the shape and paths and changes no stored path except the key's |
| Tries.GetOrInsert | src/anagram.rs:54-57 | Defines `get_or_insert_with` at the node of the key's last letter, which keeps an alphagram already stored there; `Tries.PreparedChild` and `Tries.InsertSpec` state its effect on the trie |
| Tries.InsertFrom | src/anagram.rs:44-58 | Defines the descent loop of the trie insertion from position `i` on; `Tries.InsertSpec` states its effect |
| Tries.Insert | src/anagram.rs:44-58 | Defines the insertion of an alphagram into the trie; `Tries.InsertSpec` states that it adds exactly the key's path |
| Tries.InsertSpec | src/anagram.rs:44-58 | Inserting a key keeps 26 slots per node and each stored alphagram equal to its path, and adds exactly the key's path to the stored ones |
| TrieWalk.StopStatusOf | src/anagram.rs:128-142 | Defines `stop_status`; `TrieWalk.StopStatusMeaning` states what each answer means about the stop alphagram |
| TrieWalk.StopStatusMeaning | src/anagram.rs:128-142 | For a path spelling the start of the stop alphagram: `Stop` means any extension by the test letter sorts after it, `Equal` means it still spells its start, and `Less` means every extension sorts before it |
| TrieWalk.RunEndFrom | src/anagram.rs:106-113 | The inner `while` stops at the first position from `k` on that does not hold `letter`, with every position before it holding `letter` |
| TrieWalk.RunEnd | src/anagram.rs:105-113 | The skip frame resumes just past the run of copies of the current letter |
| TrieWalk.Walk | src/anagram.rs:82-121 | Defines the walk recursively, frame by frame under either skip rule; `Engine.AlphagramsHelper` proves the stack loop equal to it, and `TrieWalk.WalkSound`, `TrieWalk.WalkNoDup` and `TrieWalk.WalkComplete` state what it records |
| TrieWalk.WalkSound | src/anagram.rs:82-121 | Everything the walk records is a stored alphagram on the node's path whose rest fits in the target letters not yet passed |
| TrieWalk.WalkNoDup | src/anagram.rs:82-121 | The walk never records an alphagram twice |
| TrieWalk.WalkComplete | src/anagram.rs:82-121 | Every stored sorted path that fits in the target's remaining letters and stays within the stop bound is recorded, under either skip rule |
| TrieWalk.IntendedWithinStop | src/anagram.rs:98-116 | With the intended skip rule, every recorded alphagram sorts no later than the stop alphagram |
| Engine.IdsOfSpec | src/anagram.rs:60-63 | The ids gathered for an alphagram are exactly the dictionary positions whose word has that alphagram, in ascending order |
| Engine.IdsOfSnoc | src/anagram.rs:60-63 | Appending a word to the dictionary appends its id to its own alphagram's list only |
| Engine.AddWord | src/anagram.rs:40-64 | Defines one round of the building loop; `Engine.AddWordInv` and `Engine.AddWordStep` state that it keeps the index exact |
| Engine.AddWordInv | src/anagram.rs:40-64 | One round of the building loop keeps the index exact: the trie stores exactly the non-empty keys, and every key maps to the ids of its words |
| Engine.AddWordStep | src/anagram.rs:40-64 | After the first `i` words, adding word `i` gives the index of the first `i+1` words |
| Engine.New | src/anagram.rs:37-69 | `AnagramR::new` builds the index of the dictionary |
| Engine.WordsStored | src/anagram.rs:42-58 | After `new`, following a non-empty word's alphagram from the root reaches a `Full` node storing that alphagram, and the root stores none |
| Engine.KeysSorted | src/anagram.rs:42-62 | Every key of the index is sorted |
| Engine.ExactAnagrams | src/anagram.rs:71-78 | `exact_anagrams(w)` holds exactly the ids of the words with the same letters as `w`, ascending |
| Engine.VisitFrame | src/anagram.rs:88-117 | One popped frame records its node's alphagram on a first visit, and pushes the skip frame, then the descent frame, unless the node is empty, the target is used up or the stop bound prunes it |
| Engine.StackPushRecords | src/anagram.rs:115-116 | Popping a frame, recording its alphagram, and pushing the skip frame and then the descent frame gives the same records as walking that frame recursively before the rest of the stack |
| Engine.AlphagramsHelper | src/anagram.rs:82-121 | The explicit-stack loop returns the recursive walk from the root over the query's alphagram |
| Engine.AlphagramsTrie | src/anagram.rs:82-121 | The walk records only non-empty, sorted, stored alphagrams within the query's letters. It records all of those within the stop bound, each once. Under the intended rule it records none beyond the bound. |
| Engine.AlphagramsSpec | src/anagram.rs:82-127 | The same in terms of the map: the recorded alphagrams are non-empty keys within the query's letters, and all of them within the stop bound are recorded, each once |
| Engine.AlphagramsHas | src/anagram.rs:82-121 | Under either rule, `alphagrams_helper` returns every non-empty stored alphagram drawn from the word's letters that sorts no later than the stop alphagram |
| Engine.AlphagramsNoDup | src/anagram.rs:82-121 | Under either rule, `alphagrams_helper` never returns an alphagram twice |
| Engine.AlphagramsWithinStop | src/anagram.rs:98-116 | With the intended skip rule, every returned alphagram sorts no later than the stop alphagram |
| Engine.StopSubset | src/anagram.rs:98-105 | A stop bound only removes alphagrams: what the bounded walk records, the unbounded walk records too |
| Engine.Gather | src/anagram.rs:122-127 | The `flat_map` holds exactly the ids listed under the given alphagrams |
| Engine.GatherNoDup | src/anagram.rs:122-127 | Distinct alphagrams give distinct ids, so the `flat_map` has no repeats |
| Engine.AnagramsHelper | src/anagram.rs:122-127 | Every id names a non-empty word within the query's letters. Every such word whose alphagram is within the stop bound is present. No id appears twice. |
| Engine.Anagrams | src/anagram.rs:79-81 | `anagrams(w)` holds exactly the non-empty dictionary words whose letters fit in `w`, each once |
| Engine.ThreeLetterTrie | src/anagram.rs:37-69 | The index of the dictionary `a`, `b`, `c` stores the three one-letter alphagrams |
| Engine.OvershootWalk | src/anagram.rs:115 | As written, the walk over `ac` with stop `b` reaches the stored `c` |
| Engine.StopOvershoot | src/anagram.rs:98-116 | As written, `alphagrams_helper` over `ac` with stop `b` returns `c`, which sorts after `b` |
| Engine.RespectWalk | src/anagram.rs:98-116 | With the intended rule the walk over `ac` with stop `b` does not reach `c` but still records `a` |
| Engine.StopRespected | src/anagram.rs:98-116 | With the intended rule the walk returns `a` and not `c` |
| ListSearch.Last | src/anagram.rs:151 | `current.last()` is present exactly for a non-empty list, and is its last element |
| ListSearch.Candidates | src/anagram.rs:151 | Defines the candidates of a state: the walk over the letters left, bounded by the last chosen alphagram; `ListSearch.CandidatesSpec` and `ListSearch.CandidateHas` state which they are |
| ListSearch.CandidatesSpec | src/anagram.rs:151 | Every candidate for a state is a usable alphagram within the letters left |
| ListSearch.FinishedFrom | src/anagram.rs:155-156 | A list is recorded only for a candidate that uses up the letters left |
| ListSearch.PushedFrom | src/anagram.rs:157-158 | A state is pushed only for a candidate that leaves letters over, and only while the list is under the limit |
| ListSearch.Advance | src/anagram.rs:152-154 | Defines taking a candidate: subtract it from the letters left and append it to the list; `ListSearch.AdvanceShrinks` and `ListSearch.AdvanceLetters` state its effect |
| ListSearch.AdvanceShrinks | src/anagram.rs:152-154 | Taking a candidate leaves strictly fewer letters, sorted, and exactly the difference |
| ListSearch.AdvanceLetters | src/anagram.rs:152-154 | Taking a candidate moves its letters from the letters left to the list |
| ListSearch.PushedShrink | src/anagram.rs:157-158 | Every pushed state has fewer letters left than the state it came from |
| ListSearch.AdvanceGood | src/anagram.rs:151-158 | A pushed state again accounts for all the query's letters, holds usable alphagrams, keeps the limit, and descends under the intended rule |
| ListSearch.AdvanceDescending | src/anagram.rs:151-153 | Under the intended rule, a candidate sorts no later than the list's last alphagram |
| ListSearch.FinishGood | src/anagram.rs:155-156 | A recorded list covers the query within the limit |
| ListSearch.Explore | src/anagram.rs:148-161 | Defines the first phase from one state, depth first; `ListSearch.ExploreSound`, `ListSearch.ExploreComplete` and `ListSearch.ExploreNoDup` state what it records |
| ListSearch.ExploreSound | src/anagram.rs:148-161 | Every list recorded from a good state covers the query within the limit, and descends under the intended rule |
| ListSearch.ExploreStackSound | src/anagram.rs:148-161 | The same for every state on a stack |
| ListSearch.FinishedHas | src/anagram.rs:155-156 | Every candidate that uses up the letters left records its list |
| ListSearch.PushedHas | src/anagram.rs:157-158 | Every candidate that leaves letters over is pushed while under the limit |
| ListSearch.ExploreStackHas | src/anagram.rs:148-161 | What a state on the stack records is recorded by the stack |
| ListSearch.CandidateHas | src/anagram.rs:151 | Every usable alphagram within the letters left that sorts no later than the last chosen one is a candidate |
| ListSearch.ExploreComplete | src/anagram.rs:148-161 | From any state, every descending list of usable alphagrams covering the letters left within the limit is recorded, under either rule |
| ListSearch.ExploreNoDup | src/anagram.rs:148-161 | From any state, under either rule, no list is recorded twice: lists reached through different candidates differ at the candidate's position |
| ListSearch.AlphaLists | src/anagram.rs:143-161 | Defines the lists of the first phase, from the query's alphagram; `ListSearch.AlphaListsSound`, `ListSearch.AlphaListsComplete` and `ListSearch.AlphaListsNoDup` state which they are |
| ListSearch.AlphaListsSound | src/anagram.rs:143-161 | Every recorded list is non-empty, has usable alphagrams, has exactly the query's letters and at most `max(n, 1)` alphagrams under `Some(n)`. Under the intended rule it also descends. |
| ListSearch.AlphaListsComplete | src/anagram.rs:143-161 | Every descending list that covers the query within the limit is recorded |
| ListSearch.AlphaListsNoDup | src/anagram.rs:143-161 | Under either rule, the first phase records each list once |
| ListSearch.DescendingListFound | src/anagram.rs:143-161 | For dictionary `a`, `b`, `c` and query `abc`, the list `[c, b, a]` is recorded |
| ListSearch.PermutedLists | src/anagram.rs:115 | As written, query `abc` over dictionary `a`, `b`, `c` records both `[b, c, a]` and `[c, b, a]` |
| ListSearch.IntendedDescending | src/anagram.rs:143-161 | Under the intended rule, recorded lists descend |
| ListSearch.PermutedListsFixed | src/anagram.rs:143-161 | Under the intended rule, `[b, c, a]` is not recorded |
| Products.Extend | src/anagram.rs:172-179 | Defines one round of the nested `for` loops; `Products.ExtendMembers`, `Products.ExtendCount` and `Products.ExtendNoDup` state what it gives |
| Products.ExtendMembers | src/anagram.rs:172-179 | A product of one round is an earlier product followed by one of the alphagram's ids, and every such pair gives one |
| Products.ExtendCount | src/anagram.rs:172-179 | One round gives `ids x products` products |
| Products.ExtendNoDup | src/anagram.rs:172-179 | With distinct ids and distinct earlier products, one round gives no product twice |
| Products.ExpandList | src/anagram.rs:167-185 | Defines the rounds for one list, last alphagram first; `Products.ExpandListMembers` and `Products.ExpandListCount` state what it gives |
| Products.ExpandListCount | src/anagram.rs:167-185 | A list turns each earlier product into as many products as there are ways to choose one id per alphagram |
| Products.ExpandListMembers | src/anagram.rs:167-185 | The products of a list extend an earlier product by one id per alphagram, chosen from the last alphagram to the first |
| Products.ExpandListFromEmpty | src/anagram.rs:164-185 | Starting from the single empty product, a list of `k` alphagrams gives exactly the length-`k` products whose position `j` holds an id of alphagram `k-1-j` |
| Products.ExpandListNoDup | src/anagram.rs:167-185 | When every alphagram lists distinct ids, a list turns distinct earlier products into distinct products |
| Products.PicksUnique | src/anagram.rs:164-185 | When no id is listed under two alphagrams, a product chooses for one list only |
| Products.ExpandAll | src/anagram.rs:162-186 | Defines the second phase over all recorded lists; `Products.ExpandAllMembers` and `Products.ExpandAllNoDup` state what it gives |
| Products.ExpandAllMembers | src/anagram.rs:162-186 | The final products are exactly the choices for some recorded list |
| Products.ExpandAllNoDup | src/anagram.rs:162-186 | Distinct lists over an index that lists each id once, under one alphagram, give no product twice |
| Multigrams.ListsExpandable | src/anagram.rs:173 | Every alphagram of every recorded list is a key of the map, so the `unwrap` never fails |
| Multigrams.PicksIff | src/anagram.rs:173 | A product chooses for a list exactly when the list is its words' alphagrams, last word first |
| Multigrams.AllMultigrams | src/anagram.rs:143-186 | Defines the products of `multigrams` as the second phase over the first phase's lists; `Multigrams.AllMultigramsMembers`, `Multigrams.IntendedMultigrams` and `Multigrams.AllMultigramsNoDup` state which they are |
| Multigrams.AllMultigramsMembers | src/anagram.rs:143-186 | The products are exactly the id sequences whose alphagram list, reversed, the first phase records |
| Multigrams.BagAlphas | src/anagram.rs:164-185 | The letters of a product's alphagram list are the letters of its words |
| Multigrams.DescendingAlphas | src/anagram.rs:164-185 | A product's alphagram list descends exactly when its words' alphagrams ascend |
| Multigrams.CoversIff | src/anagram.rs:143-186 | A product's alphagram list covers the query exactly when the product is a multigram of it |
| Multigrams.MultigramsSound | src/anagram.rs:143-186 | Every product holds one or more non-empty dictionary words whose letters together are exactly the query's, within the limit. Under the intended rule its alphagrams also ascend. |
| Multigrams.MultigramsComplete | src/anagram.rs:143-186 | Every multigram of the query whose alphagrams ascend is returned, under either rule |
| Multigrams.IndexSeparated | src/anagram.rs:60-63 | The map lists each id once, and only under its own word's alphagram |
| Multigrams.AllMultigramsNoDup | src/anagram.rs:143-186 | Under either rule, no product comes out twice: each ordered choice of words appears once |
| Multigrams.IntendedMultigrams | src/anagram.rs:143-186 | Under the intended rule, the products are exactly the multigrams with ascending alphagrams |
| Multigrams.SingleWordLimit | src/anagram.rs:143-186 | With `word_limit` `Some(0)` or `Some(1)`, the products are the single ids of the non-empty exact anagrams of the query |
| Multigrams.EmptyWord | src/anagram.rs:143-161 | The empty query has no multigrams |
| Multigrams.PermutedMultigrams | src/anagram.rs:115 | As written, query `abc` over dictionary `a`, `b`, `c` returns both `a c b` and `a b c` |
| Multigrams.PermutedMultigramsFixed | src/anagram.rs:143-186 | Under the intended rule only `a b c` is returned |
| Multigrams.StackAppend | src/anagram.rs:148-161 | States pushed on top are fully handled before those below them |
| Multigrams.StackTop | src/anagram.rs:148-150 | The state on top is popped first |
| Multigrams.OuterLists | src/anagram.rs:148-161 | One round of the first loop records the popped state's finished lists, and the rest come from the new stack |
| Multigrams.OuterStep | src/anagram.rs:148-161 | One round of the first loop keeps the lists still to come and leaves fewer states to visit |
| Multigrams.VisitState | src/anagram.rs:151-160 | The inner `for` loop records the completed lists and pushes the continued states in candidate order |
| Multigrams.AlphaListsLoop | src/anagram.rs:145-161 | The first loop records exactly the recursive first phase's lists, in the same order |
| Multigrams.ExtendLoop | src/anagram.rs:172-179 | The nested `for` loops compute one round of products |
| Multigrams.PushLists | src/anagram.rs:164-166 | Pushing every list with the single empty product leaves all final products pending |
| Multigrams.PushStep | src/anagram.rs:164-166 | Pushing the next list adds its products below those already pushed |
| Multigrams.PendingDone | src/anagram.rs:180-181 | A list whose last alphagram is taken gives final products |
| Multigrams.PendingAgain | src/anagram.rs:182-183 | A list with alphagrams left goes back one alphagram shorter with the extended products, and less work remains |
| Multigrams.ExpandLoop | src/anagram.rs:167-185 | The second loop returns the functional expansion of all lists |
| Multigrams.Multigrams | src/anagram.rs:143-187 | `multigrams` returns the as-written products; each is a multigram of the query, and none appears twice |

## Left out

- `src/main.rs` is not part of this model: command-line parsing, the interactive prompt, lazy construction of the engine, printing, and the sorting of output for display are presentation and I/O.
- `src/lib.rs` is not part of this model: reading the word list, Unicode lower-casing of input lines and `Verve::word` are I/O or library calls. The dictionary is a `seq<Word>` instead. Only ASCII lower-casing appears, in `Words.DisplayParseRoundTrip`.
- `HashMap` hashing and `Box` ownership are not modelled: the map is a Dafny `map` and the trie an inductive datatype whose `Full` nodes are proved to have 26 children.
- Release builds wrap `u8` arithmetic where debug builds panic. The model follows the debug behaviour: the underflow in `Word::from_str` and the counter overflow in `LetterIter::next` are errors.
- `TrieNode::new` and `Default for TrieNode` only produce `Empty`; they appear as the `Empty` constructor.
- `Multigrams.VisitState` collects the lists and states of one popped state and appends them after its loop, where the source appends inside the loop. Nothing is popped during the loop, so the resulting lists and stack are the same.
- The `expect` calls on popping a non-empty stack cannot fail. `alphas.pop().expect("no alphas left")` cannot fail either, because every recorded list is non-empty, and `Products.ExpandList` requires that.

## Findings

| source | as written | input that shows it | evidently intended | confidence | as-written member | corrected member |
|---|---|---|---|---|---|---|
| src/anagram.rs:115 | The skip frame is pushed with `new_less`, so once one letter compares `Less` with the stop alphagram, larger letters at the same node are no longer checked | Dictionary `a`, `b`, `c` and query `abc`. After choosing `b`, the walk over `ac` with stop `b` also offers `c`, so the lists `[b, c, a]` and `[c, b, a]` are both recorded, and `multigrams` returns `a c b` as well as `a b c` | The skip frame keeps the frame's own `less`, so the walk offers only alphagrams sorting no later than the stop: each choice of alphagrams is listed once, in descending order, and the products name words with ascending alphagrams. Each ordered choice of words comes out once under either rule; words sharing an alphagram (`ab`, `ba` for query `abab`) still come out in both orders | not executed | Engine.StopOvershoot, ListSearch.PermutedLists, Multigrams.PermutedMultigrams | TrieWalk.IntendedWithinStop, Engine.StopRespected, ListSearch.PermutedListsFixed, Multigrams.IntendedMultigrams, Multigrams.PermutedMultigramsFixed |

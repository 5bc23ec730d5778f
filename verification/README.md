# Spell corrector: a Dafny model

This project models the two classes that make up the core of a small Java spell
corrector and proves properties of the model.

- `spell/Trie.java` is a 26-way trie dictionary. Each node holds a frequency
  and 26 child slots. `add` walks or creates the letter path and bumps the last
  node's frequency. `find` follows a path and reports its node only when that
  node's frequency is positive. `toString` lists the stored words in
  alphabetical order. `equals` and `matchNodes` compare two tries, and
  `hashCode` combines the two counters.
- `spell/SpellCorrector.java` suggests a correction for a word.
  - If the word is stored, it is returned as is.
  - Otherwise four generators (delete, transpose, alter, insert) produce every
    variant one edit away. Each variant goes into the hit map `possibleWords`
    with its frequency, or into the miss map `nonceWords` with 0.
  - The most frequent hit wins. The map is scanned in ascending key order with
    a strict `>`, so ties go to the alphabetically smallest word.
  - If there is no hit, every miss is expanded again into fresh maps, and the
    best of those hits is returned. When that also finds nothing, the answer is
    `null`.

Files (one module each):

| file | module | contents |
|---|---|---|
| `wrappers.dfy` | `Wrappers` | `Option`, for Java's `null` |
| `letters.dfy` | `Letters` | the letters 'a'..'z' and slot numbering (`c - 'a'`) |
| `lex.dfy` | `Lex` | `String.compareTo` order on words, and the ascending key order of a `TreeMap` |
| `trie.dfy` | `Tries` | `Trie`, `Node`, `add`, `find`, `getNode`, the counters |
| `trie_text.dfy` | `TrieText` | `outputWord`, `toString`, and the trie as a `map<string, nat>` |
| `trie_equality.dfy` | `TrieEquality` | `matchNodes`, `equals`, `hashCode` |
| `edits.dfy` | `Edits` | the four single-edit operations and their variant lists |
| `spell_corrector.dfy` | `SpellCorrector` | the generators, the candidate maps, `suggestSimilarWord` |

Modelling choices:

- A Java `Node` is an immutable `Node(frequency, nodes)` with 26 optional
  children. `Valid` states that every node has 26 slots.
- The trie's abstraction is `FreqAt`, the frequency at the end of a path. The
  stored-word map `TrieText.Contents` is derived from it.
- Operations that mutate in Java return the new value. `Add` returns the new
  trie, and `Suggest` returns the suggestion together with the corrector state.
- The two candidate maps are fields that Java creates once and never clears.
  They are therefore part of the `Corrector` state and carry over from one
  query to the next, exactly as in the source.
- `StringBuilder` text is a `seq<char>`. The text `toString` builds is the list
  of words it appends (`Listing`), turned into lines by `Lines`.
- A `TreeMap<String, Integer>` is a `map<string, nat>`. Its iteration order is
  `Lex.AscendingKeys`, the keys sorted by `Lex.Less`, which agrees with
  `String.compareTo` on lower-case words.
- Words are sequences of 'a'..'z' (`IsWord`); other characters are left out
  (see "Left out" for what the source does with them).
- `Suggest` may be given any `Corrector` value, including hit maps the source
  can never build, so its own contract promises only that a suggestion is a
  word. In every state the source can reach, the hit map holds only stored
  words: `NewCorrector` starts with an empty one, and
  `UseDictionaryKeepsStored` and `SuggestKeepsStored` show that loading words
  and answering queries keep it so. In those states every suggestion is a
  stored word.
- The Javadoc of `getWordCount` (spell/Trie.java:84-91) says it returns the
  number of unique words. The code counts every `add` call, including repeats.
  The model follows the code: `Tries.Add` always raises `wordCount` by one, and
  `Tries.BuildFreq` shows that `wordCount` is the length of the word list.

## Model

| member | source | states |
|---|---|---|
| Letters.Letter | spell/Trie.java:113-115 | `(char) ('a' + i)` is a letter whose slot number is `i` |
| Letters.Index | spell/Trie.java:34 | `c - 'a'` of a letter is a slot number in 0..25, so `add` and `find` index inside the array |
| Letters.LetterOfIndex | spell/Trie.java:131-135 | slot numbering and letters are inverse: the letter of a letter's slot is that letter |
| Lex.LessTransitive | spell/SpellCorrector.java:18 | the key order of the `TreeMap` is transitive |
| Lex.LessTotal | spell/SpellCorrector.java:18 | any two different words are ordered one way or the other |
| Lex.PrefixLess | spell/Trie.java:106-120 | a word comes before every longer word it is a prefix of |
| Lex.ForkLess | spell/Trie.java:113-119 | words that first differ at a position are ordered by the letters there |
| Lex.Least | spell/SpellCorrector.java:59 | every non-empty key set has a least key |
| Lex.MinKey | spell/SpellCorrector.java:59 | the first key a `TreeMap` yields is in the set and is below or equal to every key |
| Lex.AscendingKeys | spell/SpellCorrector.java:59 | `TreeMap` iteration: exactly the keys, each once, in strictly ascending order |
| Tries.GetNode | spell/Trie.java:229-236 | `getNode(c)` is null for any character outside 'a'..'z', and is the child for `c` otherwise |
| Tries.NewNode | spell/Trie.java:216-219 | `new Node()` has 26 slots and frequency 0, and no word has a path below it |
| Tries.Walk | spell/Trie.java:61-75 | the loop of `find` reaches a node only for a non-empty word, and that node has 26 slots at every level |
| Tries.Empty | spell/Trie.java:12-17 | a new trie has `wordCount` 0 and `nodeCount` 1, which is the number of its nodes (the root); every word has frequency 0 |
| Tries.InsertPath | spell/Trie.java:29-48 | the walk of `add` keeps every node at 26 slots and reports as allocated exactly the letters of `w` that had no node yet |
| Tries.Add | spell/Trie.java:28-50 | `add` raises `wordCount` by one on every call and `nodeCount` by the number of missing path nodes, and leaves the buffer alone |
| Tries.Find | spell/Trie.java:60-82 | `find` returns a node only for a non-empty word whose end node has frequency > 0 (so never for the empty word) |
| Tries.FindAgreesWithFreq | spell/Trie.java:76-81 | `find(w)` is non-null exactly when the frequency stored for `w` is positive, and then reports that frequency |
| Tries.InsertPathFreq | spell/Trie.java:32-48 | the walk of `add(w)` raises the frequency of `w` by one and leaves every other path's frequency unchanged |
| Tries.InsertPathPaths | spell/Trie.java:35-45 | after `add(w)` a path exists exactly where one existed before or where it spells a non-empty prefix of `w` |
| Tries.AddFreq | spell/Trie.java:28-50 | after `add(w)`, `find(w)` is non-null with frequency one more than before, and `find(v)` is unchanged for every `v != w` |
| Tries.AddNodeCount | spell/Trie.java:35-45 | `add(w)` allocates between 0 and `|w|` nodes, none exactly when the whole path exists, and keeps `nodeCount` equal to the number of nodes |
| Tries.AddAllFreq | spell/SpellCorrector.java:31-35 | adding a word list raises each word's frequency by the number of times it occurs in the list |
| Tries.AddAll | spell/SpellCorrector.java:31-35 | adding a word list keeps the trie well formed and the buffer unchanged, and raises `wordCount` by the list's length |
| Tries.AddAllKeepsPaths | spell/SpellCorrector.java:31-35 | adding words never removes a path |
| Tries.BuildFreq | spell/Trie.java:28-50 | in a trie built from a list, a word's frequency is its multiplicity, it is found exactly when it is listed, and `wordCount` is the list's length |
| Tries.PrefixNotFound | spell/Trie.java:76-81 | a proper prefix of a stored word that was never added has a path but `find` reports it absent |
| Tries.AddAllSplit | spell/SpellCorrector.java:31-35 | adding a list is adding its first part, then one word, then the rest |
| TrieText.LinesAppend | spell/Trie.java:110 | appending the lines of two word lists to the buffer one after the other gives the lines of the joined list |
| TrieText.LinesCount | spell/Trie.java:110 | the text holds one `'\n'` per emitted word |
| TrieText.OutputWord | spell/Trie.java:106-120 | `outputWord(prefix, n, c)` emits only words longer than `prefix`, and emits `prefix + c` itself, first, exactly when `n` has frequency > 0 |
| TrieText.OutputChildren | spell/Trie.java:113-119 | the slot loop of `outputWord` emits only words longer than the prefix |
| TrieText.SlotWords | spell/Trie.java:116-118 | one slot of that loop emits only words longer than the prefix |
| TrieText.Listing | spell/Trie.java:128-138 | the traversal of `toString` never emits an empty line |
| TrieText.ToString | spell/Trie.java:128-142 | the text `toString` returns starts with the buffer's earlier contents, and the trie is left with an empty buffer and otherwise unchanged (`TrieText.ToStringTwice` states the rest of the text) |
| TrieText.WordShape | spell/Trie.java:106-120 | every word `outputWord(prefix, n, c)` emits starts with `prefix + c`, and they come in strictly ascending order |
| TrieText.ChildrenShape | spell/Trie.java:113-119 | the loop over slots `i..25` emits words through those slots only, in strictly ascending order |
| TrieText.SlotShape | spell/Trie.java:116-118 | slot `i` emits only words through letter `i`, in strictly ascending order |
| TrieText.JoinSlot | spell/Trie.java:113-119 | the words of slot `i` followed by the words of later slots stay in strictly ascending order |
| TrieText.ListingShape | spell/Trie.java:128-138 | the traversal emits words in strictly ascending order |
| TrieText.WordMembers | spell/Trie.java:106-120 | `outputWord(prefix, n, c)` emits a word exactly when it extends `prefix + c` and is stored below `n` |
| TrieText.ChildrenMembers | spell/Trie.java:113-119 | the loop over slots `i..25` emits a word exactly when its next letter is at slot `i` or later and it is stored |
| TrieText.SlotMembers | spell/Trie.java:116-118 | slot `i` emits a word exactly when the word's next letter is `i` and the word is stored below that child |
| TrieText.PrefixStep | spell/Trie.java:108 | a word starts with `prefix + c` exactly when it starts with `prefix` and has `c` next |
| TrieText.ListingSpec | spell/Trie.java:122-142 | `toString` lists exactly the words `find` reports, each once, in ascending alphabetical order |
| TrieText.ToStringTwice | spell/Trie.java:139-141 | since `toString` clears its buffer, a second call returns the same text |
| TrieText.Contents | spell/Trie.java:122-142 | the stored-word map holds only found words, each with its frequency |
| TrieText.ContentsSpec | spell/Trie.java:60-82 | the map's keys are exactly the words `find` reports, and its values are their frequencies |
| TrieText.AddContents | spell/Trie.java:28-50 | `add(w)` raises the count of `w` in the map by one (from 0 if absent) and changes no other entry |
| TrieText.BuildContents | spell/Trie.java:28-50 | the map of a trie built from a list is the list's multiplicity map |
| TrieEquality.MatchNodes | spell/Trie.java:149-167 | `matchNodes` is false when the two frequencies differ |
| TrieEquality.MatchSlots | spell/Trie.java:155-166 | when the loop of `matchNodes` succeeds from slot `i`, the two nodes agree on whether slot `i` holds a child; nodes with no children from `i` on always succeed |
| TrieEquality.RootSlotsMatch | spell/Trie.java:184-196 | when the root loop of `equals` succeeds, the two roots have children in the same slots and each pair of children passes `matchNodes` |
| TrieEquality.Equals | spell/Trie.java:169-202 | `equals` is false when `wordCount` or `nodeCount` differ |
| TrieEquality.Int32 | spell/Trie.java:146 | Java `int` arithmetic: the result is in the 32-bit range and agrees with the exact value modulo 2^32 |
| TrieEquality.HashCode | spell/Trie.java:145-147 | `hashCode` is a 32-bit value |
| TrieEquality.EqualsHashCode | spell/Trie.java:145-147 | tries that are `equals` have the same `hashCode` |
| TrieEquality.MatchNodesReflexive | spell/Trie.java:149-167 | every node matches itself |
| TrieEquality.MatchSlotsReflexive | spell/Trie.java:155-166 | the slot loop of `matchNodes` succeeds on a node compared with itself |
| TrieEquality.RootSlotsReflexive | spell/Trie.java:184-196 | the root loop of `equals` succeeds on a trie compared with itself |
| TrieEquality.EqualsReflexive | spell/Trie.java:169-202 | `equals` is reflexive, despite the early return in `matchNodes` |
| TrieEquality.MatchAllIsEquality | spell/Trie.java:149-167 | the corrected comparison of every slot holds exactly for equal nodes |
| TrieEquality.MatchAllFromIsEquality | spell/Trie.java:155-166 | the corrected comparison of slots `i..25` holds exactly when those slots are equal |
| TrieEquality.EqualsIntendedIsEquality | spell/Trie.java:169-202 | the corrected `equals` holds exactly for tries equal in everything but the buffer |
| TrieEquality.MatchAllImpliesMatchNodes | spell/Trie.java:149-167 | the corrected comparison succeeding implies the literal one succeeds |
| TrieEquality.MatchAllImpliesMatchSlots | spell/Trie.java:155-166 | the same for the slot loop |
| TrieEquality.IntendedRootsImplyRoots | spell/Trie.java:184-196 | the same for the root loop of `equals` |
| TrieEquality.IntendedImpliesEquals | spell/Trie.java:169-202 | the literal `equals` accepts every pair the corrected one accepts; the early return only loses precision |
| TrieEquality.EmptyRootSlotsMatch | spell/Trie.java:184-197 | root slots that are empty on both sides match |
| TrieEquality.FirstChildDecides | spell/Trie.java:155-158 | two tries with equal counters whose roots hold only an 'a' node are `equals` when those nodes agree in frequency, have no 'a' child and have the same 'b' child, whatever lies in later slots |
| TrieEquality.ACShape | spell/Trie.java:28-50 | the trie built from `["ab", "ac"]` has 4 nodes and 2 words; its root holds only an 'a' node with frequency 0, no 'a' child and a leaf 'b' child |
| TrieEquality.ADShape | spell/Trie.java:28-50 | the same shape for the trie built from `["ab", "ad"]` |
| TrieEquality.EarlyReturnCounterexample | spell/Trie.java:155-158 | the tries of `["ab", "ac"]` and `["ab", "ad"]` are `equals`, although "ac" is found in one and not the other and the corrected comparison rejects them |
| Edits.DeleteAt | spell/SpellCorrector.java:88-91 | `deleteCharAt(i)`: one shorter, with the characters before `i` kept and those after it shifted down |
| Edits.InsertAt | spell/SpellCorrector.java:156-158 | `insert(i, c)`: one longer, `c` at `i`, with the characters before `i` kept and those from `i` shifted up |
| Edits.SwapAt | spell/SpellCorrector.java:109-114 | the transposition swaps positions `i` and `i + 1` and keeps every other position |
| Edits.ReplaceAt | spell/SpellCorrector.java:130-136 | the alteration puts `c` at `i` and keeps every other position |
| Edits.DeleteInsertRoundTrip | spell/SpellCorrector.java:88-91 | putting a deleted character back where it was recovers the word |
| Edits.InsertDeleteRoundTrip | spell/SpellCorrector.java:153-158 | deleting an inserted character recovers the word |
| Edits.SwapInvolution | spell/SpellCorrector.java:109-114 | transposing the same pair twice is the identity |
| Edits.ReplaceSelf | spell/SpellCorrector.java:128-136 | replacing a character by itself is the identity, so `alterLetter` produces the word itself |
| Edits.ReplaceRestore | spell/SpellCorrector.java:130-136 | restoring the replaced character undoes an alteration |
| Edits.EditsKeepWords | spell/SpellCorrector.java:86-170 | edits that bring in only letters turn words into words |
| Edits.Deletions | spell/SpellCorrector.java:86-105 | `deleteLetter` produces exactly `|w|` variants, variant `i` being `w` without position `i` |
| Edits.Transpositions | spell/SpellCorrector.java:107-125 | `transposeLetter` produces `|w| - 1` variants (none for the empty word), variant `i` swapping `i` and `i + 1` |
| Edits.Alterations | spell/SpellCorrector.java:127-148 | `alterLetter` produces `|w| * 26` variants |
| Edits.AlterFromMembers | spell/SpellCorrector.java:127-148 | the alteration variants are exactly the replacements of one position by one letter |
| Edits.Insertions | spell/SpellCorrector.java:150-170 | `insertLetter` produces `(|w| + 1) * 26` variants |
| Edits.InsertFromMembers | spell/SpellCorrector.java:150-170 | the insertion variants are exactly the insertions of one letter at one of the `|w| + 1` positions |
| Edits.DeletionShape | spell/SpellCorrector.java:86-105 | a deletion variant is one shorter and gives back `w` once the deleted character is put back |
| Edits.TranspositionShape | spell/SpellCorrector.java:107-125 | a transposition variant has the length of `w` and gives back `w` when the pair is swapped again |
| Edits.AlterationShape | spell/SpellCorrector.java:127-148 | an alteration variant has the length of `w` and gives back `w` once one position is restored |
| Edits.InsertionShape | spell/SpellCorrector.java:150-170 | an insertion variant is one longer, and deleting the inserted position gives back `w` |
| Edits.GeneratorsKeepWords | spell/SpellCorrector.java:86-170 | every variant of a word is a word |
| Edits.Variants | spell/SpellCorrector.java:54-57 | the four generators together produce `|w| + (|w| - 1) + 26|w| + 26(|w| + 1)` variants, all words |
| Edits.VariantLengths | spell/SpellCorrector.java:54-57 | one edit changes the length by at most one |
| SpellCorrector.NewCorrector | spell/SpellCorrector.java:16-20 | a new corrector's dictionary finds no word and both candidate maps are empty, so its hit map holds only stored words |
| SpellCorrector.UseDictionary | spell/SpellCorrector.java:28-37 | loading a word list raises each word's frequency by its number of occurrences and leaves the candidate maps alone |
| SpellCorrector.UseDictionaryKeepsStored | spell/SpellCorrector.java:28-37 | loading more words keeps every key of the hit map a stored word |
| SpellCorrector.Record | spell/SpellCorrector.java:91-103 | after looking up a list of variants, the hit map has gained exactly the found ones with their frequencies (the entries `HitsAmong` defines) and the miss map exactly the others with 0 (`MissesAmong`); entries for other keys are unchanged |
| SpellCorrector.PutHit | spell/SpellCorrector.java:96-99 | putting a found variant into the hit map is recording it as a hit |
| SpellCorrector.PutMiss | spell/SpellCorrector.java:100-103 | putting an unfound variant into the miss map is recording it as a miss |
| SpellCorrector.DeleteLetter | spell/SpellCorrector.java:86-105 | `deleteLetter` adds the found deletions to the hit map and the others to the miss map |
| SpellCorrector.TransposeLetter | spell/SpellCorrector.java:107-125 | `transposeLetter` does the same for transpositions |
| SpellCorrector.AlterLetter | spell/SpellCorrector.java:127-148 | `alterLetter` does the same for alterations |
| SpellCorrector.InsertLetter | spell/SpellCorrector.java:150-170 | `insertLetter` does the same for insertions |
| SpellCorrector.Expand | spell/SpellCorrector.java:54-57 | the four generators add the hits and misses among all one-edit variants of the word |
| SpellCorrector.ExpandAll | spell/SpellCorrector.java:67-73 | expanding a list of misses adds to the hit map exactly the found words one edit away from one of them (`Edits1Of` is that set of variants) |
| SpellCorrector.Edits1OfUnion | spell/SpellCorrector.java:67-73 | the variants of one more miss join the variants of the others |
| SpellCorrector.ExpandAllKeys | spell/SpellCorrector.java:65-73 | expanding the miss map's keys in ascending order into fresh maps finds exactly the hits one edit away from those keys |
| SpellCorrector.BestUnique | spell/SpellCorrector.java:58-63 | the selection rule picks at most one word |
| SpellCorrector.ScanMax | spell/SpellCorrector.java:58-63 | the scan yields nothing only when it starts with nothing and sees no entry; otherwise it yields the carried entry or a scanned one, never with a smaller value than the carried entry |
| SpellCorrector.ScanMaxBest | spell/SpellCorrector.java:58-63 | the strict `>` scan over ascending keys keeps the first of the greatest values seen |
| SpellCorrector.MaxEntry | spell/SpellCorrector.java:58-63 | the scan yields nothing exactly for an empty map; otherwise it yields the greatest frequency, with ties going to the smallest word |
| SpellCorrector.ExpandQuery | spell/SpellCorrector.java:54-57 | the hit map gains the query's level-1 hits and the miss map its level-1 misses; nothing else changes |
| SpellCorrector.SecondLevel | spell/SpellCorrector.java:64-81 | the level-2 pass is null exactly when no stored word is one edit from a key of the miss map; otherwise it is the best such word |
| SpellCorrector.Suggest | spell/SpellCorrector.java:49-84 | a stored input is returned and nothing changes; otherwise the maps gain this query's hits and misses, a non-empty hit map yields its best entry, and an empty one leads to the level-2 pass over the whole miss map |
| SpellCorrector.SuggestKeepsStored | spell/SpellCorrector.java:49-84 | when every key of the hit map is a stored word, a query keeps it so, and its suggestion, if any, is a stored word |
| SpellCorrector.SuggestFromEmptyMaps | spell/SpellCorrector.java:49-84 | with empty maps on entry: the input if stored; otherwise the best level-1 hit; level 2 only when level 1 found nothing; null exactly when both levels are empty; any suggestion is a dictionary word |
| SpellCorrector.SuggestFresh | spell/SpellCorrector.java:49-84 | the suggestion with maps that start empty on every query, with the same guarantees |
| SpellCorrector.CatDictionary | spell/Trie.java:28-50 | the trie built from `["cat"]` stores "cat" and nothing else |
| SpellCorrector.ReplaceIsVariant | spell/SpellCorrector.java:127-148 | every one-letter replacement is a level-1 variant |
| SpellCorrector.FarFromOnlyWord | spell/SpellCorrector.java:64-81 | when the only stored word is at least three letters shorter than the query, neither level has a hit |
| SpellCorrector.CbtToCat | spell/SpellCorrector.java:134-135 | replacing the 'b' of "cbt" by 'a' gives "cat" |
| SpellCorrector.CatNearCbt | spell/SpellCorrector.java:127-148 | "cat" is a level-1 hit of "cbt" |
| SpellCorrector.FirstQuery | spell/SpellCorrector.java:49-63 | with fresh maps and a single stored word that is a level-1 hit of the query, the query is corrected to that word, which stays in the hit map |
| SpellCorrector.LaterQuery | spell/SpellCorrector.java:54-63 | with only "cat" stored, once the hit map holds "cat" and only stored words, every later query other than "cat" is corrected to "cat" |
| SpellCorrector.FreshFindsNothing | spell/SpellCorrector.java:64-81 | with fresh maps, a query far from the only stored word gets null |
| SpellCorrector.StateLeakCounterexample | spell/SpellCorrector.java:13-19 | with only "cat" stored, "cbt" is corrected to "cat", and a later query "zzzzzz" is also corrected to "cat", where fresh maps give null |

## Left out

- File reading in `useDictionary` (spell/SpellCorrector.java:28-37) is `File` and `Scanner` I/O. `UseDictionary` takes the token list instead.
- `toLowerCase` (spell/SpellCorrector.java:33, 50) is a Java library Unicode mapping. The model requires every word to consist of 'a'..'z' (`IsWord`). In the source, `find` returns null as soon as a slot on the path is empty (spell/Trie.java:67-68) and throws only when it reaches a character outside 'a'..'z' with the path intact so far. `add` throws on reaching such a character, after it has already allocated nodes and raised `nodeCount` for the letters before it. Neither behaviour is modelled.
- `Tries.Add` requires a non-empty word, because `add("")` dereferences a null `endNode` (spell/Trie.java:48) and throws.
- Java `int` overflow of `frequency`, `nodeCount` and `wordCount` is not modelled: these are unbounded `nat`s. The 32-bit wrap-around inside `hashCode` is modelled (`Int32`).
- `equals` on a non-`Trie`, on `null` and on the same object reference (spell/Trie.java:171-179) is out of scope: these checks are about object identity and classes, which a value model does not have.
- `getRoot`, `getNodes`, `getValue`, `getWordCount` and `getNodeCount` are field reads. `incrValue`, `incrWordCount` and `incrNodeCount` are the `+ 1` updates inside `InsertPath` and `Add`.
- `StringBuilder` copying and `setLength(0)` are modelled by value sequences. `toString` only ever leaves the buffer empty, and the model keeps the buffer so that this is visible.
- `TreeMap` internals (balancing, entry objects) are out of scope. Only its key order is kept.
- The `ITrie` and `INode` interfaces and the `getTrie` accessor carry no behaviour and are not modelled.

## Findings

| source | as written | input that shows it | evidently intended | confidence | as-written member | corrected member |
|---|---|---|---|---|---|---|
| spell/Trie.java:155-158 | `matchNodes` returns the result for the first slot where both nodes have a child, so every later slot goes unchecked | the tries built from `["ab", "ac"]` and `["ab", "ad"]` have equal counters and `equals` returns true, yet "ac" is found in one and not the other | compare every slot and stop only on a mismatch, so that `equals` holds exactly for equal tries | high; not executed | TrieEquality.EarlyReturnCounterexample | TrieEquality.EqualsIntendedIsEquality |
| spell/SpellCorrector.java:13-19 | `possibleWords` and `nonceWords` are created once and never cleared, so every query selects among the candidates of all earlier queries too | dictionary `["cat"]`: "cbt" gives "cat"; then "zzzzzz" also gives "cat", although no stored word is within two edits of it | start each query with empty candidate maps, so that the answer depends only on the dictionary and the query | medium; not executed | SpellCorrector.StateLeakCounterexample | SpellCorrector.SuggestFresh |

# WordUp vocabulary store and command parser, in Dafny

WordUp is a desktop vocabulary notebook. The user types lines such as
`add w/serendipity w/a happy accident t/noun`, `delete w/cat t/animal`,
`search w/cat`, `list o/asc`, `history 5`, `edit w/cat m/a small feline`,
`tag w/cat t/pet` or `quiz`. The parser turns each line into a command, and the
commands act on an in-memory bank of words.

The model covers two parts.

- **The bank** (`dictionary` package):
  - `Word` (module `Words`): one entry, with its meaning, tags, synonyms and search counter.
  - `WordBank` (module `WordBanks`): the primary index, a sorted map from each word to its `Word` object.
  - `TagBank` (module `TagBanks`): the tag index, a sorted map from each tag to the set of words carrying it.
  - `Bank` (module `Banks`): the façade that updates the primary index first and the tag index after it.
  - All four are classes whose methods update their fields in place.
  - The central invariant, `Banks.Coherent`: a word sits in a tag's bucket exactly when the word is filed and carries that tag. Every `Bank` mutator keeps it, as part of `Bank.Valid()`.
- **The parser** (`parser.Parser`, module `Parser`): pure functions from a line to a `Command` or to a `Bad` command carrying the error kind.
  - Java's `String.split`, `trim`, `startsWith`, `toLowerCase` and `Integer.parseInt` are modelled in module `Strings`.
  - For `add`, `delete`, `tag`, `edit` and `search`, a round-trip lemma shows what a line written from a word field, a meaning field and tags parses into: the fields trimmed as the source trims them, so that padded fields around trimmed text give back exactly that text.
  - For `list`, `freq` and `quiz`, the contract says exactly which arguments are accepted; for `history`, a lemma shows that the decimal rendering of any positive 32-bit count asks for that count.

Two more helper modules:
- `Order` models `String.compareTo` and the ascending key order in which a `TreeMap` iterates.
- `Results` holds the `DictError` exception kinds and the `Result`/`Outcome` wrappers.

Points where the code behaves in ways a reader might not expect; the model follows the code:
- Words are not lower-cased when filed. Only the two queries `searchWordMeaning` and `searchWordWithBegin` lower-case their argument.
- `TagBank` never removes a key. A bucket emptied by deletions stays, so `getWordsOfTag` then returns no words rather than reporting a missing tag. As a result, adding a word to tags and deleting it again does not restore the tag index (`TagBanks.JoinThenLeave`).
- The prefix search never returns the greatest key of the bank, because the upper bound of `subMap` is exclusive.
- `history` accepts `00` (zero words) and negative counts. Only the literal `0` is refused.
- `delete w/cat t/` deletes the word `cat t/`. All its `t/` pieces are empty, so the split yields one piece.

## Model

| member | source | states |
|---|---|---|
| Words.Word.constructor | src/main/java/dictionary/Word.java:31-36 | a new word has the given word and meaning, no tags, and a search count of 1 |
| Words.Word.WithTags | src/main/java/dictionary/Word.java:44-49 | a new word keeps the given tag set and also starts with a search count of 1 |
| Words.Word.SetClosestSearch | src/main/java/dictionary/Word.java:51-53 | records the last search time and changes nothing else |
| Words.Word.AddTag | src/main/java/dictionary/Word.java:75-77 | tags become old tags plus the tag; a tag already present changes nothing; the other fields stay |
| Words.Word.AddSynonym | src/main/java/dictionary/WordBank.java:159-161 | synonyms become old synonyms plus the new one; the other fields stay |
| Words.Word.EditMeaning | src/main/java/dictionary/Word.java:79-81 | only the meaning changes; word and search count are `const` |
| Words.Word.ToString | src/main/java/dictionary/Word.java:84-86 | the display line is the word, then `: `, then the meaning, each part recoverable by position |
| TagBanks.WithWord | src/main/java/dictionary/TagBank.java:20-28 | every listed tag becomes a key whose bucket holds the word; a new tag's bucket is exactly that word; no bucket loses a member; unlisted buckets are unchanged |
| TagBanks.WithoutWord | src/main/java/dictionary/TagBank.java:45-49 | exactly the listed buckets lose the word and keep every other member; the key set is unchanged |
| TagBanks.WithWordIdempotent | src/main/java/dictionary/TagBank.java:78-84 | adding a word to the same tags twice is the same as adding it once |
| TagBanks.WithWordStep | src/main/java/dictionary/TagBank.java:21-27 | adding tags one at a time in a loop equals adding the whole set at once |
| TagBanks.WithoutWordStep | src/main/java/dictionary/TagBank.java:46-48 | removing from buckets one at a time in a loop equals removing from the whole set at once |
| TagBanks.JoinThenLeave | src/main/java/dictionary/TagBank.java:20-49 | joining then leaving some tags restores the old buckets, but newly created tags remain as empty keys |
| TagBanks.TagBank.constructor | src/main/java/dictionary/TagBank.java:11-13 | the tag index starts empty |
| TagBanks.TagBank.AddWordToSomeTags | src/main/java/dictionary/TagBank.java:20-28 | the new index is the old one with the word joined to every listed tag |
| TagBanks.TagBank.DeleteWordAllTags | src/main/java/dictionary/TagBank.java:34-38 | the word leaves the bucket of each of its own tags, all of which must be keys; nothing else changes |
| TagBanks.TagBank.DeleteWordSomeTags | src/main/java/dictionary/TagBank.java:45-49 | the word leaves exactly the listed buckets, all of which must be keys |
| TagBanks.TagBank.AddWordToAllTags | src/main/java/dictionary/TagBank.java:55-63 | the word joins the bucket of each of its own tags, creating missing ones |
| TagBanks.TagBank.GetAllTagsAsList | src/main/java/dictionary/TagBank.java:64-66 | every key once, in strictly ascending order |
| Order.EnumerationUnique | src/main/java/dictionary/TagBank.java:64-66 | a key set has exactly one listing of every key once in ascending order, so the tag array is fixed by the set of tags alone |
| TagBanks.TagBank.GetAllWordsOfTag | src/main/java/dictionary/TagBank.java:73-76 | exactly the members of the tag's bucket, without duplicates; the tag must be a key |
| TagBanks.TagBank.AddWordToOneTag | src/main/java/dictionary/TagBank.java:78-84 | the word joins one tag's bucket, which is created as exactly that word when missing |
| WordBanks.SortTags | src/main/java/dictionary/WordBank.java:173-184 | the word keeps its old tags minus the requested ones; the deleted list holds exactly the requested tags it had |
| WordBanks.SortTagsAccounts | src/main/java/dictionary/WordBank.java:176-183 | each requested tag is reported exactly once, as deleted or as missing; none is deleted twice; a repeated tag is deleted first and then reported missing |
| WordBanks.CeilingPrefix | src/main/java/dictionary/WordBank.java:104-107 | the ceiling key carries the prefix whenever any key does, and lies at or below every key that does |
| WordBanks.ScanPassedAll | src/main/java/dictionary/WordBank.java:109-115 | a scan from the ceiling key that stops at a key without the prefix has already passed every key with it |
| WordBanks.ScanFindsAll | src/main/java/dictionary/WordBank.java:108-116 | the scan collects, in ascending order, exactly the keys with the prefix except the greatest key of the bank |
| WordBanks.WordBank.constructor | src/main/java/dictionary/WordBank.java:21-23 | the primary index starts empty |
| WordBanks.WordBank.GetWord | src/main/java/dictionary/WordBank.java:35-46 | the entry filed under the word, or none exactly when the word is not a key |
| WordBanks.WordBank.DeleteWord | src/main/java/dictionary/WordBank.java:57-63 | a present key is removed and nothing else changes; an absent one fails with no word found and leaves the map unchanged |
| WordBanks.WordBank.AddWord | src/main/java/dictionary/WordBank.java:70-75 | an existing key fails with word already exists and leaves the map unchanged; otherwise the map gains exactly that key and word |
| WordBanks.WordBank.SearchWordMeaning | src/main/java/dictionary/WordBank.java:83-93 | a hit on the lower-cased query returns its meaning and leaves the bank unchanged; a miss files a fresh untagged word with the online meaning and returns it after the notice; a failed lookup fails with no word found |
| WordBanks.WordBank.SearchWordWithBegin | src/main/java/dictionary/WordBank.java:101-117 | fails with no word found exactly when no key starts with the lower-cased prefix (including when no key lies at or above it, see Findings); otherwise returns, ascending, exactly the keys with the prefix that are not the greatest key |
| WordBanks.CeilingKeyAsWritten | src/main/java/dictionary/WordBank.java:104-105 | over an ascending key listing, `ceilingKey` gives no key exactly when every key lies below the prefix; otherwise the least key at or above the prefix |
| WordBanks.SearchPastLastKey | src/main/java/dictionary/WordBank.java:104-106 | a bank of `apple` and `banana` searched for `cherry` has no ceiling key, which the source dereferences |
| WordBanks.WordBank.EditWordMeaning | src/main/java/dictionary/WordBank.java:124-130 | a present key gets the new meaning and nothing else changes; an absent one fails with no word found and nothing changes |
| WordBanks.WordBank.AddWordToSomeTags | src/main/java/dictionary/WordBank.java:139-148 | an absent key fails with no word found; otherwise the word's tags become old tags plus the listed ones, and that whole set is returned |
| WordBanks.WordBank.AddSynonym | src/main/java/dictionary/WordBank.java:154-164 | an absent key fails with no word found; otherwise the word's synonyms become old synonyms plus the listed ones, and that whole set is returned |
| WordBanks.WordBank.DeleteTags | src/main/java/dictionary/WordBank.java:173-184 | the deleted list, the missing list and the word's remaining tags are those given by `SortTags`; nothing else changes |
| WordBanks.WordBank.GetClosedWords | src/main/java/dictionary/WordBank.java:191-199 | returns, in ascending order, exactly the keys the closeness test accepts; the bank is unchanged |
| WordBanks.WordBank.AddTagToWord | src/main/java/dictionary/WordBank.java:201-203 | one present word gains one tag; nothing else changes |
| WordBanks.WordBank.GetAllWords | src/main/java/dictionary/WordBank.java:205-207 | every entry once, ordered by ascending word |
| Banks.CoherentAddWord | src/main/java/dictionary/Bank.java:71-75 | filing a new word and joining its tags' buckets keeps the two indexes coherent |
| Banks.CoherentDeleteWord | src/main/java/dictionary/Bank.java:101-105 | removing a word and leaving its tags' buckets keeps them coherent |
| Banks.CoherentAddTags | src/main/java/dictionary/Bank.java:114-119 | adding tags to a word and joining their buckets keeps them coherent (also used for `addTagToWord`) |
| Banks.CoherentDeleteTags | src/main/java/dictionary/Bank.java:121-125 | deleting tags from a word and leaving the buckets of the tags it actually lost keeps them coherent |
| Banks.Bank.constructor | src/main/java/dictionary/Bank.java:23-28 | an empty bank whose indexes are coherent |
| Banks.Bank.AddWord | src/main/java/dictionary/Bank.java:71-75 | a duplicate fails before the tag index is touched; otherwise the word is filed and joins the bucket of each of its tags; coherence is kept |
| Banks.Bank.DeleteWordFromBank | src/main/java/dictionary/Bank.java:101-105 | an absent word fails with nothing changed; otherwise it is removed from the primary index and from the bucket of each of its tags; coherence is kept |
| Banks.Bank.AddWordToSomeTags | src/main/java/dictionary/Bank.java:114-119 | an absent word fails before the tag index is touched; otherwise the word's tags and the tag buckets gain every listed tag, and the word's whole tag set is returned; coherence is kept |
| Banks.Bank.DeleteTags | src/main/java/dictionary/Bank.java:121-125 | only the tags actually removed from the word lose it from their buckets; coherence is kept |
| Banks.Bank.AddTagToWord | src/main/java/dictionary/Bank.java:167-170 | the word gains the tag and joins its bucket; coherence is kept |
| Banks.Bank.GetWordsOfTag | src/main/java/dictionary/Bank.java:194-199 | fails with no tag found exactly when the tag is not a key; otherwise returns the bucket's words, each filed and carrying the tag (none for an emptied bucket) |
| Banks.Bank.AddWordToSomeSynonyms | src/main/java/dictionary/Bank.java:134-141 | a word not filed fails without touching the synonym index; otherwise the word's registered synonyms include every listed one and are returned; the indexes stay coherent |
| Banks.Bank.GetSynonymsOfWord | src/main/java/dictionary/Bank.java:210-215 | fails with no synonym found exactly when the word has no synonym entry; otherwise returns its synonyms |
| Banks.Bank.SearchWordBankForMeaning | src/main/java/dictionary/Bank.java:151-153 | the lookup keeps every existing entry, fails only with no word found for the lower-cased query, and keeps the indexes coherent |
| Parser.Parse | src/main/java/parser/Parser.java:44-83 | the result is none exactly when the first word is `help`, and an invalid command carrying the whole line exactly when the first word is not a known keyword |
| Parser.Dispatch | src/main/java/parser/Parser.java:49-78 | each of the ten keywords other than `help` gives exit or the result of its own parser on the argument; `help` gives none; an unknown word gives an invalid command |
| Parser.ParseDispatches | src/main/java/parser/Parser.java:46-47 | the line is cut at its first space into the command word and its argument |
| Parser.ParseAdd | src/main/java/parser/Parser.java:85-93 | a missing argument, or one that does not split on `w/` into exactly three pieces, is a wrong add format; an accepted word is the trimmed second piece, and word and meaning are non-empty |
| Parser.AddOfPieces | src/main/java/parser/Parser.java:89-96 | wrong add format exactly when there are not three `w/` pieces; otherwise an add or an empty-word error, the latter whenever the trimmed second piece is empty; an accepted word is that trimmed piece |
| Parser.AddOfFields | src/main/java/parser/Parser.java:93-112 | an add exactly when the word and the trimmed first `t/` piece are both non-empty, otherwise an empty-word error; the meaning is that trimmed piece; the tags are exactly the later pieces, untrimmed |
| Parser.ParseDelete | src/main/java/parser/Parser.java:115-130 | refused exactly when there is no argument or it lacks `w/`; it deletes the word exactly when the `t/` split gives one piece, the word then being the untrimmed rest after `w/`; otherwise it deletes tags, the word being the trimmed first piece after `w/` and the tags the later pieces each trimmed, in order |
| Parser.ParseSearch | src/main/java/parser/Parser.java:132-137 | accepted exactly when the argument starts with `w/`; the word is the rest after `w/`, trimmed |
| Parser.ListOrder | src/main/java/parser/Parser.java:140-149 | the order is `""` exactly when there is no argument, and `asc` or `desc` exactly for `o/asc` or `o/desc`; anything else is refused |
| Parser.ParseList | src/main/java/parser/Parser.java:139-151 | lists with no order, `asc` or `desc` for exactly those arguments; any other argument is a wrong list format, and no other order is ever produced |
| Parser.ParseSearchFrequency | src/main/java/parser/Parser.java:169-181 | the same argument rules as `list`, for the frequency listing |
| Parser.ParseHistory | src/main/java/parser/Parser.java:153-167 | accepted exactly when an argument is present, is not the literal `0` and parses as a 32-bit integer; the literal `0` is a zero-history request; a missing argument or one that does not parse is a wrong history format, and no other command results |
| Parser.ParseEdit | src/main/java/parser/Parser.java:183-194 | accepted exactly when the argument starts with `w/` and splits on `m/` into two pieces; the word is the trimmed first piece after `w/` and the meaning the second piece as typed |
| Parser.ParseTag | src/main/java/parser/Parser.java:196-210 | accepted exactly when the argument starts with `w/` and has at least one `t/` piece; the word is the trimmed first piece after `w/` and the tags the later pieces each trimmed, in order |
| Parser.ParseQuiz | src/main/java/parser/Parser.java:212-217 | a quiz exactly when there is no argument |
| Parser.ParseAddOfRendered | src/main/java/parser/Parser.java:85-112 | `add w/<word field>w/<meaning field>t/<tag>...` parses into the trimmed word field, the trimmed meaning field and the set of tags as typed, or an empty-word error when either field trims to nothing |
| Parser.ParseAddOfPadded | src/main/java/parser/Parser.java:93-98 | spaces around the word and the meaning are dropped: the line parses back into exactly the word, meaning and tags it was written from |
| Strings.TrimPadded | src/main/java/parser/Parser.java:93 | `trim` of a trimmed text padded with spaces on both sides is that text |
| Parser.ParseDeleteWordOfRendered | src/main/java/parser/Parser.java:119-121 | `delete w/<word>` without `t/` deletes exactly that word, spaces kept |
| Parser.ParseDeleteTagsOfRendered | src/main/java/parser/Parser.java:119-128 | `delete w/<word>t/<tag>...` parses into the trimmed word and each tag trimmed, in the order written |
| Parser.ParseTagOfRendered | src/main/java/parser/Parser.java:200-209 | `tag w/<word>t/<tag>...` parses into the trimmed word and each tag trimmed, in the order written |
| Parser.ParseEditOfRendered | src/main/java/parser/Parser.java:187-193 | `edit w/<word>m/<meaning>` parses into the trimmed word and the meaning exactly as typed |
| Parser.ParseSearchOfRendered | src/main/java/parser/Parser.java:132-137 | `search w/<word>` with any spaces around the word parses back into that word |
| Parser.ParseHistoryOfDecimal | src/main/java/parser/Parser.java:158-166 | `history <n>` in decimal asks for n words, for every positive 32-bit n |
| Parser.ParseHistoryLeniency | src/main/java/parser/Parser.java:158-166 | `00` asks for zero words and `-1` for minus one: only the literal `0` is refused |
| Parser.AddMeaningAsWritten | src/main/java/parser/Parser.java:97-98 | the unguarded read of the first `t/` piece fails exactly when that split is empty |
| Parser.AddBareTagIndexesPastEnd | src/main/java/parser/Parser.java:89-98 | for `add w/cat w/t/` the third `w/` piece is `t/`, whose `t/` split is empty, so the source reads past the end |
| Parser.AddBareTagRejected | src/main/java/parser/Parser.java:97-101 | the corrected parser reports that line as an empty meaning |

## Left out

- `WordCount` (the search-frequency buckets) is not part of this model. `Bank` updates it after the primary and tag indexes, and the model leaves those calls out.
- `SynonymBank` is not part of this model; its source is not available. The `Bank` holds the synonym index as a map from a word to the set of its synonyms. `contains` is modelled as having a key in that map, and `getAllSynonymsOfWord` as that key's set.
- Banks.Bank.constructor: builds the empty, coherent bank that the comment on `Bank()` describes (Bank.java:20-22). In the source, `WordBank` extends `Bank` (WordBank.java:14), `Bank()` runs `new WordBank()` (Bank.java:24), and each `WordBank` constructor (WordBank.java:17-23) begins with the implicit `super()`, which is `Bank()` again. So `new Bank()` and `new WordBank()` recurse until the stack overflows. A construction that never finishes has no counterpart among Dafny members. The model drops the inheritance: `WordBanks.WordBank` and `Banks.Bank` are separate classes, and WordBanks.WordBank.constructor likewise builds an empty index.
- Banks.Bank.GetWordsOfTag: calls `tagBank.contains` (Bank.java:195), which none of `TagBank`, `WordBank` or `Bank` defines. It is modelled as the tag being a key of the tag index.
- Banks.Bank.AddWordToSomeSynonyms: calls `wordBank.contains` (Bank.java:136), which neither `WordBank` nor its superclass `Bank` defines. It is modelled as the word being a key of the primary index.
- `addSynonymToWord` calls `SynonymBank.addWordToOneSynonym`, whose behaviour is unknown, and is left out.
- Banks.Bank.AddWordToSomeSynonyms: promises only that the word's entry afterwards includes every listed synonym and is what is returned. `joinSynonymWords` is not available: the source comment says the word is also added to each synonym, and the model's body joins them in one direction only. Nothing is promised about the other entries.
- The Oxford dictionary lookup is a network call. Its result is the `onlineResult` parameter, and `None` stands for a failed lookup.
- `Word.isClosed` is not part of this model. `GetClosedWords` takes it as a parameter `isClosed(key, query)`.
- `Storage` (file and spreadsheet I/O and the bulk load at start-up), `Ui`, the JavaFX scenes and the command classes are left out. They are I/O and glue.
- `toLowerCase` is modelled on ASCII letters only. `compareTo` is modelled on characters, which matches Java's UTF-16 order only for text without surrogate pairs. `Integer.parseInt` is modelled on ASCII digits only.
- The iteration order of a `HashSet` is unspecified, so tag sets, synonym sets and bucket listings are sets. `GetAllWordsOfTag` promises each member once, in no particular order.
- `Word.tags` is modelled as a set value. The source's `getTags` hands out the live `HashSet`, which callers could mutate; this aliasing is not modelled.
- Exception message texts and `showError` printing are left out. Errors are the `DictError` and `ParseError` kinds.
- `getWord` prints its own error and returns `null`. It is modelled as `None`, without the printing.
- `Word` getters, `isEmpty` and the size queries are left out. They read a field directly.
- The `Bank` delegations `getWordFromWordBank`, `getAllTags`, `getClosedWords` and `searchWordWithBegin` are left out. They return the `WordBank` or `TagBank` result unchanged, and those members are modelled.
- `addWordToBank` has the same body as `addWord` and is modelled by `Banks.Bank.AddWord`.
- `editWordMeaning` in `Bank`, `editWordMeaningAndGetWord`, `searchWordExample` and `addExampleToWord` call `WordBank` methods that are not part of this model.
- `Word.java` declares no `getWordString`, `addSynonym` or `getSynonyms`, although `WordBank` calls them. They are modelled as the key `word`, `Words.Word.AddSynonym` and a `synonyms` field.
- WordBanks.WordBank.DeleteTags: requires the word to be filed, because the source dereferences its entry. The same holds for WordBanks.WordBank.AddTagToWord, Banks.Bank.DeleteTags and Banks.Bank.AddTagToWord.
- TagBanks.TagBank.DeleteWordAllTags: requires every tag of the word to be a key, because the source dereferences each bucket. The same holds for TagBanks.TagBank.DeleteWordSomeTags and TagBanks.TagBank.GetAllWordsOfTag.
- Banks.Bank.DeleteWordFromBank: requires the object passed in to be the one filed under its word. The source updates the tag index from that object's own tags, and another object with other tags would leave the indexes inconsistent.
- Banks.Bank.SearchWordBankForMeaning: states the coherence it keeps and that existing entries stay. It does not restate the meaning returned, which WordBanks.WordBank.SearchWordMeaning states.

## Findings

| source | as written | input that shows it | evidently intended | confidence | as-written member | corrected member |
|---|---|---|---|---|---|---|
| src/main/java/dictionary/WordBank.java:104-105 | `ceilingKey` returns `null` when every key lies below the prefix, and `upperBoundWord.startsWith` then throws a `NullPointerException` that escapes the search | a bank holding `apple` and `banana`, searched for words beginning with `cherry` | report that no word was found (`NoWordFoundException`), as the method's documentation promises | not executed; high, since `TreeMap.ceilingKey` returns `null` when no key is at or above its argument | WordBanks.SearchPastLastKey | WordBanks.WordBank.SearchWordWithBegin |
| src/main/java/parser/Parser.java:97-98 | `meaningAndTag[0]` is read without checking that the split of the third `w/` piece on `t/` has any pieces; for the piece `t/` it has none, and the uncaught `ArrayIndexOutOfBoundsException` escapes `parse` | `add w/cat w/t/` | report an empty meaning (`EmptyWordException`), as for `add w/cat w/ t/` | not executed; high, since Java's `split` drops trailing empty strings | Parser.AddBareTagIndexesPastEnd | Parser.AddBareTagRejected |

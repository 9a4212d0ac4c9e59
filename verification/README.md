# Quadratic-probing hash table and concordance

This project models a small concordance builder written in Python, in two
parts.

- **The hash table** (`hash_quad.py`) is an open-addressing table with string
  keys, a fixed-length slot list and quadratic probing.
  - The hash is Horner's rule over at most the first 8 characters of a key,
    with radix 31, reduced modulo the table size.
  - A key is stored at the first slot `(h + i*i) % size` (`i < size`) that is
    empty or already holds that key.
  - After every insert, the table grows to `2 * size + 1` slots when the load
    factor exceeds 0.5.
- **The concordance** (`concordance.py`) uses two tables, both starting at
  191 slots:
  - a stop-word table, with the whitespace-separated tokens of a stop-word
    file as keys;
  - a concordance table, mapping each word of a text to the ascending list of
    the line numbers it occurs on.
  - Each line is first trimmed and lower-cased. Apostrophes are then deleted
    and other punctuation becomes a space.
  - Stop words and anything that parses as a number are skipped.
  - The report lists the entries sorted by word, one `word: n1 n2 ...` per
    line.

The Dafny modules are:

- `HashSpec` (`hash_spec.dfy`) has the functional specification of the
  table:
  - the slot sequence, the hash and the probe;
  - the `Put`, `Rebuild` and `InsertSlots` step functions;
  - the table invariant `Placed` and the key-to-value view `Contents`.

  Its lemmas prove that these steps preserve the invariant and what they do
  to the view. They also prove when an insert can lose an entry:
  - 191 and 383 are prime;
  - at most 191 distinct keys in a table of either size never lose one.
- `HashQuad` (`hash_quad.dfy`) has `class HashTable<V>` over an
  `array<Slot<V>>`.
  - The methods with loops are proved equal to the corresponding `HashSpec`
    function: the probe loop of `insert`, `resize` and its loop, the hash,
    `get_index` and `get_all_keys`.
  - `in_table` and `get_value` call `get_index` and are proved against the
    `Contents` view.
  - `get_load_factor`, `get_num_items` and `get_table_size` are functions of
    the fields.
  - A ghost field `lossless` records whether any insert so far has silently
    dropped an entry (see "Left out").
- `Text` (`text.dfy`) has `str.strip`, `str.lower`, `str.split`, and
  `process_line` as a method. The method is proved equal to the function
  `ProcessedLine`.
- `IndexSpec` (`index_spec.dfy`) has the concordance as a function of the
  text, `ConcordanceOf`. It is proved sound, complete and ordered.
- `LoadSpec` (`load_spec.dfy`) gives the slots the two loading loops leave
  behind as functions of the input: `InsertAll`, `WordSlots`, `LineSlots` and
  `TextSlots`. It also gives, as `InsertAllKeeps`, `WordKeeps`, `LineKeeps`
  and `TextKeeps`, whether those loops lose an entry. Its lemmas connect the
  slots to the concordance and prove that at most 191 distinct words lose
  nothing.
- `ReportSpec` (`report_spec.dfy`) has the sorted report as a function of
  the slots:
  - Python's string order;
  - an insertion sort;
  - decimal rendering of line numbers, with its round trip;
  - the line layout.
- `ConcordanceModel` (`concordance.dfy`) has `class Concordance` with its two
  tables. Its loading methods are proved to leave exactly the `LoadSpec`
  slots and loss flags. Through `IndexSpec`, the concordance table is then
  consistent with the text, and it equals the concordance when nothing is
  lost. Its writing method is proved against `ReportSpec`.

## Model

| member | source | states |
|---|---|---|
| HashSpec.Hash | hash_quad.py:49-57 | The home slot of a key is below the table size. |
| HashSpec.HornerIsPolynomial | hash_quad.py:53-56 | Horner's accumulation (`Horner`) equals the polynomial sum of code(c_i) * 31^(n-1-i). |
| HashSpec.SharedPrefixSameHome | hash_quad.py:54-57 | Two keys that agree on their first 8 characters have the same home slot. |
| HashSpec.SuffixIgnored | hash_quad.py:54-57 | Appending characters to a key of 8 or more characters does not change its home slot. |
| HashSpec.PlacedKeysDistinct | hash_quad.py:21-31 | Under the table invariant, no key occupies two slots. |
| HashSpec.CountIsSize | hash_quad.py:95-97 | With distinct keys, the number of occupied slots equals the number of keys stored. |
| HashSpec.Put | hash_quad.py:21-31 | The probe step as a function of the slots keeps the number of slots; what it does to the mapping is `PutStores`. |
| HashSpec.IndexOfFinds | hash_quad.py:64-74 | The probe search `IndexOf` finds a slot exactly when the key is stored. That slot holds the key and its value, and lies on the key's probe sequence. |
| HashSpec.ContentsIff | hash_quad.py:77-84 | A key is in the table's mapping exactly when some slot holds it. |
| HashSpec.PutStores | hash_quad.py:21-31 | When the probe reaches an empty slot or the key's own slot, the key maps to the new value and every other key is unchanged. The item count grows by one exactly when the key is new. |
| HashSpec.Rebuild | hash_quad.py:36-46 | Re-inserting every occupied slot, in slot order, into m empty slots gives m slots. |
| HashSpec.RebuildSubmap | hash_quad.py:36-46 | Every key of the rebuilt table was in the old table with the same value, and there are no more items than before. |
| HashSpec.RebuildKept | hash_quad.py:36-46 | When every re-insertion finds a slot, the rebuilt table holds exactly the old mapping. |
| HashSpec.RebuildKeepsWhenRoom | hash_quad.py:36-46 | Re-insertion finds a slot for every item whenever there are no more items than distinct probe offsets i*i mod size. |
| HashSpec.InsertSlots | hash_quad.py:12-34 | An insert keeps the size n or grows it to exactly 2n + 1. |
| HashSpec.InsertInvariant | hash_quad.py:12-34 | Insert keeps the table invariant and leaves the load factor at most 0.5. The size doubles plus one exactly when the probe step pushed the load above 0.5. |
| HashSpec.InsertKept | hash_quad.py:12-34 | When nothing is lost, the key maps to the new value, other keys keep theirs, and the count grows by one exactly for a new key. |
| HashSpec.InsertSubmap | hash_quad.py:12-34 | Even when entries are lost, every surviving key other than the inserted one keeps its old value, and the inserted key (if present) maps to the new value. |
| HashSpec.InsertKeys | hash_quad.py:12-34 | An insert adds no key but its own, and adds exactly that key when nothing is lost. |
| HashSpec.InsertExisting | hash_quad.py:29-31 | Re-inserting a stored key replaces its value without loss, without growth and without changing the count. |
| HashSpec.GrowthAtThreshold | hash_quad.py:21-37 | In a valid 191-slot table holding 95 keys, inserting a new 96th key always finds a free slot and grows the table to 383 slots. All 96 keys stay stored with their values. |
| HashSpec.RoomWhenFewEntries | hash_quad.py:21-31 | A probe always stops when fewer slots are occupied than there are distinct offsets i*i mod size. |
| HashSpec.InsertKeepsWhenRoom | hash_quad.py:12-46 | Insert loses nothing when both the old size and the grown size have enough distinct probe offsets for the items. |
| HashSpec.Prime191 | concordance.py:20 | The starting size 191 is prime. |
| HashSpec.Prime383 | hash_quad.py:37 | The size after one growth, 2 * 191 + 1 = 383, is prime. |
| HashSpec.PrimeSquares | hash_quad.py:23-24 | For an odd prime size p, the probe offsets i*i mod p take at least (p + 1) / 2 distinct values. |
| HashSpec.Squares191 | hash_quad.py:23-24 | A table of 191 slots has at least 96 distinct probe offsets. |
| HashSpec.Squares383 | hash_quad.py:23-24 | A table of 383 slots has at least 192 distinct probe offsets. |
| HashSpec.InsertKeepsSmall | hash_quad.py:12-46 | In a valid table of 191 or 383 slots that is at most half full, an insert loses nothing and the size stays 191 or 383, provided fewer than 191 keys are stored or the key is already present. |
| HashSpec.InsertKeepsWithin | hash_quad.py:12-46 | In a valid table of 191 or 383 slots that is at most half full, inserting a key loses nothing and the size stays 191 or 383, whenever the key and the stored keys lie in one set of at most 191 keys. |
| HashQuad.HashTable.constructor | hash_quad.py:8-10 | A new table has the given number of empty slots, no items and an empty mapping. |
| HashQuad.HashTable.HornerHash | hash_quad.py:49-57 | The loop over at most 8 characters computes `Hash(key, size)`. |
| HashQuad.HashTable.GetLoadFactor | hash_quad.py:103-105 | items / size, which is above 0.5 exactly when 2 * items > size. |
| HashQuad.LoadFactorTest | hash_quad.py:33 | The real-valued test items / size > 0.5 is the integer test 2 * items > size. |
| HashQuad.HashTable.GetNumItems | hash_quad.py:95-97 | The stored item count is the number of keys in the table. |
| HashQuad.HashTable.GetTableSize | hash_quad.py:99-101 | The size is the length of the slot array and is positive. |
| HashQuad.HashTable.Put | hash_quad.py:21-31 | The probe loop updates the slot array in place to `HashSpec.Put` of the old slots, keeping the invariant and the size. |
| HashQuad.HashTable.Insert | hash_quad.py:12-34 | The new slots are `InsertSlots` of the old ones and the load factor is at most 0.5. `lossless` stays true exactly when this insert loses nothing (`InsertKeeps`). The new mapping is the old one with key set to value whenever nothing is lost. |
| HashQuad.HashTable.Resize | hash_quad.py:36-46 | The size becomes 2 * size + 1 and the new slots are `Rebuild` of the old ones into a fresh array. |
| HashQuad.HashTable.Rehash | hash_quad.py:38-43 | The loop of resize builds a fresh valid table equal to `Rebuild` of the slots. It holds at most as many items as there were slots, so fewer than half of the 2n + 1 new slots are full and the nested load-factor check does not fire. |
| HashQuad.HashTable.GetIndex | hash_quad.py:64-74 | Returns `IndexOf` of the slots: a slot exactly when the key is stored, and that slot holds the key and its value. |
| HashQuad.HashTable.InTable | hash_quad.py:59-62 | True exactly when the key is stored. |
| HashQuad.HashTable.GetValue | hash_quad.py:86-92 | The stored value of the key, or None when the key is absent. |
| HashQuad.HashTable.GetAllKeys | hash_quad.py:77-84 | The keys in slot order, one per item, without duplicates, and exactly the keys of the mapping. |
| Text.Lower | concordance.py:90 | Lower-casing keeps the length. |
| Text.StripDrops | concordance.py:89 | `Strip` (`str.strip`) returns a contiguous slice that starts and ends with a non-space character, and drops only whitespace. |
| Text.SplitTokens | concordance.py:24 | Every word produced by `Split` (`str.split`) is non-empty and contains no whitespace. |
| Text.SplitCharacters | concordance.py:46 | Every character of every split word comes from the split string. |
| Text.SplitKeepsNonSpace | concordance.py:24 | The split words, written one after the other, are exactly the non-whitespace characters of the string, in order: `split` drops whitespace and nothing else. |
| Text.StripToken | concordance.py:24-25 | Stripping a word produced by `split` leaves it unchanged. |
| Text.ReplaceHandles | concordance.py:91-95 | `Replace` of a punctuation character c by its cleaned form ("" for an apostrophe, " " otherwise) turns the line with the characters so far cleaned into the line with c cleaned as well. |
| Text.ProcessLine | concordance.py:88-96 | The character loop computes `ProcessedLine(line)`: strip, lower-case, delete apostrophes, and turn other punctuation into spaces. |
| Text.ProcessedLineLength | concordance.py:88-96 | The output is as long as the stripped line minus its apostrophes. |
| Text.ProcessedLineCharacters | concordance.py:88-96 | The output contains no punctuation and no upper-case letter. |
| IndexSpec.TokensMembers | concordance.py:23-25 | A word is a stop-file token exactly when it is a split word of some line. |
| IndexSpec.TextWords | concordance.py:44-46 | The processed and split text has one word list per line of the file. |
| IndexSpec.AddWordsConsistent | concordance.py:47-58 | Adding the words of the last line keeps every entry valid. |
| IndexSpec.AddWordsGrows | concordance.py:47-58 | Adding a line's words with `AddWords` keeps all old line numbers, and every admissible word ends up with that line number. |
| IndexSpec.IndexConsistent | concordance.py:44-59 | Every entry's word is neither a stop word nor a number. Its line list is non-empty and strictly increasing, and each line number is in range and names a line containing the word. |
| IndexSpec.IndexNonEmpty | concordance.py:52-58 | No word of the index has an empty line list. |
| IndexSpec.IndexComplete | concordance.py:44-59 | Every non-stop, non-number word of line n is in the index with n in its list. |
| IndexSpec.ConsistentWithin | concordance.py:44-59 | A mapping whose entries are valid for the first lines of a text has only words of the whole text's concordance. |
| IndexSpec.ConcordanceExact | concordance.py:29-62 | In `ConcordanceOf` (`Index` of the processed lines, built with `AddWords`/`AddWord`), line n is listed for word w exactly when w is a word of processed line n and is neither a stop word nor a number. Every list is strictly increasing, so it has no duplicates. |
| IndexSpec.ConcordanceWordsClean | concordance.py:45-46 | Every concordance word is non-empty and has no punctuation, upper case or whitespace. |
| LoadSpec.InsertAllAppend | concordance.py:23-25 | Inserting the words of a and then those of b leaves the slots of inserting a + b. |
| LoadSpec.InsertAllKeepsAppend | concordance.py:23-25 | Inserting a + b loses nothing exactly when inserting a loses nothing and inserting b afterwards loses nothing. |
| LoadSpec.InsertAllKeys | concordance.py:20-25 | After the inserts, the table is valid and holds no key but its old keys and the inserted words. It holds all of them when nothing was lost. |
| LoadSpec.InsertAllWithin | concordance.py:20-25 | In a table of 191 or 383 slots at most half full, inserting words that lie, with the stored keys, in one set of at most 191 words loses nothing and keeps that shape. |
| LoadSpec.WordSlotsInvariant | concordance.py:48-58 | Handling a word keeps the table invariant, and keeps a load factor of at most 0.5. |
| LoadSpec.WordSlotsContents | concordance.py:48-58 | When handling a word loses nothing, the mapping changes exactly as `AddWord` says. |
| LoadSpec.WordSlotsConsistent | concordance.py:48-58 | Handling a word of the last line keeps every entry valid for the lines so far, even when an entry is lost. |
| LoadSpec.WordKeepsWithin | concordance.py:52-58 | In a table of 191 or 383 slots at most half full, a word that lies with the stored keys in one set of at most 191 words is handled without loss, and the size stays 191 or 383. |
| LoadSpec.WordKeepsInText | concordance.py:47-58 | When the whole text's concordance has at most 191 words, handling a word of the text in a consistent 191- or 383-slot table loses nothing and keeps that shape. |
| LoadSpec.LineSlotsPlaced | concordance.py:47-58 | Handling a line's words keeps the table invariant. |
| LoadSpec.LineSlotsConsistent | concordance.py:47-58 | Handling the last line's words keeps every entry valid for the lines so far. |
| LoadSpec.LineSlotsContents | concordance.py:47-58 | When a line's words lose nothing, the mapping changes exactly as `AddWords` says. |
| LoadSpec.LineKeepsInText | concordance.py:45-58 | When the whole text's concordance has at most 191 words, a line of the text is handled in a consistent 191- or 383-slot table without loss, keeping that shape. |
| LoadSpec.TextSlotsConsistent | concordance.py:39-59 | From an empty table, every entry kept after handling a text is a valid concordance entry of that text. |
| LoadSpec.TextSlotsContents | concordance.py:39-59 | From an empty table, when no line loses an entry, the mapping is exactly `Index` of the text. |
| LoadSpec.TextKeepsInText | concordance.py:39-59 | A text whose concordance has at most 191 words, handled line by line from an empty 191- or 383-slot table, loses nothing. |
| ReportSpec.BelowIrreflexive | concordance.py:108 | Python's string order (`Below`) is irreflexive. |
| ReportSpec.BelowTransitive | concordance.py:108 | Python's string order is transitive. |
| ReportSpec.BelowTotal | concordance.py:108 | Python's string order is total on distinct strings. |
| ReportSpec.EntriesKeys | concordance.py:103-107 | The pairs collected by `Entries` are the table's keys in slot order, one per occupied slot. |
| ReportSpec.TableEntries | concordance.py:103-107 | A pair is collected exactly when it is a (key, value) pair of the table. |
| ReportSpec.TableEntriesDistinct | concordance.py:103-107 | No two collected pairs share a word. |
| ReportSpec.SortEntries | concordance.py:108 | Sorting returns a permutation of the pairs. |
| ReportSpec.SortEntriesSorted | concordance.py:108 | With distinct words, the sorted pairs are in strictly ascending word order. |
| ReportSpec.SortedDistinct | concordance.py:108 | Strictly ascending words are distinct. |
| ReportSpec.NatToString | concordance.py:112 | `str` of a line number is non-empty. |
| ReportSpec.NatToStringValue | concordance.py:112 | `str` of a line number is all digits, has no leading zero and reads back as the number. |
| ReportSpec.JoinNumsRoundTrip | concordance.py:112 | Reading the numbers joined by `JoinNums` back gives the original list. |
| ReportSpec.RenderUpToJoins | concordance.py:109-115 | After k of the distinct-word entries, the output `RenderUpTo` (each `Line` followed by its `Separator`) is their lines joined by newlines, plus a newline when more follow. |
| ReportSpec.ReportJoinsLines | concordance.py:109-115 | For distinct words, the report is the `word: numbers` lines joined by newlines, with no trailing newline. |
| ReportSpec.TableReportEntries | concordance.py:103-108 | The sorted pairs are exactly the table's (word, lines) pairs, one per word. |
| ReportSpec.TableReportLines | concordance.py:103-115 | The report of a valid table is in strictly ascending word order, one newline-separated line per entry. |
| ConcordanceModel.Concordance.constructor | concordance.py:11-13 | No stop table, and an empty concordance table of 191 slots. |
| ConcordanceModel.Concordance.LoadStopTable | concordance.py:15-27 | A fresh valid stop table whose slots are `InsertAll` of the file's tokens into 191 empty slots, lossless exactly when `InsertAllKeeps` holds. Its keys are tokens of the file, all of them when nothing is lost, and nothing is lost when the file has at most 191 distinct tokens. The concordance table is untouched. |
| ConcordanceModel.Concordance.InsertTokens | concordance.py:24-25 | The inner loop inserts each token of a line in order: the new slots are `InsertAll` of the old ones, lossless exactly when it was before and `InsertAllKeeps` holds. |
| ConcordanceModel.Concordance.LoadConcordanceTable | concordance.py:29-62 | A fresh valid table whose slots are `TextSlots` of the file's words, lossless exactly when `TextKeeps` holds. Every entry is valid (`Consistent`). When nothing is lost it equals `ConcordanceOf(lines, stop words, isNumber)`, and nothing is lost when that concordance has at most 191 words. |
| ConcordanceModel.Concordance.HandleLine | concordance.py:45-58 | The new slots are `LineSlots` of the old ones, lossless exactly when it was before and `LineKeeps` holds. The table stays consistent. When nothing is lost it equals `AddWords` of the old table. When the text's concordance has at most 191 words and the table has 191 or 383 slots and is at most half full, nothing is lost and that shape is kept. |
| ConcordanceModel.Concordance.HandleWord | concordance.py:48-58 | The word is skipped, extended in place, or inserted as [n]: the new slots are `WordSlots` of the old ones, lossless exactly when it was before and `WordKeeps` holds. The table stays consistent. When nothing is lost it equals `AddWord` of the old table. When the text's concordance has at most 191 words and the table has 191 or 383 slots and is at most half full, nothing is lost and that shape is kept. |
| ConcordanceModel.Concordance.WriteConcordance | concordance.py:99-115 | The output is the report of the sorted slot pairs: one `word: n1 n2 ...` line per entry, ascending by word and joined by newlines. |

## Left out

- File input and output are not modelled. Each file is given as its sequence
  of lines, and the report is returned as a string. Re-raising
  `FileNotFoundError` is left out with them.
- `float(word)` succeeding is an uninterpreted parameter `isNumber`. Python's
  float grammar (`inf`, `nan`, `1e5`, `_` separators) is not part of this
  model.
- Text handling is ASCII only. Whitespace is codes 9-13 and 28-32, and
  punctuation is `string.punctuation`. `str.lower` and `str.strip` on
  non-ASCII characters are not modelled.
- `get_load_factor` returns an exact real, not a float. For the sizes and
  counts in range, the comparison with 0.5 is the same.
- The triple-quoted block at concordance.py:64-86 is a string expression and
  never runs, so it is not modelled.
- `line_numbers += [line_num]` extends the stored list in place through an
  alias. The model writes the extended list back into the key's slot.
  `HashTable.Put` on a present key touches only that slot and does not
  resize, so the effect is the same.
- `load_concordance_table` requires a loaded stop table. Without one, the
  Python code fails with an `AttributeError`, which is not modelled.
- The `HashTable` constructor requires a positive size. With size 0,
  `insert` would divide by zero.
- `get_value` returns Python's `None` both for an absent key and for a key
  stored with value `None`. The model returns an `Option`, and the
  concordance only stores non-`None` lists.
- `sorted()` on (word, list) tuples is modelled as sorting by word. The
  words of a table are distinct, so the list never decides the order.
- Within `resize`, each `insert` into the new table is modelled by its probe
  loop alone. `Rehash` proves that fewer than half the new slots are full,
  so the load-factor check there never fires.
- HashQuad.HashTable.Insert: the new mapping is promised only when nothing
  is lost (`InsertKeeps`).
  - Table sizes 191, 383, 767, ... are not all prime; 767 = 13 * 59.
  - For a composite size, the values of i*i mod size can cover fewer slots
    than are free, so the probe may find no place. The entry is then
    silently dropped, and the ghost field `lossless` records this.
  - `InsertKeepsWhenRoom` gives a sufficient condition for no loss.
  - `InsertKeepsWithin` proves no loss for the sizes 191 and 383 with at
    most 191 distinct keys. No bound is proved for 767 slots and beyond.
- HashQuad.HashTable.Resize: the rebuilt table holds the old mapping only
  when every re-insertion finds a slot (`RebuildKept`), for the same reason.
- HashQuad.HashTable.Put: when no probed slot is free or holds the key,
  nothing changes, as in the source.
- ConcordanceModel.Concordance.LoadStopTable: holding every token is
  promised only when no insert lost an entry. Loss is characterised exactly
  by `InsertAllKeeps` and excluded for at most 191 distinct tokens. Beyond
  that the table reaches 767 slots, where no bound is proved.
- ConcordanceModel.Concordance.LoadConcordanceTable: equality with
  `ConcordanceOf` is promised only when no insert lost an entry. Loss is
  characterised exactly by `TextKeeps` and excluded for at most 191 words.
  Soundness of every kept entry holds unconditionally.
- ConcordanceModel.Concordance.HandleLine: equality with `AddWords` is
  promised only when nothing is lost. The new slots (`LineSlots`) and the
  loss flag (`LineKeeps`) are given unconditionally.
- ConcordanceModel.Concordance.HandleWord: equality with `AddWord` is
  promised only when nothing is lost. The new slots (`WordSlots`) and the
  loss flag (`WordKeeps`) are given unconditionally.

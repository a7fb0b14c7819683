# lsdups: glob translation and name-based duplicate grouping

lsdups lists files that are probably duplicates of each other. It walks a directory tree
and keeps the files whose names match a shell glob. It then groups files that have the same
base name and the same size, and reports the groups with the largest total size first. This
project models two parts of `dups/Source.cpp` and proves properties of them.

- **The glob translator** (`translate`, with its helper `string_replace`) turns a glob into
  the text of an ECMAScript regular expression. In `glob.dfy` (module `Glob`), the method
  `Translate` mirrors the scanner with its look-ahead index. `TranslateBracket` mirrors the
  search for the closing `]`, and `TranslateClassBody` the in-place edits of the class text.
  All three methods are proved against a token-level specification:
  - `Lex` cuts the pattern into the tokens `*`, `?`, a class `[...]`, an unterminated `[`
    and a literal character;
  - `Render` concatenates the translation of each token;
  - `Body` is the rendered token sequence of a pattern.

  Lemmas state what each kind of token becomes. They also state that the tokens spell the
  pattern again, and that every class body is valid.
- **The duplicate grouper** (`addFileNameToMapping`, `getTotalSize`, `splitBasedOnSize`,
  `filterAndGroupFiles`) lives in `grouper.dfy` (module `Grouper`). Each is a method. The
  loops of `getTotalSize` and `filterAndGroupFiles` are `while` or `for` loops with
  invariants. The loop of `splitBasedOnSize` is in `CutRuns`, and its sort in `SortByKey`.
  `AddFileNameToMapping` has no loop. The records of the core are the datatypes
  `PathDetails` (a path and its size) and `NameBasedGroup` (the indices of the duplicate
  files and their total size), defined at dups/Source.cpp:49-59. The bucket map is a
  `map<string, seq<nat>>`. The two `std::sort` calls are modelled in `sorting.dfy` (module
  `Sorting`) as a sort on sequences whose contract is "a permutation, ordered by the key".

Modelling decisions:
- Strings are `seq<char>`. A file's base name is the part of its path after the last `/`.
- Sizes are unbounded `nat`.
- A map passed by reference and filled in place (`fnMapping`) is modelled as a map value.
  The method returns the updated value.
- The iteration over the `unordered_map` picks an arbitrary unvisited key on each turn. So
  the results hold for every iteration order.

## Model

| member | source | states |
|---|---|---|
| Glob.FindFrom | dups/Source.cpp:70 | `std::string::find`: the result is an occurrence at or after the start position, and no occurrence comes earlier; `None` exactly when there is no occurrence there |
| Glob.FindFromCons | dups/Source.cpp:70 | searching behind one leading character finds what searching the rest finds, one position later |
| Glob.StringReplace | dups/Source.cpp:68-75 | reports `true` iff `from` occurs. On `false` the string is unchanged. On `true` exactly the first occurrence is replaced by `to`. The new length is computed accordingly |
| Glob.DoubleFirstBackslashOnly | dups/Source.cpp:113-117 | for any `x` without a backslash and any `y`, `x\y` becomes `x\\y`: only the first backslash is doubled, and later ones in `y` are left alone |
| Glob.BackslashReplaceCons | dups/Source.cpp:68-75 | a leading character other than a backslash is never touched by the doubling |
| Glob.EscapeSetOperations | dups/Source.cpp:158-164 | a body without `&`, `~`, `\|` is unchanged, and escaping never shortens the text |
| Glob.SetOperationEscapeLeading | dups/Source.cpp:163 | the replacement text `\\\1` is four characters and starts with a backslash |
| Glob.EscapeSetOperationsAppend | dups/Source.cpp:158-164 | the escaping works character by character, so it distributes over concatenation |
| Glob.ClassMembersCons | dups/Source.cpp:113-117 | a leading backslash is doubled and the rest only escaped; otherwise the first character is escaped alone and the rest treated as a body of its own |
| Glob.ClassTextLeading | dups/Source.cpp:165-170 | a leading `!` becomes `^`; a leading `^` or `[` gets the two-backslash prefix; any other leading character is left to the escaping |
| Glob.ClassStart | dups/Source.cpp:96-102 | the search for `]` starts at or after the body start, within the pattern |
| Glob.FindClose | dups/Source.cpp:104-105 | the result is a `]` at or after the start position, and it is the first one |
| Glob.TokenAt | dups/Source.cpp:82-199 | each turn of the scanner consumes at least one character and stays within the pattern, so the loop terminates |
| Glob.BracketToken | dups/Source.cpp:94-173 | the token opened by a `[` ends at or after the start of its body and within the pattern |
| Glob.ClassEndBody | dups/Source.cpp:96-111 | a terminated class has a valid body: non-empty, not the lone `!`, and holding `]` only as its first member |
| Glob.TokenAtSpells | dups/Source.cpp:82-199 | one token spells exactly the characters the scanner consumed for it, and a class token has a valid body |
| Glob.LexSpells | dups/Source.cpp:82-85 | the tokens spell the pattern again: every character is consumed exactly once, in order |
| Glob.SpellCons | dups/Source.cpp:82-85 | a token sequence spells the characters of its first token, then those of the rest |
| Glob.LexSpellsStep | dups/Source.cpp:82-85 | if the tokens after the first spell the rest of the pattern, then all the tokens spell the pattern from the first token on |
| Glob.LexClassBodies | dups/Source.cpp:98-105 | no class the scanner finds has an empty or invalid body |
| Glob.LiteralText | dups/Source.cpp:176-197 | a special character gets a backslash in front; every other character is copied unchanged |
| Glob.Translate | dups/Source.cpp:77-201 | the result is `((` + the concatenated token translations + `)\|[\r\n])$` |
| Glob.RenderCons | dups/Source.cpp:82-199 | the translation of a token sequence is the text of its first token followed by the translation of the rest |
| Glob.RenderStep | dups/Source.cpp:82-199 | the loop invariant of `translate` survives one more token: the text so far plus the translation of the remaining tokens is still the whole translation |
| Glob.TranslateToken | dups/Source.cpp:84-198 | one turn of the loop appends the translation of the token at `i` and resumes right after it |
| Glob.TranslateBracket | dups/Source.cpp:94-173 | the `[` branch emits the text of the `[` token and resumes after it: `\[` and the next character when no `]` closes it, and otherwise the class text in brackets and the position after the `]` |
| Glob.TranslateClassBody | dups/Source.cpp:113-172 | the edits of a class body without `--` yield `[`, then the class text, then `]` |
| Glob.LexFromStep | dups/Source.cpp:82-85 | the scanner reads one token, then continues from the position after it |
| Glob.ClassStartShift | dups/Source.cpp:96-102 | where the class search starts does not depend on the text before the class |
| Glob.FindCloseShift | dups/Source.cpp:104-105 | finding the closing `]` does not depend on the text before the search |
| Glob.ClassEndShift | dups/Source.cpp:96-105 | the end of a class does not depend on the text before it |
| Glob.TokenAtShift | dups/Source.cpp:82-199 | the token read at a position does not depend on the text before it |
| Glob.BracketTokenShift | dups/Source.cpp:96-105 | the token opened by a `[` does not depend on the text before it |
| Glob.LexShift | dups/Source.cpp:82-199 | the scanner reads the rest of a pattern the same way whatever came before |
| Glob.LexClass | dups/Source.cpp:94-172 | `[` + a valid body + `]` is read as one class token, and scanning resumes after the `]` |
| Glob.LexOpenBracket | dups/Source.cpp:94-110 | a `[` with no closing `]` after it is an unterminated bracket, and scanning resumes at the very next character; with a closing `]` it opens a class, and the text after the `[` is a valid body, then `]`, then a rest |
| Glob.LexCharacter | dups/Source.cpp:86-93 | any character but `[` is a token by itself |
| Glob.TranslateClass | dups/Source.cpp:111-172 | a terminated class without `--` becomes `[` + class text + `]`, and the rest of the pattern is translated independently |
| Glob.TranslateOpenBracket | dups/Source.cpp:107-110 | an unterminated `[` becomes `\[`, and the rest is translated as if the `[` were absent |
| Glob.TranslateCharacter | dups/Source.cpp:86-93 | `*` becomes `.*`, `?` becomes `.`, and any other character except `[` becomes its literal translation |
| Glob.TranslateWithoutClasses | dups/Source.cpp:82-199 | a pattern without `]` is translated character by character |
| Glob.PlainClassMembers | dups/Source.cpp:113-164 | a body without backslashes and set operations is kept as it is |
| Glob.NoDoubleHyphen | dups/Source.cpp:114 | a body without two adjacent hyphens takes the branch without set difference |
| Glob.AlphanumericLiteral | dups/Source.cpp:193-196 | letters and digits are copied unescaped |
| Glob.AlphanumericPerCharacter | dups/Source.cpp:193-196 | a string of letters and digits is copied character by character, unchanged |
| Glob.AlphanumericBody | dups/Source.cpp:193-196 | a single letter or digit translates to itself |
| Glob.PerCharacterCons | dups/Source.cpp:82-85 | character by character, `c` then a rest translates to the text of `c` followed by the translation of the rest |
| Glob.SpecialSimpleText | dups/Source.cpp:182-194 | a special character other than `*`, `?` and the brackets, such as the dot, gets one backslash in front |
| Glob.SpecialThenLettersPerCharacter | dups/Source.cpp:86-196 | character by character, `*`, then an escaped character `c`, then lowercase letters become `.*`, then `\c`, then the letters |
| Glob.TranslateUnterminatedExample | dups/Source.cpp:107-110 | for lowercase letters `a` and `b`, `a[b` translates to `a\[b` |
| Glob.TranslateWildcardExample | dups/Source.cpp:86-89 | `*`, then a special character `c` other than `*`, `?` and the brackets, then lowercase letters, as in `*.txt`, translates to `.*`, then `\c`, then the letters, as in `.*\.txt` |
| Glob.NegatedPlainClass | dups/Source.cpp:167-168 | the body `!` + plain members becomes `^` + the same members |
| Glob.NegatedBodyValid | dups/Source.cpp:96-114 | `!` followed by non-empty members without `]` or `--` is a valid class body without set difference |
| Glob.TranslateNegatedClass | dups/Source.cpp:94-172 | a class `[!m]` over plain members becomes `[^m]`, and the rest is translated independently |
| Glob.TranslateNegatedRangeExample | dups/Source.cpp:94-172 | for lowercase letters `a`, `c` and `x`, `[!a-c]x` translates to `[^a-c]x` |
| Sorting.InsertAt | dups/Source.cpp:480-484 | inserting an element after all elements with a key no larger keeps the order |
| Sorting.Insert | dups/Source.cpp:480-484 | inserting into an ordered sequence adds exactly that element and keeps the order |
| Sorting.SortByKey | dups/Source.cpp:480-484 | `std::sort`, here and at lines 542-546: the result is a permutation of the input, ordered by the key |
| Sorting.PermutationMember | dups/Source.cpp:542-546 | a permutation holds only elements of the original |
| Sorting.RepeatCount | dups/Source.cpp:542-546 | an element found at two positions is counted at least twice |
| Sorting.DistinctCount | dups/Source.cpp:542-546 | in a sequence without repetition each element counts at most once |
| Sorting.DistinctPermutation | dups/Source.cpp:542-546 | a permutation of a sequence without repetition has no repetition |
| Grouper.FileName | dups/Source.cpp:455 | `path.filename()`: everything after the last `/` of the path, so never longer than the path and free of `/` |
| Grouper.FileNameIsLastComponent | dups/Source.cpp:455-456 | the base name is a suffix of the path that contains no `/`, and it is the whole path or follows a `/` |
| Grouper.FileNameWithoutSlash | dups/Source.cpp:455-456 | a path without `/` is its own base name |
| Grouper.AddFileNameToMapping | dups/Source.cpp:453-463 | the index is appended to the end of the bucket for the file's base name. The bucket is created first if missing. No other bucket changes, and no other key is added |
| Grouper.GrowBucket | dups/Source.cpp:453-463 | appending file `n` to a bucket of earlier files with its base name keeps the bucket strictly ascending and of that one name |
| Grouper.BucketsStep | dups/Source.cpp:509-513 | adding file `n` to buckets for files `0..n-1` gives buckets for files `0..n` |
| Grouper.MapFileNames | dups/Source.cpp:507-513 | after the loop the buckets partition the file indices by base name; each bucket is non-empty and strictly ascending |
| Grouper.GetTotalSize | dups/Source.cpp:466-474 | the total is the sum of the sizes of the indexed files |
| Grouper.SumUniform | dups/Source.cpp:466-474 | files of one size `s` sum to `s` times their number |
| Grouper.FlattenAppend | dups/Source.cpp:488-500 | appending a run appends its entries to the concatenation |
| Grouper.ExtendRuns | dups/Source.cpp:494-495 | adding a uniform run of a larger size keeps the runs strictly increasing |
| Grouper.UniformSlice | dups/Source.cpp:488-495 | entries from `cStart` up to `idx` with the size of `cStart` form a non-empty uniform run |
| Grouper.SortedNeighbours | dups/Source.cpp:480-484 | input sorted by size has each entry at least as large as the one before it |
| Grouper.CutClose | dups/Source.cpp:490-495 | an entry of another size closes the current run: the runs so far are still the entries before the new run, cut into non-empty one-size runs of strictly increasing size |
| Grouper.CutExtend | dups/Source.cpp:490-491 | an entry of the current run's size extends that run |
| Grouper.CutFinish | dups/Source.cpp:497 | after the loop, adding the last run gives runs whose concatenation is the sorted input; they are non-empty one-size runs of increasing size for non-empty input, and one empty run for empty input |
| Grouper.CutRuns | dups/Source.cpp:487-497 | the runs, concatenated, are the sorted entries. For non-empty input they are non-empty runs of one size each, with strictly increasing sizes. For empty input the result is one empty run |
| Grouper.SplitBasedOnSize | dups/Source.cpp:478-501 | the splits, concatenated, are a permutation of the input sorted by size. For non-empty input every split is non-empty and of one size, with strictly increasing sizes. For empty input the result is one empty split |
| Grouper.FlattenMember | dups/Source.cpp:488-500 | an entry is in the concatenation iff it is in some run |
| Grouper.FlattenContains | dups/Source.cpp:488-500 | every run's entries are contained in the concatenation |
| Grouper.InSameGroupAppend | dups/Source.cpp:518-540 | adding groups keeps files that shared a group together |
| Grouper.GroupOfRun | dups/Source.cpp:529-536 | a run of at least two entries gives a well-formed group. Its members are from the bucket, and it holds exactly the run's files |
| Grouper.EarlierRunsSmaller | dups/Source.cpp:488-500 | every entry of the earlier runs is smaller than every entry of a later run |
| Grouper.RunsInRange | dups/Source.cpp:523-533 | runs built from the bucket refer only to existing files |
| Grouper.BucketRunsPrefix | dups/Source.cpp:529-538 | the facts about a bucket's runs hold for all its runs but the last as well |
| Grouper.RunGroupsSound | dups/Source.cpp:527-538 | the groups of a bucket's runs are well-formed, come from the bucket and are pairwise disjoint. Any two distinct same-size entries of the runs share a group |
| Grouper.RunGroupsStep | dups/Source.cpp:529-538 | the group of the last run keeps the groups of the earlier runs sound: well-formed, drawn from the bucket, disjoint, and covering every same-size pair of entries |
| Grouper.StepWellFormed | dups/Source.cpp:529-536 | adding the group of the last run keeps every group well-formed and drawn from the bucket and the entries |
| Grouper.StepDisjoint | dups/Source.cpp:527-538 | the group of the last run shares no file with the groups of the earlier runs |
| Grouper.StepCover | dups/Source.cpp:527-538 | any two distinct same-size files with entries in the runs share a group once the last run's group is added |
| Grouper.RunsOfBucket | dups/Source.cpp:523-527 | the runs cut from a bucket are faithful to the files and have distinct entries, and every file of the bucket appears in them |
| Grouper.GroupBucket | dups/Source.cpp:520-539 | one bucket yields well-formed groups of its files, pairwise disjoint. Any two distinct same-size files of the bucket share a group |
| Grouper.CollectGroups | dups/Source.cpp:527-538 | the groups of a bucket are, in run order, one group per run of more than one entry, holding the run's indices and their total size |
| Grouper.PairSizes | dups/Source.cpp:523-525 | the entries pair each bucket index with its file's size, in bucket order |
| Grouper.RunIndices | dups/Source.cpp:531-533 | the index vector lists the indices of the run's entries, in order |
| Grouper.DisjointDistinct | dups/Source.cpp:542-546 | well-formed disjoint groups are pairwise different |
| Grouper.GroupingPermutation | dups/Source.cpp:542-546 | reordering the groups keeps them well-formed, disjoint and complete |
| Grouper.InBucket | dups/Source.cpp:509-513 | every index in a name's bucket is a file with that name |
| Grouper.AddBucketGroups | dups/Source.cpp:518-540 | one turn of the bucket loop keeps the groups found so far well-formed and disjoint, and makes them complete for the names visited |
| Grouper.FilterAndGroupFiles | dups/Source.cpp:504-551 | every group has at least two distinct files, all with the same base name and size, and carries their total size. No file is in two groups. Any two files with the same base name and size share a group. Groups are ordered by non-increasing total size |
| Grouper.GroupsAreClasses | dups/Source.cpp:504-551 | each group is exactly the set of files with the same base name and size as any one of its members |
| Grouper.OnlyPair | dups/Source.cpp:504-551 | when exactly one pair of files shares base name and size, the grouping is that pair alone, with twice the size as its total |
| Grouper.SecondGroupLacks | dups/Source.cpp:518-540 | of disjoint groups, a file of the first group is not in the second |
| Grouper.PairTotal | dups/Source.cpp:466-474 | a group of exactly `a` and `b`, which have one size, totals twice that size |
| Grouper.PairGroup | dups/Source.cpp:529-536 | a well-formed group where only `a` and `b` share base name and size is that pair |
| Grouper.ExampleNames | dups/Source.cpp:455-456 | the base names of the example records are their paths: `a.txt` three times, then `b.txt` and `c.txt` |
| Grouper.ExampleKeys | dups/Source.cpp:504-551 | of the example records, files 0 and 1 share base name and size, and no other pair does |
| Grouper.GroupingExample | dups/Source.cpp:504-551 | for `a.txt` 10, `a.txt` 10, `a.txt` 20, `b.txt` 10 and `c.txt` 10, the only group is the first two files, with total size 20 |
| Grouper.ZeroByteExample | dups/Source.cpp:504-551 | two empty files with the same name form the only group, of total size 0 |

## Left out

- The set-difference branch of `translate` (dups/Source.cpp:118-156) is left out, so `Translate` requires that no class body contain `--`. That branch calls `find` with a count that reads past its one-character needle, which is undefined behaviour. It also accumulates into a string it never clears. Its output has no meaningful specification.
- EscapeSetOperations: models the `std::regex_replace` call (dups/Source.cpp:159-164) as replacing each `&`, `~` and `|` by the format text `\\\1` taken as written, and keeping every other character. That is what the ECMAScript format rules emit, since only `$` is special there. The regular-expression engine itself is not modelled. The length bound of `EscapeSetOperations` relies on the replacement being non-empty, and `ClassTextLeading` relies on its starting with a backslash (`SetOperationEscapeLeading`).
- Matching against the translated expression (`compile_pattern`, `fnmatch_case`, `filter`, dups/Source.cpp:203-239) is left out. It is a thin wrapper over `std::regex`, whose semantics are not part of this model.
- Directory traversal and file sizes (dups/Source.cpp:354-450) are left out, as I/O. The file list is a parameter.
- The timing with `high_resolution_clock` in `filterAndGroupFiles` (dups/Source.cpp:506, 548-549) is left out. It only measures time, and the `timeMilliSec` out-parameter is not modelled.
- Command-line parsing, console output and `toMB` are left out, as I/O and floating point.
- Content hashing is left out: it does not exist in the source, whose hash type aliases are unused.
- GetTotalSize: does not model the wrap-around of the 64-bit `uint64_t` sum, because sizes are unbounded naturals.
- SortByKey: the result is permuted and sorted but not reordered in place, and no order is promised among elements with equal keys, because `std::sort` is not stable.
- FilterAndGroupFiles: promises nothing about the order of two groups with equal total size, nor about which order the buckets are visited in, because the source leaves both unspecified (`unordered_map` order and an unstable sort).
- FileName: handles only `/` as a path separator and gives the empty name for a path ending in `/`. Root names and other platform rules of `std::filesystem::path::filename` are not modelled.
- ClassText: when the escaped class text is empty, the source reads its terminating NUL at index 0. A class body is never empty (`LexClassBodies`), so the model tests for emptiness and the case never arises.
- The loop bodies of `translate` and `filterAndGroupFiles` are separate methods here (`TranslateToken`, `TranslateBracket`, `TranslateClassBody`, `GroupBucket`, `CollectGroups`, `PairSizes`, `RunIndices`), and so is the loop of `splitBasedOnSize` (`CutRuns`). The loops themselves remain loops.

# Course catalogue planner, modelled in Dafny

The program reads a course catalogue file. Each line holds a course number, a course title and
any number of prerequisite course numbers, separated by commas. It keeps the courses in a hash
table keyed by the normalised course number: surrounding whitespace removed, ASCII letters
upper-cased. It can then print the whole catalogue in alphabetical order of course number, or
look up one course with its prerequisites.

This project models the core of `Main.cpp`:

- `trimLine` and `checkCaseSensitve` (module `Normalize`, file `normalize.dfy`);
- the `<`/`>` ordering of `std::string` that the sort uses (module `StringOrder`);
- the `Course` record and the table that `main` passes by reference (module `Courses`);
- `loadCourses` with its `getline(ss, token, ',')` splitting (module `Loader`);
- `abcSort` and `printAllCourses` (module `Listing`);
- `findCourse` (module `Lookup`).

Each imperative function of the source is a method proved against a specification function.

- `TrimLine` equals `Trim`.
- `CheckCaseSensitive` equals `Key`.
- `SplitTokens` equals `Tokens`.
- `LoadCourses` equals `LoadAll`.
- `AbcSort` sorts its array in place, keeps a permutation, and is stable.
- `PrintAllCourses` equals `CourseLines(Catalogue(..))`.
- `FindCourse` equals `Lookup`.

The lemmas then state what those functions promise:

- trimming is idempotent and unique;
- keys match exactly when the trimmed texts agree up to ASCII case;
- splitting and joining on commas are inverse: joining the pieces gives back the line less a final comma, and splitting the join of comma-free pieces whose last piece is not empty gives those pieces back;
- a line is accepted exactly when it has a comma before its last character;
- on a reload, the last line wins;
- the listing is independent of the hash map's iteration order;
- the lookup has three outcomes.

Other modelling choices:

- Text printed with `cout` becomes the returned lines, one string per output line.
- The data file becomes a flag saying whether it opened, plus the sequence of its lines.
- The hash map's iteration order becomes a parameter: any sequence holding each key once.

## Model

| member | source | states |
|---|---|---|
| Normalize.TrimLine | Main.cpp:22-41 | the two loops return exactly `Trim(line)`: the leading whitespace run is dropped, then the trailing one |
| Normalize.TrimLeftStep | Main.cpp:28-31 | skipping one leading whitespace character does not change what the left trim leaves |
| Normalize.TrimLeftStops | Main.cpp:28-40 | where the first loop stops, trimming the rest on the right gives the whole trim |
| Normalize.TrimRightStep | Main.cpp:34-37 | dropping one trailing whitespace character does not change what the right trim leaves |
| Normalize.TrimLeftIsSuffix | Main.cpp:28-31 | the left trim is a suffix of the input, everything before it is whitespace, and it does not start with whitespace |
| Normalize.TrimRightIsPrefix | Main.cpp:34-37 | the right trim is a prefix of the input, everything after it is whitespace, and it does not end with whitespace |
| Normalize.TrimIsInfix | Main.cpp:22-41 | the trimmed text is a contiguous piece of the input with whitespace on both sides of it, and neither of its ends is whitespace |
| Normalize.TrimLeftSkips | Main.cpp:28-31 | a whitespace prefix before text that does not start with whitespace is exactly what is removed |
| Normalize.TrimRightSkips | Main.cpp:34-37 | a whitespace suffix after text that does not end with whitespace is exactly what is removed |
| Normalize.TrimUnique | Main.cpp:22-41 | any split of a string into whitespace, a piece with non-whitespace ends, and whitespace trims to that piece |
| Normalize.TrimIdempotent | Main.cpp:22-41 | trimming a trimmed string changes nothing |
| Normalize.TrimIgnoresSurroundingSpace | Main.cpp:22-41 | whitespace added on either side does not change the trimmed text |
| Normalize.CheckCaseSensitive | Main.cpp:44-56 | the in-place `toupper` pass over the trimmed copy returns exactly `Key(line)` |
| Normalize.UpperShape | Main.cpp:50-53 | upper-casing keeps the length, maps each character by `toupper` on its own, leaves no lower-case letter, keeps whitespace where it was, and differs from the input only in letter case |
| Normalize.KeyShape | Main.cpp:44-56 | the key has the trimmed text's length, differs from it only in letter case, and holds no lower-case letter |
| Normalize.UpperIdempotent | Main.cpp:50-53 | upper-casing twice is upper-casing once |
| Normalize.KeyIdempotent | Main.cpp:44-56 | normalising a key gives the same key, so a stored key is found again |
| Normalize.KeyEqualIff | Main.cpp:44-56 | two strings have the same key if and only if their trimmed texts are equal up to ASCII letter case |
| Normalize.KeyIgnoresSurroundingSpace | Main.cpp:44-56 | whitespace on either side does not change the key |
| Normalize.KeyExample | Main.cpp:44-56 | `cs101` and `  Cs101 ` get the same key |
| StringOrder.LessIrreflexive | Main.cpp:197 | no course number is greater than itself |
| StringOrder.LessAsymmetric | Main.cpp:197 | two strings are never each less than the other |
| StringOrder.LessTransitive | Main.cpp:197 | the comparison the sort uses is transitive |
| StringOrder.LessTotal | Main.cpp:197 | any two different strings are ordered one way or the other |
| StringOrder.LessIffFirstDifference | Main.cpp:197 | `s < t` holds if and only if `s` is a proper prefix of `t` or the first differing character is smaller in `s` |
| StringOrder.LessExample | Main.cpp:197 | `CS101 < CS201`, `CS < CS101`, and lower-case `cs101` is not less than `CS101` |
| Courses.CourseTable.constructor | Main.cpp:138 | a new table holds no entries, as the table stands after `courseTable.clear()` |
| Courses.WellKeyedNumbersDistinct | Main.cpp:179 | in a table keyed by normalised numbers, two different keys hold courses with different numbers |
| Loader.FirstComma | Main.cpp:154 | the position found is within the line and holds a comma when it is not the end |
| Loader.FirstCommaIsFirst | Main.cpp:154 | no comma stands before that position |
| Loader.ScanToComma | Main.cpp:154 | the scan for the delimiter stops at the first comma, or at the end when there is none |
| Loader.TokensStep | Main.cpp:154-158 | one `getline` call yields the trimmed text up to the first comma and moves past it, so the rest is shorter |
| Loader.SplitTokens | Main.cpp:154-158 | the token loop builds exactly `Tokens(line)`: every comma-separated piece, trimmed, in order |
| Loader.PiecesHaveNoComma | Main.cpp:154 | no piece holds a comma |
| Loader.PiecesJoinBack | Main.cpp:154 | joining the pieces with commas gives back the line, less a final comma |
| Loader.PiecesJoin | Main.cpp:154 | no piece holds a comma, and joining the pieces gives back the line, less a final comma |
| Loader.FirstCommaOfNoComma | Main.cpp:154 | in a string without a comma the delimiter scan runs to the end |
| Loader.FirstCommaAfter | Main.cpp:154 | after a comma-free first part, the delimiter scan stops at the comma that follows it |
| Loader.PiecesOfJoin | Main.cpp:154 | the converse: splitting the join of comma-free pieces, the last one not empty, gives exactly those pieces back |
| Loader.PiecesAtLeastTwo | Main.cpp:154-164 | a line has at least two pieces if and only if a comma stands before its last character |
| Loader.LineAcceptance | Main.cpp:147-175 | a line yields a course if and only if it has a comma before its last character; the course then has trimmed piece 0 as number, trimmed piece 1 as title, and the rest trimmed as prerequisites, in order |
| Loader.LineExamples | Main.cpp:147-175 | `,x` is accepted with an empty number and title `x`; `CS101,` is skipped |
| Loader.LoadCourses | Main.cpp:124-185 | an unopened file returns false and leaves the table unchanged; otherwise the table is cleared, becomes `LoadAll(lines)`, and the call returns true |
| Loader.CopyPrerequisites | Main.cpp:172-175 | the prerequisites are every token after the number and the title, in order |
| Loader.LoadAllStep | Main.cpp:141-180 | one more line leaves the table as it was, or stores that line's course under its key |
| Loader.BuildKeys | Main.cpp:138-180 | a key is in the table if and only if some stored entry used it |
| Loader.BuildLastWins | Main.cpp:179 | the course under a key is the one of the last entry stored under it |
| Loader.BuildWellKeyed | Main.cpp:179 | when each entry is stored under the key of its own number, the whole table is |
| Loader.BuildSize | Main.cpp:138-180 | the table has at most as many entries as stores, and exactly as many when no key repeats |
| Loader.KeyedAtLine | Main.cpp:147-179 | entry `i` stores under `k` if and only if line `i` yields a course whose key is `k` |
| Loader.LoadAllWellKeyed | Main.cpp:124-185 | after a load, every key is the normalised number of the course stored under it |
| Loader.LoadAllKeys | Main.cpp:124-185 | a key is in the loaded table if and only if some line yields a course with that key |
| Loader.LastWriteWins | Main.cpp:179 | the loaded entry under a key is the course of the last line with that key |
| Loader.LoadAllSize | Main.cpp:124-185 | the table has at most one entry per accepted line, and exactly one per accepted line when their keys are pairwise different |
| Listing.InOrderReflexive | Main.cpp:197 | a course may stand before itself |
| Listing.InOrderTransitive | Main.cpp:197 | the order the sort leaves courses in is transitive |
| Listing.InOrderAntisymmetric | Main.cpp:197 | two courses in order both ways have the same number |
| Listing.WithNumAppend | Main.cpp:188-203 | the run of a number in a concatenation is the two runs concatenated |
| Listing.PairRuns | Main.cpp:197-199 | two courses with different numbers contribute the same runs in either order |
| Listing.SwapKeepsRuns | Main.cpp:197-199 | exchanging neighbours with different numbers keeps the run of every number |
| Listing.WithNumEmpty | Main.cpp:188-203 | a number has an empty run if and only if no course has it |
| Listing.DistinctNumsShortRuns | Main.cpp:188-203 | with distinct numbers, every run has at most one course |
| Listing.ShortRunsDistinctNums | Main.cpp:188-203 | if every run has at most one course, the numbers are distinct |
| Listing.DistinctNumsIffShortRuns | Main.cpp:188-203 | numbers are distinct if and only if every run has at most one course |
| Listing.BubbleStep | Main.cpp:194-200 | a compare-and-exchange step moves a greatest course one place right, keeping the sorted tail, the courses and the runs |
| Listing.Swap | Main.cpp:199 | exchanges positions `j` and `j + 1` and nothing else |
| Listing.BubblePass | Main.cpp:194-201 | one inner pass over `..b` grows the sorted tail by one position and keeps the courses and runs |
| Listing.AbcSort | Main.cpp:188-203 | the array ends sorted by course number, a permutation of the input, keeping the relative order of courses with equal numbers |
| Listing.EmptyVectorIsReadPastItsEnd | Main.cpp:191-197 | as written, an empty vector enters both loops with `i == j == 0` because `size() - 1` wraps to 2^64 - 1, so `courses[0]` is read |
| Listing.AsWrittenBoundsAgreeWhenNonEmpty | Main.cpp:191-194 | for a non-empty vector, the wrapping bounds as written are the bounds `AbcSort` uses |
| Listing.FirstExists | Main.cpp:188-203 | every non-empty set of courses has a course that may stand before all the others |
| Listing.SortedOf | Main.cpp:206-218 | the sorted listing of a set holds exactly its courses, each once, in order |
| Listing.SortedUnique | Main.cpp:206-218 | two sorted sequences with the same courses, each once, and distinct numbers are equal |
| Listing.HeadsAgree | Main.cpp:206-218 | two such sequences start with the same course |
| Listing.TailsAgree | Main.cpp:206-218 | with equal first courses, the rests hold the same courses |
| Listing.DistinctEntriesOrdered | Main.cpp:179 | two different courses of a normalised-key table that are in order have strictly increasing numbers |
| Listing.CatalogueFromTable | Main.cpp:212-215 | every listed course is an entry of the table |
| Listing.CatalogueCoversTable | Main.cpp:212-215 | every entry of the table is listed |
| Listing.CatalogueIncreasing | Main.cpp:218 | the listing of a normalised-key table is strictly increasing by course number |
| Listing.CatalogueContents | Main.cpp:206-225 | the listing holds each entry exactly once and nothing else, in strictly increasing order of number |
| Listing.PrintAllCourses | Main.cpp:206-225 | prints one line per entry; for a normalised-key table the lines are `number, title` of the catalogue, whatever the hash map's iteration order |
| Listing.SortedListingIsCatalogue | Main.cpp:209-218 | whatever the iteration order, any sorted, stable permutation of the copied vector is the catalogue |
| Lookup.FindCourse | Main.cpp:59-121 | prints exactly `Lookup(table, courseNum)`; the table is only read |
| Lookup.PrereqLine | Main.cpp:85-110 | the prerequisite loop prints exactly `PrereqText`: the items in order, with `", "` before all but the first |
| Lookup.PrereqItem | Main.cpp:88-107 | one prerequisite prints as the stored `number (title)` when its key is in the table, otherwise as written followed by `(Unknown)` |
| Lookup.PrereqTextStep | Main.cpp:91-109 | the line so far, a separator when it is not the first item, and the next item form the line for one more prerequisite |
| Lookup.PrereqTextEndsWithParen | Main.cpp:98-107 | a non-empty prerequisite list prints text ending in `)` |
| Lookup.LookupOutcomes | Main.cpp:59-121 | the course is missing if and only if the only line is `Course does not exist.`; a found course prints two lines, `number, title` first, and the second line is `Prerequisites: None` if and only if it has no prerequisites |
| Lookup.LookupIgnoresCase | Main.cpp:62-65 | queries whose trimmed texts differ only in ASCII letter case print the same lines |
| Lookup.LookupAfterLoad | Main.cpp:59-72 | after a load, a query prints the number and title from the last accepted line with its key |
| Lookup.LookupAfterLoadMissing | Main.cpp:116-120 | after a load, a query whose key no accepted line has prints `Course does not exist.` |
| Lookup.LookupSinglePrereq | Main.cpp:83-107 | a course with one prerequisite prints `Prerequisites: ` and that item alone, resolved or marked `(Unknown)` |

## Left out

- `main` and `getValidInput` (the menu, reading `cin`, the loop that repeats) are not part of this model.
- File I/O is left out. Opening the file becomes the `fileOpened` parameter, and `getline` over the file becomes the `lines` sequence.
- The `Failed to open course data file.` message is left out. The model returns `false` and leaves the table unchanged.
- Output through `cout` becomes returned lines.
- In `findCourse`, the prerequisite line is printed piece by piece and ended with `endl`. The model returns it as one string.
- The C locale is assumed for `isspace` (space and codes 9 to 13) and for `toupper` (only `a` to `z`). Other locales are not modelled.
- The hash map's iteration order is not modelled. `PrintAllCourses` takes it as the `order` parameter.
- An empty course number or title is not rejected: `loadCourses` only requires two tokens (Main.cpp:161), so `,x` is accepted with an empty number. The model follows the code.
- The bytes of a C++ `std::string` become Dafny characters. For this core nothing is lost: in the C locale only ASCII characters are whitespace or change case, a `,` byte never occurs inside a multi-byte UTF-8 sequence, and UTF-8 byte order equals code-point order, so `operator>` agrees with `StringOrder.Less`.
- Listing.PrintAllCourses: the copied table is a Dafny `map` value, and the vector is an `array` built from it. For a table whose keys are not the normalised numbers of their courses, only the number of lines is stated. `loadCourses` never builds such a table.
- Normalize.KeyExample: states that the two spellings share a key, not the literal value of that key.
- Loader.LoadCourses: the prerequisite loop is split out as the method `CopyPrerequisites`.
- Lookup.FindCourse: the prerequisite loop and its body are split out as the methods `PrereqLine` and `PrereqItem`.
- Listing.AbcSort: the inner loop and the swap are split out as the methods `BubblePass` and `Swap`.
- Listing.AbcSort: the corrected loops count on unbounded integers, and the `int` loop counters of the source are not modelled. The wrap-around of the `size_t` bounds is modelled by `SizeSub` and the lemmas about it.

## Findings

| source | as written | input that shows it | evidently intended | confidence | as-written member | corrected member |
|---|---|---|---|---|---|---|
| Main.cpp:191 | `i < courses.size() - 1` compares against `size() - 1` on `size_t`, which wraps to 2^64 - 1 for an empty vector, so both loops are entered and `courses[0]` and `courses[1]` are read past the end | `printAllCourses` reached with an empty table: menu option 2 loads the file first when the table is empty (Main.cpp:302-309), so this happens when that load leaves the table empty, because the file holds no accepted line or no longer opens | an empty vector is left alone, since it is already sorted | not executed | Listing.EmptyVectorIsReadPastItsEnd | Listing.AbcSort |

# Approximate symbol matching: edit distance and symbol extraction

The system looks for symbol names close to a query inside shared libraries.
For each library it runs a symbol-dump tool, takes the last field of each
output line as the symbol name, and scores that name against the query by
Levenshtein distance. This project models the two pieces of that pipeline
that do no I/O in Dafny and proves properties about them:

- **The edit-distance engine.** `lev_minimum` and `lev_string_dist` exist in
  two copies. `src/levenshtein.c` uses C `int` rows. `includes/levenshtein.h`
  uses `unsigned int` rows and is the copy the test program includes.
  - Both fill a two-row dynamic-programming table. The rows are heap arrays
    that swap after each row. Each new cell is the cheapest of substitution,
    deletion and insertion.
  - Module `EditDistance` holds the reference definition (`PrefixDist`,
    `EditDist`), its properties, and `TwoRowResult`, the value the code
    really returns.
  - Modules `LevenshteinC` and `LevenshteinH` model the two copies as
    methods over arrays of `Int32` and `UInt32` (module `CTypes`). The
    methods are proved against that reference.
- **Symbol extraction.** `extract_symbol` in `src/parent.c` rewrites a line
  buffer in place. It stops at the last space at index 1 or later, copies
  what follows up to `'\n'` or the terminator to the front, and writes a new
  terminator. Module `Parent` models it as a method on an `array<char>`,
  proved against the function `Extracted`.

C strings are sequences without `'\0'`, and one Dafny `char` stands for one C
`char`, that is, one byte: a multi-byte UTF-8 character in a symbol counts as
several characters in the distance, as it does in the code. Where the code
reads a terminator, the model reads it too: the buffer of `s2` inside
`lev_string_dist` is `s2 + [NUL]`. `NUL` and `CString` live in module `CTypes`.

## Model

| member | source | states |
|---|---|---|
| EditDistance.PrefixDistIsEditDist | src/levenshtein.c:63-92 | cell (i, j) of the table is the edit distance of the prefixes s1[..i] and s2[..j] |
| EditDistance.PrefixDistAgree | src/levenshtein.c:73-86 | a cell depends only on the characters inside its prefixes, so reading s2's terminator past column len(s2) leaves the earlier cells unchanged |
| EditDistance.EditDistEmpty | src/levenshtein.c:63-67 | the first row and column: the distance to or from the empty string is the other length |
| EditDistance.EditDistZeroIff | includes/levenshtein.h:31-39 | the distance is 0 exactly when the two strings are equal |
| EditDistance.EditDistSymmetric | includes/levenshtein.h:31-39 | the distance between two strings does not depend on their order |
| EditDistance.EditDistBounds | includes/levenshtein.h:31-39 | the distance is at most the longer length and at least the length difference |
| EditDistance.PrefixDistUpper | src/levenshtein.c:63-86 | every cell is at most max(i, j), which keeps every `+ 1` below the integer bound |
| EditDistance.PrefixDistLower | src/levenshtein.c:63-86 | every cell is at least abs(i - j) |
| EditDistance.EditDistTriangle | includes/levenshtein.h:31-39 | triangle inequality: d(a, c) <= d(a, b) + d(b, c) |
| EditDistance.PrefixDistTriangle | includes/levenshtein.h:31-39 | the triangle inequality for every triple of prefixes, by induction on i + j + k |
| EditDistance.PrefixDistNextCell | src/levenshtein.c:75-85 | the minimum of the three costs computed from the neighbour cells is the next cell |
| EditDistance.PrefixDistCellBounds | src/levenshtein.c:75-85 | a cell is at most each of its substitution, deletion and insertion candidates |
| EditDistance.PrefixDistCellChoice | src/levenshtein.c:33-42 | a cell equals one of its three candidates |
| EditDistance.TwoRowResult | src/levenshtein.c:44-100 | the returned value: min(len(s1), len(s2)) rows of s1 against max(len(s1), len(s2)) columns of s2's buffer, at most the longer length |
| EditDistance.TwoRowResultIsEditDist | src/levenshtein.c:46-47 | when len(s1) <= len(s2), or s2 is empty, the returned value is the edit distance |
| EditDistance.TwoRowResultOneLonger | src/levenshtein.c:69-79 | when len(s1) == len(s2) + 1, the returned value is the distance of s1 minus its last character to s2 plus its terminator |
| EditDistance.BaAAsWritten | src/levenshtein.c:69-79 | ("ba", "a") returns 2, while the edit distance is 1 |
| EditDistance.ChiensNicheAsWritten | tests/main.c:11-13 | ("chiens", "niche") returns 4, while the edit distance is 5 |
| EditDistance.TestVectors | tests/main.c:7-9 | bob/bib, test/test, ""/ok, ok/"" and ""/"" return the edit distance: 1, 0, 2, 2, 0 |
| EditDistance.BobBib | tests/main.c:7-9 | the table of bob against bib ends in 1 |
| EditDistance.ChiensNicheCodeTable | tests/main.c:11-13 | the table the code fills for chiens/niche (five rows against "niche" and its terminator) ends in 4 |
| EditDistance.ChiensNiche | tests/main.c:11-13 | the full table of chiens against niche ends in 5 |
| CTypes.AddU32 | includes/levenshtein.h:67-74 | unsigned `+` is exact below 2^32 and wraps by 2^32 above it |
| CTypes.ToInt32 | includes/levenshtein.h:86-91 | returning an `unsigned int` as `int` keeps values up to INT_MAX, and otherwise subtracts 2^32 |
| LevenshteinC.LevMinimum | src/levenshtein.c:33-42 | the result is one of the three costs and at most each of them |
| LevenshteinC.LevStringDist | src/levenshtein.c:44-100 | with no out-of-bounds read and no signed overflow, the result is TwoRowResult, and it is the edit distance when len(s1) <= len(s2) or s2 is empty |
| LevenshteinC.FillRow | src/levenshtein.c:71-86 | given row i of the table in line1, line2 ends up holding row i + 1, each cell at most max_size |
| LevenshteinH.LevMinimum | includes/levenshtein.h:19-29 | the result is one of the three costs and at most each of them |
| LevenshteinH.LevStringDist | includes/levenshtein.h:40-92 | the result is TwoRowResult converted to `int`, it equals TwoRowResult when that fits in an `int`, and it is the edit distance when also len(s1) <= len(s2) or s2 is empty |
| LevenshteinH.FillRow | includes/levenshtein.h:63-78 | given row i in line1, line2 ends up holding row i + 1, and no unsigned `+ 1` wraps |
| LevenshteinH.LevStringDistOrdered | includes/levenshtein.h:40-92 | the corrected call, with the shorter string as row string: it returns the edit distance for every pair of C strings up to INT_MAX characters |
| Parent.Strlen | src/parent.c:15 | the index of the first terminator |
| Parent.SpaceScan | src/parent.c:18-19 | the backward scan stops at the largest index in [1, len] holding a space, or at 0 if there is none |
| Parent.ScanBack | src/parent.c:18-19 | the scan loop computes SpaceScan |
| Parent.SpaceScanAt | src/parent.c:18-19 | the converse of SpaceScan: a position holding a space, with no space after it, is where the scan stops |
| Parent.TokenStart | src/parent.c:21 | the symbol starts one past the stop, at index 1 or later and at most one past strlen |
| Parent.TokenEnd | src/parent.c:23 | the copy stops at the first '\n' or terminator at or after its start |
| Parent.TokenEndAt | src/parent.c:23 | the converse of TokenEnd: the first separator at or after k is where the copy stops |
| Parent.ExtractSymbol | src/parent.c:13-26 | on a non-empty line, the buffer becomes Extracted(old buffer): the token, a terminator, and the rest unchanged. The copy keeps len - i == TokenStart >= 1 |
| Parent.ExtractedAt | src/parent.c:23-25 | a buffer holding the token at its front, a terminator after it and the old characters beyond is Extracted |
| Parent.TokenHasNoSeparators | src/parent.c:18-25 | the token holds no space, no '\n' and no terminator |
| Parent.TokenStartIsAfterLastSpace | src/parent.c:18-21 | the token starts at 1 exactly when no space lies at index 1 or later, and otherwise right after the last such space |
| Parent.NoSpaceDropsFirstChar | src/parent.c:18-21 | with no space at index 1 or later, the token begins at index 1, so the first character is dropped |
| Parent.ExtractedShape | src/parent.c:23-25 | the buffer keeps its size, the new string is the token, its terminator sits at index len(token), and it is shorter than the line |
| Parent.StrlenFirst | src/parent.c:15 | the converse of Strlen: a terminator with none before it is where strlen stops |
| Parent.ExtractTwice | src/parent.c:13-26 | extracting the extracted buffer again drops the token's first character, so the operation is not idempotent |
| Parent.DumpLine | src/parent.c:13-26 | the line "0000000000001139 T main\n" gives "main" |
| Parent.SingleCharLine | src/parent.c:18-25 | the line "a\n" gives the empty token: the scan stops at 0 and the copy stops at once on '\n' |

## Left out

- Allocation failure. The `-ENOMEM` returns (src/levenshtein.c:51-61, includes/levenshtein.h:47-53) have no counterpart in Dafny, where `new` cannot fail. The header also leaks `line1` when the second allocation fails. `free` is not modelled either.
- LevenshteinC.LevStringDist and LevenshteinH.LevStringDist require ReadsInBounds: either string is empty or len(s1) <= len(s2) + 1. With a longer first string the inner loop reads `s2` past its terminator, and the result then depends on whatever bytes lie there. For the string literal of the vector at tests/main.c:20-22 ("a very long string" against "short") those reads leave the object, which is undefined behaviour. At the program's own call (src/parent.c:57-58) `s2` is the line buffer after extraction, which still holds the tail of the old line past the new terminator (Parent.Extracted keeps it), so the reads may stay inside the allocation and score leftover bytes. The model gives neither case a value.
- LevenshteinC.LevStringDist requires max_size < INT_MAX, so that `max_size + 1` and every cell fit in an `int`. Signed overflow is undefined in C, so the case is excluded rather than wrapped.
- LevenshteinH.LevStringDist requires max_size < UINT_MAX. Otherwise the `unsigned` counter of the set-up loop (includes/levenshtein.h:55) cannot reach `max_size + 1` and that loop does not end.
- `size_t` is taken as at least as wide as every length involved, and `strlen` is the function Strlen rather than a loop.
- `read_fd` and `run_parent` (src/parent.c:29-113) are not modelled. They do the line reading, the `fdopen`/`dup2`/`waitpid` plumbing and the threshold test on a `double` score. That is I/O and floating point.
- lev_dist_percent and the similarity score are not part of this model. No shown file defines the function.
- src/child.c, src/pipe.c and src/main.c are not modelled. They are process plumbing (`execve` of the dump tool) and argument parsing.
- Parent.ExtractSymbol requires a non-empty line. On an empty one, extract_symbol reads `str[1]`, past the terminator. The caller only passes lines that `getline` returned.
- A line with no space at index 1 or later does not give an empty token as a rule: it yields the text from index 1 up to '\n' or the terminator, which is empty only when a single character comes before it. The model follows the code (NoSpaceDropsFirstChar, SingleCharLine).

## Findings

| source | as written | input that shows it | evidently intended | confidence | as-written member | corrected member |
|---|---|---|---|---|---|---|
| includes/levenshtein.h:61-78 (and src/levenshtein.c:69-86) | the rows walk s1 for min_size characters and the columns walk s2 for max_size, so when s1 is the longer string, the last character of s1 is never used and s2's terminator is compared as a character | ("ba", "a") returns 2 and ("chiens", "niche") returns 4, while the Levenshtein distances are 1 and 5 | the rows should walk the shorter string and the columns the longer one, giving the edit distance for every pair | not executed | EditDistance.ChiensNicheAsWritten | LevenshteinH.LevStringDistOrdered |

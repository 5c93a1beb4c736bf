# smallest-free-number, modelled in Dafny

`smallest-free-number` reads a text file of integers and prints the smallest
non-negative integer that does not occur in it. This project models the two
parts of `smallest-free-number.c` that do the work. It proves them against
pure specifications.

- **The finder** (`FindSmallestNotContained`) runs in phases. First it scans
  once for `min` and `max`, which start at `INT_MAX` and `INT_MIN`. If
  `min > 0` it returns 0 at once; this covers an empty input too. Otherwise it
  zeroes a byte bitmap of `max / 8 + 1` bytes. It sets bit `v % 8` of byte
  `v / 8` for each element `v`. Then it scans the bitmap byte by byte and bit
  by bit for the first zero bit. If it finds none, the answer is `max + 1`.
  Module `Finder` (finder.dfy) models the range scan, the marking pass and
  the bitmap search as the methods `RangeScan`, `MarkBitmap` and
  `ScanBitmap`; the short-circuit is the test inside
  `FindSmallestNotContained`. `RangeScan` is proved to return the minimum
  and maximum. `MarkBitmap` is proved to leave a bitmap that `Marks` the
  input. `ScanBitmap` is proved to return a value meeting `IsSmallestFree`.
  `FindSmallestNotContained` is proved to return the reference function
  `SmallestFree` of its input. Module `Bitmap`
  (bitmap.dfy) holds the byte and bit operations on `bv8`. It also holds the
  predicate `Marks`: bit `8 * index + bit` is set iff that value occurs.
- **The number parser** is the body of `ReadNumbersFile`, over the file's
  text held in memory. It lives in module `NumberParser` (parser.dfy).
  `strtok` splits the text on the delimiters `" ,;|\t\n"` and drops empty
  tokens. `atoi` converts each token: it skips white space, reads an optional
  sign, and then reads the leading digits. The values go into a heap array
  that has 4096 slots at first. The array is `realloc`ed 4096 slots larger
  each time an append fills it. `Tokens`, `Atoi` and `ParsedValues` are the
  specification. `ReadNumbers` is the imperative model.
- **The test-data generator** `make-test-data.c` is context, not core. Module
  `TestData` (testdata.dfy) models the shape of its output. It proves that
  parsing that output and then finding the smallest free number gives back
  the omitted value.

Module `CInt` (cint.dfy) holds the 32-bit `int` bounds.

The finder requires only what keeps the C function defined (`Finder.Supported`):

- Every value must fit an `int`.
- If the bitmap path runs (some value is `<= 0`), every value must lie in
  `[0, INT_MAX)`. C's `/` and `%` truncate toward zero, so a value in
  `-7..-1` makes the C code shift by a negative amount, and a value `<= -8`
  makes it index before the bitmap (or both). `max == INT_MAX` makes
  `max + 1` overflow.

So the short-circuit path still accepts any positive `int`. The model does
not ignore negative values: on the bitmap path the C code is undefined for
them, so `Finder.Supported` excludes them.

`Atoi` skips the white space characters `\v`, `\f` and `\r`, which are
not delimiters, and accepts a `+` or `-` sign, as C's `atoi` does.

The parser requires fewer than `INT_MAX - 4095` tokens: at that count the
`int` capacity `max_elements` would overflow when it grows by 4096.

## Model

| member | source | states |
|---|---|---|
| `Finder.FindSmallestNotContained` | smallest-free-number.c:216-315 | For every supported input, the result does not occur among the first `numElements` elements. Every integer in `[0, r)` occurs. The result equals `SmallestFree` of those elements. When every element is positive, and so when there are none, the result is 0. The method has no `modifies` clause, so it only reads the array. |
| `Finder.RangeScan` | smallest-free-number.c:239-247 | On an empty input `min` stays `INT_MAX` and `max` stays `INT_MIN`. Otherwise both occur in the input. Every element lies between them. |
| `Finder.MarkBitmap` | smallest-free-number.c:260-279 | The bitmap has `max / 8 + 1` bytes, so it covers `0..max` (`8 * length > max`). After the marking pass, bit `8 * index + bit` is set iff that value occurs in the input (`Marks`). |
| `Finder.ScanBitmap` | smallest-free-number.c:291-302 | Given a bitmap that marks exactly the input's values, the first zero bit is the smallest free number. The result is at most `max + 1`. It equals `max + 1` exactly when every value in `0..max` occurs. |
| `Finder.SmallestFreeCorrect` | smallest-free-number.c:216-315 | The reference search `SmallestFree` returns a non-negative value absent from the input, and every smaller non-negative value occurs. It never exceeds the input length (pigeonhole). |
| `Finder.SmallestFreeUnique` | smallest-free-number.c:216-315 | Any value meeting that specification equals `SmallestFree`, so the specification fixes the answer. |
| `Finder.SmallestFreeAtMostMaxPlusOne` | smallest-free-number.c:291-302 | When no value exceeds `max`, the answer is at most `max + 1`. It is `max + 1` iff all of `0..max` occur. |
| `Finder.PositiveGivesZero` | smallest-free-number.c:252-253 | With no value `<= 0`, the empty input included, the answer is 0. |
| `Finder.Examples` | smallest-free-number.c:209-210 | `[20, 10, 0, 30]` gives 1 and `[3, 2, 1, 0]` gives 4. Also `[]` gives 0, `[1, 2, 3]` gives 0, `[0, 1, 2, 3]` gives 4 and `[0, 0, 0, 0]` gives 1. |
| `Bitmap.SetBitEffect` | smallest-free-number.c:276-278 | `byte \| (1 << j)` has bit `j` set and its other seven bits unchanged. |
| `NumberParser.TokenLength` | smallest-free-number.c:136-157 | It returns the length of the longest delimiter-free prefix: no delimiter before it, and a delimiter or the end at it. |
| `NumberParser.TokenEnd` | smallest-free-number.c:136-157 | strtok's scan from a non-delimiter stops at the first delimiter after it or at the end. Everything in between is part of the token. |
| `NumberParser.TokensAreTokens` | smallest-free-number.c:136-157 | Every token is non-empty and free of delimiters, so empty tokens are dropped. |
| `NumberParser.TokensKeepText` | smallest-free-number.c:136-157 | The tokens, put together in order, are the text with its delimiters removed. Nothing is lost or reordered. |
| `NumberParser.TokensSkipDelimiters` | smallest-free-number.c:103-103 | A run of characters from `" ,;|\t\n"` produces no token. |
| `NumberParser.TokensAfterToken` | smallest-free-number.c:136-157 | A token followed by a delimiter, or by nothing, is the next token. |
| `NumberParser.TokensOfJoin` | smallest-free-number.c:136-157 | Tokenizing valid tokens joined by any delimiter gives back the same tokens. |
| `NumberParser.ParsedValuesStep` | smallest-free-number.c:136-157 | A one-digit token followed by one delimiter contributes its digit's value, and parsing goes on with the rest of the text. |
| `NumberParser.MixedDelimiters` | smallest-free-number.c:103-103 | Every delimiter in the set separates tokens: `"1,2;3\|4 5\t6"` parses to `[1, 2, 3, 4, 5, 6]`. |
| `NumberParser.AtoiOfDecimal` | smallest-free-number.c:140-140 | `atoi` reads back what `%d` writes, unsigned, with `-` or with `+`. It ignores whatever follows the digits. |
| `NumberParser.AtoiSkipsSpace` | smallest-free-number.c:140-140 | Leading C white space does not change `atoi`'s value. |
| `NumberParser.AtoiNonNumeric` | smallest-free-number.c:140-140 | A token with no digits after its white space and optional sign gives 0. |
| `NumberParser.AtoiAll` | smallest-free-number.c:138-158 | It gives one value per token, each the `atoi` of that token, in order. |
| `NumberParser.CapacityAfterAppend` | smallest-free-number.c:147-155 | If the capacity is the next multiple of 4096 above the count, it still is after one append and, when the array is full, a 4096-slot growth. |
| `NumberParser.Append` | smallest-free-number.c:141-155 | It stores the value in slot `numElements` and adds one to the count. When the array is full it grows by 4096 slots, keeping the contents. The contents become the old contents plus the value. |
| `NumberParser.Realloc` | smallest-free-number.c:149-150 | It returns an array of the new length that starts with the old contents. |
| `NumberParser.ReadNumbers` | smallest-free-number.c:98-171 | The first `numElements` slots hold the `atoi` values of the text's tokens, in order, and the count is the number of tokens. The capacity is `4096 * (count / 4096 + 1)`, so it always stays above the count and never exceeds `INT_MAX`. It requires fewer than `INT_MAX - 4095` tokens, since the `int` capacity would overflow beyond that. Every value fits an `int`. |
| `TestData.SmallestFreeOfValues` | make-test-data.c:85-99 | On the generated values `0..max` without `emptySlot`, the answer is `emptySlot`. When `emptySlot` is outside `0..max`, it is `max + 1`. |
| `TestData.ParsedBody` | make-test-data.c:85-101 | Parsing what the printing loop writes, with its final newline, gives the values it prints, in order. |
| `TestData.GeneratedFileRoundTrip` | make-test-data.c:60-101 | The file written for `-m max -e emptySlot` parses to `0..max` without `emptySlot`. The smallest free number of that is `emptySlot`. |

## Left out

- Timing with `clock()` and the printout of seconds (smallest-free-number.c:233, 307-312) are left out: a clock and floating-point output.
- The `Debug` flag, `PrintDataElements` and `PrintBitmap` are left out. They only print debug output.
- `main`, `Usage` and the `getopt_long_only` option handling of both programs are left out. They are command-line plumbing.
- `ExitOnError` is left out. It formats with `vsnprintf` and `strerror` and then calls `exit`.
- The failure branches of `malloc` and `realloc` are left out. They are fatal exits.
- Opening and reading the file (`fopen`, `fgets`, `fclose`) is left out. `ReadNumbers` works on the file's whole text. So the model does not split a token that straddles a 4096-byte `fgets` chunk, as the C code would.
- `ReadNumbers` treats the text as a C string without NUL characters. A NUL would end `strtok`'s view of the line early.
- `ReadNumbers`: texts with `INT_MAX - 4095` or more tokens are not modelled. There the C code's `int` capacity `max_elements += 4096` overflows, which is undefined.
- `Realloc` always hands back a new array. Real `realloc` may return the same block. The model does not capture that aliasing.
- `Atoi` gives the mathematical value. C leaves `atoi` undefined when the value does not fit an `int`, so `ReadNumbers` requires every token's value to fit.
- No model covers inputs to the finder containing negative values, or `max == INT_MAX` on the bitmap path. The C code is undefined there, and `Finder.Supported` excludes them.
- The running-time bound O(n + max) is not modelled. Dafny has no cost model here.
- The bitmap is a `bv8` array. C's `char` may be signed, but the bits that are set and tested are the same either way.
- `make-test-data.c` behaves as modelled only for `-m` values >= 0. No `-m` at all prints an empty line, which the model does not cover.

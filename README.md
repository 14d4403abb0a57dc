# Word counting, positional formatting and UTF-8 reversal

This project models the three sequential string components of a Go course
repository and proves properties of the models:

- **The baseline word counter** (`allocs/baseline.go`). A `BaselineCounter`
  holds a map from word to tally.
  - `Count` reads its whole input, splits it into lines on `"\n"` and each
    line into words on `" "`, and adds one to the tally of every word. Empty
    pieces count too.
  - `String` collects the keys, sorts them, and prints one line
    `word '<key>' has <n> occurrences` per key.
  - This is modelled as a Dafny `class` whose `counts` field the methods
    update, with the same two loops and the same error path.
- **The positional formatter** `varfmt.Sprintf`. In a template, `{}` prints
  the argument at the placeholder's own position, counting every
  placeholder from 0. `{n}` prints argument `n`, with `n` given in decimal.
  The rest is copied as it is. The formatter's implementation is not
  modelled: the model is a reference function, a parser into pieces and then
  a renderer, with the behaviour the test table asserts. Each row of the
  table is a lemma.
- **UTF-8 reversal** `reverse.Reverse`. The input is decoded as UTF-8, as
  Go's `[]rune` conversion does it. The code points are reversed and then
  encoded again. Each byte that is not part of a well-formed sequence
  becomes U+FFFD (section 4 of RFC 3629 lists the well-formed sequences).
  This is also a reference function with the behaviour its test table asserts,
  checked against every row of the table.

Modules: `Wrappers` (Option), `Decimal` (decimal digits, shared by `%d` and
by the `{n}` indices), `Allocs`, `VarFmt` with `VarFmtCases`, and
`Utf8Reverse` with `Utf8ReverseCases`.

## Model

| member | source | states |
|---|---|---|
| Allocs.BaselineCounter.constructor | allocs/baseline.go:22-24 | A new counter has an empty tally. |
| Allocs.BaselineCounter.Count | allocs/baseline.go:26-38 | A failed read returns that error and leaves the tally unchanged. A successful read returns no error, and the tally becomes the old tally with every word of the input counted once more, in input order. The tally stays well formed. |
| Allocs.BaselineCounter.Keys | allocs/baseline.go:41-44 | The key-collecting loop yields every key of the map exactly once, in whatever order the map is iterated. |
| Allocs.BaselineCounter.String | allocs/baseline.go:40-53 | The result is exactly the report of the current tally, whatever order the keys were collected in. The method changes nothing. |
| Allocs.ReportLines | allocs/baseline.go:47-51 | The report split at newlines has one line per tallied word, then an empty remainder. Line i is `word '<key>' has <n> occurrences` for the i-th key in ascending byte order. |
| Allocs.SortedKeys | allocs/baseline.go:45 | The keys in report order are sorted, free of duplicates and exactly the map's keys. |
| Allocs.SortKeys | allocs/baseline.go:41-45 | Sorting the collected keys gives the same sequence whatever order they were collected in. |
| Allocs.Report | allocs/baseline.go:22-53 | The report is empty exactly when the tally is, so a new counter prints the empty string. |
| Allocs.LineBody | allocs/baseline.go:49 | The text of a line holds a newline only if the word does. |
| Allocs.Line | allocs/baseline.go:49-50 | For a word without a newline, the line for it holds exactly one newline, as its last character. |
| Allocs.Sort | allocs/baseline.go:45 | slices.Sort on strings: ascending byte order, and the same elements with the same multiplicities. |
| Allocs.SortedUnique | allocs/baseline.go:45 | Two sorted sequences with the same elements are equal, so the sort order is unique. |
| Allocs.BelowTotal | allocs/baseline.go:45 | Byte-wise string order is total. |
| Allocs.BelowAntisymmetric | allocs/baseline.go:45 | Byte-wise string order is antisymmetric. |
| Allocs.BelowTransitive | allocs/baseline.go:45 | Byte-wise string order is transitive. |
| Allocs.Split | allocs/baseline.go:32-33 | strings.SplitSeq gives at least one piece, and no piece holds the separator. |
| Allocs.JoinSplit | allocs/baseline.go:32-33 | Joining the pieces with the separator restores the string. |
| Allocs.SplitCount | allocs/baseline.go:32-33 | There is one more piece than there are separators. |
| Allocs.SplitSep | allocs/baseline.go:32-33 | Splitting at a separator splits the two sides independently. |
| Allocs.SplitNone | allocs/baseline.go:32-33 | A string without the separator is a single piece. |
| Allocs.SplitWithin | allocs/baseline.go:32-33 | Every character of a piece occurs in the string that was split. |
| Allocs.Words | allocs/baseline.go:31-35 | No word holds a newline or a space. |
| Allocs.WordsCount | allocs/baseline.go:32-35 | The number of words is the number of newlines plus the number of spaces plus one. |
| Allocs.WordsOfAppend | allocs/baseline.go:32-35 | The words of consecutive lines are the words of each line in turn. |
| Allocs.Tally | allocs/baseline.go:32-36 | Counting a list of words adds exactly those words to the tallied words. |
| Allocs.Bump | allocs/baseline.go:34 | `counts[w]++` adds `w` to the keys, raises its tally by one and leaves every other tally alone. |
| Allocs.TallyCounts | allocs/baseline.go:32-36 | Counting only adds: each word's tally grows by its number of occurrences. The words tallied are the old ones plus those of the input. |
| Allocs.TallyAppend | allocs/baseline.go:19-36 | Counting two inputs one after the other is counting them together, so tallies accumulate across calls. |
| Allocs.CountTotal | allocs/baseline.go:32-35 | The sum of all tallies grows by newlines plus spaces plus one. |
| Allocs.TallyTotal | allocs/baseline.go:34 | Counting a list of words adds its length to the sum of the tallies. |
| Allocs.TallyGood | allocs/baseline.go:32-35 | Counting words without separators keeps every tally positive and every key free of separators. |
| Allocs.RenderSplit | allocs/baseline.go:47-51 | The rendered lines followed by a newline-free text split back into the lines' texts and that text. |
| Decimal.FromNat | allocs/baseline.go:49 | The digits of a natural number: at least one, all decimal, and no leading zero except for 0 itself, which prints as `0`. |
| Decimal.FromInt | allocs/baseline.go:49 | `%d` of an int: at least one character, a minus sign for negatives, then the shortest decimal digits. |
| Decimal.ValueFromNat | varfmt/fmt_test.go:57-71 | Reading back the decimal digits of n gives n. |
| VarFmt.Sprintf | varfmt/fmt_test.go:17-76 | Defined exactly for templates that parse and whose placeholders all name an argument. The output is the text of each piece in turn: a literal is copied, and the placeholder numbered k, counting from 0, prints argument k for `{}` and argument n for `{n}`. |
| VarFmt.Parse | varfmt/fmt_test.go:17-72 | On success, no literal piece is a brace, and there is one placeholder for each `{` of the template. |
| VarFmt.RenderPieces | varfmt/fmt_test.go:37-56 | Render prints each piece in turn, each at its own placeholder number. |
| VarFmt.FitsAt | varfmt/fmt_test.go:27-71 | When every placeholder fits, each one names an existing argument. |
| VarFmt.ParseTemplate | varfmt/fmt_test.go:17-72 | Parsing the template that spells a piece sequence gives that sequence back. |
| VarFmt.ParsePiece | varfmt/fmt_test.go:17-72 | The text of one piece, followed by anything, parses to that piece followed by whatever the rest parses to. |
| VarFmt.SprintfNext | varfmt/fmt_test.go:37-46 | A bare `{}` that is placeholder number k prints argument k. Explicit placeholders before it count towards k. |
| VarFmt.SprintfAt | varfmt/fmt_test.go:27-46 | An explicit `{n}` prints argument n and still takes up one placeholder number. |
| VarFmt.SprintfText | varfmt/fmt_test.go:47-56 | Text without braces is accepted with any arguments and printed as it is. |
| VarFmt.SprintfOnlyRefs | varfmt/fmt_test.go:32-36 | Changing only arguments that no placeholder names does not change the output. |
| VarFmt.RenderAppend | varfmt/fmt_test.go:37-56 | Rendering a sequence of pieces is rendering its parts in turn, with placeholder numbering continuing across the join. |
| VarFmt.FitsAppend | varfmt/fmt_test.go:37-46 | Placeholders fit the arguments exactly when both parts fit, with numbering continuing across the join. |
| VarFmt.RenderAround | varfmt/fmt_test.go:37-56 | The output around one piece is what precedes it, what the piece prints at its own placeholder number, and what follows it. |
| VarFmtCases.SingleNext | varfmt/fmt_test.go:22-26 | `"{}"` with `[0]` gives `"0"`. |
| VarFmtCases.RepeatedIndex | varfmt/fmt_test.go:27-31 | `"{0} {0}"` with `[1]` gives `"1 1"`. |
| VarFmtCases.UnusedArgs | varfmt/fmt_test.go:32-36 | `"{1} {5}"` over seven arguments gives `"1 5"`. |
| VarFmtCases.AllNext | varfmt/fmt_test.go:37-41 | `"{} {} {} {} {}"` with 0..4 gives `"0 1 2 3 4"`. |
| VarFmtCases.ExplicitAdvances | varfmt/fmt_test.go:42-46 | `"{} {0} {0} {0} {}"` with 0..4 gives `"0 0 0 0 4"`. |
| VarFmtCases.TextAround | varfmt/fmt_test.go:47-51 | `"Hello, {2}"` with `[0, 1, "World"]` gives `"Hello, World"`. |
| VarFmtCases.TextInsideWord | varfmt/fmt_test.go:52-56 | `"He{2}o"` with `[0, 1, "ll"]` gives `"Hello"`. |
| VarFmtCases.Sparse | varfmt/fmt_test.go:12-15 | The shared argument list has 1002 slots, holding 1, 2 and 3 at 10, 100 and 1000. |
| VarFmtCases.TwoDigitIndex | varfmt/fmt_test.go:57-61 | `"{10}"` over the first 11 slots gives `"1"`. |
| VarFmtCases.ThreeDigitIndex | varfmt/fmt_test.go:62-66 | `"{100}"` over the first 101 slots gives `"2"`. |
| VarFmtCases.FourDigitIndex | varfmt/fmt_test.go:67-71 | `"{1000}"` over the first 1001 slots gives `"3"`. |
| Utf8Reverse.Reverse | utf8/reverse/reverse_test.go:16-40 | The output is always well-formed UTF-8, and its code points are the input's code points in reverse order. |
| Utf8Reverse.Decode | utf8/reverse/reverse_test.go:16-40 | The input has at least as many bytes as the decoded code points, and at most four times as many. |
| Utf8Reverse.EncodeRune | utf8/reverse/reverse_test.go:16-39 | One to four bytes, a single byte exactly for ASCII. The first byte is never a continuation byte, and the others always are. |
| Utf8Reverse.Encode | utf8/reverse/reverse_test.go:16-39 | The encoding has at least as many bytes as there are code points, and at most four times as many. |
| Utf8Reverse.DecodeFirst | utf8/reverse/reverse_test.go:40 | One decoding step consumes one to four bytes. A malformed step yields U+FFFD and consumes one byte. |
| Utf8Reverse.ReverseDecode | utf8/reverse/reverse_test.go:16-40 | Code point k of the output is code point k from the end of the input. |
| Utf8Reverse.ReverseEncoded | utf8/reverse/reverse_test.go:18-39 | Reversing an encoded string encodes the reversed code points. |
| Utf8Reverse.ReverseTwice | utf8/reverse/reverse_test.go:16-39 | On well-formed input, reversing twice returns the original bytes. |
| Utf8Reverse.ReverseLength | utf8/reverse/reverse_test.go:18-27 | On well-formed input the output has as many bytes as the input: no character is split or merged. |
| Utf8Reverse.ReverseSingle | utf8/reverse/reverse_test.go:17-35 | A well-formed string of one code point is its own reversal, whatever its encoded length. |
| Utf8Reverse.DecodeEncode | utf8/reverse/reverse_test.go:16-39 | Decoding the encoding of any code points gives them back. |
| Utf8Reverse.EncodeValid | utf8/reverse/reverse_test.go:16-39 | Every encoding is well-formed UTF-8. |
| Utf8Reverse.EncodeDecode | utf8/reverse/reverse_test.go:16-40 | Encoding the decoded code points gives the input back if and only if the input is well-formed. |
| Utf8Reverse.DecodeEncodeRune | utf8/reverse/reverse_test.go:16-39 | Decoding the encoding of one code point, followed by anything, reads back that code point over exactly its bytes. |
| Utf8Reverse.EncodeDecodeFirst | utf8/reverse/reverse_test.go:16-39 | A well-formed step encodes back to exactly the bytes it consumed. |
| Utf8Reverse.RevRev | utf8/reverse/reverse_test.go:16-39 | Reversing a sequence twice gives it back. |
| Utf8Reverse.RevAt | utf8/reverse/reverse_test.go:16-39 | Element k of the reversal is element k from the end of the original. |
| Utf8Reverse.InvalidLead | utf8/reverse/reverse_test.go:40 | A byte that cannot start a sequence decodes as U+FFFD and consumes only itself. |
| Utf8Reverse.ReplacementBytes | utf8/reverse/reverse_test.go:40 | U+FFFD is encoded as EF BF BD. |
| Utf8ReverseCases.EmptyCase | utf8/reverse/reverse_test.go:16 | `""` gives `""`. |
| Utf8ReverseCases.SingleCase | utf8/reverse/reverse_test.go:17 | `"x"` gives `"x"`. |
| Utf8ReverseCases.AsciiCase | utf8/reverse/reverse_test.go:18 | `"Hello!"` gives `"!olleH"`. |
| Utf8ReverseCases.CyrillicCase | utf8/reverse/reverse_test.go:19 | `"Привет"` gives `"тевирП"`. |
| Utf8ReverseCases.ControlCase | utf8/reverse/reverse_test.go:20 | `"\r\n"` gives `"\n\r"`. |
| Utf8ReverseCases.NewlinesCase | utf8/reverse/reverse_test.go:21 | `"\n\n"` gives `"\n\n"`. |
| Utf8ReverseCases.TabCase | utf8/reverse/reverse_test.go:22 | `"\t*"` gives `"*\t"`. |
| Utf8ReverseCases.CombiningCase | utf8/reverse/reverse_test.go:24 | The combining diaeresis of `"möp"` moves onto the `p`. |
| Utf8ReverseCases.HangulCase | utf8/reverse/reverse_test.go:26 | A syllable spelt as three conjoining jamo comes out as the jamo in reverse order. |
| Utf8ReverseCases.MixedCase | utf8/reverse/reverse_test.go:27 | `"Hello, 世界"` gives `"界世 ,olleH"`. |
| Utf8ReverseCases.ThaiCase | utf8/reverse/reverse_test.go:28 | U+0E33 alone is unchanged. |
| Utf8ReverseCases.ThaiTwiceCase | utf8/reverse/reverse_test.go:29 | Two U+0E33 are unchanged. |
| Utf8ReverseCases.KissCase | utf8/reverse/reverse_test.go:31 | The zero-width-joiner kiss sequence is reversed rune by rune. |
| Utf8ReverseCases.LifterCase | utf8/reverse/reverse_test.go:33 | The weight lifter with skin tone and gender sign is reversed rune by rune. |
| Utf8ReverseCases.EmojiCase | utf8/reverse/reverse_test.go:34 | U+1F642 alone is unchanged. |
| Utf8ReverseCases.EmojiBytes | utf8/reverse/reverse_test.go:34 | U+1F642 is the four bytes F0 9F 99 82. |
| Utf8ReverseCases.EmojiTwiceCase | utf8/reverse/reverse_test.go:35 | Two U+1F642 are unchanged. |
| Utf8ReverseCases.FlagCase | utf8/reverse/reverse_test.go:37 | The regional indicators D, E come out as E, D. |
| Utf8ReverseCases.RainbowCase | utf8/reverse/reverse_test.go:39 | The rainbow flag sequence is reversed rune by rune. |
| Utf8ReverseCases.InvalidDecode | utf8/reverse/reverse_test.go:40 | `"\xff\x00\xff\x00"` decodes as U+FFFD, U+0000, U+FFFD, U+0000. |
| Utf8ReverseCases.InvalidBytes | utf8/reverse/reverse_test.go:40 | U+0000, U+FFFD, U+0000, U+FFFD encode as 00 EF BF BD 00 EF BF BD. |
| Utf8ReverseCases.InvalidCase | utf8/reverse/reverse_test.go:40 | `"\xff\x00\xff\x00"` gives `"\x00\xef\xbf\xbd\x00\xef\xbf\xbd"`. |

## Left out

- The wait-group, the read-write mutex, the deduplicating call, struct-tag
  decoding, the test tooling, the lecture programs and the `testequal`
  helper: they are concurrency primitives or tools outside the three
  components modelled here.
- The benchmarks in `varfmt/fmt_test.go:79-139` and
  `utf8/reverse/reverse_test.go:48-56` measure allocations, which a
  functional model has no notion of.
- The implementations of `varfmt.Sprintf` and `reverse.Reverse` are not part
  of this model. Both are reference functions pinned by their test tables.
- Only counters made by `NewBaselineCounter` are modelled. The zero value of
  the exported type `BaselineCounter` holds a nil map. On it, `Count` panics
  when it assigns at `allocs/baseline.go:34`, while `String` returns the
  empty string. A Dafny object always holds a map, so this is not captured.
- `io.ReadAll` is I/O. `Count` takes what the read produced as a
  `ReadOutcome` parameter: all the bytes, or an error.
- Go strings are byte strings. The counter's strings are `seq<char>` with
  each character standing for one byte, a value from 0 to 255. So character
  order, which the sort compares with `Below`, is Go's byte order. The
  reversal model works on real bytes (`seq<byte>`).
- The order in which Go iterates a map is unspecified and randomised. `Keys`
  picks the next key with `:|`, so each proof holds for every order.
- `slices.Sort` is a library call. It is modelled by a pure insertion sort,
  `Sort`, whose contract is the library's promise: sorted, and a
  permutation.
- Allocs.Bump: Go's `int` is 64 bits. A tally can never come near the wrap,
  so counts are unbounded integers.
- `Sprintf` arguments are limited to Go ints, strings and nil, printed the
  way `%v` prints them. The table uses no other kinds.
- VarFmt.Sprintf: it is defined only for templates that parse and whose
  placeholders all name an existing argument (`Accepts`). What the Go
  implementation does with a malformed template or a missing argument is
  not pinned by any test. `Parse` reports `None` for an unbalanced brace, a
  lone `}`, or braces holding anything but digits.
- VarFmt.Render: it is total. A placeholder that names a missing argument
  prints nothing. It is only ever applied where every placeholder fits, so
  that case never reaches `Sprintf`.

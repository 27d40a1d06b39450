# table-pretty parsing core, modelled in Dafny

table-pretty reads CSV or JSON and prints it as a table. It can also copy a
tab-separated version to the clipboard. This project models the part of
`pkg/parser.go` that is the tool's own logic. That part turns decoded input
into `Content`: a header row plus rows of string cells. The project proves
what that logic promises.

- **CSV** (`CSVParser.Parse`): the first record is the header and the rest are
  the rows, unchanged. Any error from the reader gives the empty `Content` with
  that error. Empty input gives `io.EOF`.
- **JSON** (`JSONParser.Parse` after decoding): `collectHeader` gathers the
  union of all records' keys and adds `"#"`. `sort.Strings` then sorts them in
  Go's byte-wise string order. Each record becomes one row exactly as wide as
  the header. Cell 0 holds the 1-based row number. Cell `j > 0` holds the
  formatted value for `header[j]`, or `<nil>` when the record lacks that key.
- **TSV** (`tsvPbcopy`): each cell is followed by a tab and each line by a
  newline. When no cell holds a tab or newline, the text is proved to read
  back into the table. When no cell holds a newline, the text is proved to
  hold exactly one newline per line.
- **Format**: it parses and stops at the first error. Otherwise it hands the
  content to the table renderer and, if `enablePbcopy` is set, builds the TSV
  text.

The model follows the code in two places where a tidier rule (`"#"` always
first, no repeated names) might be expected. First, `"#"` is sorted together
with the keys rather than put in front of them. So the lowest key, when it
sorts below `"#"` (such as `"!"`), names column 0. That column holds the row
number, so that key's values are never shown (`JsonKeyBelowHash`). Any other
key below `"#"` keeps its own column, and its values are shown
(`JsonTwoKeysBelowHash`, `ValueShown`). Second, a record that has the key
`"#"` makes `"#"` appear twice in the header (`JsonHashKey`,
`JsonHeaderShape`).

Modules:
- `Wrappers` (`wrappers.dfy`): `Option` and `Result`.
- `StringOrder` (`string_order.dfy`): Go's string order, sortedness, and
  `sort.Strings` as an in-place sort of an `array<string>`.
- `Decimal` (`decimal.dfy`): `strconv.Itoa` on row numbers, plus reading the
  digits back.
- `Tsv` (`tsv.dfy`): the tab-separated encoding and its decoder.
- `Parser` (`parser.dfy`): `Content`, the two parsers, `collectHeader`,
  `tsvPbcopy` and `Format`.

## Model

| member | source | states |
|---|---|---|
| `StringOrder.LessEqReflexive` | pkg/parser.go:103 | every string is `<=` itself in Go's string order |
| `StringOrder.LessEqTotal` | pkg/parser.go:103 | any two strings are comparable (the order is total) |
| `StringOrder.LessEqAntisymmetric` | pkg/parser.go:103 | `a <= b` and `b <= a` only when `a == b` |
| `StringOrder.LessEqTransitive` | pkg/parser.go:103 | the string order is transitive |
| `StringOrder.SortedHeadIsLeast` | pkg/parser.go:103 | the first string of a sorted sequence is `<=` every string it holds |
| `StringOrder.SortedTail` | pkg/parser.go:103 | dropping the first string keeps a sequence sorted and removes exactly one copy of that string |
| `StringOrder.SortedUnique` | pkg/parser.go:102-103 | two sorted sequences of the same strings (same multiset) are equal, so the sorted header is fully determined whatever order the strings came in |
| `StringOrder.SortStrings` | pkg/parser.go:103 | `sort.Strings` leaves the array sorted and a permutation (same multiset) of what it held |
| `StringOrder.SinkStep` | pkg/parser.go:103 | swapping the string being inserted below a greater neighbour keeps the prefix sorted apart from that string, one place lower |
| `StringOrder.SinkDone` | pkg/parser.go:103 | once the inserted string is `>=` its lower neighbour, the whole prefix is sorted |
| `StringOrder.SinkLast` | pkg/parser.go:103 | one insertion step: afterwards `a[..i + 1]` is sorted, `a[i + 1..]` is unchanged, and the array holds the same strings, so the string at `i` was moved down into the sorted prefix |
| `Decimal.Itoa` | pkg/parser.go:110 | the row number is written as canonical decimal: only digits, at least one, no leading zero, and it starts with `0` exactly for 0 |
| `Decimal.ValueOfItoa` | pkg/parser.go:110 | reading the digits written by `Itoa(n)` gives back `n` |
| `Decimal.ItoaInjective` | pkg/parser.go:110 | different row numbers are written as different strings |
| `Tsv.SplitPiecesAvoidSeparator` | pkg/parser.go:49-59 | no piece that the decoder's split returns holds the separator |
| `Tsv.RejoinExtendFirst` | pkg/parser.go:49-59 | a leading character other than the separator belongs to the first piece when the pieces are joined back |
| `Tsv.RejoinEmptyFirst` | pkg/parser.go:49-59 | a leading separator closes an empty first piece when the pieces are joined back |
| `Tsv.SplitRejoins` | pkg/parser.go:49-59 | the decoder's split inverts joining: the pieces, each but the last followed by the separator, give back the text |
| `Tsv.SplitTerminated` | pkg/parser.go:49-59 | splitting pieces that were each followed by the separator gives those pieces plus one empty trailing piece |
| `Tsv.FieldsTerminated` | pkg/parser.go:49-59 | dropping the trailing empty piece gives exactly the pieces that were written |
| `Tsv.TerminatedCount` | pkg/parser.go:49-59 | the text holds exactly one separator per piece when no piece holds one |
| `Tsv.TerminatedSnoc` | pkg/parser.go:50-58 | writing one more piece (cell plus tab, or line plus newline) appends exactly that piece and its terminator, as each `WriteString` does |
| `Tsv.DecodeEncode` | pkg/parser.go:49-59 | round trip: when no cell holds a tab or newline, splitting the text on newlines and then on tabs (dropping the trailing empty piece) gives back every line and every cell, in order |
| `Tsv.NewlinesCountLines` | pkg/parser.go:49-59 | when no cell holds a newline, the text has exactly one newline per line, i.e. `1 + len(rows)` for a `Content` |
| `Parser.CsvParse` | pkg/parser.go:71-88 | the error is the lexing error if there is one, else `io.EOF` for empty input, else none; on error the content is empty; on success the header followed by the rows is exactly the record sequence, in order |
| `Parser.CsvParseRecovers` | pkg/parser.go:71-88 | a header and rows that the reader yields back unchanged parse to that same `Content` with no error |
| `Parser.KeysSnoc` | pkg/parser.go:134-138 | handling one more record adds exactly that record's keys to `headerMap` |
| `Parser.InKeys` | pkg/parser.go:133-138 | a name is in `headerMap` exactly when some record has it as a key |
| `Parser.CollectHeader` | pkg/parser.go:132-147 | the result starts with `"#"`, and the rest holds every key of every record exactly once (as a multiset it equals the set of keys) |
| `Parser.HashThenEach` | pkg/parser.go:140-146 | the result starts with `"#"`, and the rest holds each name of `headerMap` exactly once, in any order |
| `Parser.SortedHeader` | pkg/parser.go:102-103 | the header after `sort.Strings` is sorted and is `"#"` plus each key of each record exactly once (as a multiset) |
| `Parser.JsonHeaderShape` | pkg/parser.go:132-147 | the header is one longer than the number of distinct keys; `"#"` occurs twice exactly when some record has key `"#"` and once otherwise; every other key occurs exactly once |
| `Parser.JsonHeaderNames` | pkg/parser.go:132-147 | a name appears in the header exactly when it is `"#"` or a key of some record |
| `Parser.JsonHeaderOrderIndependent` | pkg/parser.go:102-103 | records that hold the same maps in another order (or repeated) give the same sorted header |
| `Parser.IndexColumnNamedHash` | pkg/parser.go:102-110 | column 0 is named `"#"` exactly when no key sorts below `"#"` |
| `Parser.BuildRow` | pkg/parser.go:107-114 | the row is exactly as wide as the header; column 0 holds the row number, and column `j > 0` holds the formatted value for `header[j]`, or `<nil>` when the key is absent |
| `Parser.JsonParse` | pkg/parser.go:94-122 | a decoder error is returned with the empty content; otherwise there is no error, the header is sorted and is `"#"` plus each key once, there is one row per record in record order, each row is as wide as the header, and each cell is the row number in column 0 and otherwise the formatted value or `<nil>` |
| `Parser.RowNumberColumn` | pkg/parser.go:109-110 | cell 0 of row `i` is a canonical decimal that reads back as `i + 1`, whatever name column 0 has |
| `Parser.LaterOccurrence` | pkg/parser.go:141-143 | a name that occurs twice in the header occurs at some column after 0 |
| `Parser.ColumnOf` | pkg/parser.go:102-112 | every key that does not sort below `"#"` names some column `j > 0` |
| `Parser.ValueShown` | pkg/parser.go:102-112 | every value of a record whose key does not name column 0, or whose key is `"#"`, appears in that record's row under that key, at some column `j > 0` |
| `Parser.JsonParseDeterministic` | pkg/parser.go:102-121 | two parses of the same decoded input give identical content, although map iteration order is unspecified |
| `Parser.JsonEmptyArray` | pkg/parser.go:102-121 | an empty array gives the header `["#"]` and no rows |
| `Parser.KeysOfPair` | pkg/parser.go:133-138 | the keys collected from two records are the union of their key sets |
| `Parser.TwoRecordsHeader` | pkg/parser.go:102-103 | `[{"x":a},{"y":b}]` gives the header `["#","x","y"]` |
| `Parser.JsonTwoRecords` | pkg/parser.go:105-116 | `[{"x":a},{"y":b}]` gives the rows `["1",fmt(a),"<nil>"]` and `["2","<nil>",fmt(b)]` |
| `Parser.JsonKeyBelowHash` | pkg/parser.go:102-112 | `[{"!":v}]` gives the header `["!","#"]` and the row `["1","<nil>"]`: the value of `"!"` is not shown |
| `Parser.BangQuoteHeader` | pkg/parser.go:102-103 | the records `[{"!":a, "\"":b}]` have exactly the header `["!","\"","#"]` |
| `Parser.JsonTwoKeysBelowHash` | pkg/parser.go:102-112 | `[{"!":a, "\"":b}]` gives the header `["!","\"","#"]` and the row `["1",fmt(b),"<nil>"]`: only the lowest key loses its column |
| `Parser.JsonHashKey` | pkg/parser.go:102-112 | `[{"#":v}]` gives the header `["#","#"]` and the row `["1",fmt(v)]` |
| `Parser.WriteLine` | pkg/parser.go:50-58 | writing one line appends each cell followed by a tab, then a newline, to the text so far |
| `Parser.TsvPbcopy` | pkg/parser.go:47-59 | the text built cell by cell and line by line equals `Tsv.Encode` of the header followed by the rows |
| `Parser.Parse` | pkg/parser.go:19 | dispatching through the `Parser` interface gives what the chosen parser promises |
| `Parser.Format` | pkg/parser.go:31-44 | on a parse error, that same error is returned and nothing is rendered or copied; otherwise there is no error, the parsed content is rendered, and its TSV text is copied exactly when `enablePbcopy` is set |

## Left out

- Lexing CSV and decoding JSON are done by Go's `encoding/csv` and `encoding/json`. They are inputs here: `CsvStream` holds the records the CSV reader yields and the lexing error that stopped it, if any. That error includes the reader's own field-count check. A `Result` holds the decoded JSON array of objects or the decoder's error.
- `fmt.Sprintf("%v", …)` on a decoded JSON value is the parameter `fmtValue`. Only the `<nil>` shown for a missing key is fixed. In Go a key whose value is JSON `null` also shows `<nil>`; here that is up to `fmtValue`.
- `formatTable` and `tablewriter` rendering are terminal output. `Format` returns the content it would render (`rendered`).
- The clipboard write, its `panic` on failure, and the `fmt.Println` banners are I/O. `TsvPbcopy` returns the text it would write to the clipboard.
- `io.Reader` and `io.Writer` are represented by the input values and the method's outputs.
- Go's random map iteration order is a nondeterministic choice (`:|`) in `CollectHeader`. Only the sorted header is observable, and `JsonParseDeterministic` shows the final content does not depend on that choice.
- The internals of `sort.Strings` are replaced by an insertion sort with the same promise: sorted and a permutation.
- Strings are sequences of Unicode scalar values, compared one by one. This matches Go's byte-wise order for valid UTF-8. Invalid UTF-8 byte sequences are not modelled.
- `Decimal.Itoa` covers only non-negative numbers, since row numbers start at 1.

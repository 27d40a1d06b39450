/**
 * The parsing core of the table tool: two decoders that turn CSV or JSON
 * input into one `Content` (a header row and rows of string cells), the
 * header policy for JSON records, the tab-separated text written for the
 * clipboard, and `Format`, which ties them together.
 *
 * The byte-level lexing belongs to Go's `encoding/csv` and `encoding/json`;
 * here their outcome is an input value (`CsvStream`, a decoded `Result`).
 * The formatting of a decoded JSON value (`%v`) is the parameter `fmtValue`.
 */
module Parser {
  import opened Wrappers
  import StringOrder
  import Decimal
  import Tsv

  /** The intermediate representation handed to the table renderer. */
  datatype Content = Content(header: seq<string>, rows: seq<seq<string>>)

  /** `Content{}`: what a parser returns beside an error. */
  const Empty: Content := Content([], [])

  /**
   * Errors a decoder reports: the end of input before any record (`io.EOF`),
   * or a lexing/decoding failure with the library's message.
   */
  datatype Error = EOF | Malformed(message: string)

  /** A parser's two results, as Go's `(Content, error)` pair. */
  datatype Parsed = Parsed(content: Content, err: Option<Error>)

  // ---------------------------------------------------------------------
  // CSV

  /**
   * What `encoding/csv`'s reader yields on the input: the records it lexes,
   * in input order, then either a clean end (`failure == None`) or the
   * lexing error that stopped it.
   */
  datatype CsvStream = CsvStream(records: seq<seq<string>>, failure: Option<string>)

  /**
   * `CSVParser.Parse`: the first record is the header, every later record a
   * row, verbatim. `Read` fails with `io.EOF` on empty input or with the
   * lexing error; `ReadAll` fails with the lexing error; either failure
   * gives the empty `Content`.
   */
  function CsvParse(input: CsvStream): (p: Parsed)
    ensures p.err == (if input.failure.Some? then Some(Malformed(input.failure.value))
                      else if input.records == [] then Some(EOF)
                      else None)
    ensures p.err.Some? ==> p.content == Empty
    ensures p.err.None? ==> [p.content.header] + p.content.rows == input.records
  {
    if input.records == [] then
      Parsed(Empty, Some(if input.failure.Some? then Malformed(input.failure.value) else EOF))
    else if input.failure.Some? then
      Parsed(Empty, Some(Malformed(input.failure.value)))
    else
      Parsed(Content(input.records[0], input.records[1..]), None)
  }

  /** A header and rows that lex back as themselves parse to that very content. */
  lemma CsvParseRecovers(c: Content)
    ensures CsvParse(CsvStream([c.header] + c.rows, None)) == Parsed(c, None)
  {
  }

  // ---------------------------------------------------------------------
  // JSON header

  /** The keys used by at least one record (the `headerMap` of `collectHeader`). */
  function Keys<V>(records: seq<map<string, V>>): set<string>
  {
    if records == [] then {}
    else Keys(records[..|records| - 1]) + records[|records| - 1].Keys
  }

  lemma KeysSnoc<V>(records: seq<map<string, V>>, i: nat)
    requires i < |records|
    ensures Keys(records[..i + 1]) == Keys(records[..i]) + records[i].Keys
  {
    assert records[..i + 1][..i] == records[..i];
  }

  /** A name is in `Keys(records)` exactly when some record has it as a key. */
  lemma {:induction false} InKeys<V>(records: seq<map<string, V>>, k: string)
    ensures k in Keys(records) <==> exists i :: 0 <= i < |records| && k in records[i]
  {
    if records != [] {
      var init := records[..|records| - 1];
      InKeys(init, k);
      if k in Keys(init) {
        var i :| 0 <= i < |init| && k in init[i];
        assert records[i] == init[i];
      }
      if exists i :: 0 <= i < |records| && k in records[i] {
        var i :| 0 <= i < |records| && k in records[i];
        if i < |init| { assert init[i] == records[i]; }
      }
    }
  }

  /**
   * `collectHeader`: "#" followed by every key of `Keys(records)` exactly
   * once, in the (unspecified) order Go's map iteration yields them.
   */
  method CollectHeader<V>(records: seq<map<string, V>>) returns (out: seq<string>)
    ensures |out| >= 1 && out[0] == "#"
    ensures multiset(out[1..]) == multiset(Keys(records))
  {
    var headerMap: set<string> := {};
    for i := 0 to |records|
      invariant headerMap == Keys(records[..i])
    {
      var row := records[i];
      ghost var before := headerMap;
      var pending := row.Keys;
      while pending != {}
        invariant pending <= row.Keys
        invariant headerMap == before + (row.Keys - pending)
        decreases pending
      {
        var k :| k in pending;
        headerMap := headerMap + {k};
        pending := pending - {k};
      }
      KeysSnoc(records, i);
    }
    assert records[..|records|] == records;
    out := HashThenEach(headerMap);
  }

  /**
   * The tail of `collectHeader`: "#", then each name of `headerMap` once,
   * in whatever order the map is iterated.
   */
  method HashThenEach(headerMap: set<string>) returns (out: seq<string>)
    ensures |out| >= 1 && out[0] == "#"
    ensures multiset(out[1..]) == multiset(headerMap)
  {
    out := ["#"];
    var pending := headerMap;
    while pending != {}
      invariant pending <= headerMap
      invariant |out| >= 1 && out[0] == "#"
      invariant multiset(out[1..]) == multiset(headerMap - pending)
      decreases pending
    {
      var k :| k in pending;
      assert headerMap - (pending - {k}) == (headerMap - pending) + {k};
      assert (out + [k])[1..] == out[1..] + [k];
      out := out + [k];
      pending := pending - {k};
    }
  }

  /** The JSON header after `sort.Strings`: "#" and every key once, in string order. */
  ghost predicate IsJsonHeader<V>(records: seq<map<string, V>>, header: seq<string>)
  {
    && StringOrder.Sorted(header)
    && multiset(header) == multiset{"#"} + multiset(Keys(records))
  }

  /**
   * The header's shape: one column more than there are distinct keys; "#"
   * twice exactly when some record has the key "#"; every other name once.
   */
  lemma JsonHeaderShape<V>(records: seq<map<string, V>>, header: seq<string>)
    requires IsJsonHeader(records, header)
    ensures |header| == 1 + |Keys(records)|
    ensures multiset(header)["#"] == if "#" in Keys(records) then 2 else 1
    ensures forall k :: k != "#" ==> multiset(header)[k] == if k in Keys(records) then 1 else 0
  {
  }

  /** A name heads a column exactly when it is "#" or a key of some record. */
  lemma JsonHeaderNames<V>(records: seq<map<string, V>>, header: seq<string>, k: string)
    requires IsJsonHeader(records, header)
    ensures k in header <==> k == "#" || exists i :: 0 <= i < |records| && k in records[i]
  {
    assert k in header <==> k in multiset(header);
    InKeys(records, k);
  }

  /** The header does not depend on the order of the records. */
  lemma JsonHeaderOrderIndependent<V>(r1: seq<map<string, V>>, r2: seq<map<string, V>>,
                                       h1: seq<string>, h2: seq<string>)
    requires forall i :: 0 <= i < |r1| ==> exists j :: 0 <= j < |r2| && r1[i] == r2[j]
    requires forall j :: 0 <= j < |r2| ==> exists i :: 0 <= i < |r1| && r1[i] == r2[j]
    requires IsJsonHeader(r1, h1) && IsJsonHeader(r2, h2)
    ensures h1 == h2
  {
    assert Keys(r1) == Keys(r2) by {
      forall k | k in Keys(r1) ensures k in Keys(r2) {
        InKeys(r1, k);
        var i :| 0 <= i < |r1| && k in r1[i];
        var j :| 0 <= j < |r2| && r1[i] == r2[j];
        InKeys(r2, k);
      }
      forall k | k in Keys(r2) ensures k in Keys(r1) {
        InKeys(r2, k);
        var j :| 0 <= j < |r2| && k in r2[j];
        var i :| 0 <= i < |r1| && r1[i] == r2[j];
        InKeys(r1, k);
      }
    }
    StringOrder.SortedUnique(h1, h2);
  }

  /**
   * "#" heads the header exactly when no key sorts below it; otherwise the
   * lowest key takes column 0, whose cells hold the row number.
   */
  lemma IndexColumnNamedHash<V>(records: seq<map<string, V>>, header: seq<string>)
    requires IsJsonHeader(records, header)
    ensures header[0] == "#" <==> forall k :: k in Keys(records) ==> StringOrder.LessEq("#", k)
  {
    JsonHeaderShape(records, header);
    assert "#" in header;
    if header[0] == "#" {
      forall k | k in Keys(records) ensures StringOrder.LessEq("#", k) {
        assert k in multiset(header);
        var j :| 0 <= j < |header| && header[j] == k;
        if j == 0 { StringOrder.LessEqReflexive(k); }
      }
    } else {
      var k := header[0];
      assert k in multiset(header);
      assert k in Keys(records);
      var j :| 0 <= j < |header| && header[j] == "#";
      if StringOrder.LessEq("#", k) {
        StringOrder.LessEqAntisymmetric("#", k);
        assert false;
      }
    }
  }

  // ---------------------------------------------------------------------
  // JSON rows

  /** `fmt.Sprintf("%v", nil)`: what a record with no value for a column shows. */
  const Missing: string := "<nil>"

  /**
   * Cell `j` of the row built from record `index` (0-based): the 1-based row
   * number in column 0, whatever that column is named; otherwise the
   * record's value for the column's name, or `Missing`.
   */
  function Cell<V>(index: nat, record: map<string, V>, header: seq<string>, j: nat,
                   fmtValue: V -> string): string
    requires j < |header|
  {
    if j == 0 then Decimal.Itoa(index + 1)
    else if header[j] in record then fmtValue(record[header[j]])
    else Missing
  }

  /** One row per record, in record order, each as wide as the header. */
  ghost predicate IsJsonRows<V>(records: seq<map<string, V>>, header: seq<string>,
                                rows: seq<seq<string>>, fmtValue: V -> string)
  {
    && |rows| == |records|
    && (forall i :: 0 <= i < |rows| ==> |rows[i]| == |header|)
    && (forall i, j :: 0 <= i < |rows| && 0 <= j < |rows[i]| && j < |header| ==>
          rows[i][j] == Cell(i, records[i], header, j, fmtValue))
  }

  /** What `JSONParser.Parse` promises for a decoder outcome. */
  ghost predicate JsonParsed<V>(decoded: Result<seq<map<string, V>>, Error>,
                                fmtValue: V -> string, p: Parsed)
  {
    match decoded
    case Err(e) => p == Parsed(Empty, Some(e))
    case Ok(records) =>
      && p.err == None
      && IsJsonHeader(records, p.content.header)
      && IsJsonRows(records, p.content.header, p.content.rows, fmtValue)
  }

  /**
   * `JSONParser.Parse`, after the decoder: collect and sort the header, then
   * build one row per record.
   */
  method JsonParse<V>(decoded: Result<seq<map<string, V>>, Error>, fmtValue: V -> string)
    returns (p: Parsed)
    ensures decoded.Err? ==> p == Parsed(Empty, Some(decoded.error))
    ensures decoded.Ok? ==> p.err == None
    ensures decoded.Ok? ==> IsJsonHeader(decoded.value, p.content.header)
    ensures decoded.Ok? ==> IsJsonRows(decoded.value, p.content.header, p.content.rows, fmtValue)
  {
    if decoded.Err? {
      return Parsed(Empty, Some(decoded.error));
    }
    var records := decoded.value;
    var header := SortedHeader(records);
    var outputRows: seq<seq<string>> := [];
    for i := 0 to |records|
      invariant |outputRows| == i
      invariant forall r :: 0 <= r < i ==> |outputRows[r]| == |header|
      invariant forall r, j :: 0 <= r < i && 0 <= j < |outputRows[r]| && j < |header| ==>
                  outputRows[r][j] == Cell(r, records[r], header, j, fmtValue)
    {
      var outputRow := BuildRow(i, records[i], header, fmtValue);
      outputRows := outputRows + [outputRow];
    }
    return Parsed(Content(header, outputRows), None);
  }

  /** `collectHeader` followed by `sort.Strings`. */
  method SortedHeader<V>(records: seq<map<string, V>>) returns (header: seq<string>)
    ensures IsJsonHeader(records, header)
  {
    var collected := CollectHeader(records);
    var headers := new string[|collected|](k requires 0 <= k < |collected| => collected[k]);
    assert headers[..] == collected;
    StringOrder.SortStrings(headers);
    assert multiset(collected) == multiset{"#"} + multiset(collected[1..]) by {
      assert collected == ["#"] + collected[1..];
    }
    header := headers[..];
  }

  /**
   * The body of `JSONParser.Parse`'s row loop: a fresh row as wide as the
   * header, filled column by column.
   */
  method BuildRow<V>(i: nat, row: map<string, V>, header: seq<string>, fmtValue: V -> string)
    returns (cells: seq<string>)
    ensures |cells| == |header|
    ensures forall j :: 0 <= j < |header| ==> cells[j] == Cell(i, row, header, j, fmtValue)
  {
    var outputRow := new string[|header|];
    for j := 0 to |header|
      invariant forall c :: 0 <= c < j ==> outputRow[c] == Cell(i, row, header, c, fmtValue)
    {
      if j == 0 {
        outputRow[j] := Decimal.Itoa(i + 1);
      } else {
        outputRow[j] := if header[j] in row then fmtValue(row[header[j]]) else Missing;
      }
    }
    cells := outputRow[..];
  }

  /** Column 0 of row `i` reads back as the row number `i + 1`. */
  lemma RowNumberColumn<V>(records: seq<map<string, V>>, header: seq<string>,
                           rows: seq<seq<string>>, fmtValue: V -> string, i: nat)
    requires IsJsonHeader(records, header)
    requires IsJsonRows(records, header, rows, fmtValue)
    requires i < |rows|
    ensures Decimal.IsCanonical(rows[i][0])
    ensures Decimal.Value(rows[i][0]) == i + 1
  {
    JsonHeaderShape(records, header);
    Decimal.ValueOfItoa(i + 1);
  }

  /** A name that occurs twice occurs somewhere after column 0. */
  lemma {:induction false} LaterOccurrence(header: seq<string>, k: string) returns (j: nat)
    requires multiset(header)[k] >= 2
    ensures 0 < j < |header| && header[j] == k
  {
    assert header == [header[0]] + header[1..];
    assert multiset(header) == multiset{header[0]} + multiset(header[1..]);
    assert k in multiset(header[1..]);
    var m :| 0 <= m < |header[1..]| && header[1..][m] == k;
    j := m + 1;
  }

  /** The column that the key `k >= "#"` names, other than column 0. */
  lemma ColumnOf<V>(records: seq<map<string, V>>, header: seq<string>, k: string) returns (j: nat)
    requires IsJsonHeader(records, header)
    requires k in Keys(records) && StringOrder.LessEq("#", k)
    ensures 0 < j < |header| && header[j] == k
  {
    JsonHeaderShape(records, header);
    if k == "#" {
      j := LaterOccurrence(header, k);
    } else {
      assert k in multiset(header);
      j :| 0 <= j < |header| && header[j] == k;
      if j == 0 {
        assert "#" in multiset(header);
        var m :| 0 <= m < |header| && header[m] == "#";
        StringOrder.LessEqAntisymmetric("#", k);
        assert false;
      }
    }
  }

  /**
   * Every value of a record is shown, under its key, in its row, unless its
   * key is a name other than "#" that heads column 0 (the row-number column).
   */
  lemma ValueShown<V>(records: seq<map<string, V>>, header: seq<string>,
                      rows: seq<seq<string>>, fmtValue: V -> string, i: nat, k: string)
    requires IsJsonHeader(records, header)
    requires IsJsonRows(records, header, rows, fmtValue)
    requires i < |records| && k in records[i]
    requires k != header[0] || k == "#"
    ensures exists j :: 0 < j < |header| && header[j] == k && rows[i][j] == fmtValue(records[i][k])
  {
    InKeys(records, k);
    JsonHeaderShape(records, header);
    var j: nat;
    if k == "#" {
      j := LaterOccurrence(header, k);
    } else {
      assert k in multiset(header);
      j :| 0 <= j < |header| && header[j] == k;
    }
    assert rows[i][j] == Cell(i, records[i], header, j, fmtValue);
  }

  /** Two runs over the same records build the same content. */
  lemma JsonParseDeterministic<V>(decoded: Result<seq<map<string, V>>, Error>,
                                  fmtValue: V -> string, p1: Parsed, p2: Parsed)
    requires JsonParsed(decoded, fmtValue, p1) && JsonParsed(decoded, fmtValue, p2)
    ensures p1 == p2
  {
    if decoded.Ok? {
      var records := decoded.value;
      StringOrder.SortedUnique(p1.content.header, p2.content.header);
      var rows1, rows2 := p1.content.rows, p2.content.rows;
      forall i | 0 <= i < |rows1| ensures rows1[i] == rows2[i] { }
    }
  }

  /** `[]` gives the header `["#"]` and no rows. */
  lemma JsonEmptyArray<V>(header: seq<string>, rows: seq<seq<string>>, fmtValue: V -> string)
    requires IsJsonHeader<V>([], header) && IsJsonRows<V>([], header, rows, fmtValue)
    ensures header == ["#"] && rows == []
  {
    StringOrder.SortedUnique(header, ["#"]);
  }

  lemma KeysOfPair<V>(m1: map<string, V>, m2: map<string, V>)
    ensures Keys([m1, m2]) == m1.Keys + m2.Keys
  {
    assert [m1, m2][..1] == [m1];
    assert [m1][..0] == [];
    assert Keys([m1]) == m1.Keys;
  }

  lemma TwoRecordsHeader<V>(a: V, b: V, header: seq<string>)
    requires IsJsonHeader([map["x" := a], map["y" := b]], header)
    ensures header == ["#", "x", "y"]
  {
    KeysOfPair(map["x" := a], map["y" := b]);
    assert multiset(Keys([map["x" := a], map["y" := b]])) == multiset{"x", "y"};
    HashXYSorted();
    StringOrder.SortedUnique(header, ["#", "x", "y"]);
  }

  lemma HashXYSorted()
    ensures StringOrder.Sorted(["#", "x", "y"])
  {
  }

  /** `[{"x": a}, {"y": b}]`: columns "#", "x", "y"; each record shows `Missing` for the other's key. */
  lemma JsonTwoRecords<V>(a: V, b: V, header: seq<string>, rows: seq<seq<string>>,
                          fmtValue: V -> string)
    requires IsJsonHeader([map["x" := a], map["y" := b]], header)
    requires IsJsonRows([map["x" := a], map["y" := b]], header, rows, fmtValue)
    ensures header == ["#", "x", "y"]
    ensures rows == [["1", fmtValue(a), Missing], ["2", Missing, fmtValue(b)]]
  {
    TwoRecordsHeader(a, b, header);
    assert Decimal.Itoa(1) == "1" && Decimal.Itoa(2) == "2";
    assert |rows[0]| == 3 && |rows[1]| == 3;
    assert rows[0] == ["1", fmtValue(a), Missing];
    assert rows[1] == ["2", Missing, fmtValue(b)];
  }

  /**
   * `[{"!": v}]`: "!" sorts below "#", so it names column 0, which holds the
   * row number; the value of "!" is not shown and the "#" column shows `Missing`.
   */
  lemma JsonKeyBelowHash<V>(v: V, header: seq<string>, rows: seq<seq<string>>,
                            fmtValue: V -> string)
    requires IsJsonHeader([map["!" := v]], header)
    requires IsJsonRows([map["!" := v]], header, rows, fmtValue)
    ensures header == ["!", "#"]
    ensures rows == [["1", Missing]]
  {
    assert Keys([map["!" := v]]) == {"!"} by {
      assert [map["!" := v]][..0] == [];
    }
    assert StringOrder.Sorted(["!", "#"]) by {
      assert StringOrder.LessEq("!", "#");
    }
    StringOrder.SortedUnique(header, ["!", "#"]);
    assert Decimal.Itoa(1) == "1";
    assert |rows[0]| == 2;
    assert rows[0][0] == "1" && rows[0][1] == Missing;
    assert rows[0] == ["1", Missing];
  }

  /** The header for `[{"!": a, "\"": b}]`. */
  lemma BangQuoteHeader<V>(a: V, b: V, header: seq<string>)
    requires IsJsonHeader([map["!" := a, "\"" := b]], header)
    ensures header == ["!", "\"", "#"]
  {
    assert Keys([map["!" := a, "\"" := b]]) == {"!", "\""} by {
      assert [map["!" := a, "\"" := b]][..0] == [];
    }
    assert multiset({"!", "\""}) == multiset{"!", "\""};
    assert StringOrder.Sorted(["!", "\"", "#"]) by {
      assert StringOrder.LessEq("!", "\"") && StringOrder.LessEq("\"", "#");
    }
    StringOrder.SortedUnique(header, ["!", "\"", "#"]);
  }

  /**
   * `[{"!": a, "\"": b}]`: both keys sort below "#", but only the lowest, "!",
   * takes column 0; the value of "\"" keeps its own column.
   */
  lemma JsonTwoKeysBelowHash<V>(a: V, b: V, header: seq<string>, rows: seq<seq<string>>,
                                fmtValue: V -> string)
    requires IsJsonHeader([map["!" := a, "\"" := b]], header)
    requires IsJsonRows([map["!" := a, "\"" := b]], header, rows, fmtValue)
    ensures header == ["!", "\"", "#"]
    ensures rows == [["1", fmtValue(b), Missing]]
  {
    BangQuoteHeader(a, b, header);
    assert Decimal.Itoa(1) == "1";
    assert |rows[0]| == 3;
    assert rows[0][0] == "1" && rows[0][1] == fmtValue(b) && rows[0][2] == Missing;
    assert rows[0] == ["1", fmtValue(b), Missing];
  }

  /** `[{"#": v}]`: the header holds "#" twice; column 1 shows the record's "#" value. */
  lemma JsonHashKey<V>(v: V, header: seq<string>, rows: seq<seq<string>>,
                       fmtValue: V -> string)
    requires IsJsonHeader([map["#" := v]], header)
    requires IsJsonRows([map["#" := v]], header, rows, fmtValue)
    ensures header == ["#", "#"]
    ensures rows == [["1", fmtValue(v)]]
  {
    assert Keys([map["#" := v]]) == {"#"} by {
      assert [map["#" := v]][..0] == [];
    }
    assert StringOrder.Sorted(["#", "#"]) by {
      StringOrder.LessEqReflexive("#");
    }
    StringOrder.SortedUnique(header, ["#", "#"]);
    assert Decimal.Itoa(1) == "1";
    assert |rows[0]| == 2;
    assert rows[0][0] == "1" && rows[0][1] == fmtValue(v);
    assert rows[0] == ["1", fmtValue(v)];
  }

  // ---------------------------------------------------------------------
  // Clipboard text

  /**
   * The text `tsvPbcopy` hands to the clipboard: each header cell then a
   * tab, a newline, then each row written the same way.
   */
  method TsvPbcopy(c: Content) returns (tsv: string)
    ensures tsv == Tsv.Encode([c.header] + c.rows)
  {
    ghost var table := [c.header] + c.rows;
    ghost var lines := seq(|table|, i requires 0 <= i < |table| => Tsv.Line(table[i]));
    tsv := WriteLine("", c.header);
    Tsv.TerminatedSnoc([], lines[0], Tsv.Newline);
    assert lines[..1] == [] + [lines[0]];
    for i := 0 to |c.rows|
      invariant tsv == Tsv.Terminated(lines[..i + 1], Tsv.Newline)
    {
      Tsv.TerminatedSnoc(lines[..i + 1], lines[i + 1], Tsv.Newline);
      assert lines[..i + 2] == lines[..i + 1] + [lines[i + 1]];
      tsv := WriteLine(tsv, c.rows[i]);
    }
    assert lines[..|c.rows| + 1] == lines;
  }

  /** One line of `tsvPbcopy`: each cell then a tab, then a newline, appended to `tsv`. */
  method WriteLine(tsv: string, cells: seq<string>) returns (out: string)
    ensures out == tsv + Tsv.Line(cells) + "\n"
  {
    out := tsv;
    for j := 0 to |cells|
      invariant out == tsv + Tsv.Terminated(cells[..j], Tsv.Tab)
    {
      Tsv.TerminatedSnoc(cells[..j], cells[j], Tsv.Tab);
      assert cells[..j + 1] == cells[..j] + [cells[j]];
      out := out + cells[j] + "\t";
    }
    assert cells[..|cells|] == cells;
    out := out + "\n";
  }

  // ---------------------------------------------------------------------
  // Format

  /** The input, with the parser chosen for it (the two `Parser` implementations). */
  datatype Input<V> =
    | CsvInput(stream: CsvStream)
    | JsonInput(decoded: Result<seq<map<string, V>>, Error>)

  /** What the chosen parser promises for its input. */
  ghost predicate ParsedFrom<V>(input: Input<V>, fmtValue: V -> string, p: Parsed)
  {
    match input
    case CsvInput(stream) => p == CsvParse(stream)
    case JsonInput(decoded) => JsonParsed(decoded, fmtValue, p)
  }

  /** `p.Parse(r)` through the `Parser` interface. */
  method Parse<V>(input: Input<V>, fmtValue: V -> string) returns (p: Parsed)
    ensures ParsedFrom(input, fmtValue, p)
  {
    match input
    case CsvInput(stream) =>
      p := CsvParse(stream);
    case JsonInput(decoded) =>
      p := JsonParse(decoded, fmtValue);
  }

  /**
   * `Format`: parse; on an error return it and do nothing else; otherwise
   * render the content as a table and, when `enablePbcopy`, copy its
   * tab-separated text. The outputs are the returned error, the content
   * handed to the table renderer and the text handed to the clipboard.
   */
  method Format<V>(input: Input<V>, fmtValue: V -> string, enablePbcopy: bool)
    returns (err: Option<Error>, rendered: Option<Content>, copied: Option<string>)
    ensures err.Some? ==> ParsedFrom(input, fmtValue, Parsed(Empty, err))
    ensures err.Some? ==> rendered == None && copied == None
    ensures err.None? ==> rendered.Some? && ParsedFrom(input, fmtValue, Parsed(rendered.value, None))
    ensures err.None? && enablePbcopy ==>
              copied == Some(Tsv.Encode([rendered.value.header] + rendered.value.rows))
    ensures err.None? && !enablePbcopy ==> copied == None
  {
    var p := Parse(input, fmtValue);
    if p.err.Some? {
      return p.err, None, None;
    }
    rendered := Some(p.content);
    copied := None;
    if enablePbcopy {
      var text := TsvPbcopy(p.content);
      copied := Some(text);
    }
    err := None;
  }
}

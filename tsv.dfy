/**
 * The tab-separated text the table tool puts on the clipboard, and the
 * reading of that text back into cells (split on newlines, then on tabs,
 * dropping the empty piece after the last terminator).
 */
module Tsv {

  const Tab: char := '\t'
  const Newline: char := '\n'

  /** Every piece followed by `sep`: "a", "b" become "a<sep>b<sep>". */
  function Terminated(pieces: seq<string>, sep: char): string
  {
    if pieces == [] then [] else pieces[0] + [sep] + Terminated(pieces[1..], sep)
  }

  /** One line of the text, without its newline: every cell followed by a tab. */
  function Line(cells: seq<string>): string
  {
    Terminated(cells, Tab)
  }

  /** The whole text: every line followed by a newline, in table order. */
  function Encode(table: seq<seq<string>>): string
  {
    Terminated(seq(|table|, i requires 0 <= i < |table| => Line(table[i])), Newline)
  }

  /** The pieces of `s` between occurrences of `sep` (always at least one). */
  function Split(s: string, sep: char): (pieces: seq<string>)
    ensures |pieces| >= 1
  {
    if |s| == 0 then [""]
    else
      var rest := Split(s[1..], sep);
      if s[0] == sep then [""] + rest
      else [[s[0]] + rest[0]] + rest[1..]
  }

  /** No piece that `Split` returns holds the separator. */
  lemma {:induction false} SplitPiecesAvoidSeparator(s: string, sep: char)
    ensures forall i :: 0 <= i < |Split(s, sep)| ==> sep !in Split(s, sep)[i]
  {
    if |s| > 0 {
      SplitPiecesAvoidSeparator(s[1..], sep);
      var rest := Split(s[1..], sep);
      var pieces := Split(s, sep);
      if s[0] != sep {
        forall i | 0 <= i < |pieces|
          ensures sep !in pieces[i]
        {
          if i > 0 { assert pieces[i] == rest[i]; }
        }
      }
    }
  }

  /** Joining back: every piece but the last followed by `sep`, then the last. */
  function Rejoin(pieces: seq<string>, sep: char): string
    requires |pieces| >= 1
  {
    Terminated(pieces[..|pieces| - 1], sep) + pieces[|pieces| - 1]
  }

  /** A character other than `sep` joins onto the front of the first piece. */
  lemma RejoinExtendFirst(c: char, rest: seq<string>, sep: char)
    requires |rest| >= 1
    ensures Rejoin([[c] + rest[0]] + rest[1..], sep) == [c] + Rejoin(rest, sep)
  {
    var pieces := [[c] + rest[0]] + rest[1..];
    if |rest| > 1 {
      var middle := rest[1..|rest| - 1];
      assert pieces[..|pieces| - 1] == [[c] + rest[0]] + middle;
      assert ([[c] + rest[0]] + middle)[1..] == middle;
      assert rest[..|rest| - 1] == [rest[0]] + middle;
      assert ([rest[0]] + middle)[1..] == middle;
    }
  }

  /** A leading `sep` closes an empty first piece. */
  lemma RejoinEmptyFirst(rest: seq<string>, sep: char)
    requires |rest| >= 1
    ensures Rejoin([""] + rest, sep) == [sep] + Rejoin(rest, sep)
  {
    var pieces := [""] + rest;
    assert pieces[..|pieces| - 1] == [""] + rest[..|rest| - 1];
    assert pieces[..|pieces| - 1][1..] == rest[..|rest| - 1];
  }

  /** `Split` inverts `Rejoin`: joining its pieces back gives `s`. */
  lemma {:induction false} SplitRejoins(s: string, sep: char)
    ensures Rejoin(Split(s, sep), sep) == s
  {
    if |s| > 0 {
      var rest := Split(s[1..], sep);
      SplitRejoins(s[1..], sep);
      if s[0] == sep {
        RejoinEmptyFirst(rest, sep);
      } else {
        RejoinExtendFirst(s[0], rest, sep);
      }
      assert s == [s[0]] + s[1..];
    }
  }

  /** The pieces of `s` that a `sep` terminates: `Split` without its last piece. */
  function Fields(s: string, sep: char): seq<string>
  {
    var pieces := Split(s, sep);
    pieces[..|pieces| - 1]
  }

  /** Reads text back into rows of cells. */
  function Decode(text: string): seq<seq<string>>
  {
    var lines := Fields(text, Newline);
    seq(|lines|, i requires 0 <= i < |lines| => Fields(lines[i], Tab))
  }

  /** A cell that the text format can carry unambiguously. */
  predicate Plain(cell: string)
  {
    Tab !in cell && Newline !in cell
  }

  predicate AllPlain(table: seq<seq<string>>)
  {
    forall i, j :: 0 <= i < |table| && 0 <= j < |table[i]| ==> Plain(table[i][j])
  }

  lemma {:induction false} SplitAfterPiece(a: string, b: string, sep: char)
    requires sep !in a
    ensures Split(a + [sep] + b, sep) == [a] + Split(b, sep)
  {
    var s := a + [sep] + b;
    if |a| == 0 {
      assert s[1..] == b;
    } else {
      assert s[1..] == a[1..] + [sep] + b;
      SplitAfterPiece(a[1..], b, sep);
      assert [a[0]] + a[1..] == a;
    }
  }

  /** Splitting terminated pieces gives the pieces back, plus an empty tail. */
  lemma {:induction false} SplitTerminated(pieces: seq<string>, sep: char)
    requires forall i :: 0 <= i < |pieces| ==> sep !in pieces[i]
    ensures Split(Terminated(pieces, sep), sep) == pieces + [""]
  {
    if pieces != [] {
      SplitAfterPiece(pieces[0], Terminated(pieces[1..], sep), sep);
      SplitTerminated(pieces[1..], sep);
      assert [pieces[0]] + pieces[1..] == pieces;
    }
  }

  lemma {:induction false} FieldsTerminated(pieces: seq<string>, sep: char)
    requires forall i :: 0 <= i < |pieces| ==> sep !in pieces[i]
    ensures Fields(Terminated(pieces, sep), sep) == pieces
  {
    SplitTerminated(pieces, sep);
    assert (pieces + [""])[..|pieces|] == pieces;
  }

  /** A character that no piece holds, other than `sep`, is not in the text. */
  lemma {:induction false} TerminatedAvoids(pieces: seq<string>, sep: char, c: char)
    requires c != sep
    requires forall i :: 0 <= i < |pieces| ==> c !in pieces[i]
    ensures c !in Terminated(pieces, sep)
  {
    if pieces != [] {
      TerminatedAvoids(pieces[1..], sep, c);
    }
  }

  /** The number of `sep`s in the text is the number of pieces. */
  lemma {:induction false} TerminatedCount(pieces: seq<string>, sep: char)
    requires forall i :: 0 <= i < |pieces| ==> sep !in pieces[i]
    ensures multiset(Terminated(pieces, sep))[sep] == |pieces|
  {
    if pieces != [] {
      TerminatedCount(pieces[1..], sep);
      var rest := Terminated(pieces[1..], sep);
      assert multiset(pieces[0] + [sep] + rest) == multiset(pieces[0]) + multiset{sep} + multiset(rest);
    }
  }

  /** A line of plain cells holds no newline. */
  lemma LinesWithoutNewline(table: seq<seq<string>>, i: int)
    requires AllPlain(table)
    requires 0 <= i < |table|
    ensures Newline !in Line(table[i])
  {
    TerminatedAvoids(table[i], Tab, Newline);
  }

  /** Round trip: the text of a table of plain cells reads back as that table. */
  lemma DecodeEncode(table: seq<seq<string>>)
    requires AllPlain(table)
    ensures Decode(Encode(table)) == table
  {
    var lines := seq(|table|, i requires 0 <= i < |table| => Line(table[i]));
    forall i | 0 <= i < |lines|
      ensures Newline !in lines[i]
    {
      LinesWithoutNewline(table, i);
    }
    FieldsTerminated(lines, Newline);
    forall i | 0 <= i < |table|
      ensures Fields(lines[i], Tab) == table[i]
    {
      FieldsTerminated(table[i], Tab);
    }
  }

  /** The text holds exactly one newline per table line. */
  lemma NewlinesCountLines(table: seq<seq<string>>)
    requires forall i, j :: 0 <= i < |table| && 0 <= j < |table[i]| ==> Newline !in table[i][j]
    ensures multiset(Encode(table))[Newline] == |table|
  {
    var lines := seq(|table|, i requires 0 <= i < |table| => Line(table[i]));
    forall i | 0 <= i < |lines|
      ensures Newline !in lines[i]
    {
      TerminatedAvoids(table[i], Tab, Newline);
    }
    TerminatedCount(lines, Newline);
  }

  /** Appending a piece appends that piece and its terminator to the text. */
  lemma {:induction false} TerminatedSnoc(pieces: seq<string>, p: string, sep: char)
    ensures Terminated(pieces + [p], sep) == Terminated(pieces, sep) + p + [sep]
  {
    if pieces == [] {
      assert [p][1..] == [];
    } else {
      assert (pieces + [p])[1..] == pieces[1..] + [p];
      TerminatedSnoc(pieces[1..], p, sep);
    }
  }
}

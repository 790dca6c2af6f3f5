/**
 * `parse_table_text`: turn the recognition service's pipe-table text into a
 * header row and the data rows that are not decoration or header echoes.
 * The DataFrame built from the result afterwards is not part of this model.
 */
module TableParser {
  import opened Wrappers
  import opened PyStr
  import Seqs

  type Row = seq<string>

  /** Column names and the kept data rows, each row exactly as it was split. */
  datatype Table = Table(headers: Row, rows: seq<Row>)

  /**
   * The `IndexError` the row filter raises when it looks up a header cell
   * past the end of the header row; `row` is the row being tested.
   */
  datatype ParseError = HeaderIndexOutOfRange(row: Row)

  /** What the `all(...)` test of one row ends in. */
  datatype Verdict =
    | Keep     // some cell is neither filler nor the header cell above it
    | Drop     // every cell is filler or echoes its header cell
    | TooLong  // the test reached a position past the last header cell

  // ---------------------------------------------------------------------------
  // lines and candidate lines

  /** `text.split("\n")`. */
  function Lines(text: string): (lines: seq<string>)
    ensures |lines| >= 1
  {
    Split(text, '\n')
  }

  /** No line holds a newline, and joining the lines with newlines gives the text back. */
  lemma LinesRoundTrip(text: string)
    ensures forall i :: 0 <= i < |Lines(text)| ==> '\n' !in Lines(text)[i]
    ensures Join(Lines(text), '\n') == text
  {
    SplitSpec(text, '\n');
    JoinSplit(text, '\n');
  }

  /** The first character of `line` that is not whitespace is a pipe. */
  predicate IsCandidate(line: string)
  {
    var t := LStrip(line, Whitespace);
    t != [] && t[0] == '|'
  }

  /** `IsCandidate` is Python's `line.strip().startswith("|")`. */
  lemma CandidateIsStripStartsWithPipe(line: string)
    ensures IsCandidate(line) <==>
      Strip(line, Whitespace) != [] && Strip(line, Whitespace)[0] == '|'
  {
    var l := LStrip(line, Whitespace);
    LStripSpec(line, Whitespace);
    RStripSpec(l, Whitespace);
    if l != [] {
      assert l[0] !in Whitespace;
    }
  }

  /** The candidate lines, in their original order. */
  function Candidates(lines: seq<string>): (c: seq<string>)
    ensures |c| <= |lines|
  {
    if lines == [] then []
    else (if IsCandidate(lines[0]) then [lines[0]] else []) + Candidates(lines[1..])
  }

  /** There are no candidates exactly when no line is one. */
  lemma {:induction false} NoCandidatesIff(lines: seq<string>)
    ensures Candidates(lines) == [] <==> forall i :: 0 <= i < |lines| ==> !IsCandidate(lines[i])
  {
    if lines != [] {
      NoCandidatesIff(lines[1..]);
      Seqs.TailIndex(lines);
    }
  }

  /** Looking at one more line. */
  lemma CandidatesSnoc(lines: seq<string>, line: string)
    ensures Candidates(lines + [line]) == Candidates(lines) + if IsCandidate(line) then [line] else []
  {
    CandidatesConcat(lines, [line]);
    Seqs.TailOfConcat([line], []);
    Seqs.ConcatEmpty([line]);
  }

  /** Filtering distributes over concatenation. */
  lemma {:induction false} CandidatesConcat(xs: seq<string>, ys: seq<string>)
    ensures Candidates(xs + ys) == Candidates(xs) + Candidates(ys)
  {
    if xs == [] {
      Seqs.ConcatEmpty(ys);
    } else {
      CandidatesConcat(xs[1..], ys);
      Seqs.TailOfConcat(xs, ys);
      var head := if IsCandidate(xs[0]) then [xs[0]] else [];
      Seqs.ConcatAssoc(head, Candidates(xs[1..]), Candidates(ys));
    }
  }

  // ---------------------------------------------------------------------------
  // cells

  /**
   * `[cell.strip() for cell in line.strip("|").split("|")]`: pipes are stripped
   * from the raw line, not the trimmed one, so spaces or a carriage return
   * outside the outer pipes leave an empty edge cell.
   */
  function SplitCells(line: string): (cells: Row)
    ensures |cells| >= 1
  {
    var parts := Split(Strip(line, {'|'}), '|');
    seq(|parts|, i requires 0 <= i < |parts| => Strip(parts[i], Whitespace))
  }

  /**
   * There is one cell more than there are pipes inside the pipe-stripped
   * line, and every cell is free of pipes and of surrounding whitespace.
   */
  lemma SplitCellsShape(line: string)
    ensures |SplitCells(line)| == Count(Strip(line, {'|'}), '|') + 1
    ensures forall i :: 0 <= i < |SplitCells(line)| ==>
      '|' !in SplitCells(line)[i] && Strip(SplitCells(line)[i], Whitespace) == SplitCells(line)[i]
  {
    var parts := Split(Strip(line, {'|'}), '|');
    var cells := SplitCells(line);
    SplitSpec(Strip(line, {'|'}), '|');
    forall i | 0 <= i < |cells|
      ensures '|' !in cells[i] && Strip(cells[i], Whitespace) == cells[i]
    {
      var lo := StripIsInfix(parts[i], Whitespace);
      assert forall c :: c in cells[i] ==> c in parts[i];
      StripIdempotent(parts[i], Whitespace);
    }
  }

  /** One of the four values a cell may take without making its row worth keeping. */
  predicate IsFiller(cell: string, header: string)
  {
    cell == "" || cell == "------" || cell == "-" || cell == header
  }

  /**
   * `all(cell in ["", "------", "-", headers[i]] for i, cell in enumerate(cells))`,
   * walked position by position as the generator does: the list literal reads
   * `headers[i]` before the membership test, so reaching a position with no
   * header cell fails whatever the cell holds.
   */
  function RowVerdict(cells: Row, headers: Row): Verdict
  {
    if cells == [] then Drop
    else if headers == [] then TooLong
    else if !IsFiller(cells[0], headers[0]) then Keep
    else RowVerdict(cells[1..], headers[1..])
  }

  /**
   * The drop rule: a row is dropped exactly when it is no longer than the
   * headers and every cell is filler or its header cell; the test fails
   * exactly when the row is longer and its first `|headers|` cells all pass;
   * otherwise some cell within the headers' width fails and the row is kept.
   */
  lemma {:induction false} RowVerdictMeaning(cells: Row, headers: Row)
    ensures RowVerdict(cells, headers) == Drop <==>
      |cells| <= |headers| && forall i :: 0 <= i < |cells| ==> IsFiller(cells[i], headers[i])
    ensures RowVerdict(cells, headers) == TooLong <==>
      |cells| > |headers| && forall i :: 0 <= i < |headers| ==> IsFiller(cells[i], headers[i])
    ensures RowVerdict(cells, headers) == Keep <==>
      exists i :: 0 <= i < |cells| && i < |headers| && !IsFiller(cells[i], headers[i])
  {
    if cells != [] && headers != [] && IsFiller(cells[0], headers[0]) {
      RowVerdictMeaning(cells[1..], headers[1..]);
      assert forall i :: 1 <= i < |cells| && i < |headers| ==>
        cells[1..][i - 1] == cells[i] && headers[1..][i - 1] == headers[i];
      if RowVerdict(cells, headers) == Keep {
        var j :| 0 <= j < |cells| - 1 && j < |headers| - 1 && !IsFiller(cells[1..][j], headers[1..][j]);
        assert !IsFiller(cells[j + 1], headers[j + 1]);
      }
    }
  }

  // ---------------------------------------------------------------------------
  // the parse as a specification

  /**
   * The data rows kept from the candidate lines that follow the header line,
   * or the error raised by the first row whose test runs past the headers.
   */
  function KeptRows(headers: Row, lines: seq<string>): (r: Result<seq<Row>, ParseError>)
  {
    if lines == [] then Ok([])
    else
      var cells := SplitCells(lines[0]);
      match RowVerdict(cells, headers)
      case TooLong => Err(HeaderIndexOutOfRange(cells))
      case Drop => KeptRows(headers, lines[1..])
      case Keep =>
        match KeptRows(headers, lines[1..])
        case Ok(rest) => Ok([cells] + rest)
        case Err(e) => Err(e)
  }

  /** What `parse_table_text` hands to the DataFrame constructor, or the error it raises first. */
  function ParseTable(text: string): Result<Table, ParseError>
  {
    ParseLines(Lines(text))
  }

  /** The parse of text already split into lines. */
  function ParseLines(lines: seq<string>): Result<Table, ParseError>
  {
    var c := Candidates(lines);
    if c == [] then Ok(Table([], []))
    else
      var headers := SplitCells(c[0]);
      match KeptRows(headers, c[1..])
      case Ok(rows) => Ok(Table(headers, rows))
      case Err(e) => Err(e)
  }

  /** Processing one more line: the shape the parsing loop follows. */
  lemma {:induction false} KeptRowsSnoc(headers: Row, lines: seq<string>, line: string)
    ensures KeptRows(headers, lines + [line]) ==
      match KeptRows(headers, lines)
      case Err(e) => Err(e)
      case Ok(rows) =>
        match RowVerdict(SplitCells(line), headers)
        case TooLong => Err(HeaderIndexOutOfRange(SplitCells(line)))
        case Drop => Ok(rows)
        case Keep => Ok(rows + [SplitCells(line)])
  {
    if lines == [] {
      Seqs.ConcatEmpty([line]);
      Seqs.TailOfConcat([line], []);
      Seqs.ConcatEmpty([SplitCells(line)]);
    } else {
      Seqs.TailOfConcat(lines, [line]);
      KeptRowsSnoc(headers, lines[1..], line);
      var cells := SplitCells(lines[0]);
      var last := SplitCells(line);
      match RowVerdict(cells, headers) {
        case TooLong =>
        case Drop =>
        case Keep =>
          match KeptRows(headers, lines[1..]) {
            case Ok(rest) =>
              Seqs.ConcatAssoc([cells], rest, [last]);
            case Err(_) =>
          }
      }
    }
  }

  /** Once a row has raised, the lines after it change nothing. */
  lemma {:induction false} KeptRowsErrSticks(headers: Row, lines: seq<string>, more: seq<string>)
    requires KeptRows(headers, lines).Err?
    ensures KeptRows(headers, lines + more) == KeptRows(headers, lines)
  {
    Seqs.TailOfConcat(lines, more);
    if RowVerdict(SplitCells(lines[0]), headers) != TooLong {
      KeptRowsErrSticks(headers, lines[1..], more);
    }
  }

  /** An error raised while reading the first `n` lines is the result of the whole parse. */
  lemma ParseStopsAtError(lines: seq<string>, n: nat, headers: Row, c: seq<string>)
    requires n <= |lines| && c == Candidates(lines[..n]) && c != []
    requires headers == SplitCells(c[0]) && KeptRows(headers, c[1..]).Err?
    ensures ParseLines(lines) == Err(KeptRows(headers, c[1..]).error)
  {
    var after := lines[n..];
    Seqs.PrefixSuffix(lines, n);
    CandidatesConcat(lines[..n], after);
    var rest := Candidates(after);
    Seqs.TailOfConcat(c, rest);
    KeptRowsErrSticks(headers, c[1..], rest);
  }

  // ---------------------------------------------------------------------------
  // what the parse promises

  /** The first candidate line and the candidates after it. */
  lemma {:induction false} FirstCandidate(lines: seq<string>) returns (j: nat)
    requires Candidates(lines) != []
    ensures j < |lines| && IsCandidate(lines[j])
    ensures forall k :: 0 <= k < j ==> !IsCandidate(lines[k])
    ensures Candidates(lines) == [lines[j]] + Candidates(lines[j + 1..])
  {
    if IsCandidate(lines[0]) {
      j := 0;
    } else {
      var j' := FirstCandidate(lines[1..]);
      j := j' + 1;
      assert lines[1..][j' + 1..] == lines[j + 1..];
      Seqs.TailIndex(lines);
    }
  }

  /**
   * Text without a single candidate line parses, without error, to a table
   * with no headers and no rows; text with one never gives that table.
   */
  lemma NoCandidateLinesGiveEmptyTable(text: string)
    ensures (forall i :: 0 <= i < |Lines(text)| ==> !IsCandidate(Lines(text)[i]))
        <==> ParseTable(text) == Ok(Table([], []))
  {
    NoCandidatesIff(Lines(text));
  }

  /**
   * The headers are the cells of the first candidate line, whatever it holds
   * (a separator row included), and there is at least one of them.
   */
  lemma HeadersAreFirstCandidate(text: string) returns (j: nat)
    requires Candidates(Lines(text)) != []
    ensures j < |Lines(text)| && IsCandidate(Lines(text)[j])
    ensures forall k :: 0 <= k < j ==> !IsCandidate(Lines(text)[k])
    ensures ParseTable(text).Ok? ==>
      ParseTable(text).value.headers == SplitCells(Lines(text)[j]) &&
      |ParseTable(text).value.headers| >= 1
  {
    j := FirstCandidate(Lines(text));
  }

  /** The filter fails exactly when some row's test runs past the headers. */
  lemma {:induction false} KeptRowsOkIff(headers: Row, lines: seq<string>)
    ensures KeptRows(headers, lines).Ok? <==>
      forall j :: 0 <= j < |lines| ==> RowVerdict(SplitCells(lines[j]), headers) != TooLong
  {
    if lines != [] {
      KeptRowsOkIff(headers, lines[1..]);
      Seqs.TailIndex(lines);
    }
  }

  /**
   * The kept rows are the cells of exactly those lines whose verdict is
   * `Keep`, each unmodified and in input order: `idx` lists their positions.
   */
  lemma {:induction false} KeptRowsSelection(headers: Row, lines: seq<string>) returns (idx: seq<nat>)
    requires KeptRows(headers, lines).Ok?
    ensures |idx| == |KeptRows(headers, lines).value| <= |lines|
    ensures forall k :: 0 <= k < |idx| ==>
      idx[k] < |lines| && KeptRows(headers, lines).value[k] == SplitCells(lines[idx[k]])
    ensures forall k, m :: 0 <= k < m < |idx| ==> idx[k] < idx[m]
    ensures forall j :: 0 <= j < |lines| ==>
      (j in idx <==> RowVerdict(SplitCells(lines[j]), headers) == Keep)
  {
    if lines == [] {
      idx := [];
    } else {
      var rest := KeptRowsSelection(headers, lines[1..]);
      idx := SelectionStep(headers, lines, KeptRows(headers, lines[1..]).value, rest);
    }
  }

  /** `idx` lists, in increasing order, the positions of `lines` whose verdict is `Keep`, and `rows` holds their cells. */
  ghost predicate IsSelection(headers: Row, lines: seq<string>, rows: seq<Row>, idx: seq<nat>)
  {
    && |idx| == |rows| <= |lines|
    && (forall k :: 0 <= k < |idx| ==> idx[k] < |lines| && rows[k] == SplitCells(lines[idx[k]]))
    && (forall k, m :: 0 <= k < m < |idx| ==> idx[k] < idx[m])
    && (forall j :: 0 <= j < |lines| ==> (j in idx <==> RowVerdict(SplitCells(lines[j]), headers) == Keep))
  }

  /** One step of `KeptRowsSelection`: a selection of the tail extends to one of the whole list. */
  lemma SelectionStep(headers: Row, lines: seq<string>, rows: seq<Row>, rest: seq<nat>) returns (idx: seq<nat>)
    requires lines != [] && KeptRows(headers, lines[1..]) == Ok(rows)
    requires KeptRows(headers, lines).Ok?
    requires IsSelection(headers, lines[1..], rows, rest)
    ensures IsSelection(headers, lines, KeptRows(headers, lines).value, idx)
  {
    var shifted := seq(|rest|, k requires 0 <= k < |rest| => rest[k] + 1);
    ShiftedSelection(headers, lines, rows, rest, shifted);
    if RowVerdict(SplitCells(lines[0]), headers) == Keep {
      idx := [0] + shifted;
      assert KeptRows(headers, lines).value == [SplitCells(lines[0])] + rows;
      PrependSelection(headers, lines, rows, shifted);
    } else {
      idx := shifted;
    }
  }

  /** Positions of the tail, shifted by one, select the same rows among the positions after the first. */
  lemma ShiftedSelection(headers: Row, lines: seq<string>, rows: seq<Row>, rest: seq<nat>, shifted: seq<nat>)
    requires lines != []
    requires IsSelection(headers, lines[1..], rows, rest)
    requires |shifted| == |rest| && forall k :: 0 <= k < |rest| ==> shifted[k] == rest[k] + 1
    ensures |shifted| == |rows| && |rows| + 1 <= |lines|
    ensures forall k :: 0 <= k < |shifted| ==> 1 <= shifted[k] < |lines| && rows[k] == SplitCells(lines[shifted[k]])
    ensures forall k, m :: 0 <= k < m < |shifted| ==> shifted[k] < shifted[m]
    ensures forall j :: 1 <= j < |lines| ==> (j in shifted <==> RowVerdict(SplitCells(lines[j]), headers) == Keep)
    ensures 0 !in shifted
  {
    Seqs.TailIndex(lines);
    forall j | 1 <= j < |lines|
      ensures j in shifted <==> j - 1 in rest
    {
      ShiftedIn(rest, shifted, j - 1);
    }
    assert 0 !in shifted;
  }

  /** Prepending position 0 to a selection of the positions after the first. */
  lemma PrependSelection(headers: Row, lines: seq<string>, rows: seq<Row>, shifted: seq<nat>)
    requires lines != [] && RowVerdict(SplitCells(lines[0]), headers) == Keep
    requires |shifted| == |rows| && |rows| + 1 <= |lines|
    requires forall k :: 0 <= k < |shifted| ==> 1 <= shifted[k] < |lines| && rows[k] == SplitCells(lines[shifted[k]])
    requires forall k, m :: 0 <= k < m < |shifted| ==> shifted[k] < shifted[m]
    requires forall j :: 1 <= j < |lines| ==> (j in shifted <==> RowVerdict(SplitCells(lines[j]), headers) == Keep)
    ensures IsSelection(headers, lines, [SplitCells(lines[0])] + rows, [0] + shifted)
  {
    PrependRows(lines, rows, shifted);
    PrependPositions(headers, lines, shifted);
  }

  /** With position 0 in front, each listed position still names the line its row came from. */
  lemma PrependRows(lines: seq<string>, rows: seq<Row>, shifted: seq<nat>)
    requires lines != [] && |shifted| == |rows|
    requires forall k :: 0 <= k < |shifted| ==> 1 <= shifted[k] < |lines| && rows[k] == SplitCells(lines[shifted[k]])
    ensures forall k :: 0 <= k < |shifted| + 1 ==>
      ([0] + shifted)[k] < |lines| && ([SplitCells(lines[0])] + rows)[k] == SplitCells(lines[([0] + shifted)[k]])
  {
    var idx := [0] + shifted;
    var all := [SplitCells(lines[0])] + rows;
    forall k | 0 <= k < |idx|
      ensures idx[k] < |lines| && all[k] == SplitCells(lines[idx[k]])
    {
      if k > 0 {
        assert idx[k] == shifted[k - 1] && all[k] == rows[k - 1];
      }
    }
  }

  /** With position 0 in front, the listed positions are exactly those whose verdict is `Keep`. */
  lemma PrependPositions(headers: Row, lines: seq<string>, shifted: seq<nat>)
    requires lines != [] && RowVerdict(SplitCells(lines[0]), headers) == Keep
    requires forall j :: 1 <= j < |lines| ==> (j in shifted <==> RowVerdict(SplitCells(lines[j]), headers) == Keep)
    ensures forall j :: 0 <= j < |lines| ==> (j in [0] + shifted <==> RowVerdict(SplitCells(lines[j]), headers) == Keep)
  {
    forall j | 0 <= j < |lines|
      ensures j in [0] + shifted <==> RowVerdict(SplitCells(lines[j]), headers) == Keep
    {
      if j > 0 {
        assert j in [0] + shifted <==> j in shifted;
      }
    }
  }

  /** Adding one to every position of a list of positions. */
  lemma ShiftedIn(rest: seq<nat>, shifted: seq<nat>, j: nat)
    requires |shifted| == |rest|
    requires forall k :: 0 <= k < |rest| ==> shifted[k] == rest[k] + 1
    ensures j + 1 in shifted <==> j in rest
  {
    if j in rest {
      var k :| 0 <= k < |rest| && rest[k] == j;
      assert shifted[k] == j + 1;
    }
    if j + 1 in shifted {
      var k :| 0 <= k < |shifted| && shifted[k] == j + 1;
      assert rest[k] == j;
    }
  }

  /**
   * The parse fails exactly when some candidate line after the first has
   * more cells than the headers while all of its first `|headers|` cells
   * are filler or echo their header; rows no longer than the headers never fail.
   */
  lemma ParseFailsIff(text: string)
    ensures ParseTable(text).Err? <==>
      var c := Candidates(Lines(text));
      c != [] && exists j :: 1 <= j < |c| && RunsPastHeaders(SplitCells(c[j]), SplitCells(c[0]))
  {
    var c := Candidates(Lines(text));
    if c != [] {
      var headers := SplitCells(c[0]);
      KeptRowsOkIff(headers, c[1..]);
      forall j | 1 <= j < |c|
        ensures c[1..][j - 1] == c[j]
        ensures RowVerdict(SplitCells(c[j]), headers) == TooLong <==> RunsPastHeaders(SplitCells(c[j]), headers)
      {
        RowVerdictMeaning(SplitCells(c[j]), headers);
      }
    }
  }

  /** The row is longer than the headers and its first `|headers|` cells are all filler or header echoes. */
  ghost predicate RunsPastHeaders(cells: Row, headers: Row)
  {
    |cells| > |headers| && forall i :: 0 <= i < |headers| ==> IsFiller(cells[i], headers[i])
  }

  /**
   * When the parse succeeds, each kept row is the cells of a later candidate
   * line that has a cell, within the headers' width, that is neither filler
   * nor its header cell; every such line is kept; the order is the input order.
   */
  lemma ParseKeepsExactlyTheDataRows(text: string) returns (idx: seq<nat>)
    requires ParseTable(text).Ok? && Candidates(Lines(text)) != []
    ensures var c := Candidates(Lines(text)); var t := ParseTable(text).value;
      |idx| == |t.rows| &&
      (forall k, m :: 0 <= k < m < |idx| ==> idx[k] < idx[m]) &&
      (forall k :: 0 <= k < |idx| ==> 1 <= idx[k] < |c| && t.rows[k] == SplitCells(c[idx[k]])) &&
      (forall j :: 1 <= j < |c| ==> (j in idx <==> HasDataCell(SplitCells(c[j]), t.headers)))
  {
    var c := Candidates(Lines(text));
    var headers := SplitCells(c[0]);
    assert ParseTable(text).value == Table(headers, KeptRows(headers, c[1..]).value);
    idx := DataRowsOf(headers, c);
  }

  /** `ParseKeepsExactlyTheDataRows` for the candidate lines `c`, whose first line gave `headers`. */
  lemma DataRowsOf(headers: Row, c: seq<string>) returns (idx: seq<nat>)
    requires c != [] && KeptRows(headers, c[1..]).Ok?
    ensures var rows := KeptRows(headers, c[1..]).value;
      |idx| == |rows| &&
      (forall k, m :: 0 <= k < m < |idx| ==> idx[k] < idx[m]) &&
      (forall k :: 0 <= k < |idx| ==> 1 <= idx[k] < |c| && rows[k] == SplitCells(c[idx[k]])) &&
      (forall j :: 1 <= j < |c| ==> (j in idx <==> HasDataCell(SplitCells(c[j]), headers)))
  {
    var rest := KeptRowsSelection(headers, c[1..]);
    idx := seq(|rest|, k requires 0 <= k < |rest| => rest[k] + 1);
    Seqs.TailIndex(c);
    forall j | 1 <= j < |c|
      ensures j in idx <==> HasDataCell(SplitCells(c[j]), headers)
    {
      ShiftedIn(rest, idx, j - 1);
      RowVerdictMeaning(SplitCells(c[j]), headers);
    }
  }

  /** Some cell within the headers' width is neither filler nor its header cell. */
  ghost predicate HasDataCell(cells: Row, headers: Row)
  {
    exists i :: 0 <= i < |cells| && i < |headers| && !IsFiller(cells[i], headers[i])
  }

  /**
   * Pipes are stripped from the raw line: a carriage return left at the end
   * of a row keeps its last pipe in place and so adds an empty cell.
   */
  lemma CarriageReturnAddsEmptyCell()
    ensures SplitCells("|A|B|\r") == ["A", "B", ""]
  {
    CarriageReturnPieces();
    assert '\r' in Whitespace;
    StripEmptyIff("\r", Whitespace);
    assert Strip("A", Whitespace) == "A" && Strip("B", Whitespace) == "B";
  }

  /** Only the leading pipe of `"|A|B|\r"` is stripped, so the carriage return becomes a piece. */
  lemma CarriageReturnPieces()
    ensures Split(Strip("|A|B|\r", {'|'}), '|') == ["A", "B", "\r"]
  {
    var line := "|A|B|\r";
    StripUnique(line, {'|'}, 1, |line|);
    assert line[1..|line|] == Join(["A", "B", "\r"], '|');
    SplitJoin(["A", "B", "\r"], '|');
  }

  /** A row that repeats the headers exactly is dropped. */
  lemma HeaderEchoIsDropped(headers: Row)
    ensures RowVerdict(headers, headers) == Drop
  {
    RowVerdictMeaning(headers, headers);
  }

  /**
   * Splitting a row written the markdown way, `"|" + cells joined by "|" + "|"`,
   * gives the cells back, provided the outer cells are not empty (otherwise
   * `strip("|")` would eat their pipes too) and no cell holds a pipe or
   * surrounding whitespace.
   */
  lemma PipeRowRoundTrip(cells: Row)
    requires |cells| >= 1 && cells[0] != [] && cells[|cells| - 1] != []
    requires forall i :: 0 <= i < |cells| ==> '|' !in cells[i] && Strip(cells[i], Whitespace) == cells[i]
    ensures SplitCells("|" + Join(cells, '|') + "|") == cells
  {
    var line := "|" + Join(cells, '|') + "|";
    assert Strip(line, {'|'}) == Join(cells, '|') by {
      PipeRowStrip(cells);
    }
    assert Split(Join(cells, '|'), '|') == cells by {
      SplitJoin(cells, '|');
    }
  }

  /** `strip("|")` takes exactly the two outer pipes off a markdown row with non-empty outer cells. */
  lemma PipeRowStrip(cells: Row)
    requires |cells| >= 1 && cells[0] != [] && cells[|cells| - 1] != []
    requires forall i :: 0 <= i < |cells| ==> '|' !in cells[i]
    ensures Strip("|" + Join(cells, '|') + "|", {'|'}) == Join(cells, '|')
  {
    var inner := Join(cells, '|');
    var line := "|" + inner + "|";
    JoinFirst(cells, '|');
    JoinLast(cells, '|');
    assert line[1..|line| - 1] == inner;
    assert line[1] == cells[0][0];
    assert line[|line| - 2] == cells[|cells| - 1][|cells[|cells| - 1]| - 1];
    StripUnique(line, {'|'}, 1, |line| - 1);
  }

  /** A join starts with the first character of the first piece. */
  lemma JoinFirst(parts: seq<string>, sep: char)
    requires |parts| >= 1 && parts[0] != []
    ensures |Join(parts, sep)| >= 1 && Join(parts, sep)[0] == parts[0][0]
  {
  }

  /** A join ends with the last character of the last piece. */
  lemma {:induction false} JoinLast(parts: seq<string>, sep: char)
    requires |parts| >= 1 && parts[|parts| - 1] != []
    ensures |Join(parts, sep)| >= 1
    ensures Join(parts, sep)[|Join(parts, sep)| - 1] == parts[|parts| - 1][|parts[|parts| - 1]| - 1]
  {
    if |parts| > 1 {
      JoinLast(parts[1..], sep);
    }
  }

  /**
   * The row test stops at the first cell that is neither filler nor its
   * header cell, so a row longer than the headers is kept, with all its
   * cells, when such a cell comes within the headers' width.
   */
  lemma LongDataRowIsKept()
    ensures RowVerdict(["x", "y", "z"], ["A", "B"]) == Keep
  {
    assert !IsFiller("x", "A");
  }

  /** Three dashes are not filler: a `|---|---|` row under headers `A`, `B` is kept. */
  lemma ThreeDashRowIsKept()
    ensures RowVerdict(SplitCells("|---|---|"), ["A", "B"]) == Keep
  {
    assert Strip("---", Whitespace) == "---";
    PipeRowRoundTrip(["---", "---"]);
    assert "|" + Join(["---", "---"], '|') + "|" == "|---|---|";
  }

  /**
   * A separator row with one cell more than the headers makes the whole
   * parse fail: its two dashes pass, and the third position has no header.
   */
  lemma LongSeparatorRowFails()
    ensures ParseTable("|A|B|\n|-|-|-|") == Err(HeaderIndexOutOfRange(["-", "-", "-"]))
  {
    var header, row := "|A|B|", "|-|-|-|";
    ExampleLines();
    TwoCandidates(header, row);
    ExampleCells();
    DashRowRunsPast();
    assert KeptRows(["A", "B"], [row]) == Err(HeaderIndexOutOfRange(["-", "-", "-"]));
  }

  /** The text of `LongSeparatorRowFails` has two lines. */
  lemma ExampleLines()
    ensures Lines("|A|B|\n|-|-|-|") == ["|A|B|", "|-|-|-|"]
  {
    assert Join(["|A|B|", "|-|-|-|"], '\n') == "|A|B|\n|-|-|-|";
    SplitJoin(["|A|B|", "|-|-|-|"], '\n');
  }

  /** Two dashes pass under `A` and `B`; the third has no header. */
  lemma DashRowRunsPast()
    ensures RowVerdict(["-", "-", "-"], ["A", "B"]) == TooLong
  {
    RowVerdictMeaning(["-", "-", "-"], ["A", "B"]);
  }

  /** The cells of the two lines of `LongSeparatorRowFails`. */
  lemma ExampleCells()
    ensures SplitCells("|A|B|") == ["A", "B"] && SplitCells("|-|-|-|") == ["-", "-", "-"]
  {
    HeaderCells();
    DashCells();
  }

  /** The header line `|A|B|` splits into `A` and `B`. */
  lemma HeaderCells()
    ensures SplitCells("|A|B|") == ["A", "B"]
  {
    assert Strip("A", Whitespace) == "A" && Strip("B", Whitespace) == "B";
    PipeRowRoundTrip(["A", "B"]);
    assert "|" + Join(["A", "B"], '|') + "|" == "|A|B|";
  }

  /** The row `|-|-|-|` splits into three single dashes. */
  lemma DashCells()
    ensures SplitCells("|-|-|-|") == ["-", "-", "-"]
  {
    assert Strip("-", Whitespace) == "-";
    PipeRowRoundTrip(["-", "-", "-"]);
    assert "|" + Join(["-", "-", "-"], '|') + "|" == "|-|-|-|";
  }

  /** Two lines that both start with a pipe: a header line and one data row. */
  lemma TwoCandidates(header: string, row: string)
    requires header != [] && header[0] == '|' && row != [] && row[0] == '|'
    ensures ParseLines([header, row]) ==
      match KeptRows(SplitCells(header), [row])
      case Ok(rows) => Ok(Table(SplitCells(header), rows))
      case Err(e) => Err(e)
  {
    assert '|' !in Whitespace;
    assert IsCandidate(header) && IsCandidate(row);
    assert [header, row][1..] == [row] && [row][1..] == [];
    assert Candidates([header, row]) == [header, row];
  }

  // ---------------------------------------------------------------------------
  // the parsing loop

  /**
   * The loop's state after reading lines whose candidates are `c`: nothing
   * before the first candidate, then its cells as headers and the rows kept
   * from the candidates after it.
   */
  ghost predicate ReadSoFar(c: seq<string>, headers: Row, data: seq<Row>)
  {
    if c == [] then headers == [] && data == []
    else headers == SplitCells(c[0]) && KeptRows(headers, c[1..]) == Ok(data)
  }

  /** A data row that passes the test is appended or skipped, as its verdict says. */
  lemma ReadRow(c: seq<string>, headers: Row, data: seq<Row>, line: string)
    requires ReadSoFar(c, headers, data) && headers != []
    requires RowVerdict(SplitCells(line), headers) != TooLong
    ensures ReadSoFar(c + [line], headers,
      if RowVerdict(SplitCells(line), headers) == Keep then data + [SplitCells(line)] else data)
  {
    Seqs.TailOfConcat(c, [line]);
    KeptRowsSnoc(headers, c[1..], line);
  }

  /** A data row whose test runs past the headers ends the whole parse with that row's error. */
  lemma ReadTooLongRow(lines: seq<string>, i: nat, c: seq<string>, headers: Row, data: seq<Row>)
    requires i < |lines| && c == Candidates(lines[..i])
    requires ReadSoFar(c, headers, data) && headers != []
    requires IsCandidate(lines[i])
    requires RowVerdict(SplitCells(lines[i]), headers) == TooLong
    ensures ParseLines(lines) == Err(HeaderIndexOutOfRange(SplitCells(lines[i])))
  {
    var line := lines[i];
    Seqs.PrefixSnoc(lines, i);
    CandidatesSnoc(lines[..i], line);
    Seqs.TailOfConcat(c, [line]);
    KeptRowsSnoc(headers, c[1..], line);
    ParseStopsAtError(lines, i + 1, headers, c + [line]);
  }

  /**
   * `parse_table_text` up to the DataFrame construction: one pass over the
   * lines, the first candidate line fixing the headers and every later one
   * tested and either appended or skipped.
   */
  method ParseTableText(text: string) returns (r: Result<Table, ParseError>)
    ensures r == ParseTable(text)
  {
    var lines := Lines(text);
    var headers: Row := [];
    var data: seq<Row> := [];
    ghost var c: seq<string> := [];
    var i := 0;
    while i < |lines|
      invariant 0 <= i <= |lines|
      invariant c == Candidates(lines[..i])
      invariant ReadSoFar(c, headers, data)
    {
      var line := lines[i];
      Seqs.PrefixSnoc(lines, i);
      CandidatesSnoc(lines[..i], line);
      if IsCandidate(line) {
        var cells := SplitCells(line);
        if headers == [] {
          headers := cells;
        } else {
          var v := RowVerdict(cells, headers);
          if v == TooLong {
            ReadTooLongRow(lines, i, c, headers, data);
            return Err(HeaderIndexOutOfRange(cells));
          }
          ReadRow(c, headers, data, line);
          if v == Keep {
            data := data + [cells];
          }
        }
        c := c + [line];
      }
      i := i + 1;
    }
    assert lines[..i] == lines;
    r := Ok(Table(headers, data));
  }
}

# PDF table extractor: retry loop and pipe-table parser

`new.py` is a small web app. It sends an uploaded PDF to a text-recognition
service, asks for the tables as markdown pipe-table text, and turns that text
into a spreadsheet. This project models the two pieces of real logic in it
and proves what they do:

- **`parse_table_text`** (`TableParser`). The text is split on `"\n"`. A line
  whose first non-whitespace character is `|` is a *candidate line*. The first
  candidate line gives the headers. Each later candidate line is split into
  cells. A row is dropped when every cell is `""`, `"------"`, `"-"` or the
  header cell above it; otherwise it is kept. The row test reads `headers[i]`
  at every position it visits. A row longer than the headers, whose first
  cells all pass, therefore raises an `IndexError`. The model returns that as
  the error `HeaderIndexOutOfRange`. `ParseTable` is the specification as a
  function. `ParseTableText` is the source's loop, proved equal to it.
- **The retry loop of `extract_table_from_pdf`** (`Extractor`). Each attempt
  asks the service for text. A reply is accepted when all three hold: it is
  non-empty, it contains `" | "`, and the number of candidate lines minus one
  is at least `min_rows_expected`. The loop returns the first accepted reply.
  It pauses after every rejected attempt, the last one included. After
  `max_retries` rejections it gives up. The service is a parameter
  `reply: nat -> Option<string>`: `reply(k)` is what attempt `k` returns, and
  `None` stands for a reply without text. The pause is only counted.

Supporting modules:

- `PyStr` models the Python string operations the code relies on:
  - `str.strip()` with Python's whitespace set;
  - `str.strip("|")`;
  - `str.split` on a one-character separator;
  - `"sep".join`;
  - the substring test `in`.
- `Wrappers` holds the `Option` and `Result` types.
- `Seqs` holds small lemmas about sequence slicing.

Kept rows are not checked against the header count; the model follows the
code. A kept row may have fewer or more cells than the headers. A longer row
is kept when a data cell appears within the headers' width, and raises
`HeaderIndexOutOfRange` otherwise.

The loop pauses after every rejected attempt, the last one included, so on
failure `backoffs == attempts`.

## Model

| member | source | states |
|---|---|---|
| PyStr.LStripSpec | new.py:65 | Left stripping removes a prefix made only of the given characters and stops at the first character outside them. |
| PyStr.RStripSpec | new.py:65 | Right stripping removes a suffix made only of the given characters and stops at the last character outside them. |
| PyStr.StripIsInfix | new.py:66 | `strip` returns an infix of its input. Everything around the infix is a stripped character; the infix neither starts nor ends with one. |
| PyStr.StripEmptyIff | new.py:65 | A string strips to nothing exactly when all its characters are stripped characters. |
| PyStr.StripUnique | new.py:66 | Any infix with the characterisation of `StripIsInfix` is the result of `strip`, so that characterisation is complete. |
| PyStr.StripIdempotent | new.py:66 | Stripping twice gives the same result as stripping once. |
| PyStr.SplitSpec | new.py:60 | `split` gives pieces with no separator in them, and one more piece than there are separators. |
| PyStr.JoinSplit | new.py:60 | Joining the pieces of a split with the separator gives back the original string. |
| PyStr.SplitJoin | new.py:66 | Splitting a join of one or more separator-free pieces gives back those pieces. |
| TableParser.Lines | new.py:60 | `text.split("\n")` always has at least one line. |
| TableParser.LinesRoundTrip | new.py:60 | No line contains a newline, and joining the lines with newlines gives back the text. |
| TableParser.CandidateIsStripStartsWithPipe | new.py:65 | A line is a candidate exactly when `line.strip()` is non-empty and starts with `\|`. |
| TableParser.NoCandidatesIff | new.py:64-65 | Filtering yields no candidate lines exactly when no line is a candidate. |
| TableParser.CandidatesConcat | new.py:64-65 | Filtering candidate lines distributes over concatenation, which keeps the input order. |
| TableParser.SplitCells | new.py:66 | Splitting a line always gives at least one cell. |
| TableParser.SplitCellsShape | new.py:66 | There is one cell more than there are pipes inside the pipe-stripped line. Every cell is free of pipes and of surrounding whitespace. |
| TableParser.PipeRowRoundTrip | new.py:66 | For a markdown row `\|c1\|...\|cn\|` with non-empty outer cells and cells without pipes or surrounding whitespace, splitting gives back exactly `c1..cn`. |
| TableParser.CarriageReturnAddsEmptyCell | new.py:66 | `"\|A\|B\|\r"` splits into `A`, `B` and an empty cell, because the pipes are stripped from the raw line. |
| TableParser.RowVerdictMeaning | new.py:71 | The row test has three outcomes. Drop: the row is no longer than the headers and every cell is filler or its header cell. Index error: the row is longer and its first `len(headers)` cells all pass. Keep: some cell within the headers' width fails. Each outcome holds exactly when its condition does. |
| TableParser.HeaderEchoIsDropped | new.py:70-71 | A row equal to the headers is dropped. |
| TableParser.LongDataRowIsKept | new.py:71 | The row test stops at the first data cell: `x`, `y`, `z` under headers `A`, `B` is kept with all three cells. |
| TableParser.ThreeDashRowIsKept | new.py:71 | `---` is not filler, so `\|---\|---\|` under headers `A`, `B` is kept. |
| TableParser.KeptRowsSnoc | new.py:64-72 | Reading one more line: an earlier error stays. Otherwise the line is appended, skipped or turned into the error, as its verdict says. |
| TableParser.KeptRowsErrSticks | new.py:71 | Once a row raises the error, later lines do not change the result. |
| TableParser.ParseStopsAtError | new.py:71 | An error raised while reading a prefix of the lines is the result of the whole parse. |
| TableParser.FirstCandidate | new.py:64-68 | The candidates start with the first line that is one; no earlier line is a candidate. |
| TableParser.NoCandidateLinesGiveEmptyTable | new.py:60-65 | Text with no candidate line parses, without error, to empty headers and no rows. Text with one never parses to that. |
| TableParser.HeadersAreFirstCandidate | new.py:66-68 | The headers are the cells of the first candidate line, whatever that line holds, and there is at least one header. |
| TableParser.KeptRowsOkIff | new.py:69-72 | The rows after the header parse without error exactly when no row's test runs past the headers. |
| TableParser.KeptRowsSelection | new.py:69-72 | The kept rows are the unmodified cells of exactly the lines whose verdict is Keep, in input order, and there are at most as many as there were lines. |
| TableParser.ParseFailsIff | new.py:64-72 | The parse fails exactly when some candidate line after the first runs past the headers with all its first `len(headers)` cells passing. |
| TableParser.ParseKeepsExactlyTheDataRows | new.py:64-72 | A successful parse keeps, in order and unmodified, exactly the later candidate lines that have a cell within the headers' width that is neither filler nor its header cell. |
| TableParser.DataRowsOf | new.py:69-72 | The same statement, for a list of candidate lines and the headers taken from its first line. |
| TableParser.LongSeparatorRowFails | new.py:71 | `"\|A\|B\|\n\|-\|-\|-\|"` fails with the index error on the row `-`, `-`, `-`. |
| TableParser.ReadRow | new.py:69-72 | A later row whose test passes or fails cleanly keeps the loop state in line with the specification function. |
| TableParser.ReadTooLongRow | new.py:71 | A later row whose test runs past the headers makes the whole parse that row's error. |
| TableParser.ParseTableText | new.py:59-73 | The loop over lines returns exactly `ParseTable(text)`. |
| Extractor.EstimateRange | new.py:39-41 | The row estimate `len(table_rows) - 1` is at least -1, and it is -1 exactly when no line is a candidate. |
| Extractor.ParsedRowsWithinEstimate | new.py:40-41 | When the parse of the same text succeeds, it keeps at most `max(estimate, 0)` rows. Its headers are empty exactly when the estimate is -1. |
| Extractor.NoSpaceNoSeparator | new.py:38 | Text without a space never contains `" \| "`. |
| Extractor.BarePipesRejected | new.py:38 | A pipe table written without spaces, `"\|a\|b\|\n\|c\|d\|"`, is rejected whatever the minimum. |
| Extractor.NegativeEstimateAccepted | new.py:38-45 | `"a \| b"` has estimate -1. It is accepted with a minimum of -1 and rejected with a minimum of 0, because the test is `>=`. |
| Extractor.FirstAcceptedMeaning | new.py:31-47 | `FirstAccepted` finds nothing exactly when every attempt is rejected. It finds `k` exactly when attempt `k` is accepted and every earlier attempt is rejected. |
| Extractor.FirstAcceptedStable | new.py:45-47 | Once an attempt is accepted, allowing more attempts does not change the outcome. |
| Extractor.SecondAttemptAccepted | new.py:31-50 | A reply without text, followed by an acceptable reply, means the second reply is the one taken. |
| Extractor.ExtractTableText | new.py:31-54 | The loop makes at most `max(max_retries, 0)` attempts. On success it returns the first accepted reply, after `k + 1` attempts and `k` pauses. When every attempt is rejected it returns `None` after exactly `max(max_retries, 0)` attempts and as many pauses. |

## Left out

- The web page, the file uploader, the status messages, the results table and the module-level script (new.py:1-20, 87-103). These are presentation only, except that line 87 reads `api_key`, which is never defined because line 17 is commented out, so the script raises `NameError` as soon as a file is uploaded and never reaches the extraction.
- The recognition-service client, the upload and the content request (new.py:24, 29, 33-36). These are network calls. They are replaced by the `reply` parameter, one reply per attempt.
- new.py:24 passes an expression built from undefined names (a pasted key read as one name minus another) to the client instead of the `api_key` parameter. Evaluating it raises `NameError` inside the `try`, so as written every call returns `None`. The model describes the loop as it would run with a working client.
- The exception branch (new.py:55-57). It is not modelled, beyond noting that it yields `None`.
- The temporary file and its removal (new.py:25-27, 46, 52). This is file I/O.
- `time.sleep(2)` (new.py:50). It is counted in `backoffs`; time is not modelled.
- `pd.DataFrame(data, columns=headers)` (new.py:74). The model stops at the headers and rows handed to it; how the library treats rows of a different length is not modelled.
- `get_excel_download_link` (new.py:77-85). It wraps the spreadsheet, base64 and HTML libraries.
- Python strings may hold lone surrogate code points; Dafny's `char` cannot. Such text is not modelled.

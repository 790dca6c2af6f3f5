/**
 * The retry loop of `extract_table_from_pdf`: ask the recognition service
 * for pipe-table text up to `max_retries` times and return the first reply
 * that looks like a table with enough data rows.
 *
 * The service is a parameter `reply`: `reply(k)` is the text of the reply to
 * attempt `k` (counting from 0), `None` when the reply carries no text.
 * Uploading the PDF, the temporary file and the status messages are not
 * part of this model; the pause after a rejected attempt is only counted.
 */
module Extractor {
  import opened Wrappers
  import opened PyStr
  import opened TableParser

  // ---------------------------------------------------------------------------
  // the acceptance rule

  /** `len(table_rows) - 1`: the candidate lines less the header line; -1 when there are none. */
  function EstimateDataRows(text: string): int
  {
    |Candidates(Lines(text))| - 1
  }

  /** The three tests one reply must pass: text, a `" | "` in it, and enough estimated rows. */
  predicate Accepts(text: string, minRowsExpected: int)
  {
    text != [] && Contains(text, " | ") && EstimateDataRows(text) >= minRowsExpected
  }

  /** A reply without text fails the first test. */
  predicate AcceptsReply(response: Option<string>, minRowsExpected: int)
  {
    response.Some? && Accepts(response.value, minRowsExpected)
  }

  /** The attempts `range(max_retries)` allows: none when the bound is zero or negative. */
  function Budget(maxRetries: int): nat
  {
    if maxRetries < 0 then 0 else maxRetries
  }

  /** The estimate is never below -1, and it is -1 exactly when no line is a candidate. */
  lemma EstimateRange(text: string)
    ensures EstimateDataRows(text) >= -1
    ensures EstimateDataRows(text) == -1 <==>
      forall i :: 0 <= i < |Lines(text)| ==> !IsCandidate(Lines(text)[i])
  {
    NoCandidatesIff(Lines(text));
  }

  /**
   * The estimate bounds what the parser keeps from the same text: when the
   * parse succeeds it keeps at most `max(estimate, 0)` rows, and it has
   * headers exactly when the estimate is at least 0.
   */
  lemma ParsedRowsWithinEstimate(text: string)
    requires ParseTable(text).Ok?
    ensures |ParseTable(text).value.rows| <= if EstimateDataRows(text) < 0 then 0 else EstimateDataRows(text)
    ensures ParseTable(text).value.headers == [] <==> EstimateDataRows(text) == -1
  {
    var c := Candidates(Lines(text));
    if c != [] {
      var headers := SplitCells(c[0]);
      var idx := KeptRowsSelection(headers, c[1..]);
    }
  }

  /** A text without any space cannot hold `" | "`. */
  lemma NoSpaceNoSeparator(text: string)
    requires ' ' !in text
    ensures !Contains(text, " | ")
  {
    forall i | 0 <= i <= |text| - 3
      ensures !OccursAt(text, " | ", i)
    {
      assert text[i..i + 3][0] == text[i];
    }
  }

  /**
   * A bare pipe is not enough: a two-row pipe table written without spaces
   * is rejected whatever the minimum.
   */
  lemma BarePipesRejected(minRowsExpected: int)
    ensures !Accepts("|a|b|\n|c|d|", minRowsExpected)
  {
    NoSpaceNoSeparator("|a|b|\n|c|d|");
  }

  /** One line without a newline splits into itself. */
  lemma OneLine(text: string)
    requires '\n' !in text
    ensures Lines(text) == [text]
  {
    SplitJoin([text], '\n');
  }

  /**
   * The comparison is `>=` and the estimate may be -1: with a minimum of -1
   * a text holding `" | "` but no candidate line is accepted, and with a
   * minimum of 0 it is not.
   */
  lemma NegativeEstimateAccepted()
    ensures EstimateDataRows("a | b") == -1
    ensures Accepts("a | b", -1) && !Accepts("a | b", 0)
  {
    OneLine("a | b");
    assert 'a' !in Whitespace;
    assert OccursAt("a | b", " | ", 1);
  }

  // ---------------------------------------------------------------------------
  // the retry loop

  /** The first of the attempts `0 .. n - 1` whose reply is accepted, if any. */
  function FirstAccepted(reply: nat -> Option<string>, n: nat, minRowsExpected: int): Option<nat>
  {
    if n == 0 then None
    else match FirstAccepted(reply, n - 1, minRowsExpected)
      case Some(k) => Some(k)
      case None => if AcceptsReply(reply(n - 1), minRowsExpected) then Some(n - 1) else None
  }

  /**
   * `FirstAccepted` finds nothing exactly when every attempt is rejected,
   * and finds `k` exactly when attempt `k` is the first accepted one.
   */
  lemma {:induction false} FirstAcceptedMeaning(reply: nat -> Option<string>, n: nat, minRowsExpected: int)
    ensures FirstAccepted(reply, n, minRowsExpected) == None <==>
      forall j :: 0 <= j < n ==> !AcceptsReply(reply(j), minRowsExpected)
    ensures forall k: nat :: FirstAccepted(reply, n, minRowsExpected) == Some(k) <==>
      k < n && AcceptsReply(reply(k), minRowsExpected) &&
      forall j :: 0 <= j < k ==> !AcceptsReply(reply(j), minRowsExpected)
  {
    if n > 0 {
      FirstAcceptedMeaning(reply, n - 1, minRowsExpected);
    }
  }

  /** Once an attempt is accepted, allowing more attempts changes nothing. */
  lemma {:induction false} FirstAcceptedStable(reply: nat -> Option<string>, n: nat, m: nat, minRowsExpected: int)
    requires n <= m && FirstAccepted(reply, n, minRowsExpected).Some?
    ensures FirstAccepted(reply, m, minRowsExpected) == FirstAccepted(reply, n, minRowsExpected)
  {
    if n < m {
      FirstAcceptedStable(reply, n, m - 1, minRowsExpected);
    }
  }

  /**
   * A reply without text on the first attempt and an acceptable one on the
   * second: with three attempts allowed, the second is the one returned.
   */
  lemma SecondAttemptAccepted()
    ensures var reply := (k: nat) => if k == 0 then None else Some("a | b");
      FirstAccepted(reply, Budget(3), -1) == Some(1)
  {
    NegativeEstimateAccepted();
  }

  /**
   * The retry loop. It returns the text of the first accepted reply among
   * the `Budget(maxRetries)` attempts it may make, having made that attempt
   * last and paused after each earlier one; when no reply is accepted it
   * makes every attempt, pauses after each, the last included, and returns
   * `None`.
   */
  method ExtractTableText(reply: nat -> Option<string>, maxRetries: int, minRowsExpected: int)
    returns (text: Option<string>, attempts: nat, backoffs: nat)
    ensures attempts <= Budget(maxRetries)
    ensures match FirstAccepted(reply, Budget(maxRetries), minRowsExpected)
      case Some(k) => text == reply(k) && attempts == k + 1 && backoffs == k
      case None => text == None && attempts == backoffs == Budget(maxRetries)
  {
    attempts := 0;
    backoffs := 0;
    while attempts < Budget(maxRetries)
      invariant attempts <= Budget(maxRetries)
      invariant backoffs == attempts
      invariant FirstAccepted(reply, attempts, minRowsExpected) == None
    {
      var response := reply(attempts);
      attempts := attempts + 1;
      if response.Some? && response.value != [] && Contains(response.value, " | ") {
        var tableRows := Candidates(Lines(response.value));
        var dataRows := |tableRows| - 1;
        if dataRows >= minRowsExpected {
          FirstAcceptedStable(reply, attempts, Budget(maxRetries), minRowsExpected);
          return response, attempts, backoffs;
        }
      }
      backoffs := backoffs + 1;
    }
    text := None;
  }
}

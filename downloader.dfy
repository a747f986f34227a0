/** `download_images_from_txt` (src/utils/parser.py:101-182): each selected
    line of the link file is read as a download link, normalised into a file
    name, and recorded as one row of the download log. What the request for
    every link gives (a status code, or an exception that ends the run) is
    an input, as are the line numbers drawn for a random test run. */
module Downloader {
  import opened Text
  import opened UrlPattern
  import opened Normalizer
  import opened Validator
  import Crawler

  /** The `status` column: downloaded, the server answered with another
      code than 200, the link does not have the expected format. */
  const Downloaded: nat := 1
  const BadCode: nat := 2
  const BadFormat: nat := 3

  /** One row of the download log, columns in the order the writer has
      them; `None` is a cell Python leaves empty. */
  datatype Row = Row(
    lineNumber: nat, date: Option<string>, number: Option<string>, page: Option<string>,
    status: nat, link: string, filename: Option<string>, extension: Option<string>)

  /** Whether the line numbered `lineNumber` (from 1) is processed: the raw
      line, newline included, is compared with `failed`, and in a random
      run only the drawn numbers are taken. */
  predicate Selected(lineNumber: nat, line: string, numRandom: int, numbers: set<int>) {
    line != "failed" && (numRandom == 0 || (numRandom > 0 && lineNumber in numbers))
  }

  /** `line.strip().split(',')[-1]` */
  function LinkOf(line: string): string {
    var parts := Split(Strip(line), ',');
    parts[|parts| - 1]
  }

  /** What `requests.get` does with a link: it returns a response with a
      status code, or it raises (a connection error, a timeout, an address
      it cannot fetch), and nothing catches the exception. */
  datatype Answer = Response(code: int) | Raised

  /** The row of a line whose link does not have the expected format. */
  function Unmatched(lineNumber: nat, link: string): Row {
    Row(lineNumber, None, None, None, BadFormat, link, None, None)
  }

  /** The row written for one processed line, given the link it holds and
      the status code the server answers a request for that link with. */
  function RowFor(lineNumber: nat, link: string, code: int): Row {
    match Normalize(link)
    case None => Unmatched(lineNumber, link)
    case Some(n) =>
      Row(lineNumber, Some(Date(n)), Some(n.number), Some(n.page),
        if code == 200 then Downloaded else BadCode, link, Some(FileName(n)), Some(n.extension))
  }

  /** What processing one line gives: its row, or `None` when the request
      for its link raises. Only a link that matches is requested. */
  function Outcome(lineNumber: nat, link: string, answer: Answer): Option<Row> {
    match answer
    case Response(code) => Some(RowFor(lineNumber, link, code))
    case Raised => if Normalize(link).None? then Some(Unmatched(lineNumber, link)) else None
  }

  /** What one line does to the log: it is skipped, its request raises, or
      it adds its row. */
  datatype Turn = Skip | Stop | Add(row: Row)

  /** What line `n` (from 1), holding `line`, whose request does `answer`,
      does. */
  function TurnOf(n: nat, line: string, answer: Answer, numRandom: int, numbers: set<int>): Turn {
    if !Selected(n, line, numRandom, numbers) then Skip
    else match Outcome(n, LinkOf(line), answer)
      case None => Stop
      case Some(row) => Add(row)
  }

  /** What each of the first `k` lines does; `answers[i]` is what the
      request for line `i + 1` does. */
  function Turns(lines: seq<string>, answers: seq<Answer>, numRandom: int, numbers: set<int>, k: nat): (ts: seq<Turn>)
    requires k <= |lines| == |answers|
    ensures |ts| == k
  {
    if k == 0 then [] else Turns(lines, answers, numRandom, numbers, k - 1) + [TurnOf(k, lines[k - 1], answers[k - 1], numRandom, numbers)]
  }

  /** The turn at index `n - 1` is line `n`'s own. */
  lemma {:induction false} TurnIndex(lines: seq<string>, answers: seq<Answer>, numRandom: int, numbers: set<int>, k: nat, n: nat)
    requires 1 <= n <= k <= |lines| == |answers|
    ensures Turns(lines, answers, numRandom, numbers, k)[n - 1] == TurnOf(n, lines[n - 1], answers[n - 1], numRandom, numbers)
  {
    if n < k {
      TurnIndex(lines, answers, numRandom, numbers, k - 1, n);
    }
  }

  /** What the loop leaves behind: the rows logged, and whether it stopped
      on an exception. */
  datatype Log = Log(rows: seq<Row>, raised: bool)

  /** The log after one more line; after an exception nothing changes. */
  function Step(log: Log, turn: Turn): Log {
    if log.raised then log
    else match turn
      case Skip => log
      case Stop => Log(log.rows, true)
      case Add(row) => Log(log.rows + [row], false)
  }

  /** The log after the first `k` turns. */
  function Replay(turns: seq<Turn>, k: nat): Log
    requires k <= |turns|
  {
    if k == 0 then Log([], false) else Step(Replay(turns, k - 1), turns[k - 1])
  }

  /** The log after the first `k` lines. */
  function Run(lines: seq<string>, answers: seq<Answer>, numRandom: int, numbers: set<int>, k: nat): Log
    requires k <= |lines| == |answers|
  {
    Replay(Turns(lines, answers, numRandom, numbers, |lines|), k)
  }

  /** Line `n` (from 1) is processed and the request for its link raises. */
  predicate RaisesAt(lines: seq<string>, answers: seq<Answer>, numRandom: int, numbers: set<int>, n: nat)
    requires 1 <= n <= |lines| == |answers|
  {
    Selected(n, lines[n - 1], numRandom, numbers) && Outcome(n, LinkOf(lines[n - 1]), answers[n - 1]).None?
  }

  /** How many rows carry the given status. */
  function CountStatus(rows: seq<Row>, status: nat): nat {
    if rows == [] then 0
    else CountStatus(rows[..|rows| - 1], status) + if rows[|rows| - 1].status == status then 1 else 0
  }

  /** The file names the downloaded images are saved under. */
  function SavedNames(rows: seq<Row>): set<string> {
    set j | 0 <= j < |rows| && rows[j].status == Downloaded && rows[j].filename.Some? :: rows[j].filename.value
  }

  /** The counters and the download directory agree with the rows logged so
      far. */
  predicate Tallied(rows: seq<Row>, success: nat, failedCode: nat, failedFormat: nat, saved: set<string>, dir: set<string>) {
    && success == CountStatus(rows, Downloaded)
    && failedCode == CountStatus(rows, BadCode)
    && failedFormat == CountStatus(rows, BadFormat)
    && saved == dir + SavedNames(rows)
  }

  /** Logging one row: it is appended, the counter of its status goes up,
      and a downloaded image is saved under its file name. */
  method Record(rows: seq<Row>, success: nat, failedCode: nat, failedFormat: nat, saved: set<string>, dir: set<string>, row: Row)
    returns (rows': seq<Row>, success': nat, failedCode': nat, failedFormat': nat, saved': set<string>)
    requires Tallied(rows, success, failedCode, failedFormat, saved, dir)
    ensures rows' == rows + [row]
    ensures Tallied(rows', success', failedCode', failedFormat', saved', dir)
  {
    Append(rows, row);
    rows', success', failedCode', failedFormat', saved' := rows + [row], success, failedCode, failedFormat, saved;
    if row.status == Downloaded {
      success' := success + 1;
      if row.filename.Some? {
        saved' := saved + {row.filename.value};
      }
    } else if row.status == BadCode {
      failedCode' := failedCode + 1;
    } else if row.status == BadFormat {
      failedFormat' := failedFormat + 1;
    }
  }

  /** The loop over the lines of the link file: one log row per processed
      line, the three counters, and the names written into the download
      directory, which starts out holding `dir`. A request that raises ends
      the run there, and `raised` says whether that happened. */
  method DownloadImages(lines: seq<string>, answers: seq<Answer>, numRandom: int, numbers: set<int>, dir: set<string>)
    returns (rows: seq<Row>, success: nat, failedCode: nat, failedFormat: nat, saved: set<string>, raised: bool)
    requires |answers| == |lines|
    ensures rows == Run(lines, answers, numRandom, numbers, |lines|).rows
    ensures raised == Run(lines, answers, numRandom, numbers, |lines|).raised
    ensures Tallied(rows, success, failedCode, failedFormat, saved, dir)
  {
    rows, success, failedCode, failedFormat, saved, raised := [], 0, 0, 0, dir, false;
    for i := 0 to |lines|
      invariant rows == Run(lines, answers, numRandom, numbers, i).rows && !Run(lines, answers, numRandom, numbers, i).raised
      invariant Tallied(rows, success, failedCode, failedFormat, saved, dir)
    {
      rows, success, failedCode, failedFormat, saved, raised :=
        ProcessLine(lines, answers, numRandom, numbers, dir, i, rows, success, failedCode, failedFormat, saved);
      if raised {
        RaisedStops(lines, answers, numRandom, numbers, i + 1, |lines|);
        return;
      }
    }
  }

  /** One turn of the loop: line `i + 1` is read and, unless it is skipped
      or its request raises, its row is logged. */
  method ProcessLine(lines: seq<string>, answers: seq<Answer>, numRandom: int, numbers: set<int>, dir: set<string>, i: nat,
    rows: seq<Row>, success: nat, failedCode: nat, failedFormat: nat, saved: set<string>)
    returns (rows': seq<Row>, success': nat, failedCode': nat, failedFormat': nat, saved': set<string>, raised: bool)
    requires i < |lines| == |answers|
    requires rows == Run(lines, answers, numRandom, numbers, i).rows && !Run(lines, answers, numRandom, numbers, i).raised
    requires Tallied(rows, success, failedCode, failedFormat, saved, dir)
    ensures rows' == Run(lines, answers, numRandom, numbers, i + 1).rows && raised == Run(lines, answers, numRandom, numbers, i + 1).raised
    ensures Tallied(rows', success', failedCode', failedFormat', saved', dir)
  {
    TurnIndex(lines, answers, numRandom, numbers, |lines|, i + 1);
    rows', success', failedCode', failedFormat', saved', raised := rows, success, failedCode, failedFormat, saved, false;
    if Selected(i + 1, lines[i], numRandom, numbers) {
      var outcome := Outcome(i + 1, LinkOf(lines[i]), answers[i]);
      if outcome.None? {
        raised := true;
      } else {
        rows', success', failedCode', failedFormat', saved' := Record(rows, success, failedCode, failedFormat, saved, dir, outcome.value);
      }
    }
  }

  /** Appending a row bumps the count of its own status only, and adds its
      file name to the saved ones when it was downloaded. */
  lemma Append(rows: seq<Row>, row: Row)
    ensures forall s :: CountStatus(rows + [row], s) == CountStatus(rows, s) + if row.status == s then 1 else 0
    ensures SavedNames(rows + [row]) ==
      SavedNames(rows) + if row.status == Downloaded && row.filename.Some? then {row.filename.value} else {}
  {
    var r := rows + [row];
    assert r[..|rows|] == rows;
    assert forall j :: 0 <= j < |rows| ==> r[j] == rows[j];
    assert r[|rows|] == row;
  }

  /** Every row of the given statuses counts once, under its own status. */
  lemma {:induction false} CountsOfStatuses(rows: seq<Row>)
    requires forall j :: 0 <= j < |rows| ==> rows[j].status in {Downloaded, BadCode, BadFormat}
    ensures CountStatus(rows, Downloaded) + CountStatus(rows, BadCode) + CountStatus(rows, BadFormat) == |rows|
  {
    if rows != [] {
      var init := rows[..|rows| - 1];
      assert forall j :: 0 <= j < |init| ==> init[j] == rows[j];
      CountsOfStatuses(init);
    }
  }

  /** Each turn that adds a row adds one numbered as its line. */
  predicate Numbered(turns: seq<Turn>) {
    forall i :: 0 <= i < |turns| && turns[i].Add? ==> turns[i].row.lineNumber == i + 1
  }

  /** The log has ended by turn `k` exactly when one of the first `k`
      turns raised. */
  lemma {:induction false} ReplayRaised(turns: seq<Turn>, k: nat)
    requires k <= |turns|
    ensures Replay(turns, k).raised <==> exists i :: 0 <= i < k && turns[i].Stop?
  {
    if k > 0 {
      ReplayRaised(turns, k - 1);
      if turns[k - 1].Stop? {
        assert 0 <= k - 1 < k && turns[k - 1].Stop?;
      }
    }
  }

  /** Once ended, the log does not change. */
  lemma {:induction false} ReplayStops(turns: seq<Turn>, k: nat, k': nat)
    requires k <= k' <= |turns| && Replay(turns, k).raised
    ensures Replay(turns, k') == Replay(turns, k)
    decreases k' - k
  {
    if k < k' {
      ReplayStops(turns, k, k' - 1);
    }
  }

  /** Every row is the one its own line's turn adds, at a line among the
      first `k`, with the log not ended by that line. */
  lemma {:induction false} ReplayRows(turns: seq<Turn>, k: nat)
    requires Numbered(turns) && k <= |turns|
    ensures forall j :: 0 <= j < |Replay(turns, k).rows| ==>
      && 1 <= Replay(turns, k).rows[j].lineNumber <= k
      && turns[Replay(turns, k).rows[j].lineNumber - 1] == Add(Replay(turns, k).rows[j])
      && !Replay(turns, Replay(turns, k).rows[j].lineNumber).raised
  {
    if k > 0 {
      ReplayRows(turns, k - 1);
      var prev := Replay(turns, k - 1).rows;
      var rows := Replay(turns, k).rows;
      if !Replay(turns, k - 1).raised && turns[k - 1].Add? {
        var row := turns[k - 1].row;
        assert rows == prev + [row] && !Replay(turns, k).raised;
        assert row.lineNumber == k;
        forall j | 0 <= j < |rows|
          ensures 1 <= rows[j].lineNumber <= k && turns[rows[j].lineNumber - 1] == Add(rows[j]) && !Replay(turns, rows[j].lineNumber).raised
        {
          if j < |prev| {
            assert rows[j] == prev[j];
          } else {
            assert rows[j] == row;
          }
        }
      } else {
        assert rows == prev;
        assert forall j :: 0 <= j < |prev| ==> 1 <= prev[j].lineNumber;
      }
    }
  }

  /** The rows come in the order of their lines, each line at most once. */
  lemma {:induction false} ReplayOrdered(turns: seq<Turn>, k: nat)
    requires Numbered(turns) && k <= |turns|
    ensures forall j, j' :: 0 <= j < j' < |Replay(turns, k).rows| ==> Replay(turns, k).rows[j].lineNumber < Replay(turns, k).rows[j'].lineNumber
  {
    if k > 0 {
      ReplayOrdered(turns, k - 1);
      var prev := Replay(turns, k - 1).rows;
      var rows := Replay(turns, k).rows;
      if !Replay(turns, k - 1).raised && turns[k - 1].Add? {
        ReplayRows(turns, k - 1);
        var row := turns[k - 1].row;
        assert rows == prev + [row];
        assert row.lineNumber == k;
        assert forall j :: 0 <= j < |prev| ==> rows[j] == prev[j];
        assert rows[|prev|] == row;
      } else {
        assert rows == prev;
      }
    }
  }

  /** Every line among the first `k` that is not skipped and that the log
      reaches without having ended has a row. */
  lemma {:induction false} ReplayComplete(turns: seq<Turn>, k: nat)
    requires Numbered(turns) && k <= |turns|
    ensures forall n :: 1 <= n <= k && !turns[n - 1].Skip? && !Replay(turns, n).raised ==>
      exists j :: 0 <= j < |Replay(turns, k).rows| && Replay(turns, k).rows[j].lineNumber == n
  {
    if k > 0 {
      ReplayComplete(turns, k - 1);
      var prev := Replay(turns, k - 1).rows;
      var rows := Replay(turns, k).rows;
      if !Replay(turns, k - 1).raised && turns[k - 1].Add? {
        var row := turns[k - 1].row;
        assert rows == prev + [row];
        assert row.lineNumber == k;
        forall n | 1 <= n <= k && !turns[n - 1].Skip? && !Replay(turns, n).raised
          ensures exists j :: 0 <= j < |rows| && rows[j].lineNumber == n
        {
          if n == k {
            assert rows[|prev|] == row;
          } else {
            var j :| 0 <= j < |prev| && prev[j].lineNumber == n;
            assert rows[j] == prev[j];
          }
        }
        assert forall n :: 1 <= n <= k && !turns[n - 1].Skip? && !Replay(turns, n).raised ==>
          exists j :: 0 <= j < |Replay(turns, k).rows| && Replay(turns, k).rows[j].lineNumber == n;
      } else {
        assert rows == prev;
        forall n | 1 <= n <= k && !turns[n - 1].Skip? && !Replay(turns, n).raised
          ensures exists j :: 0 <= j < |rows| && rows[j].lineNumber == n
        {
          assert n < k;
          var j :| 0 <= j < |prev| && prev[j].lineNumber == n;
          assert rows[j] == prev[j];
        }
        assert forall n :: 1 <= n <= k && !turns[n - 1].Skip? && !Replay(turns, n).raised ==>
          exists j :: 0 <= j < |Replay(turns, k).rows| && Replay(turns, k).rows[j].lineNumber == n;
      }
    }
  }

  /** What a line's turn says about the line. */
  lemma TurnOfCases(n: nat, line: string, answer: Answer, numRandom: int, numbers: set<int>)
    ensures TurnOf(n, line, answer, numRandom, numbers).Skip? <==> !Selected(n, line, numRandom, numbers)
    ensures TurnOf(n, line, answer, numRandom, numbers).Stop? <==> Selected(n, line, numRandom, numbers) && Outcome(n, LinkOf(line), answer).None?
    ensures TurnOf(n, line, answer, numRandom, numbers).Add? ==>
      && Selected(n, line, numRandom, numbers) && Outcome(n, LinkOf(line), answer) == Some(TurnOf(n, line, answer, numRandom, numbers).row)
      && TurnOf(n, line, answer, numRandom, numbers).row.lineNumber == n
  {
    if TurnOf(n, line, answer, numRandom, numbers).Add? {
      OutcomeRow(n, LinkOf(line), answer);
    }
  }

  /** A turn that adds a row adds one of its own line. */
  lemma TurnsNumbered(lines: seq<string>, answers: seq<Answer>, numRandom: int, numbers: set<int>)
    requires |lines| == |answers|
    ensures Numbered(Turns(lines, answers, numRandom, numbers, |lines|))
  {
    var turns := Turns(lines, answers, numRandom, numbers, |lines|);
    forall i | 0 <= i < |turns| && turns[i].Add?
      ensures turns[i].row.lineNumber == i + 1
    {
      TurnAdds(lines, answers, numRandom, numbers, i + 1, turns[i].row);
    }
  }

  /** The turn of line `n` (from 1) is a skip exactly when the line is not
      processed, and raises exactly when its request does. */
  lemma TurnAt(lines: seq<string>, answers: seq<Answer>, numRandom: int, numbers: set<int>, n: nat)
    requires 1 <= n <= |lines| == |answers|
    ensures Turns(lines, answers, numRandom, numbers, |lines|)[n - 1].Skip? <==> !Selected(n, lines[n - 1], numRandom, numbers)
    ensures Turns(lines, answers, numRandom, numbers, |lines|)[n - 1].Stop? <==> RaisesAt(lines, answers, numRandom, numbers, n)
  {
    TurnIndex(lines, answers, numRandom, numbers, |lines|, n);
    TurnOfCases(n, lines[n - 1], answers[n - 1], numRandom, numbers);
  }

  /** A turn that adds a row is a processed line whose request gives that
      row. */
  lemma TurnAdds(lines: seq<string>, answers: seq<Answer>, numRandom: int, numbers: set<int>, n: nat, row: Row)
    requires 1 <= n <= |lines| == |answers| && Turns(lines, answers, numRandom, numbers, |lines|)[n - 1] == Add(row)
    ensures Selected(n, lines[n - 1], numRandom, numbers)
    ensures Outcome(n, LinkOf(lines[n - 1]), answers[n - 1]) == Some(row)
    ensures row.lineNumber == n
  {
    TurnIndex(lines, answers, numRandom, numbers, |lines|, n);
    TurnOfCases(n, lines[n - 1], answers[n - 1], numRandom, numbers);
  }

  /** The run has ended by line `k` exactly when the request of some
      processed line up to `k` raised. */
  lemma RaisedMeans(lines: seq<string>, answers: seq<Answer>, numRandom: int, numbers: set<int>, k: nat)
    requires k <= |lines| == |answers|
    ensures Run(lines, answers, numRandom, numbers, k).raised <==> exists n :: 1 <= n <= k && RaisesAt(lines, answers, numRandom, numbers, n)
  {
    var turns := Turns(lines, answers, numRandom, numbers, |lines|);
    ReplayRaised(turns, k);
    if Run(lines, answers, numRandom, numbers, k).raised {
      var i :| 0 <= i < k && turns[i].Stop?;
      TurnAt(lines, answers, numRandom, numbers, i + 1);
      assert 1 <= i + 1 <= k && RaisesAt(lines, answers, numRandom, numbers, i + 1);
    }
    if exists n :: 1 <= n <= k && RaisesAt(lines, answers, numRandom, numbers, n) {
      var n :| 1 <= n <= k && RaisesAt(lines, answers, numRandom, numbers, n);
      TurnAt(lines, answers, numRandom, numbers, n);
      assert 0 <= n - 1 < k && turns[n - 1].Stop?;
    }
  }

  /** After the exception, nothing more is written. */
  lemma RaisedStops(lines: seq<string>, answers: seq<Answer>, numRandom: int, numbers: set<int>, k: nat, k': nat)
    requires k <= k' <= |lines| == |answers| && Run(lines, answers, numRandom, numbers, k).raised
    ensures Run(lines, answers, numRandom, numbers, k') == Run(lines, answers, numRandom, numbers, k)
  {
    ReplayStops(Turns(lines, answers, numRandom, numbers, |lines|), k, k');
  }

  /** Line `n` (from 1) is one the loop processes. */
  predicate Processed(lines: seq<string>, numRandom: int, numbers: set<int>, n: nat) {
    1 <= n <= |lines| && Selected(n, lines[n - 1], numRandom, numbers)
  }

  /** A row as the loop writes it for a processed line it names, reached
      without an exception. */
  predicate RowOfLine(lines: seq<string>, answers: seq<Answer>, numRandom: int, numbers: set<int>, row: Row)
    requires |lines| == |answers|
  {
    var n := row.lineNumber;
    && Processed(lines, numRandom, numbers, n)
    && !Run(lines, answers, numRandom, numbers, n).raised
    && Outcome(n, LinkOf(lines[n - 1]), answers[n - 1]) == Some(row)
  }

  /** A row carries the number of its line and one of the three statuses. */
  lemma OutcomeRow(lineNumber: nat, link: string, answer: Answer)
    requires Outcome(lineNumber, link, answer).Some?
    ensures Outcome(lineNumber, link, answer).value.lineNumber == lineNumber
    ensures Outcome(lineNumber, link, answer).value.status in {Downloaded, BadCode, BadFormat}
  {
  }

  /** Every row belongs to a processed line among the first `k` that the
      run reaches without an exception. */
  lemma RowsAreLines(lines: seq<string>, answers: seq<Answer>, numRandom: int, numbers: set<int>, k: nat)
    requires k <= |lines| == |answers|
    ensures var rows := Run(lines, answers, numRandom, numbers, k).rows;
      forall j :: 0 <= j < |rows| ==> rows[j].lineNumber <= k && RowOfLine(lines, answers, numRandom, numbers, rows[j])
  {
    var turns := Turns(lines, answers, numRandom, numbers, |lines|);
    TurnsNumbered(lines, answers, numRandom, numbers);
    ReplayRows(turns, k);
    var rows := Run(lines, answers, numRandom, numbers, k).rows;
    forall j | 0 <= j < |rows|
      ensures rows[j].lineNumber <= k && RowOfLine(lines, answers, numRandom, numbers, rows[j])
    {
      TurnAdds(lines, answers, numRandom, numbers, rows[j].lineNumber, rows[j]);
    }
  }

  /** The rows come in line order: the line numbers strictly increase,
      so no line has two rows. */
  lemma RowsInLineOrder(lines: seq<string>, answers: seq<Answer>, numRandom: int, numbers: set<int>, k: nat)
    requires k <= |lines| == |answers|
    ensures var rows := Run(lines, answers, numRandom, numbers, k).rows;
      forall j, j' :: 0 <= j < j' < |rows| ==> rows[j].lineNumber < rows[j'].lineNumber
  {
    TurnsNumbered(lines, answers, numRandom, numbers);
    ReplayOrdered(Turns(lines, answers, numRandom, numbers, |lines|), k);
  }

  /** No processed line among the first `k` that the run reaches without
      an exception is missing a row. */
  lemma LinesHaveRows(lines: seq<string>, answers: seq<Answer>, numRandom: int, numbers: set<int>, k: nat)
    requires k <= |lines| == |answers|
    ensures var rows := Run(lines, answers, numRandom, numbers, k).rows;
      forall n: nat :: n <= k && Processed(lines, numRandom, numbers, n) && !Run(lines, answers, numRandom, numbers, n).raised ==>
        exists j :: 0 <= j < |rows| && rows[j].lineNumber == n
  {
    var turns := Turns(lines, answers, numRandom, numbers, |lines|);
    TurnsNumbered(lines, answers, numRandom, numbers);
    ReplayComplete(turns, k);
    forall n: nat | n <= k && Processed(lines, numRandom, numbers, n) && !Run(lines, answers, numRandom, numbers, n).raised
      ensures exists j :: 0 <= j < |Run(lines, answers, numRandom, numbers, k).rows| && Run(lines, answers, numRandom, numbers, k).rows[j].lineNumber == n
    {
      TurnAt(lines, answers, numRandom, numbers, n);
      assert !turns[n - 1].Skip? && !Replay(turns, n).raised;
      var j :| 0 <= j < |Replay(turns, k).rows| && Replay(turns, k).rows[j].lineNumber == n;
      assert Run(lines, answers, numRandom, numbers, k).rows[j].lineNumber == n;
    }
  }

  /** Every row gets one of the three statuses, so the three counters add
      up to the number of rows. */
  lemma CountsAddUp(lines: seq<string>, answers: seq<Answer>, numRandom: int, numbers: set<int>, k: nat)
    requires k <= |lines| == |answers|
    ensures var rows := Run(lines, answers, numRandom, numbers, k).rows;
      CountStatus(rows, Downloaded) + CountStatus(rows, BadCode) + CountStatus(rows, BadFormat) == |rows|
  {
    var turns := Turns(lines, answers, numRandom, numbers, |lines|);
    TurnsNumbered(lines, answers, numRandom, numbers);
    ReplayRows(turns, k);
    var rows := Run(lines, answers, numRandom, numbers, k).rows;
    forall j | 0 <= j < |rows|
      ensures rows[j].status in {Downloaded, BadCode, BadFormat}
    {
      TurnAdds(lines, answers, numRandom, numbers, rows[j].lineNumber, rows[j]);
      OutcomeRow(rows[j].lineNumber, LinkOf(lines[rows[j].lineNumber - 1]), answers[rows[j].lineNumber - 1]);
    }
    CountsOfStatuses(rows);
  }

  /** What processing one line gives. Without a match: a row with status
      3, its number and link, and nothing else, whatever a request would
      do. With one: the request is made; when it raises there is no row,
      otherwise the row holds the number, the link and the fields of the
      normalised name, with status 1 exactly when the server answers 200. */
  lemma RowMeaning(lineNumber: nat, link: string, answer: Answer)
    ensures var o := Outcome(lineNumber, link, answer);
      && (o.None? <==> Normalize(link).Some? && answer.Raised?)
      && (Normalize(link).None? ==>
            o == Some(Row(lineNumber, None, None, None, BadFormat, link, None, None))
            && forall a :: Outcome(lineNumber, link, a) == o)
      && (o.Some? ==>
            var r := o.value;
            && r.lineNumber == lineNumber && r.link == link
            && r.status in {Downloaded, BadCode, BadFormat}
            && (r.status == BadFormat <==> forall m :: !IsMatch(link, m))
            && (r.status == Downloaded <==> Normalize(link).Some? && answer == Response(200))
            && (r.status == BadCode <==> Normalize(link).Some? && answer.Response? && answer.code != 200)
            && (Normalize(link).Some? ==>
                  var n := Normalize(link).value;
                  && r.date == Some(Date(n)) && r.number == Some(n.number) && r.page == Some(n.page)
                  && r.filename == Some(FileName(n)) && r.extension == Some(n.extension)))
  {
    NormalizeNoneIff(link);
  }

  /** Two links that differ only in letter case are processed alike: a
      request for one raises when one for the other does, and their rows
      differ only in the link. */
  lemma RowIgnoresCase(lineNumber: nat, link: string, link': string, answer: Answer)
    requires SameUpToCase(link, link')
    ensures Outcome(lineNumber, link, answer).None? <==> Outcome(lineNumber, link', answer).None?
    ensures Outcome(lineNumber, link, answer).Some? ==>
      Outcome(lineNumber, link', answer).value == Outcome(lineNumber, link, answer).value.(link := link')
  {
    NormalizeIgnoresCase(link, link');
  }

  /** The link is what follows the last comma of the stripped line, or the
      whole stripped line when it has no comma. */
  lemma LinkIsLastField(line: string)
    ensures var t := Strip(line); var l := LinkOf(line);
      && ',' !in l && |l| <= |t| && t[|t| - |l|..] == l
      && (|l| < |t| ==> t[|t| - |l| - 1] == ',')
  {
    var t := Strip(line);
    JoinSplit(t, ',');
    JoinLast(Split(t, ','), ',');
  }

  lemma {:induction false} JoinLast(ps: seq<string>, c: char)
    requires |ps| > 0
    ensures var l := ps[|ps| - 1]; var j := Join(ps, c);
      && |l| <= |j| && j[|j| - |l|..] == l
      && (|ps| > 1 ==> |l| < |j| && j[|j| - |l| - 1] == c)
  {
    if |ps| > 1 {
      JoinLast(ps[1..], c);
      var l := ps[|ps| - 1];
      var tail := Join(ps[1..], c);
      assert Join(ps, c) == (ps[0] + [c]) + tail;
      assert ps[1..][|ps| - 2] == l;
      if |ps| > 2 {
        assert tail[|tail| - |l| - 1] == c;
      }
    }
  }

  /** A line the crawler writes is never skipped for being `failed` (it
      ends in a newline), and its link is the `src` it was written with. */
  lemma CrawledLine(lineNumber: nat, page: nat, code: nat, src: string, numbers: set<int>)
    requires Crawler.CleanSrc(src)
    ensures Selected(lineNumber, Crawler.Line(page, code, src), 0, numbers)
    ensures LinkOf(Crawler.Line(page, code, src)) == src
  {
    var line := Crawler.Line(page, code, src);
    assert line[|line| - 1] == '\n';
    Crawler.LineReadBack(page, code, src);
  }

  /** A page the crawler could not read gives a line whose link is `failed`,
      which has no match: its row has status 3. */
  lemma FailedLineRow(lineNumber: nat, page: nat, code: nat, answer: Answer)
    ensures Outcome(lineNumber, LinkOf(Crawler.Line(page, code, "failed")), answer)
      == Some(Row(lineNumber, None, None, None, BadFormat, "failed", None, None))
  {
    CrawledLine(lineNumber, page, code, "failed", {});
    FailedUnmatched();
  }

  /** `failed` has no `_NN-PPP.` marker. */
  lemma FailedUnmatched()
    ensures Normalize("failed") == None
  {
    assert LowerStr("fail") == "fail";
    assert Search("failed") == None;
  }

  /** The name a matched link is saved under has the shape the file-name
      validator (`check_filenames`) expects, so the validator accepts it
      exactly when its fields are canonical. */
  lemma SavedNameChecked(link: string)
    requires Normalize(link).Some?
    ensures Shaped(Normalize(link).value)
    ensures Accepts(FileName(Normalize(link).value)) <==> Canonical(Normalize(link).value)
  {
    NormalizePadding(link);
    NormalizeExtension(link);
    NameAccepted(Normalize(link).value);
  }
}

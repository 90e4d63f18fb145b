/** `RedditDumpLoader` of `src/data_loader.py` above the line level: the query
    parsed in the constructor, the archive listing, and `get_submissions`, which
    feeds the lines of every archive through the per-line logic of `Records`,
    keeps two counters per file, and hands matched rows to the database in
    batches of `CHUNK_SIZE`. The database is an output sequence of batches. */
module Ingestion {
  import opened Options
  import opened Text
  import opened Seqs
  import opened Utf8
  import opened FrameDecoder
  import opened Records
  import opened Loader

  /** `CHUNK_SIZE` of `src/constants.py`: rows per database insert. */
  const ChunkSize: nat := 1000

  // ------------------------------------------------------------ the query

  /** The constructor's `[q.lower().strip() for q in query.split(",")]`: one
      term per comma-separated piece, lower-cased and stripped. */
  function ParseQuery(query: string): (terms: seq<string>)
    ensures |terms| == Count(query, ',') + 1
    ensures forall k :: 0 <= k < |terms| ==> IsStripped(terms[k]) && ',' !in terms[k]
    ensures var parts := Split(query, ',');
            |terms| == |parts| && forall k :: 0 <= k < |parts| ==> terms[k] == Strip(LowerStr(parts[k]))
  {
    var parts := Split(query, ',');
    SplitCount(query, ',');
    var terms := seq(|parts|, k requires 0 <= k < |parts| => Strip(LowerStr(parts[k])));
    assert forall k :: 0 <= k < |terms| ==> ',' !in terms[k] by {
      forall k | 0 <= k < |terms|
        ensures ',' !in terms[k]
      {
        LowerKeepsAbsent(parts[k], ',');
        StripKeepsAbsent(LowerStr(parts[k]), ',');
      }
    }
    terms
  }

  /** The sample query of the constructor's comment, parsed. */
  lemma ParseQueryExample()
    ensures ParseQuery("Rome, Roma") == ["rome", "roma"]
  {
    SampleSplit();
    SampleLower();
    SampleStrip();
    ParseTwoPieces("Rome, Roma", "Rome", " Roma");
  }

  /** A query of two comma-separated pieces gives two terms. */
  lemma ParseTwoPieces(query: string, a: string, b: string)
    requires Split(query, ',') == [a, b]
    ensures ParseQuery(query) == [Strip(LowerStr(a)), Strip(LowerStr(b))]
  {
    var terms := ParseQuery(query);
    var x, y := Strip(LowerStr(a)), Strip(LowerStr(b));
    assert |terms| == 2;
    assert terms[0] == x by { assert Split(query, ',')[0] == a; }
    assert terms[1] == y by { assert Split(query, ',')[1] == b; }
    assert terms == [x, y];
  }

  lemma SampleSplit()
    ensures Split("Rome, Roma", ',') == ["Rome", " Roma"]
  {
    assert "Rome, Roma" == "Rome" + [','] + " Roma";
    SplitCons("Rome", ',', " Roma");
    assert Split(" Roma", ',') == [" Roma"];
  }

  lemma SampleLower()
    ensures LowerStr("Rome") == "rome" && LowerStr(" Roma") == " roma"
  {
  }

  lemma SampleStrip()
    ensures Strip("rome") == "rome" && Strip(" roma") == "roma"
  {
    SampleStripRome();
    SampleStripRoma();
  }

  lemma SampleStripRome()
    ensures Strip("rome") == "rome"
  {
    StripLeadingSpace("", "rome");
    assert "" + "rome" == "rome";
  }

  lemma SampleStripRoma()
    ensures Strip(" roma") == "roma"
  {
    SampleStripLeftRoma();
    assert IsStripped("roma");
  }

  lemma SampleStripLeftRoma()
    ensures StripLeft(" roma") == "roma"
  {
    var s := " roma";
    assert s[1..] == "roma" && IsSpace(s[0]);
    assert !IsSpace("roma"[0]);
  }

  /** `x.endswith(suffix)`. */
  predicate EndsWith(x: string, suffix: string)
  {
    |suffix| <= |x| && x[|x| - |suffix|..] == suffix
  }

  /** The constructor's listing filter: the directory entries ending in
      `.zst`, in listing order. */
  function ArchiveNames(names: seq<string>): (r: seq<string>)
    ensures |r| <= |names|
    ensures forall x :: x in r <==> x in names && EndsWith(x, ".zst")
  {
    if |names| == 0 then []
    else
      var rest := ArchiveNames(names[1..]);
      assert forall x :: x in names <==> x == names[0] || x in names[1..];
      if EndsWith(names[0], ".zst") then [names[0]] + rest else rest
  }

  /** The filter keeps the listing order: the names kept from a listing are
      those kept from its first part followed by those kept from the rest, and
      one name is kept exactly when it ends in `.zst`. */
  lemma {:induction false} ArchiveNamesAppend(a: seq<string>, b: seq<string>)
    ensures ArchiveNames(a + b) == ArchiveNames(a) + ArchiveNames(b)
    ensures |a| == 1 ==> ArchiveNames(a) == if EndsWith(a[0], ".zst") then a else []
  {
    if |a| == 0 {
      assert a + b == b;
    } else {
      assert (a + b)[1..] == a[1..] + b;
      ArchiveNamesAppend(a[1..], b);
    }
  }

  // ----------------------------------------------------------- batching

  /** The per-file state of the line loop: `total_submissions`,
      `matched_submissions`, `submission_to_insert`, and the batches already
      handed to the database. */
  datatype Progress = Progress(total: nat, matched: nat, buffer: seq<Submission>, flushed: seq<seq<Submission>>)

  /** The state at the start of each file. */
  const Fresh := Progress(0, 0, [], [])

  /** Every batch holds exactly `n` rows. */
  predicate AllFull(bs: seq<seq<Submission>>, n: nat)
  {
    forall k :: 0 <= k < |bs| ==> |bs[k]| == n
  }

  /** The rows a line outcome appends to the buffer. */
  function RowOf(r: LineResult): seq<Submission>
  {
    if r.Accepted? then [r.sub] else []
  }

  /** One line: count it, count a match, buffer the row, and flush the buffer
      once it holds `n` rows. */
  function Step(p: Progress, r: LineResult, n: nat): (q: Progress)
    ensures q.total == p.total + 1
    ensures p.flushed <= q.flushed && |q.flushed| <= |p.flushed| + 1
    ensures |q.flushed| > |p.flushed| ==>
              q.buffer == [] && q.flushed[|p.flushed|] == p.buffer + RowOf(r) && |p.buffer + RowOf(r)| >= n
  {
    var matched := if r.Counted() then p.matched + 1 else p.matched;
    var buffer := p.buffer + RowOf(r);
    if r.Accepted? && |buffer| >= n then Progress(p.total + 1, matched, [], p.flushed + [buffer])
    else Progress(p.total + 1, matched, buffer, p.flushed)
  }

  /** One line counts once, counts a match once, loses and invents no row,
      keeps the buffer below `n` rows and flushes only full batches. */
  lemma StepKeeps(p: Progress, r: LineResult, n: nat)
    ensures var q := Step(p, r, n);
            && q.total == p.total + 1
            && q.matched == p.matched + (if r.Counted() then 1 else 0)
            && Flatten(q.flushed) + q.buffer == Flatten(p.flushed) + p.buffer + RowOf(r)
            && (|p.buffer| < n ==> |q.buffer| < n)
            && (AllFull(p.flushed, n) && |p.buffer| < n ==> AllFull(q.flushed, n))
  {
    var buffer := p.buffer + RowOf(r);
    if r.Accepted? && |buffer| >= n {
      FlattenAppend(p.flushed, [buffer]);
      FlattenOne(buffer);
    }
  }

  /** The line loop over a sequence of outcomes. */
  function Feed(p: Progress, rs: seq<LineResult>, n: nat): (q: Progress)
    ensures q.total == p.total + |rs|
    ensures p.flushed <= q.flushed
    decreases |rs|
  {
    if |rs| == 0 then p else Feed(Step(p, rs[0], n), rs[1..], n)
  }

  /** The rows the outcomes produce, in order. */
  function AcceptedRows(rs: seq<LineResult>): seq<Submission>
  {
    if |rs| == 0 then [] else RowOf(rs[0]) + AcceptedRows(rs[1..])
  }

  /** The number of outcomes counted as matches. */
  function CountedLines(rs: seq<LineResult>): nat
  {
    if |rs| == 0 then 0 else (if rs[0].Counted() then 1 else 0) + CountedLines(rs[1..])
  }

  /** The flush after the loop: a non-empty buffer becomes one last batch.
      Every buffered row is handed over after the flushed ones, and no empty
      batch is. */
  function Finish(p: Progress): (b: seq<seq<Submission>>)
    ensures Flatten(b) == Flatten(p.flushed) + p.buffer
    ensures p.flushed <= b && |b| <= |p.flushed| + 1
    ensures forall k :: |p.flushed| <= k < |b| ==> b[k] != []
  {
    if |p.buffer| > 0 then
      FlattenSnoc(p.flushed, p.buffer);
      p.flushed + [p.buffer]
    else
      assert Flatten(p.flushed) + p.buffer == Flatten(p.flushed);
      p.flushed
  }

  /** Reference batching: consecutive slices of `n` rows, the last one shorter. */
  function Batches(xs: seq<Submission>, n: nat): seq<seq<Submission>>
    requires n > 0
    decreases |xs|
  {
    if |xs| == 0 then []
    else if |xs| <= n then [xs]
    else [xs[..n]] + Batches(xs[n..], n)
  }

  /** The reference batches are non-empty, hold at most `n` rows, all but the
      last hold exactly `n`, and together they are the rows in order. */
  lemma {:induction false} BatchesShape(xs: seq<Submission>, n: nat)
    requires n > 0
    ensures var bs := Batches(xs, n);
            && Flatten(bs) == xs
            && (forall k :: 0 <= k < |bs| ==> 0 < |bs[k]| <= n)
            && AllFull(bs[..if |bs| == 0 then 0 else |bs| - 1], n)
    decreases |xs|
  {
    var bs := Batches(xs, n);
    if |xs| == 0 {
    } else if |xs| <= n {
      FlattenOne(xs);
    } else {
      var rest := Batches(xs[n..], n);
      BatchesShape(xs[n..], n);
      FlattenCons(xs[..n], rest);
      assert bs == [xs[..n]] + rest;
      assert bs[..|bs| - 1] == [xs[..n]] + rest[..if |rest| == 0 then 0 else |rest| - 1];
    }
  }

  /** There are `ceil(|xs| / n)` reference batches. */
  lemma {:induction false} BatchesCount(xs: seq<Submission>, n: nat)
    requires n > 0
    ensures |Batches(xs, n)| == (|xs| + n - 1) / n
    decreases |xs|
  {
    if |xs| == 0 {
    } else if |xs| <= n {
      DivOne(|xs| + n - 1, n);
    } else {
      BatchesCount(xs[n..], n);
      DivShift(|xs| - 1, n);
    }
  }

  lemma DivOne(m: int, n: int)
    requires n > 0 && n <= m < 2 * n
    ensures m / n == 1
  {
    DivUnique(m, n, 1, m - n);
  }

  lemma DivShift(a: int, n: int)
    requires a >= 0 && n > 0
    ensures (a + n) / n == a / n + 1
  {
    var q := a / n;
    assert a == q * n + a % n;
    assert a + n == (q + 1) * n + a % n;
    DivUnique(a + n, n, q + 1, a % n);
  }

  /** Quotient and remainder are the only ones: `a == q * n + r` with
      `0 <= r < n` fixes both. */
  lemma DivUnique(a: int, n: int, q: int, r: int)
    requires n > 0 && 0 <= r < n && a == q * n + r
    ensures a / n == q && a % n == r
  {
    var q0 := a / n;
    var r0 := a % n;
    assert a == q0 * n + r0 && 0 <= r0 < n;
    if q0 > q {
      assert (q + 1) * n == q * n + n;
      MulMono(q + 1, q0, n);
    } else if q0 < q {
      assert (q0 + 1) * n == q0 * n + n;
      MulMono(q0 + 1, q, n);
    }
  }

  /** 2500 matched rows go to the database as 1000, 1000 and 500. */
  lemma BatchesExample(xs: seq<Submission>)
    requires |xs| == 2500
    ensures var bs := Batches(xs, ChunkSize);
            |bs| == 3 && |bs[0]| == 1000 && |bs[1]| == 1000 && |bs[2]| == 500
  {
    var r1 := xs[1000..];
    var r2 := r1[1000..];
    assert Batches(r2, 1000) == [r2];
    assert Batches(r1, 1000) == [r1[..1000]] + [r2];
  }

  /** Filling a batch of exactly `n` rows first and batching the rest is
      batching everything. */
  lemma BatchesFull(b: seq<Submission>, rest: seq<Submission>, n: nat)
    requires n > 0 && |b| == n
    ensures Batches(b + rest, n) == [b] + Batches(rest, n)
  {
    if |rest| > 0 {
      assert (b + rest)[..n] == b;
      assert (b + rest)[n..] == rest;
    } else {
      assert b + rest == b;
    }
  }

  /** The line loop followed by the final flush batches exactly like the
      reference: a database call per `n` rows and one for the remainder. */
  lemma {:induction false} FeedBatches(p: Progress, rs: seq<LineResult>, n: nat)
    requires n > 0 && |p.buffer| < n
    ensures Finish(Feed(p, rs, n)) == p.flushed + Batches(p.buffer + AcceptedRows(rs), n)
    decreases |rs|
  {
    AcceptedFront(p.buffer, rs);
    if |rs| > 0 {
      var q := Step(p, rs[0], n);
      StepKeeps(p, rs[0], n);
      FeedBatches(q, rs[1..], n);
      StepBatches(p, rs[0], AcceptedRows(rs[1..]), n);
    }
  }

  /** The rows after a buffer: none for no lines, else the first line's row
      and then the others'. */
  lemma AcceptedFront(buffer: seq<Submission>, rs: seq<LineResult>)
    ensures |rs| == 0 ==> buffer + AcceptedRows(rs) == buffer
    ensures |rs| > 0 ==> buffer + AcceptedRows(rs) == buffer + RowOf(rs[0]) + AcceptedRows(rs[1..])
  {
    if |rs| == 0 {
      assert buffer + [] == buffer;
    }
  }

  /** One line, then batching the rows still to come, is batching the rows of
      that line and those to come. */
  lemma StepBatches(p: Progress, r: LineResult, later: seq<Submission>, n: nat)
    requires n > 0 && |p.buffer| < n
    ensures var q := Step(p, r, n);
            q.flushed + Batches(q.buffer + later, n) == p.flushed + Batches(p.buffer + RowOf(r) + later, n)
  {
    var buffer := p.buffer + RowOf(r);
    if r.Accepted? && |buffer| >= n {
      assert [] + later == later;
      BatchesFull(buffer, later, n);
    }
  }

  /** The loop counts every line and every match; its rows never outnumber its
      matches, which never outnumber its lines. */
  lemma {:induction false} FeedCounters(p: Progress, rs: seq<LineResult>, n: nat)
    ensures Feed(p, rs, n).total == p.total + |rs|
    ensures Feed(p, rs, n).matched == p.matched + CountedLines(rs)
    ensures |AcceptedRows(rs)| <= CountedLines(rs) <= |rs|
    decreases |rs|
  {
    if |rs| > 0 {
      StepKeeps(p, rs[0], n);
      FeedCounters(Step(p, rs[0], n), rs[1..], n);
    }
  }

  /** Between lines the buffer holds fewer than `n` rows, every batch flushed
      so far holds exactly `n`, and no row is lost or duplicated. */
  lemma {:induction false} FeedInvariant(p: Progress, rs: seq<LineResult>, n: nat)
    requires |p.buffer| < n && AllFull(p.flushed, n)
    ensures var q := Feed(p, rs, n);
            && |q.buffer| < n && AllFull(q.flushed, n)
            && Flatten(q.flushed) + q.buffer == Flatten(p.flushed) + p.buffer + AcceptedRows(rs)
    decreases |rs|
  {
    if |rs| > 0 {
      var q := Step(p, rs[0], n);
      StepKeeps(p, rs[0], n);
      FeedInvariant(q, rs[1..], n);
      AcceptedFront(Flatten(p.flushed) + p.buffer, rs);
    }
  }

  // ------------------------------------------------------------ one file

  /** How the loop body ends for each line. */
  type Classify = string -> LineResult

  /** The loop body of `get_submissions` for a query and a JSON parser. */
  function Classifier(parse: Parser, query: seq<string>): Classify
  {
    line => ProcessLine(parse, query, line)
  }

  /** The loop body applied to every line of one file. */
  function Results(classify: Classify, lines: seq<string>): (rs: seq<LineResult>)
    ensures |rs| == |lines|
  {
    seq(|lines|, k requires 0 <= k < |lines| => classify(lines[k]))
  }

  /** The line loop over one file, from fresh counters and an empty buffer. */
  function ScanFile(classify: Classify, lines: seq<string>, n: nat): Progress
  {
    Feed(Fresh, Results(classify, lines), n)
  }

  /** The rows a file's lines produce. */
  function FileRows(classify: Classify, lines: seq<string>): seq<Submission>
  {
    AcceptedRows(Results(classify, lines))
  }

  /** The two figures logged after a file. */
  datatype FileReport = FileReport(matched: nat, total: nat)

  function Report(p: Progress): FileReport
  {
    FileReport(p.matched, p.total)
  }

  /** The logged figures: every line is counted, a match is counted once per
      line, and at most as many rows are inserted as lines matched. */
  lemma ReportCounts(classify: Classify, lines: seq<string>, n: nat)
    ensures var rep := Report(ScanFile(classify, lines, n));
            var rs := Results(classify, lines);
            && rep.total == |lines|
            && rep.matched == CountedLines(rs)
            && |FileRows(classify, lines)| <= rep.matched <= rep.total
  {
    FeedCounters(Fresh, Results(classify, lines), n);
  }

  /** Every row a file sends carries one of the query terms as its
      `matched_query`. */
  lemma RowsCarryATerm(parse: Parser, query: seq<string>, lines: seq<string>)
    ensures forall row :: row in FileRows(Classifier(parse, query), lines) ==> row.matchedQuery in query
  {
    var rs := Results(Classifier(parse, query), lines);
    forall k | 0 <= k < |rs|
      ensures rs[k].Accepted? ==> rs[k].sub.matchedQuery in query
    {
      assert rs[k] == ProcessLine(parse, query, lines[k]);
      MatchedQueryIsATerm(parse, query, lines[k]);
    }
    RowsFromTerms(rs, query);
  }

  lemma {:induction false} RowsFromTerms(rs: seq<LineResult>, query: seq<string>)
    requires forall k :: 0 <= k < |rs| ==> rs[k].Accepted? ==> rs[k].sub.matchedQuery in query
    ensures forall row :: row in AcceptedRows(rs) ==> row.matchedQuery in query
  {
    if |rs| > 0 {
      RowsFromTerms(rs[1..], query);
      assert forall k :: 0 <= k < |rs| - 1 ==> rs[1..][k] == rs[k + 1];
    }
  }

  /** A file whose decoding finished inserts all its rows, in batches of `n`
      and one for the remainder. */
  lemma FileBatchesComplete(classify: Classify, lines: seq<string>, n: nat)
    requires n > 0
    ensures Finish(ScanFile(classify, lines, n)) == Batches(FileRows(classify, lines), n)
  {
    FeedBatches(Fresh, Results(classify, lines), n);
    assert [] + FileRows(classify, lines) == FileRows(classify, lines);
  }

  /** A file whose decoding raised inserts only its full batches: the rows
      still buffered, `|rows| % n` of them, never reach the database. */
  lemma FileBatchesAborted(classify: Classify, lines: seq<string>, n: nat)
    requires n > 0
    ensures var p := ScanFile(classify, lines, n);
            var rows := FileRows(classify, lines);
            && AllFull(p.flushed, n)
            && Flatten(p.flushed) + p.buffer == rows
            && |p.buffer| == |rows| % n
  {
    var rs := Results(classify, lines);
    var p := ScanFile(classify, lines, n);
    var rows := FileRows(classify, lines);
    FeedInvariant(Fresh, rs, n);
    assert Flatten(p.flushed) + p.buffer == rows;
    FullLength(p.flushed, n);
    RemainderUnique(|rows|, n, |p.flushed|, |p.buffer|);
  }

  /** Full batches hold `n` rows each. */
  lemma {:induction false} FullLength(bs: seq<seq<Submission>>, n: nat)
    requires AllFull(bs, n)
    ensures |Flatten(bs)| == n * |bs|
  {
    if |bs| > 0 {
      FullLength(bs[1..], n);
      assert |Flatten(bs)| == n + n * (|bs| - 1);
    }
  }

  lemma RemainderUnique(a: int, n: int, q: int, b: int)
    requires n > 0 && 0 <= b < n && a == n * q + b
    ensures b == a % n
  {
    assert n * q == q * n;
    DivUnique(a, n, q, b);
  }

  // --------------------------------------------------------- all the files

  /** The batches one file sends: those of the loop, and the final flush only
      when decoding did not raise. */
  function FileBatches(classify: Classify, l: Loaded, n: nat): seq<seq<Submission>>
  {
    var p := ScanFile(classify, l.lines, n);
    if l.failure.Some? then p.flushed else Finish(p)
  }

  /** The batches of a run over several files, in order. */
  function SessionBatches(classify: Classify, loads: seq<Loaded>, n: nat): seq<seq<Submission>>
  {
    if |loads| == 0 then [] else FileBatches(classify, loads[0], n) + SessionBatches(classify, loads[1..], n)
  }

  lemma {:induction false} SessionBatchesAppend(classify: Classify, loads: seq<Loaded>, l: Loaded, n: nat)
    ensures SessionBatches(classify, loads + [l], n)
         == SessionBatches(classify, loads, n) + FileBatches(classify, l, n)
  {
    if |loads| == 0 {
      assert SessionBatches(classify, [l], n) == FileBatches(classify, l, n) + SessionBatches(classify, [], n);
    } else {
      assert (loads + [l])[1..] == loads[1..] + [l];
      SessionBatchesAppend(classify, loads[1..], l, n);
    }
  }

  /** Every batch holds between one and `n` rows. */
  predicate Within(bs: seq<seq<Submission>>, n: nat)
  {
    forall k :: 0 <= k < |bs| ==> 0 < |bs[k]| <= n
  }

  lemma WithinAppend(a: seq<seq<Submission>>, b: seq<seq<Submission>>, n: nat)
    requires Within(a, n) && Within(b, n)
    ensures Within(a + b, n)
  {
    forall k | 0 <= k < |a + b|
      ensures 0 < |(a + b)[k]| <= n
    {
      if k >= |a| {
        assert (a + b)[k] == b[k - |a|];
      }
    }
  }

  /** Each file's database calls get between one and `n` rows, whether or not
      its decoding raised. */
  lemma FileBatchesWithin(classify: Classify, l: Loaded, n: nat)
    requires n > 0
    ensures Within(FileBatches(classify, l, n), n)
  {
    var p := ScanFile(classify, l.lines, n);
    if l.failure.Some? {
      FileBatchesAborted(classify, l.lines, n);
      assert AllFull(p.flushed, n);
    } else {
      FileBatchesComplete(classify, l.lines, n);
      BatchesShape(FileRows(classify, l.lines), n);
    }
  }

  /** Every database call of a run gets between one and `n` rows. */
  lemma {:induction false} SessionBatchesBounded(classify: Classify, loads: seq<Loaded>, n: nat)
    requires n > 0
    ensures Within(SessionBatches(classify, loads, n), n)
  {
    if |loads| > 0 {
      SessionBatchesBounded(classify, loads[1..], n);
      FileBatchesWithin(classify, loads[0], n);
      WithinAppend(FileBatches(classify, loads[0], n), SessionBatches(classify, loads[1..], n), n);
    }
  }

  /** When no file raises, the rows that reach the database are exactly the
      rows of every file, file by file, line by line. */
  lemma {:induction false} SessionRows(classify: Classify, loads: seq<Loaded>, n: nat)
    requires n > 0
    requires forall k :: 0 <= k < |loads| ==> loads[k].failure.None?
    ensures Flatten(SessionBatches(classify, loads, n)) == SessionFileRows(classify, loads)
  {
    if |loads| > 0 {
      SessionRows(classify, loads[1..], n);
      var first := FileRows(classify, loads[0].lines);
      FileBatchesComplete(classify, loads[0].lines, n);
      BatchesShape(first, n);
      FlattenAppend(Batches(first, n), SessionBatches(classify, loads[1..], n));
    }
  }

  /** The rows of every file's lines, file after file. */
  function SessionFileRows(classify: Classify, loads: seq<Loaded>): seq<Submission>
  {
    if |loads| == 0 then [] else FileRows(classify, loads[0].lines) + SessionFileRows(classify, loads[1..])
  }

  /** What `get_submissions` leaves behind: the lines loaded from each file it
      opened and the batches handed to the database, in order. */
  datatype Session = Session(loads: seq<Loaded>, batches: seq<seq<Submission>>)
  {
    /** The last file opened raised `UnicodeError`, which ends the run. */
    predicate Aborted()
    {
      |loads| > 0 && loads[|loads| - 1].failure.Some?
    }
  }

  /** The figures logged after each file the run finished: every file opened
      but the one that raised, if one did. */
  function Reports(classify: Classify, s: Session): (r: seq<FileReport>)
    ensures |r| == (if s.Aborted() then |s.loads| - 1 else |s.loads|)
  {
    var m := if s.Aborted() then |s.loads| - 1 else |s.loads|;
    seq(m, k requires 0 <= k < m => Report(ScanFile(classify, s.loads[k].lines, ChunkSize)))
  }

  /** `get_submissions` over the decompressed contents of the archives, in
      listing order, for the parsed query `query`; `parse` stands for
      `json.loads`. Files are processed one after another until they run out or
      one raises while decoding; that file's buffer is never flushed, nothing
      is logged for it and later files are not opened. The figures logged are
      `Reports` of the result. */
  method GetSubmissions(files: seq<Source>, query: seq<string>, parse: Parser) returns (s: Session)
    ensures |s.loads| <= |files|
    ensures forall i :: 0 <= i < |s.loads| ==> LoadedFrom(Decode, files[i], s.loads[i])
    ensures forall i :: 0 <= i < |s.loads| - 1 ==> s.loads[i].failure.None?
    ensures |s.loads| < |files| ==> s.Aborted()
    ensures s.batches == SessionBatches(Classifier(parse, query), s.loads, ChunkSize)
  {
    Utf8Compositional();
    s := RunWith(Decode, files, Classifier(parse, query));
  }

  /** The same run for any decoder with the properties the decoding loop
      relies on. */
  method RunWith(decode: Decoder, files: seq<Source>, classify: Classify) returns (s: Session)
    requires Compositional(decode)
    ensures |s.loads| <= |files|
    ensures LoadedAll(decode, files, s.loads)
    ensures forall i :: 0 <= i < |s.loads| - 1 ==> s.loads[i].failure.None?
    ensures |s.loads| < |files| ==> s.Aborted()
    ensures s.batches == SessionBatches(classify, s.loads, ChunkSize)
  {
    s := Session([], []);
    var i := 0;
    while i < |files|
      invariant i <= |files| && |s.loads| == i
      invariant LoadedAll(decode, files, s.loads)
      invariant forall k :: 0 <= k < i ==> s.loads[k].failure.None?
      invariant s.batches == SessionBatches(classify, s.loads, ChunkSize)
    {
      var l, p := IngestFile(decode, files[i], classify);
      LoadedAllSnoc(decode, files, s.loads, l);
      FailuresSnoc(s.loads, l);
      SessionBatchesAppend(classify, s.loads, l, ChunkSize);
      if l.failure.Some? {
        s := Session(s.loads + [l], s.batches + p.flushed);
        return;
      }
      s := Session(s.loads + [l], s.batches + Finish(p));
      i := i + 1;
    }
  }

  /** The `k`-th load is what `load_data` yields for the `k`-th file, for
      every file opened. */
  ghost predicate LoadedAll(decode: Decoder, files: seq<Source>, loads: seq<Loaded>)
  {
    |loads| <= |files| && forall k :: 0 <= k < |loads| ==> LoadedFrom(decode, files[k], loads[k])
  }

  lemma LoadedAllSnoc(decode: Decoder, files: seq<Source>, loads: seq<Loaded>, l: Loaded)
    requires LoadedAll(decode, files, loads) && |loads| < |files|
    requires LoadedFrom(decode, files[|loads|], l)
    ensures LoadedAll(decode, files, loads + [l])
  {
    var all := loads + [l];
    forall k | 0 <= k < |all|
      ensures LoadedFrom(decode, files[k], all[k])
    {
      if k < |loads| {
        assert all[k] == loads[k];
      } else {
        assert k == |loads| && all[k] == l;
      }
    }
  }

  /** Appending a load to loads none of which failed: all but the last still
      did not fail, and none did if the new one did not. */
  lemma FailuresSnoc(loads: seq<Loaded>, l: Loaded)
    requires forall k :: 0 <= k < |loads| ==> loads[k].failure.None?
    ensures forall k :: 0 <= k < |loads + [l]| - 1 ==> (loads + [l])[k].failure.None?
    ensures l.failure.None? ==> forall k :: 0 <= k < |loads + [l]| ==> (loads + [l])[k].failure.None?
  {
    var all := loads + [l];
    forall k | 0 <= k < |loads|
      ensures all[k] == loads[k]
    {
    }
  }

  /** One file: its lines as `load_data` yields them, and the line loop over
      them. */
  method IngestFile(decode: Decoder, src: Source, classify: Classify) returns (l: Loaded, p: Progress)
    requires Compositional(decode)
    ensures LoadedFrom(decode, src, l)
    ensures p == ScanFile(classify, l.lines, ChunkSize)
  {
    l := LoadWith(decode, src);
    p := ScanFile(classify, l.lines, ChunkSize);
  }
}

/** `ACsvWritePipeline<T>`: takes commands from a queue and prints their rows into a
    series of CSV files, opening the next file (header first) once the current one holds
    at least `limit` rows. The state transitions are stated as functions, and the class
    below runs them step by step as the Java `run` does. */
module ACsvWritePipeline {
  import opened Outcomes
  import opened Actions
  import opened CsvFiles
  import opened Sequences

  /** What a concrete pipeline supplies: its header line, its `processCommand` (the lines
      it prints for one command), its row limit and its file-name pattern. */
  datatype CsvSink<!T> = CsvSink(header: string, process: T -> Batch, limit: int, pattern: FilePattern)

  /** The mutable fields: `count`, `lines`, the current `writer` (the index of the file it
      prints into, or `null`) and the output directory (the files, in creation order). */
  datatype SinkState = SinkState(count: nat, lines: int, writer: Option<nat>, files: seq<CsvFile>)

  /** The state of a newly constructed pipeline. */
  const FRESH: SinkState := SinkState(0, 0, None, [])

  /** What `run` leaves behind after taking some values: the state, the exception that
      ended it early (if any) and how many values it took. */
  datatype Outcome = Outcome(st: SinkState, failure: Option<Failure>, used: nat)

  /** The shape every reachable state has: file `i` is named after counter value `i` and
      starts with the header; the writer, if any, is on the last file; every other file
      is closed. */
  predicate Shaped<T>(sink: CsvSink<T>, st: SinkState) {
    && st.count == |st.files|
    && (forall i | 0 <= i < |st.files| ::
          st.files[i].name == FormatName(sink.pattern, i)
          && |st.files[i].lines| >= 1 && st.files[i].lines[0] == sink.header)
    && (st.writer.Some? ==> st.writer.value + 1 == |st.files|)
    && (forall i | 0 <= i < |st.files| :: st.writer != Some(i) ==> st.files[i].closed)
  }

  /** Closes the current writer, if any (`writer.close()`, the writer stays set). */
  function CloseWriter(st: SinkState): (r: SinkState)
    ensures r.count == st.count && r.lines == st.lines && r.writer == st.writer
    ensures |r.files| == |st.files|
    ensures forall i | 0 <= i < |st.files| ::
      r.files[i] == if st.writer == Some(i) then Close(st.files[i]) else st.files[i]
  {
    if st.writer.Some? && st.writer.value < |st.files| then
      st.(files := st.files[st.writer.value := Close(st.files[st.writer.value])])
    else st
  }

  /** Closes the current writer and opens the next file (`createNewWrite`): its name
      takes the counter, which moves on, and its first line is the header. */
  function Rotate<T>(sink: CsvSink<T>, st: SinkState): (r: SinkState)
    requires Shaped(sink, st)
    ensures Shaped(sink, r) && r.writer == Some(|st.files|) && r.lines == 0
    ensures r.files[..|st.files|] == CloseWriter(st).files
    ensures r.files[|st.files|] == CsvFile(FormatName(sink.pattern, st.count), [sink.header], false)
  {
    var next := CsvFile(FormatName(sink.pattern, st.count), [sink.header], false);
    ClosedThenNext(sink, st, next);
    SinkState(st.count + 1, 0, Some(|st.files|), CloseWriter(st).files + [next])
  }

  /** After closing the writer every file is closed; the next file, named after the
      counter and starting with the header, keeps the shape. */
  lemma ClosedThenNext<T>(sink: CsvSink<T>, st: SinkState, next: CsvFile)
    requires Shaped(sink, st)
    requires next == CsvFile(FormatName(sink.pattern, st.count), [sink.header], false)
    ensures Shaped(sink, SinkState(st.count + 1, 0, Some(|st.files|), CloseWriter(st).files + [next]))
  {
    var fs := CloseWriter(st).files + [next];
    forall i | 0 <= i < |fs|
      ensures fs[i].name == FormatName(sink.pattern, i)
      ensures |fs[i].lines| >= 1 && fs[i].lines[0] == sink.header
      ensures i < |st.files| ==> fs[i].closed
    {
      if i < |st.files| {
        var c := CloseWriter(st).files;
        assert fs[i] == c[i];
        if st.writer == Some(i) {
          assert c[i] == Close(st.files[i]);
        } else {
          assert c[i] == st.files[i];
        }
      } else {
        assert fs[i] == next;
      }
    }
  }

  /** The check at the top of the `Value(command)` branch: a new file when the current
      one is full or there is no writer. */
  function Prepare<T>(sink: CsvSink<T>, st: SinkState): (r: SinkState)
    requires Shaped(sink, st)
    ensures Shaped(sink, r) && r.writer.Some?
    ensures st.lines >= sink.limit || st.writer.None? ==> r == Rotate(sink, st)
    ensures st.lines < sink.limit && st.writer.Some? ==> r == st
  {
    if st.lines >= sink.limit || st.writer.None? then Rotate(sink, st) else st
  }

  /** `processCommand` on the current writer. If it throws, the lines printed before the
      exception stay and the row count is not updated. */
  function Print<T>(sink: CsvSink<T>, st: SinkState, command: T): (r: (SinkState, Option<Failure>))
    requires Shaped(sink, st) && st.writer.Some?
    ensures Shaped(sink, r.0) && r.0.writer == st.writer && r.0.count == st.count
    ensures r.0.files == st.files[st.writer.value := PrintAll(st.files[st.writer.value], sink.process(command).lines)]
    ensures r.0.lines == if r.1.Some? then st.lines else st.lines + |sink.process(command).lines|
    ensures r.1 == sink.process(command).failure
  {
    var w := st.writer.value;
    var b := sink.process(command);
    var files := st.files[w := PrintAll(st.files[w], b.lines)];
    if b.failure.Some? then (st.(files := files), b.failure)
    else (st.(files := files, lines := st.lines + |b.lines|), None)
  }

  /** One `Value(command)`: the check, then the command printed. */
  function OnValue<T>(sink: CsvSink<T>, st: SinkState, command: T): (r: (SinkState, Option<Failure>))
    requires Shaped(sink, st)
    ensures Shaped(sink, r.0) && r.0.writer.Some?
    ensures r.1 == sink.process(command).failure
  {
    Print(sink, Prepare(sink, st), command)
  }

  /** The loop of `run` over the values before the `Stop`: it ends after the last value
      or at the first exception. */
  function Consume<T>(sink: CsvSink<T>, st: SinkState, vs: seq<T>): (r: Outcome)
    requires Shaped(sink, st)
    ensures Shaped(sink, r.st)
    ensures r.used <= |vs|
    ensures r.failure.None? ==> r.used == |vs|
    ensures r.failure.Some? ==> 1 <= r.used && r.failure == sink.process(vs[r.used - 1]).failure
    decreases |vs|
  {
    if vs == [] then Outcome(st, None, 0)
    else
      var step := OnValue(sink, st, vs[0]);
      if step.1.Some? then Outcome(step.0, step.1, 1)
      else
        var o := Consume(sink, step.0, vs[1..]);
        var r := Outcome(o.st, o.failure, o.used + 1);
        assert r.failure.Some? ==> r.failure == sink.process(vs[r.used - 1]).failure by {
          TailIndex(vs, o.used);
        }
        r
  }

  lemma TailIndex<T>(vs: seq<T>, n: nat)
    requires n < |vs|
    ensures 1 <= n ==> vs[1..][n - 1] == vs[n]
  {
  }

  /** The `finally` block as written: the writer is closed but stays set. */
  function Finish(st: SinkState): SinkState {
    CloseWriter(st)
  }

  /** A `finally` block that also resets the writer to `null`. */
  function FinishReleasing(st: SinkState): SinkState {
    CloseWriter(st).(writer := None)
  }

  /** One `run` as written, over the values taken before the `Stop`. */
  function RunValues<T>(sink: CsvSink<T>, st: SinkState, vs: seq<T>): (r: Outcome)
    requires Shaped(sink, st)
    ensures Shaped(sink, r.st)
  {
    var o := Consume(sink, st, vs);
    ReleaseIsLive(sink, o.st);
    o.(st := Finish(o.st))
  }

  /** One `run` whose `finally` resets the writer. */
  function RunValuesReleasing<T>(sink: CsvSink<T>, st: SinkState, vs: seq<T>): Outcome
    requires Shaped(sink, st)
  {
    var o := Consume(sink, st, vs);
    o.(st := FinishReleasing(o.st))
  }

  /** The lines `processCommand` prints for each value, one after the other. */
  function Printed<T>(sink: CsvSink<T>, vs: seq<T>): seq<string> {
    if vs == [] then [] else sink.process(vs[0]).lines + Printed(sink, vs[1..])
  }

  /** After a run every file is closed, is named after its position in the directory and
      starts with the header. */
  lemma RunClosesEveryFile<T>(sink: CsvSink<T>, st: SinkState, vs: seq<T>)
    requires Shaped(sink, st)
    ensures var fs := RunValues(sink, st, vs).st.files;
      forall i | 0 <= i < |fs| ::
        fs[i].closed && fs[i].name == FormatName(sink.pattern, i)
        && |fs[i].lines| >= 1 && fs[i].lines[0] == sink.header
  {
    var o := Consume(sink, st, vs);
    var fs := Finish(o.st).files;
    forall i | 0 <= i < |fs|
      ensures fs[i].closed && fs[i].name == FormatName(sink.pattern, i)
      ensures |fs[i].lines| >= 1 && fs[i].lines[0] == sink.header
    {
      if o.st.writer != Some(i) {
        assert fs[i] == o.st.files[i];
      }
    }
  }

  /** No two files of a directory share a name, so no file is overwritten. */
  lemma FileNamesDistinct<T>(sink: CsvSink<T>, st: SinkState, i: nat, j: nat)
    requires Shaped(sink, st)
    requires i < |st.files| && j < |st.files| && i != j
    ensures st.files[i].name != st.files[j].name
  {
    if st.files[i].name == st.files[j].name {
      FormatNameInjective(sink.pattern, i, j);
    }
  }

  /** A state in which the writer, if set, is open and `lines` counts the rows of its
      file: a fresh pipeline, or one whose writer has been released. */
  predicate Live<T>(sink: CsvSink<T>, st: SinkState) {
    && Shaped(sink, st)
    && (st.writer.Some? ==>
          !st.files[st.writer.value].closed && st.lines == |Rows(st.files[st.writer.value])|)
  }

  lemma AllRowsSnoc(fs: seq<CsvFile>, f: CsvFile)
    ensures AllRows(fs + [f]) == AllRows(fs) + Rows(f)
  {
    assert (fs + [f])[..|fs|] == fs;
  }

  /** Replacing the last file changes only the rows that file contributes. */
  lemma AllRowsReplaceLast(fs: seq<CsvFile>, f: CsvFile)
    requires |fs| >= 1
    ensures AllRows(fs[|fs| - 1 := f]) == AllRows(fs[..|fs| - 1]) + Rows(f)
    ensures AllRows(fs) == AllRows(fs[..|fs| - 1]) + Rows(fs[|fs| - 1])
  {
    var init := fs[..|fs| - 1];
    assert fs[|fs| - 1 := f] == init + [f];
    assert fs == init + [fs[|fs| - 1]];
    AllRowsSnoc(init, f);
    AllRowsSnoc(init, fs[|fs| - 1]);
  }

  lemma AllRowsPrint(fs: seq<CsvFile>, extra: seq<string>)
    requires |fs| >= 1 && |fs[|fs| - 1].lines| >= 1 && !fs[|fs| - 1].closed
    ensures AllRows(fs[|fs| - 1 := PrintAll(fs[|fs| - 1], extra)]) == AllRows(fs) + extra
  {
    var last := fs[|fs| - 1];
    AllRowsReplaceLast(fs, PrintAll(last, extra));
    RowsPrint(last, extra);
    AppendAssoc(AllRows(fs[..|fs| - 1]), Rows(last), extra);
  }

  lemma RowsPrint(f: CsvFile, extra: seq<string>)
    requires |f.lines| >= 1 && !f.closed
    ensures Rows(PrintAll(f, extra)) == Rows(f) + extra
  {
    assert (f.lines + extra)[1..] == f.lines[1..] + extra;
  }

  /** Closing a writer keeps every line. */
  lemma CloseWriterKeepsRows<T>(sink: CsvSink<T>, st: SinkState)
    requires Shaped(sink, st)
    ensures AllRows(CloseWriter(st).files) == AllRows(st.files)
  {
    if st.writer.Some? {
      AllRowsReplaceLast(st.files, Close(st.files[st.writer.value]));
    }
  }

  /** One value from a live state adds exactly the lines it printed to the rows, and
      leaves a live state unless `processCommand` threw. */
  lemma OnValueKeepsRows<T>(sink: CsvSink<T>, st: SinkState, command: T)
    requires Live(sink, st)
    ensures var r := OnValue(sink, st, command);
      AllRows(r.0.files) == AllRows(st.files) + sink.process(command).lines
      && (r.1.None? ==> Live(sink, r.0))
  {
    var st1 := Prepare(sink, st);
    RowsOfOpenWriter(sink, st);
    var w := st1.writer.value;
    var b := sink.process(command);
    var r := Print(sink, st1, command);
    assert w == |st1.files| - 1;
    AllRowsPrint(st1.files, b.lines);
    if r.1.None? {
      PrintKeepsLive(sink, st1, command);
    }
  }

  /** Printing a command that does not throw into an open file whose rows `lines`
      counts keeps that count. */
  lemma PrintKeepsLive<T>(sink: CsvSink<T>, st: SinkState, command: T)
    requires Shaped(sink, st) && st.writer.Some?
    requires !st.files[st.writer.value].closed && st.lines == |Rows(st.files[st.writer.value])|
    requires sink.process(command).failure.None?
    ensures Live(sink, Print(sink, st, command).0)
  {
    var w := st.writer.value;
    var b := sink.process(command);
    var r := Print(sink, st, command).0;
    RowsPrint(st.files[w], b.lines);
    assert r.files[w] == PrintAll(st.files[w], b.lines);
    assert |Rows(r.files[w])| == |Rows(st.files[w])| + |b.lines|;
  }

  /** Before printing, the file the writer is on is open and `lines` counts its rows. */
  lemma RowsOfOpenWriter<T>(sink: CsvSink<T>, st: SinkState)
    requires Live(sink, st)
    ensures var st1 := Prepare(sink, st);
      AllRows(st1.files) == AllRows(st.files)
      && !st1.files[st1.writer.value].closed && st1.lines == |Rows(st1.files[st1.writer.value])|
  {
    if st.lines >= sink.limit || st.writer.None? {
      var st1 := Rotate(sink, st);
      var c := CloseWriter(st);
      var nf := CsvFile(FormatName(sink.pattern, st.count), [sink.header], false);
      CloseWriterKeepsRows(sink, st);
      assert st1.files == c.files + [nf];
      AllRowsSnoc(c.files, nf);
      assert Rows(nf) == [];
      AppendNil(AllRows(c.files));
    }
  }

  /** One turn of the loop, unfolded. */
  lemma ConsumeStep<T>(sink: CsvSink<T>, st: SinkState, vs: seq<T>)
    requires Shaped(sink, st) && vs != []
    ensures var r := OnValue(sink, st, vs[0]);
      Consume(sink, st, vs) ==
        if r.1.Some? then Outcome(r.0, r.1, 1)
        else
          var o := Consume(sink, r.0, vs[1..]);
          Outcome(o.st, o.failure, o.used + 1)
  {
  }

  /** From a live state the loop adds, in order, exactly the lines of the values it took,
      including those printed before an exception. */
  lemma {:induction false} ConsumeKeepsRows<T>(sink: CsvSink<T>, st: SinkState, vs: seq<T>)
    requires Live(sink, st)
    ensures var o := Consume(sink, st, vs);
      AllRows(o.st.files) == AllRows(st.files) + Printed(sink, vs[..o.used])
      && (o.failure.None? ==> Live(sink, o.st))
    decreases |vs|
  {
    if vs == [] {
      assert Consume(sink, st, vs) == Outcome(st, None, 0);
      PrintedNone(sink, vs);
      AppendNil(AllRows(st.files));
    } else if OnValue(sink, st, vs[0]).1.Some? {
      FailingFirstKeepsRows(sink, st, vs);
    } else {
      var r := OnValue(sink, st, vs[0]);
      var o := Consume(sink, r.0, vs[1..]);
      OnValueKeepsRows(sink, st, vs[0]);
      ConsumeKeepsRows(sink, r.0, vs[1..]);
      ConsumeStep(sink, st, vs);
      assert Consume(sink, st, vs) == Outcome(o.st, o.failure, o.used + 1);
      FirstThenRest(sink, vs, o.used, AllRows(st.files), AllRows(r.0.files), AllRows(o.st.files));
    }
  }

  /** The first value throws: the loop stops with the lines it printed. */
  lemma FailingFirstKeepsRows<T>(sink: CsvSink<T>, st: SinkState, vs: seq<T>)
    requires Live(sink, st) && vs != [] && OnValue(sink, st, vs[0]).1.Some?
    ensures var o := Consume(sink, st, vs);
      AllRows(o.st.files) == AllRows(st.files) + Printed(sink, vs[..o.used]) && o.failure.Some?
  {
    var r := OnValue(sink, st, vs[0]);
    ConsumeStep(sink, st, vs);
    OnValueKeepsRows(sink, st, vs[0]);
    assert Consume(sink, st, vs) == Outcome(r.0, r.1, 1);
    PrintedFirst(sink, vs);
  }

  /** The rows after the first value and after the rest: the lines of the first value
      come before those of the rest. */
  lemma FirstThenRest<T>(sink: CsvSink<T>, vs: seq<T>, n: nat, rows: seq<string>, mid: seq<string>, last: seq<string>)
    requires n < |vs|
    requires mid == rows + sink.process(vs[0]).lines
    requires last == mid + Printed(sink, vs[1..][..n])
    ensures last == rows + Printed(sink, vs[..n + 1])
  {
    PrintedPrefixCons(sink, vs, n);
    AppendAssoc(rows, sink.process(vs[0]).lines, Printed(sink, vs[1..][..n]));
  }

  lemma PrintedFirst<T>(sink: CsvSink<T>, vs: seq<T>)
    requires |vs| >= 1
    ensures Printed(sink, vs[..1]) == sink.process(vs[0]).lines
  {
    assert vs[..1][1..] == [];
    AppendNil(sink.process(vs[0]).lines);
  }

  lemma PrintedNone<T>(sink: CsvSink<T>, vs: seq<T>)
    ensures Printed(sink, vs[..0]) == []
  {
  }

  /** The lines of the first `n + 1` values: those of the first, then those of the next
      `n`. */
  lemma PrintedPrefixCons<T>(sink: CsvSink<T>, vs: seq<T>, n: nat)
    requires n < |vs|
    ensures Printed(sink, vs[..n + 1]) == sink.process(vs[0]).lines + Printed(sink, vs[1..][..n])
  {
    assert vs[..n + 1][1..] == vs[1..][..n];
  }

  /** A run from a live state loses nothing: the rows of the directory grow by exactly the
      lines printed for the values taken. */
  lemma RunFromLiveKeepsRows<T>(sink: CsvSink<T>, st: SinkState, vs: seq<T>)
    requires Live(sink, st)
    ensures var o := RunValues(sink, st, vs);
      AllRows(o.st.files) == AllRows(st.files) + Printed(sink, vs[..o.used])
  {
    var o := Consume(sink, st, vs);
    ConsumeKeepsRows(sink, st, vs);
    CloseWriterKeepsRows(sink, o.st);
  }

  /** Closing the writer keeps the shape and the rows; releasing it as well leaves a live
      state with every file closed. */
  lemma ReleaseIsLive<T>(sink: CsvSink<T>, st: SinkState)
    requires Shaped(sink, st)
    ensures Shaped(sink, Finish(st)) && AllRows(Finish(st).files) == AllRows(st.files)
    ensures Live(sink, FinishReleasing(st))
    ensures forall i | 0 <= i < |Finish(st).files| :: Finish(st).files[i].closed
  {
    var c := CloseWriter(st);
    CloseWriterKeepsRows(sink, st);
    forall i | 0 <= i < |c.files|
      ensures c.files[i].closed && c.files[i].name == st.files[i].name
      ensures c.files[i].lines == st.files[i].lines
    {
      if st.writer != Some(i) {
        assert c.files[i] == st.files[i];
      }
    }
  }

  /** With the writer released at the end of every run, runs can follow one another and
      none loses a row: the state after a run is live again. */
  lemma ReleasingRunKeepsRows<T>(sink: CsvSink<T>, st: SinkState, vs: seq<T>)
    requires Live(sink, st)
    ensures var o := RunValuesReleasing(sink, st, vs);
      Live(sink, o.st) && AllRows(o.st.files) == AllRows(st.files) + Printed(sink, vs[..o.used])
  {
    var o := Consume(sink, st, vs);
    ConsumeKeepsRows(sink, st, vs);
    ReleaseIsLive(sink, o.st);
    assert AllRows(FinishReleasing(o.st).files) == AllRows(Finish(o.st).files);
  }

  /** A run over one value that does not throw, from a fresh pipeline: one file, holding
      the header and the value's lines, closed, with the writer still set on it. */
  lemma FreshRunOfOne<T>(sink: CsvSink<T>, a: T)
    requires sink.process(a).failure.None?
    ensures var lines := sink.process(a).lines;
      RunValues(sink, FRESH, [a]) == Outcome(
        SinkState(1, |lines|, Some(0), [CsvFile(FormatName(sink.pattern, 0), [sink.header] + lines, true)]), None, 1)
  {
    var lines := sink.process(a).lines;
    var f0 := CsvFile(FormatName(sink.pattern, 0), [sink.header], false);
    var f1 := f0.(lines := [sink.header] + lines);
    assert Prepare(sink, FRESH) == SinkState(1, 0, Some(0), [f0]);
    SingletonUpdate(f0, PrintAll(f0, lines));
    var s1 := SinkState(1, |lines|, Some(0), [f1]);
    assert OnValue(sink, FRESH, a) == (s1, None);
    ConsumeStep(sink, FRESH, [a]);
    assert [a][1..] == [];
    assert Consume(sink, FRESH, [a]) == Outcome(s1, None, 1);
    SingletonUpdate(f1, Close(f1));
  }

  lemma SingletonUpdate(f: CsvFile, g: CsvFile)
    ensures [f][0 := g] == [g]
  {
  }

  /** A run over one value whose writer is set on a closed, not full, file: the line
      goes nowhere. */
  lemma RunIntoClosedWriter<T>(sink: CsvSink<T>, f: CsvFile, b: T, line: string)
    requires sink.limit >= 2
    requires sink.process(b) == Batch([line], None)
    requires Shaped(sink, SinkState(1, 1, Some(0), [f])) && f.closed
    ensures RunValues(sink, SinkState(1, 1, Some(0), [f]), [b]).st.files == [f]
  {
    var first := SinkState(1, 1, Some(0), [f]);
    assert PrintAll(f, [line]) == f;
    assert [f][0 := f] == [f];
    assert OnValue(sink, first, b) == (first.(lines := 2), None);
    ConsumeStep(sink, first, [b]);
    assert [b][1..] == [];
    assert Consume(sink, first, [b]).st == first.(lines := 2);
  }

  lemma AllRowsOne(f: CsvFile)
    ensures AllRows([f]) == Rows(f)
  {
    assert [f] == [] + [f];
  }

  /** As written, the writer stays set after a run: a second run on the same pipeline,
      whose first file is not full, prints into the closed writer and its rows are lost. */
  lemma SecondRunLosesRows<T>(sink: CsvSink<T>, a: T, b: T)
    requires sink.limit >= 2
    requires sink.process(a) == Batch(["first"], None)
    requires sink.process(b) == Batch(["second"], None)
    ensures var first := RunValues(sink, FRESH, [a]).st;
      AllRows(first.files) == ["first"]
      && AllRows(RunValues(sink, first, [b]).st.files) == ["first"]
  {
    FreshRunOfOne(sink, a);
    assert [sink.header] + ["first"] == [sink.header, "first"];
    var f := CsvFile(FormatName(sink.pattern, 0), [sink.header, "first"], true);
    var first := SinkState(1, 1, Some(0), [f]);
    assert RunValues(sink, FRESH, [a]).st == first;
    assert Shaped(sink, first) by {
      assert |first.files| == 1 && first.files[0] == f;
    }
    RunIntoClosedWriter(sink, f, b, "second");
    AllRowsOne(f);
  }

  /** With the writer released, a second run keeps its rows: from a fresh pipeline (or
      any live one), two runs of one line each leave both lines. */
  lemma ReleasedSecondRunKeepsRows<T>(sink: CsvSink<T>, st: SinkState, a: T, b: T, x: string, y: string)
    requires Live(sink, st)
    requires sink.process(a) == Batch([x], None)
    requires sink.process(b) == Batch([y], None)
    ensures var first := RunValuesReleasing(sink, st, [a]).st;
      AllRows(RunValuesReleasing(sink, first, [b]).st.files) == AllRows(st.files) + [x, y]
  {
    var first := ReleasingRunOfOne(sink, st, a, x);
    var second := ReleasingRunOfOne(sink, first, b, y);
    AppendTwo(AllRows(st.files), x, y);
  }

  /** A releasing run over one value that prints one line adds that line; `next` is the
      state it leaves. */
  lemma ReleasingRunOfOne<T>(sink: CsvSink<T>, st: SinkState, a: T, line: string) returns (next: SinkState)
    requires Live(sink, st)
    requires sink.process(a) == Batch([line], None)
    ensures next == RunValuesReleasing(sink, st, [a]).st
    ensures Live(sink, next) && AllRows(next.files) == AllRows(st.files) + [line]
  {
    var o := RunValuesReleasing(sink, st, [a]);
    next := o.st;
    ReleasingRunKeepsRows(sink, st, [a]);
    assert o.used == 1 by {
      assert Consume(sink, st, [a]).failure.None?;
    }
    PrintedOne(sink, a);
  }

  lemma PrintedOne<T>(sink: CsvSink<T>, a: T)
    ensures Printed(sink, [a][..1]) == Printed(sink, [a]) == sink.process(a).lines
  {
    assert [a][1..] == [];
    assert [a][..1] == [a];
    AppendNil(sink.process(a).lines);
  }

  /** The balance of a run from a fresh pipeline: every file but the last holds at least
      `limit` rows, and none holds more than `limit - 1 + m`, `m` bounding the lines
      printed for one value. */
  predicate Balanced<T>(sink: CsvSink<T>, st: SinkState, m: nat) {
    && (forall i | 0 <= i < |st.files| - 1 :: |Rows(st.files[i])| >= sink.limit)
    && (forall i | 0 <= i < |st.files| :: |Rows(st.files[i])| <= sink.limit - 1 + m)
    && (st.writer.None? ==> st.files == [])
  }

  lemma OnValueBalanced<T>(sink: CsvSink<T>, st: SinkState, command: T, m: nat)
    requires sink.limit >= 1
    requires Live(sink, st) && Balanced(sink, st, m)
    requires |sink.process(command).lines| <= m
    ensures Balanced(sink, OnValue(sink, st, command).0, m)
  {
    var st1 := Prepare(sink, st);
    PrepareBalanced(sink, st, m);
    RowsOfOpenWriter(sink, st);
    var w := st1.writer.value;
    var b := sink.process(command);
    var r := Print(sink, st1, command).0;
    RowsPrint(st1.files[w], b.lines);
    forall i | 0 <= i < |r.files|
      ensures |Rows(r.files[i])| <= sink.limit - 1 + m
      ensures i < |r.files| - 1 ==> |Rows(r.files[i])| >= sink.limit
    {
      if i != w {
        assert r.files[i] == st1.files[i];
      }
    }
  }

  /** After the check, every file but the writer's has at least `limit` rows, and the
      writer's has fewer. */
  lemma PrepareBalanced<T>(sink: CsvSink<T>, st: SinkState, m: nat)
    requires sink.limit >= 1
    requires Live(sink, st) && Balanced(sink, st, m)
    ensures var st1 := Prepare(sink, st);
      && st1.writer.value == |st1.files| - 1
      && (forall i | 0 <= i < |st1.files| - 1 :: |Rows(st1.files[i])| >= sink.limit)
      && (forall i | 0 <= i < |st1.files| :: |Rows(st1.files[i])| <= sink.limit - 1 + m)
      && |Rows(st1.files[|st1.files| - 1])| < sink.limit
  {
    var st1 := Prepare(sink, st);
    if st.lines >= sink.limit || st.writer.None? {
      var c := CloseWriter(st).files;
      var nf := CsvFile(FormatName(sink.pattern, st.count), [sink.header], false);
      assert st1.files == c + [nf];
      assert Rows(nf) == [];
      forall i | 0 <= i < |st.files|
        ensures |Rows(st1.files[i])| == |Rows(st.files[i])| >= sink.limit
      {
        assert st1.files[i] == c[i];
        if i == |st.files| - 1 {
          assert st.writer == Some(i);
        }
      }
    } else {
      assert st1 == st;
    }
  }

  lemma {:induction false} ConsumeBalanced<T>(sink: CsvSink<T>, st: SinkState, vs: seq<T>, m: nat)
    requires sink.limit >= 1
    requires Live(sink, st) && Balanced(sink, st, m)
    requires forall i | 0 <= i < |vs| :: |sink.process(vs[i]).lines| <= m
    ensures Balanced(sink, Consume(sink, st, vs).st, m)
    decreases |vs|
  {
    if vs != [] {
      var r := OnValue(sink, st, vs[0]);
      OnValueBalanced(sink, st, vs[0], m);
      OnValueKeepsRows(sink, st, vs[0]);
      if r.1.None? {
        ConsumeBalanced(sink, r.0, vs[1..], m);
      }
    }
  }

  /** From a fresh pipeline, files are cut at the limit: every file but the last has at
      least `limit` rows, and a file overshoots the limit by less than one command's
      lines, since the check happens only between commands. */
  lemma FreshRunIsBalanced<T>(sink: CsvSink<T>, vs: seq<T>, m: nat)
    requires sink.limit >= 1
    requires forall i | 0 <= i < |vs| :: |sink.process(vs[i]).lines| <= m
    ensures var fs := RunValues(sink, FRESH, vs).st.files;
      (forall i | 0 <= i < |fs| - 1 :: |Rows(fs[i])| >= sink.limit)
      && (forall i | 0 <= i < |fs| :: |Rows(fs[i])| <= sink.limit - 1 + m)
  {
    assert Live(sink, FRESH) && Balanced(sink, FRESH, m);
    ConsumeBalanced(sink, FRESH, vs, m);
    var o := Consume(sink, FRESH, vs);
    assert RunValues(sink, FRESH, vs).st == CloseWriter(o.st);
    CloseWriterRows(o.st);
  }

  /** Closing the writer changes no file's rows. */
  lemma CloseWriterRows(st: SinkState)
    ensures |CloseWriter(st).files| == |st.files|
    ensures forall i | 0 <= i < |st.files| :: Rows(CloseWriter(st).files[i]) == Rows(st.files[i])
  {
  }

  /** A single command whose lines exceed the limit is not split: it fills one file. */
  lemma OversizedCommandStaysInOneFile<T>(sink: CsvSink<T>, a: T)
    requires sink.process(a).failure.None? && |sink.process(a).lines| > sink.limit
    ensures RunValues(sink, FRESH, [a]).st.files
      == [CsvFile(FormatName(sink.pattern, 0), [sink.header] + sink.process(a).lines, true)]
  {
    FreshRunOfOne(sink, a);
  }

  /** A stream that starts with `Stop` creates no file. */
  lemma EmptyStreamCreatesNoFile<T>(sink: CsvSink<T>)
    ensures RunValues(sink, FRESH, []).st.files == []
  {
  }

  /** The pipeline object: its configuration, the `started` flag, and the mutable state. */
  class CsvWritePipeline<T> {
    const header: string
    const process: T -> Batch
    const limit: int
    const pattern: FilePattern
    var started: bool
    var count: nat
    var lines: int
    var writer: Option<nat>
    var files: seq<CsvFile>

    function Sink(): CsvSink<T> {
      CsvSink(header, process, limit, pattern)
    }

    function State(): SinkState
      reads this
    {
      SinkState(count, lines, writer, files)
    }

    ghost predicate Valid()
      reads this
    {
      Shaped(Sink(), State())
    }

    constructor (header: string, process: T -> Batch, limit: int, pattern: FilePattern)
      ensures Valid() && !started && State() == FRESH
      ensures Sink() == CsvSink(header, process, limit, pattern)
    {
      this.header := header;
      this.process := process;
      this.limit := limit;
      this.pattern := pattern;
      started := false;
      count := 0;
      lines := 0;
      writer := None;
      files := [];
    }

    /** `createNewWrite`, with the closing of the previous writer before it. */
    method OpenNext()
      requires Valid()
      modifies this
      ensures Valid() && started == old(started)
      ensures State() == Rotate(Sink(), old(State()))
    {
      ghost var closed := CloseWriter(State());
      if writer.Some? {
        files := files[writer.value := Close(files[writer.value])];
      }
      assert files == closed.files;
      var name := FormatName(pattern, count);
      count := count + 1;
      files := files + [CsvFile(name, [header], false)];
      writer := Some(|files| - 1);
      lines := 0;
      assert State() == Rotate(Sink(), old(State()));
    }

    /** The check at the top of the `Value(command)` branch. */
    method PrepareWriter()
      requires Valid()
      modifies this
      ensures Valid() && started == old(started)
      ensures State() == Prepare(Sink(), old(State()))
    {
      if lines >= limit || writer.None? {
        OpenNext();
      }
    }

    /** `processCommand` on the current writer, and the row count. */
    method PrintCommand(command: T) returns (failure: Option<Failure>)
      requires Valid() && writer.Some?
      modifies this
      ensures Valid() && started == old(started)
      ensures (State(), failure) == Print(Sink(), old(State()), command)
    {
      var batch := process(command);
      var w := writer.value;
      files := files[w := PrintAll(files[w], batch.lines)];
      if batch.failure.Some? {
        failure := batch.failure;
      } else {
        failure := None;
        lines := lines + |batch.lines|;
      }
    }

    /** The `Value(command)` branch of `run`'s loop. */
    method Accept(command: T) returns (failure: Option<Failure>)
      requires Valid()
      modifies this
      ensures Valid() && started == old(started)
      ensures (State(), failure) == OnValue(Sink(), old(State()), command)
    {
      PrepareWriter();
      failure := PrintCommand(command);
    }

    /** The `finally` block of `run`: closes the writer (which stays set) and clears
        `started`. */
    method Finally()
      requires Valid()
      modifies this
      ensures Valid() && !started
      ensures State() == Finish(old(State()))
    {
      if writer.Some? {
        files := files[writer.value := Close(files[writer.value])];
      }
      started := false;
      ReleaseIsLive(Sink(), old(State()));
    }

    /** The loop of `run`: takes values until the `Stop` or the first exception. */
    method TakeValues(input: seq<Action<T>>) returns (failure: Option<Failure>, used: nat)
      requires Valid() && HasStop(input)
      modifies this
      ensures Valid() && started == old(started)
      ensures var o := Consume(Sink(), old(State()), Values(input[..StopIndex(input)]));
        State() == o.st && failure == o.failure && used == o.used
    {
      ghost var vs := Values(input[..StopIndex(input)]);
      ghost var o0 := Consume(Sink(), State(), vs);
      ValuesOfValues(input[..StopIndex(input)]);
      var i := 0;
      failure := None;
      while input[i].Value? && failure.None?
        invariant 0 <= i <= StopIndex(input) == |vs|
        invariant Valid() && started == old(started)
        invariant failure.None? ==>
          var o := Consume(Sink(), State(), vs[i..]);
          o.st == o0.st && o.failure == o0.failure && o.used + i == o0.used
        invariant failure.Some? ==> State() == o0.st && failure == o0.failure && i == o0.used
        decreases StopIndex(input) - i, if failure.None? then 1 else 0
      {
        assert input[..StopIndex(input)][i] == input[i];
        var command := input[i].value;
        assert command == vs[i];
        ConsumeStep(Sink(), State(), vs[i..]);
        failure := Accept(command);
        assert vs[i..][1..] == vs[i + 1..];
        i := i + 1;
      }
      if failure.None? {
        assert vs[i..] == [];
      }
      used := i;
    }

    /** `run`: fails at once if already started; otherwise takes values until `Stop` or
        an exception, closes the writer and clears `started`. */
    method Run(input: seq<Action<T>>) returns (failure: Option<Failure>, taken: nat)
      requires Valid() && HasStop(input)
      modifies this
      ensures Valid()
      ensures old(started) ==>
        failure == Some(IllegalState("Pipeline already started")) && taken == 0
        && started && State() == old(State())
      ensures !old(started) ==>
        var o := RunValues(Sink(), old(State()), Values(input[..StopIndex(input)]));
        !started && State() == o.st && failure == o.failure
        && taken == o.used + (if o.failure.None? then 1 else 0)
    {
      if started {
        return Some(IllegalState("Pipeline already started")), 0;
      }
      started := true;
      var used;
      failure, used := TakeValues(input);
      Finally();
      taken := if failure.None? then used + 1 else used;
    }
  }
}

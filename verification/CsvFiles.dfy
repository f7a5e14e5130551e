/** The files a CSV pipeline writes: each file is the sequence of lines printed to it
    through a `PrintWriter`, and the output directory is the sequence of files in the
    order they were created. */
module CsvFiles {
  import opened JavaText
  import opened Outcomes
  import opened Sequences

  /** One output file: its name, the lines printed to it (the line separator left out),
      and whether its writer has been closed. */
  datatype CsvFile = CsvFile(name: string, lines: seq<string>, closed: bool)

  /** `println`, or `printf` ending in `%n`: appends one line. A closed `PrintWriter`
      does not throw; it records the error internally and drops the line. */
  function Println(f: CsvFile, line: string): (r: CsvFile)
    ensures r.name == f.name && r.closed == f.closed
    ensures r.lines == if f.closed then f.lines else f.lines + [line]
  {
    if f.closed then f else f.(lines := f.lines + [line])
  }

  /** The lines printed one after the other. */
  function PrintAll(f: CsvFile, lines: seq<string>): (r: CsvFile)
    ensures r.name == f.name && r.closed == f.closed
    ensures r.lines == if f.closed then f.lines else f.lines + lines
  {
    if lines == [] then f
    else Println(PrintAll(f, lines[..|lines| - 1]), lines[|lines| - 1])
  }

  function Close(f: CsvFile): CsvFile {
    f.(closed := true)
  }

  /** The rows of a file: its lines after the header line. */
  function Rows(f: CsvFile): seq<string> {
    if f.lines == [] then [] else f.lines[1..]
  }

  /** The rows of all the files, in file order. */
  function AllRows(fs: seq<CsvFile>): seq<string> {
    if fs == [] then [] else AllRows(fs[..|fs| - 1]) + Rows(fs[|fs| - 1])
  }

  /** What `processCommand` printed: the lines, and the exception that cut it short, if
      any. */
  datatype Batch = Batch(lines: seq<string>, failure: Option<Failure>)

  /** A `String.format` pattern of the form `<prefix>%04d<suffix>`, the only form the
      pipelines are given. */
  datatype FilePattern = FilePattern(prefix: string, suffix: string)

  /** `String.format(pattern, n)`. */
  function FormatName(p: FilePattern, n: nat): string {
    p.prefix + ZeroPad(n, 4) + p.suffix
  }

  /** Different counters give different names. */
  lemma FormatNameInjective(p: FilePattern, a: nat, b: nat)
    requires FormatName(p, a) == FormatName(p, b)
    ensures a == b
  {
    var x := FormatName(p, a);
    var pa := ZeroPad(a, 4);
    var pb := ZeroPad(b, 4);
    assert |pa| == |pb|;
    assert pa == x[|p.prefix|..|p.prefix| + |pa|];
    assert pb == x[|p.prefix|..|p.prefix| + |pb|];
    ZeroPadInjective(a, b, 4);
  }

  /** `PrintAll` one line at a time. */
  lemma PrintAllSnoc(f: CsvFile, lines: seq<string>, line: string)
    ensures PrintAll(f, lines + [line]) == Println(PrintAll(f, lines), line)
  {
    assert (lines + [line])[..|lines|] == lines;
  }

  /** Printing two runs of lines is printing their concatenation. */
  lemma PrintAllAppend(f: CsvFile, a: seq<string>, b: seq<string>)
    ensures PrintAll(PrintAll(f, a), b) == PrintAll(f, a + b)
  {
    if !f.closed {
      assert f.lines + a + b == f.lines + (a + b);
    }
  }

  predicate IsComma(c: char) {
    c == ','
  }

  /** A CSV row: the fields joined with `,`. */
  function Row(fields: seq<string>): string
    requires |fields| >= 1
  {
    Join(fields, ',')
  }

  /** A row of several fields is its first field, a comma, and the row of the rest. */
  lemma RowCons(fields: seq<string>)
    requires |fields| >= 2
    ensures Row(fields) == fields[0] + "," + Row(fields[1..])
  {
  }

  /** Round trip: splitting a row at its commas gives its fields back, as long as no
      field holds a comma. */
  lemma RowFields(fields: seq<string>)
    requires |fields| >= 1
    requires forall i | 0 <= i < |fields| :: !HasSeparator(fields[i], IsComma)
    ensures Pieces(Row(fields), IsComma) == fields
  {
    PiecesOfJoin(fields, ',', IsComma);
  }

  /** A text without the character `,` has no comma separator. */
  lemma NoComma(s: string)
    requires ',' !in s
    ensures !HasSeparator(s, IsComma)
  {
  }

  /** Fields none of which holds `,` are cut back out of their row. */
  lemma RowOfCommaFree(fields: seq<string>)
    requires |fields| >= 1
    requires forall i | 0 <= i < |fields| :: ',' !in fields[i]
    ensures Pieces(Row(fields), IsComma) == fields
  {
    forall i | 0 <= i < |fields| ensures !HasSeparator(fields[i], IsComma) {
      NoComma(fields[i]);
    }
    RowFields(fields);
  }

  /** `%d` never prints a comma. */
  lemma FormatIntHasNoComma(i: int)
    ensures !HasSeparator(FormatInt(i), IsComma)
  {
    var d := Decimal(if i < 0 then -i else i);
    assert AllDigits(d);
    if i < 0 {
      assert forall k | 1 <= k < |FormatInt(i)| :: FormatInt(i)[k] == d[k - 1];
    }
  }

  /** The lines a loop prints for the elements of `xs`, one each, in order. */
  function InnerLines<D, I>(d: D, xs: seq<I>, line: (D, I) -> string): (r: seq<string>)
    ensures |r| == |xs|
    ensures forall j | 0 <= j < |xs| :: r[j] == line(d, xs[j])
  {
    if xs == [] then [] else InnerLines(d, xs[..|xs| - 1], line) + [line(d, xs[|xs| - 1])]
  }

  lemma InnerLinesSnoc<D, I>(d: D, xs: seq<I>, line: (D, I) -> string, j: nat)
    requires j < |xs|
    ensures InnerLines(d, xs[..j + 1], line) == InnerLines(d, xs[..j], line) + [line(d, xs[j])]
  {
    assert xs[..j + 1][..j] == xs[..j];
  }

  /** The number of inner elements over all outer elements. */
  function Total<D, I>(ds: seq<D>, items: D -> seq<I>): nat {
    if ds == [] then 0 else Total(ds[..|ds| - 1], items) + |items(ds[|ds| - 1])|
  }

  /** The lines a nested loop prints: for each outer element in order, one line per
      inner element in order. */
  function NestedLines<D, I>(ds: seq<D>, items: D -> seq<I>, line: (D, I) -> string): (r: seq<string>)
    ensures |r| == Total(ds, items)
  {
    if ds == [] then []
    else
      var last := ds[|ds| - 1];
      NestedLines(ds[..|ds| - 1], items, line) + InnerLines(last, items(last), line)
  }

  lemma NestedLinesSnoc<D, I>(ds: seq<D>, items: D -> seq<I>, line: (D, I) -> string, k: nat)
    requires k < |ds|
    ensures NestedLines(ds[..k + 1], items, line)
      == NestedLines(ds[..k], items, line) + InnerLines(ds[k], items(ds[k]), line)
    ensures Total(ds[..k + 1], items) == Total(ds[..k], items) + |items(ds[k])|
  {
    assert ds[..k + 1][..k] == ds[..k];
  }

  /** Where each line lands: the line for inner element `j` of outer element `k` comes
      after the lines of every element before it. */
  lemma {:induction false} NestedLinesAt<D, I>(ds: seq<D>, items: D -> seq<I>, line: (D, I) -> string, k: nat, j: nat)
    requires k < |ds| && j < |items(ds[k])|
    ensures Total(ds[..k], items) + j < Total(ds, items)
    ensures NestedLines(ds, items, line)[Total(ds[..k], items) + j] == line(ds[k], items(ds[k])[j])
  {
    var init := ds[..|ds| - 1];
    if k == |ds| - 1 {
      assert ds[..k] == init;
    } else {
      NestedLinesAt(init, items, line, k, j);
      assert init[..k] == ds[..k];
    }
  }

  /** The loop of a `processCommand` over a flat list: one `printf` per element. */
  method PrintEach<D, I>(d: D, xs: seq<I>, line: (D, I) -> string, file: CsvFile)
    returns (written: CsvFile)
    ensures written == PrintAll(file, InnerLines(d, xs, line))
  {
    written := file;
    for j := 0 to |xs|
      invariant written == PrintAll(file, InnerLines(d, xs[..j], line))
    {
      InnerLinesSnoc(d, xs, line, j);
      PrintAllSnoc(file, InnerLines(d, xs[..j], line), line(d, xs[j]));
      written := Println(written, line(d, xs[j]));
    }
    assert xs[..|xs|] == xs;
  }

  /** The nested loop of a `processCommand`: one `printf` per inner element of every
      outer element, counting the lines printed. */
  method PrintNested<D, I>(ds: seq<D>, items: D -> seq<I>, line: (D, I) -> string, file: CsvFile)
    returns (written: CsvFile, lines: int)
    ensures written == PrintAll(file, NestedLines(ds, items, line))
    ensures lines == Total(ds, items)
  {
    written := file;
    lines := 0;
    for k := 0 to |ds|
      invariant written == PrintAll(file, NestedLines(ds[..k], items, line))
      invariant lines == Total(ds[..k], items)
    {
      var inner := items(ds[k]);
      ghost var start := written;
      ghost var before := lines;
      for j := 0 to |inner|
        invariant written == PrintAll(start, InnerLines(ds[k], inner[..j], line))
        invariant lines == before + j
      {
        InnerLinesSnoc(ds[k], inner, line, j);
        PrintAllSnoc(start, InnerLines(ds[k], inner[..j], line), line(ds[k], inner[j]));
        written := Println(written, line(ds[k], inner[j]));
        lines := lines + 1;
      }
      assert inner[..|inner|] == inner;
      PrintAllAppend(file, NestedLines(ds[..k], items, line), InnerLines(ds[k], inner, line));
      NestedLinesSnoc(ds, items, line, k);
    }
    assert ds[..|ds|] == ds;
  }
}

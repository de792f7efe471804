/**
 * Row assembly: every measurement file found under the extraction directory
 * becomes one row `path key ++ [sample name] ++ values`, and the header is
 * built from the last file read.
 */
module Assembly {
  import opened Wrappers
  import opened Floats
  import opened Paths
  import opened Table

  /**
   * One entry of the recursive glob listing, with its normalised path
   * components; a file's lines are given as `line.split()` token lists.
   */
  datatype Entry =
    | Directory(parts: seq<string>)
    | File(parts: seq<string>, lines: seq<seq<string>>)

  /** A cell of the assembled rows before Polars types the columns. */
  datatype Cell = Str(s: string) | Number(n: Num) | Null

  /** The exception a file's list comprehension raises, with the 0-based line it stops at. */
  datatype LineError =
    | MissingColumn(line: nat)             // `line.split()[1]`: IndexError
    | NotAFloat(line: nat, token: string)  // `float(...)`: ValueError

  datatype AssembleError =
    | BadFile(parts: seq<string>, problem: LineError)
    | NoEntries                          // the glob found nothing: `file_path` is never bound
    | LastEntryIsDirectory(parts: seq<string>)  // the header is read from a directory
    | DuplicateColumns(columns: seq<string>)    // the frame constructor refuses a repeated column name

  /** The assembled rows with their column names. */
  datatype RawFrame = RawFrame(columns: seq<string>, rows: seq<seq<Cell>>)

  /** A line the source reads without error: blank, or with a float in its second column. */
  predicate Readable(tokens: seq<string>) {
    tokens == [] || (|tokens| >= 2 && ParseFloat(tokens[1]).Some?)
  }

  /** The values line `n` adds: none when it is blank, else `float` of its second token. */
  function ReadLine(tokens: seq<string>, n: nat): (r: Result<seq<Num>, LineError>)
    ensures r.Success? <==> Readable(tokens)
    ensures r.Success? ==> |r.value| == (if tokens == [] then 0 else 1)
    ensures r.Failure? ==> ErrorLine(r.error) == n
  {
    if tokens == [] then Success([])
    else if |tokens| < 2 then Failure(MissingColumn(n))
    else
      match ParseFloat(tokens[1])
      case None => Failure(NotAFloat(n, tokens[1]))
      case Some(v) => Success([v])
  }

  /** `[float(line.split()[1]) for line in file if line.strip()]`. */
  function Content(lines: seq<seq<string>>): (r: Result<seq<Num>, LineError>)
    ensures r.Success? ==> |r.value| <= |lines|
    ensures r.Failure? ==> ErrorLine(r.error) < |lines| && !Readable(lines[ErrorLine(r.error)])
  {
    if lines == [] then Success([])
    else
      var n := |lines| - 1;
      match Content(lines[..n])
      case Failure(e) => Failure(e)
      case Success(values) =>
        match ReadLine(lines[n], n)
        case Failure(e) => Failure(e)
        case Success(v) => Success(values + v)
  }

  /** `[str(line.split()[0]) for line in file if line.strip()]`. */
  function Labels(lines: seq<seq<string>>): (ls: seq<string>)
    ensures |ls| <= |lines|
    ensures (forall i | 0 <= i < |lines| :: lines[i] != []) ==>
      |ls| == |lines| && forall i | 0 <= i < |lines| :: ls[i] == lines[i][0]
  {
    if lines == [] then []
    else
      var n := |lines| - 1;
      Labels(lines[..n]) + (if lines[n] == [] then [] else [lines[n][0]])
  }

  /** The line a content error names. */
  function ErrorLine(e: LineError): nat {
    match e
    case MissingColumn(l) => l
    case NotAFloat(l, _) => l
  }

  /** A file's values are read without error exactly when every line is readable. */
  lemma {:induction false} ContentSucceeds(lines: seq<seq<string>>)
    ensures Content(lines).Success? <==> LinesReadable(lines)
  {
    if lines != [] {
      var n := |lines| - 1;
      ContentSucceeds(lines[..n]);
      ContentStep(lines);
      AllReadableStep(lines);
    }
  }

  /** Every line is readable. */
  predicate LinesReadable(lines: seq<seq<string>>) {
    forall i | 0 <= i < |lines| :: Readable(lines[i])
  }

  lemma AllReadableStep(lines: seq<seq<string>>)
    requires lines != []
    ensures LinesReadable(lines) <==> LinesReadable(lines[..|lines| - 1]) && Readable(lines[|lines| - 1])
  {
    var n := |lines| - 1;
    if LinesReadable(lines) {
      ReadablePrefix(lines, n);
    }
    if LinesReadable(lines[..n]) && Readable(lines[n]) {
      ReadableSnoc(lines);
    }
  }

  lemma ReadablePrefix(lines: seq<seq<string>>, n: nat)
    requires n <= |lines| && LinesReadable(lines)
    ensures LinesReadable(lines[..n])
  {
    var init := lines[..n];
    forall i | 0 <= i < n
      ensures Readable(init[i])
    {
      assert init[i] == lines[i];
    }
  }

  lemma ReadableSnoc(lines: seq<seq<string>>)
    requires lines != []
    requires LinesReadable(lines[..|lines| - 1]) && Readable(lines[|lines| - 1])
    ensures LinesReadable(lines)
  {
    var n := |lines| - 1;
    var init := lines[..n];
    forall i | 0 <= i < |lines|
      ensures Readable(lines[i])
    {
      if i < n {
        assert init[i] == lines[i];
      }
    }
  }


  lemma ContentStep(lines: seq<seq<string>>)
    requires lines != []
    ensures Content(lines).Success?
        <==> Content(lines[..|lines| - 1]).Success? && Readable(lines[|lines| - 1])
  {
  }

  /** Otherwise the error names the first line that is not readable. */
  lemma {:induction false} ContentFailsAtFirstBadLine(lines: seq<seq<string>>)
    requires Content(lines).Failure?
    ensures ErrorLine(Content(lines).error) < |lines|
    ensures !Readable(lines[ErrorLine(Content(lines).error)])
    ensures forall i | 0 <= i < ErrorLine(Content(lines).error) :: Readable(lines[i])
  {
    var n := |lines| - 1;
    if Content(lines[..n]).Failure? {
      ContentFailsAtFirstBadLine(lines[..n]);
      assert forall i | 0 <= i < n :: lines[..n][i] == lines[i];
    } else {
      ContentSucceeds(lines[..n]);
      assert forall i | 0 <= i < n :: lines[..n][i] == lines[i];
    }
  }

  /** One value is read per non-blank line, so a file has as many values as labels. */
  lemma {:induction false} ContentMatchesLabels(lines: seq<seq<string>>)
    requires Content(lines).Success?
    ensures |Content(lines).value| == |Labels(lines)|
  {
    if lines != [] {
      ContentMatchesLabels(lines[..|lines| - 1]);
    }
  }

  function Strs(ss: seq<string>): (cells: seq<Cell>)
    ensures |cells| == |ss| && forall i | 0 <= i < |ss| :: cells[i] == Str(ss[i])
  {
    if ss == [] then [] else [Str(ss[0])] + Strs(ss[1..])
  }

  function Numbers(values: seq<Num>): (cells: seq<Cell>)
    ensures |cells| == |values| && forall i | 0 <= i < |values| :: cells[i] == Number(values[i])
  {
    if values == [] then [] else [Number(values[0])] + Numbers(values[1..])
  }

  /** A file that is read without error. */
  predicate ReadableFile(e: Entry) {
    e.File? && |e.parts| > 0 && Content(e.lines).Success?
  }

  /** `subdirs + [file_name] + content` for one file. */
  function FileRow(e: Entry): (row: seq<Cell>)
    requires ReadableFile(e)
    ensures |row| == |PathKey(e.parts)| + 1 + |Content(e.lines).value|
    ensures forall i | 0 <= i < |PathKey(e.parts)| :: row[i] == Str(PathKey(e.parts)[i])
    ensures row[|PathKey(e.parts)|] == Str(SampleName(e.parts[|e.parts| - 1]))
    ensures forall i | 0 <= i < |Content(e.lines).value| ::
      row[|PathKey(e.parts)| + 1 + i] == Number(Content(e.lines).value[i])
  {
    Strs(PathKey(e.parts)) + [Str(SampleName(e.parts[|e.parts| - 1]))] + Numbers(Content(e.lines).value)
  }

  /** `subdirs + ["Name"] + origin`, read from file `e`. */
  function Header(e: Entry): (h: seq<string>)
    requires e.File? && |e.parts| > 0
    ensures |h| == |PathKey(e.parts)| + 1 + |Labels(e.lines)|
    ensures h[..|PathKey(e.parts)|] == PathKey(e.parts) && h[|PathKey(e.parts)|] == "Name"
    ensures h[|PathKey(e.parts)| + 1..] == Labels(e.lines)
  {
    PathKey(e.parts) + ["Name"] + Labels(e.lines)
  }

  /** `row + [None] * (width - len(row))`; a negative count repeats nothing. */
  function Pad(row: seq<Cell>, width: int): (padded: seq<Cell>)
    ensures |padded| == if width > |row| then width else |row|
    ensures padded[..|row|] == row
    ensures forall i | |row| <= i < |padded| :: padded[i] == Null
  {
    row + seq(if width > |row| then width - |row| else 0, _ => Null)
  }

  /** The file entries of a listing, in order. */
  function Files(entries: seq<Entry>): (files: seq<Entry>)
    ensures |files| <= |entries|
    ensures forall f <- files :: f.File? && f in entries
  {
    if entries == [] then []
    else
      var n := |entries| - 1;
      Files(entries[..n]) + (if entries[n].File? then [entries[n]] else [])
  }

  /** Every entry is a directory or a file the source reads without error. */
  predicate AllReadable(entries: seq<Entry>) {
    forall e <- entries :: e.Directory? || ReadableFile(e)
  }

  /** The rows `creat_row_data_fram` collects in `data`, one per file. */
  function FileRows(entries: seq<Entry>): (rows: seq<seq<Cell>>)
    requires AllReadable(entries)
    ensures |rows| == |Files(entries)|
    ensures forall k | 0 <= k < |rows| :: ReadableFile(Files(entries)[k]) && rows[k] == FileRow(Files(entries)[k])
  {
    if entries == [] then []
    else
      var n := |entries| - 1;
      var init, e := entries[..n], entries[n];
      assert forall e <- init :: e in entries;
      assert Files(entries) == Files(init) + (if e.File? then [e] else []);
      assert e in entries;
      FileRows(init) + (if e.File? then [FileRow(e)] else [])
  }

  lemma FileRowsOfSnoc(entries: seq<Entry>, e: Entry)
    requires AllReadable(entries) && (e.Directory? || ReadableFile(e))
    ensures AllReadable(entries + [e])
    ensures FileRows(entries + [e]) == FileRows(entries) + (if e.File? then [FileRow(e)] else [])
  {
    assert (entries + [e])[..|entries|] == entries;
  }

  lemma ReadStep(entries: seq<Entry>, i: nat)
    requires i < |entries| && AllReadable(entries[..i])
    requires entries[i].Directory? || ReadableFile(entries[i])
    ensures AllReadable(entries[..i + 1])
    ensures FileRows(entries[..i + 1])
         == FileRows(entries[..i]) + (if entries[i].File? then [FileRow(entries[i])] else [])
  {
    assert entries[..i + 1] == entries[..i] + [entries[i]];
    FileRowsOfSnoc(entries[..i], entries[i]);
  }

  /** Entry `i` is a file at `parts` whose reading fails with `problem`, and every entry before it is read. */
  predicate FirstBadFile(entries: seq<Entry>, i: nat, parts: seq<string>, problem: LineError) {
    && i < |entries|
    && entries[i].File?
    && entries[i].parts == parts
    && Content(entries[i].lines) == Failure(problem)
    && AllReadable(entries[..i])
  }

  /** A file that cannot be read after readable entries is the first bad file, and the listing is not readable. */
  lemma BadFileBlocks(entries: seq<Entry>, i: nat)
    requires i < |entries| && entries[i].File? && Content(entries[i].lines).Failure?
    requires AllReadable(entries[..i])
    ensures FirstBadFile(entries, i, entries[i].parts, Content(entries[i].lines).error)
    ensures !AllReadable(entries)
  {
    assert entries[i] in entries;
  }

  /** One file of the loop of `creat_row_data_fram`: its contents, then its row of key, name and values. */
  method ReadFile(e: Entry) returns (row: Result<seq<Cell>, LineError>)
    requires e.File? && |e.parts| > 0
    ensures row.Success? <==> ReadableFile(e)
    ensures row.Success? ==> row.value == FileRow(e)
    ensures row.Failure? ==> Content(e.lines) == Failure(row.error)
  {
    var content := Content(e.lines);
    if content.Failure? {
      return Failure(content.error);
    }
    var subdirs := PathKey(e.parts);
    var fileName := SampleName(e.parts[|e.parts| - 1]);
    return Success(Strs(subdirs) + [Str(fileName)] + Numbers(content.value));
  }

  /**
   * The loop of `creat_row_data_fram`: directories are skipped and each file
   * becomes a row; the first file that cannot be read stops the run.  The
   * key of the last file read is left in `subdirs`.
   */
  method ReadFiles(entries: seq<Entry>) returns (res: Result<seq<seq<Cell>>, AssembleError>, subdirs: seq<string>)
    requires forall e <- entries :: |e.parts| > 0
    ensures res.Success? <==> AllReadable(entries)
    ensures res.Success? ==> res.value == FileRows(entries)
    ensures res.Success? && entries != [] && entries[|entries| - 1].File? ==>
      subdirs == PathKey(entries[|entries| - 1].parts)
    ensures res.Failure? ==>
      && res.error.BadFile?
      && exists i | 0 <= i < |entries| :: FirstBadFile(entries, i, res.error.parts, res.error.problem)
  {
    var data: seq<seq<Cell>> := [];
    subdirs := [];
    var i := 0;
    while i < |entries|
      invariant i <= |entries|
      invariant AllReadable(entries[..i])
      invariant data == FileRows(entries[..i])
      invariant i > 0 && entries[i - 1].File? ==> subdirs == PathKey(entries[i - 1].parts)
    {
      var entry := entries[i];
      if entry.File? {
        var row := ReadFile(entry);
        if row.Failure? {
          BadFileBlocks(entries, i);
          return Failure(BadFile(entry.parts, row.error)), subdirs;
        }
        subdirs := PathKey(entry.parts);
        data := data + [row.value];
      }
      ReadStep(entries, i);
      i := i + 1;
    }
    assert entries[..i] == entries;
    return Success(data), subdirs;
  }

  /**
   * `creat_row_data_fram` over a glob listing: the rows of `ReadFiles`, the
   * header from the last entry, and every row padded with nulls to the
   * header's width; a header that names a column twice (a repeated directory
   * name, a directory or label called `Name`, a repeated label) is refused,
   * as the frame constructor refuses it.
   */
  method CreateRowDataFrame(entries: seq<Entry>) returns (res: Result<RawFrame, AssembleError>)
    requires forall e <- entries :: |e.parts| > 0
    ensures res.Success? <==>
      AllReadable(entries) && entries != [] && entries[|entries| - 1].File?
      && Distinct(Header(entries[|entries| - 1]))
    ensures AllReadable(entries) && entries == [] ==> res == Failure(NoEntries)
    ensures AllReadable(entries) && entries != [] && entries[|entries| - 1].Directory? ==>
      res == Failure(LastEntryIsDirectory(entries[|entries| - 1].parts))
    ensures (AllReadable(entries) && entries != [] && entries[|entries| - 1].File?
             && !Distinct(Header(entries[|entries| - 1]))) ==>
      res == Failure(DuplicateColumns(Header(entries[|entries| - 1])))
    ensures !AllReadable(entries) ==> res.Failure? && res.error.BadFile?
    ensures res.Failure? && res.error.BadFile? ==>
      exists i | 0 <= i < |entries| :: FirstBadFile(entries, i, res.error.parts, res.error.problem)
    ensures res.Success? ==>
      var last := entries[|entries| - 1];
      && res.value.columns == Header(last)
      && |res.value.rows| == |Files(entries)|
      && forall k | 0 <= k < |res.value.rows| ::
           res.value.rows[k] == Pad(FileRows(entries)[k], |Header(last)|)
  {
    var read, subdirs := ReadFiles(entries);
    if read.Failure? {
      return Failure(read.error);
    }
    var data := read.value;
    if entries == [] {
      return Failure(NoEntries);
    }
    var last := entries[|entries| - 1];
    if last.Directory? {
      return Failure(LastEntryIsDirectory(last.parts));
    }
    var origin := Labels(last.lines);
    var columns := subdirs + ["Name"] + origin;
    if !Distinct(columns) {
      return Failure(DuplicateColumns(columns));
    }
    var padded := seq(|data|, k requires 0 <= k < |data| => Pad(data[k], |columns|));
    return Success(RawFrame(columns, padded));
  }

  /** The last file's own row needs no padding: it is exactly as wide as the header read from it. */
  lemma LastRowFillsHeader(e: Entry)
    requires ReadableFile(e)
    ensures |FileRow(e)| == |Header(e)|
    ensures Pad(FileRow(e), |Header(e)|) == FileRow(e)
  {
    ContentMatchesLabels(e.lines);
  }

  /** How a typed cell is laid out in an assembled row. */
  function CellOf(c: Option<Num>): Cell {
    match c
    case None => Null
    case Some(n) => Number(n)
  }

  /** The assembled layout of a typed row: key strings, the name, then the cells. */
  function RowCells(r: Row): (cells: seq<Cell>)
    ensures |cells| == |r.key| + 1 + |r.cells|
  {
    Strs(r.key) + [Str(r.name)] + seq(|r.cells|, j requires 0 <= j < |r.cells| => CellOf(r.cells[j]))
  }

  /** The typed row of a readable file in a frame with `width` content columns. */
  function TypedRow(e: Entry, width: nat): (r: Row)
    requires ReadableFile(e) && |Content(e.lines).value| <= width
    ensures |r.key| == |PathKey(e.parts)| && |r.cells| == width
  {
    var values := Content(e.lines).value;
    Row(PathKey(e.parts), SampleName(e.parts[|e.parts| - 1]),
        seq(width, j requires 0 <= j < width => if j < |values| then Some(values[j]) else None))
  }

  /**
   * When a file has the same key depth as the last file and no more values than
   * the last file has labels, its padded row is the layout of a typed row: key,
   * sample name, its values, then nulls up to the header's width.
   */
  lemma PaddedRowIsTyped(e: Entry, last: Entry)
    requires ReadableFile(e) && ReadableFile(last)
    requires |PathKey(e.parts)| == |PathKey(last.parts)|
    requires |Content(e.lines).value| <= |Labels(last.lines)|
    ensures Pad(FileRow(e), |Header(last)|) == RowCells(TypedRow(e, |Labels(last.lines)|))
  {
    var width := |Labels(last.lines)|;
    var padded := Pad(FileRow(e), |Header(last)|);
    var cells := RowCells(TypedRow(e, width));
    var k := |PathKey(e.parts)|;
    var values := Content(e.lines).value;
    assert |padded| == |cells|;
    forall i | 0 <= i < |padded|
      ensures padded[i] == cells[i]
    {
      if i < k + 1 + |values| {
        assert padded[i] == padded[..|FileRow(e)|][i];
      }
    }
  }

  /**
   * Under the same conditions for every file, and with no directory called
   * `Name` in the last file's key, the typed rows fill the header's columns.
   */
  lemma AssembledFrameIsShaped(files: seq<Entry>, last: Entry)
    requires ReadableFile(last) && "Name" !in PathKey(last.parts)
    requires forall e <- files ::
      && ReadableFile(e)
      && |PathKey(e.parts)| == |PathKey(last.parts)|
      && |Content(e.lines).value| <= |Labels(last.lines)|
    ensures Shaped(Frame(Header(last), seq(|files|, k requires 0 <= k < |files| => TypedRow(files[k], |Labels(last.lines)|))))
  {
    var columns := Header(last);
    var key := PathKey(last.parts);
    assert columns[|key|] == "Name" && columns[..|key|] == key;
  }
}

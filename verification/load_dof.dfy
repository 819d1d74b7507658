/**
  The row transformations of the DOF loaders. The CSV path strips text
  cells, renames columns, splits the combined OAS identifier, sets aside rows
  whose accuracy code is not two characters, splits the accuracy code and
  replaces the obstacle-type name by its id. The fixed-width DAT path turns
  the 1-based field extents into 0-based column specs, converts the DMS
  coordinates and replaces the obstacle-type name by its id. Reading the
  files and writing to the database are outside this module: a reader's
  output is given as a frame, and the prepared frame is the result.
 */
module LoadDof {
  import opened Values
  import opened Errors
  import opened Strings
  import opened Numerals
  import opened Coordinates

  /** The stored CSV settings: source column to table column, coordinate
      column to "lat"/"lon", and parsed role to source column. */
  datatype CsvConfig = CsvConfig(csvTableMap: Dict<string>, coordinatesMap: Dict<string>, parsedMap: Dict<string>)

  /** The columns the CSV loader adds in place of the parsed ones. */
  const OasCode := "oas_code"
  const ObstNumber := "obst_number"
  const HorAccCode := "hor_acc_code"
  const VertAccCode := "vert_acc_code"
  const TypeId := "type_id"

  /** The roles of `parsed_map`. */
  const OasIdentRole := "oas_ident"
  const AccuracyRole := "accuracy"
  const ObstacleTypeRole := "obstacle_type"

  /** `get_csv_columns`: the keys of `csv_table_map`, then the keys of
      `coordinates_map`, then the values of `parsed_map`, in dict order. */
  function GetCsvColumns(cfg: CsvConfig): (columns: seq<string>)
    ensures |columns| == |cfg.csvTableMap| + |cfg.coordinatesMap| + |cfg.parsedMap|
    ensures forall i :: 0 <= i < |cfg.csvTableMap| ==> columns[i] == cfg.csvTableMap[i].0
    ensures forall i :: 0 <= i < |cfg.coordinatesMap| ==>
              columns[|cfg.csvTableMap| + i] == cfg.coordinatesMap[i].0
    ensures forall i :: 0 <= i < |cfg.parsedMap| ==>
              columns[|cfg.csvTableMap| + |cfg.coordinatesMap| + i] == cfg.parsedMap[i].1
  {
    DictKeys(cfg.csvTableMap) + DictKeys(cfg.coordinatesMap) + DictValues(cfg.parsedMap)
  }

  /** `csv_config["parsed_map"][role]`. */
  function ParsedColumn(cfg: CsvConfig, role: string): (r: Result<string>)
    ensures r.Ok? <==> role in DictKeys(cfg.parsedMap)
    ensures r.Ok? ==> (role, r.value) in cfg.parsedMap
    ensures r.Err? ==> r.error == KeyError(Text(role))
  {
    match Get(cfg.parsedMap, role)
    case Some(column) => Ok(column)
    case None => Err(KeyError(Text(role)))
  }

  /** `parse_oas`: "07-000123" is ("07", "000123"). Unpacking the split
      fails unless there is exactly one hyphen. */
  function ParseOas(oas: string): (r: Result<(string, string)>)
    ensures r.Ok? <==> multiset(oas)['-'] == 1
    ensures r.Ok? ==> r.value.0 + "-" + r.value.1 == oas
    ensures r.Ok? ==> '-' !in r.value.0 && '-' !in r.value.1
    ensures r.Err? ==> r.error == UnpackError
  {
    var parts := Split(oas, '-');
    if |parts| != 2 then Err(UnpackError)
    else
      assert parts[1..] == [parts[1]];
      Ok((parts[0], parts[1]))
  }

  /** Splitting inverts joining: a code and an identifier without hyphens
      come back out of their hyphenated join. */
  lemma ParseOasRoundTrip(code: string, ident: string)
    requires '-' !in code && '-' !in ident
    ensures ParseOas(code + "-" + ident) == Ok((code, ident))
  {
    SplitAfterPiece(code, ident, '-');
  }

  /** `parse_accuracy`: the horizontal code is `int(acc[0])` and the vertical
      code is `acc[1]`; anything after the second character is ignored. */
  function ParseAccuracy(acc: string): (r: Result<(int, char)>)
    ensures r.Ok? <==> |acc| >= 2 && IsDigit(acc[0])
    ensures r.Ok? ==> r.value == (acc[0] as int - '0' as int, acc[1])
    ensures |acc| < 2 ==> r == Err(IndexError)
    ensures |acc| >= 2 && !IsDigit(acc[0]) ==> r == Err(NotAnInteger)
  {
    if |acc| < 2 then Err(IndexError)
    else
      ParseIntOneChar(acc[0]);
      match ParseInt([acc[0]])
      case None => Err(NotAnInteger)
      case Some(h) => Ok((h, acc[1]))
  }

  /** Only the first two characters of the accuracy text matter. */
  lemma ParseAccuracyIgnoresTail(acc: string, tail: string)
    requires |acc| >= 2
    ensures ParseAccuracy(acc + tail) == ParseAccuracy(acc)
  {
    assert (acc + tail)[0] == acc[0] && (acc + tail)[1] == acc[1];
  }

  /** `col.str.strip()` on a text cell; other cells are left alone. */
  function StripCell(v: Value): (r: Value)
    ensures v.Text? <==> r.Text?
    ensures v.Text? ==> r.s == Strip(v.s)
    ensures !v.Text? ==> r == v
  {
    match v
    case Text(s) => Text(Strip(s))
    case _ => v
  }

  function StripRow(row: Row): (r: Row)
    ensures r.Keys == row.Keys
    ensures forall c :: c in row ==> r[c] == StripCell(row[c])
  {
    map c | c in row :: StripCell(row[c])
  }

  /** The loader's first step: every text cell stripped, nothing else changed. */
  function StripFrame(frame: Frame): (r: Frame)
    ensures |r| == |frame|
    ensures forall i :: 0 <= i < |frame| ==> r[i] == StripRow(frame[i])
    ensures forall i :: 0 <= i < |frame| ==> r[i].Keys == frame[i].Keys
    ensures forall i, c :: 0 <= i < |frame| && c in frame[i] && frame[i][c].Text? ==>
              r[i][c] == Text(Strip(frame[i][c].s))
    ensures forall i, c :: 0 <= i < |frame| && c in frame[i] && !frame[i][c].Text? ==> r[i][c] == frame[i][c]
  {
    seq(|frame|, i requires 0 <= i < |frame| => StripRow(frame[i]))
  }

  /** Stripping twice is stripping once. */
  lemma StripFrameIdempotent(frame: Frame)
    ensures StripFrame(StripFrame(frame)) == StripFrame(frame)
  {
    var once := StripFrame(frame);
    forall i | 0 <= i < |frame|
      ensures StripRow(once[i]) == once[i]
    {
      StripRowIdempotent(frame[i]);
    }
  }

  /** Stripping a row twice is stripping it once. */
  lemma StripRowIdempotent(row: Row)
    ensures StripRow(StripRow(row)) == StripRow(row)
  {
    forall c | c in row
      ensures StripCell(StripCell(row[c])) == StripCell(row[c])
    {
      if row[c].Text? {
        StripIdempotent(row[c].s);
      }
    }
  }

  /** The label `DataFrame.rename` gives column `c`. */
  function NewName(mapping: Dict<string>, c: string): string {
    match Get(mapping, c)
    case Some(n) => n
    case None => c
  }

  /** Renaming keeps the columns apart: a row is a map, so two columns that
      the renaming would give the same label are outside the model. */
  predicate RenameClashFree(columns: set<string>, mapping: Dict<string>) {
    forall a, b :: a in columns && b in columns && a != b ==> NewName(mapping, a) != NewName(mapping, b)
  }

  /** `DataFrame.rename(columns=mapping)` on one row: mapped columns take
      their new label with their value, the others are untouched. */
  function RenameRow(row: Row, mapping: Dict<string>): (r: Row)
    requires RenameClashFree(row.Keys, mapping)
    ensures r.Keys == set c | c in row :: NewName(mapping, c)
    ensures forall c :: c in row ==> r[NewName(mapping, c)] == row[c]
    ensures forall c :: c in row && c !in DictKeys(mapping) ==> c in r && r[c] == row[c]
  {
    map c | c in row :: NewName(mapping, c) := row[c]
  }

  /** Renaming neither merges nor loses columns. */
  lemma {:induction false} RenamePreservesWidth(row: Row, mapping: Dict<string>)
    requires RenameClashFree(row.Keys, mapping)
    ensures |RenameRow(row, mapping)| == |row|
  {
    InjectiveImageSize(row.Keys, mapping);
  }

  lemma {:induction false} InjectiveImageSize(columns: set<string>, mapping: Dict<string>)
    requires RenameClashFree(columns, mapping)
    ensures |set c | c in columns :: NewName(mapping, c)| == |columns|
    decreases |columns|
  {
    if columns != {} {
      var c :| c in columns;
      var rest := columns - {c};
      InjectiveImageSize(rest, mapping);
      var image := set x | x in columns :: NewName(mapping, x);
      var restImage := set x | x in rest :: NewName(mapping, x);
      assert image == restImage + {NewName(mapping, c)};
      assert NewName(mapping, c) !in restImage;
    }
  }

  /** Both renames the loader applies, one after the other, keep the
      columns of a row apart. */
  predicate RenamesClashFree(columns: set<string>, cfg: CsvConfig) {
    forall a, b :: a in columns && b in columns && a != b ==>
      && NewName(cfg.csvTableMap, a) != NewName(cfg.csvTableMap, b)
      && NewName(cfg.coordinatesMap, NewName(cfg.csvTableMap, a))
         != NewName(cfg.coordinatesMap, NewName(cfg.csvTableMap, b))
  }

  lemma RenamedClashFree(row: Row, cfg: CsvConfig)
    requires RenamesClashFree(row.Keys, cfg)
    ensures RenameClashFree(row.Keys, cfg.csvTableMap)
    ensures RenameClashFree(RenameRow(row, cfg.csvTableMap).Keys, cfg.coordinatesMap)
  {
    var renamed := RenameRow(row, cfg.csvTableMap);
    forall x, y | x in renamed && y in renamed && x != y
      ensures NewName(cfg.coordinatesMap, x) != NewName(cfg.coordinatesMap, y)
    {
      var a :| a in row && NewName(cfg.csvTableMap, a) == x;
      var b :| b in row && NewName(cfg.csvTableMap, b) == y;
    }
  }

  /** `rename(columns=csv_table_map)` and then `rename(columns=coordinates_map)`
      on one row. */
  function RenameTwice(row: Row, cfg: CsvConfig): Row
    requires RenamesClashFree(row.Keys, cfg)
  {
    RenamedClashFree(row, cfg);
    RenameRow(RenameRow(row, cfg.csvTableMap), cfg.coordinatesMap)
  }

  /** Renaming by `csv_table_map` and then by `coordinates_map`. */
  function RenameFrame(frame: Frame, cfg: CsvConfig): (r: Frame)
    requires forall i :: 0 <= i < |frame| ==> RenamesClashFree(frame[i].Keys, cfg)
    ensures |r| == |frame|
    ensures forall i :: 0 <= i < |frame| ==> r[i] == RenameTwice(frame[i], cfg)
  {
    var r := seq(|frame|, i requires 0 <= i < |frame| => RenameTwice(frame[i], cfg));
    assert forall i :: 0 <= i < |frame| ==> r[i] == RenameTwice(frame[i], cfg);
    r
  }

  /** Both renames keep every row's width and move each cell to its
      twice-renamed label: no column is lost, merged or changed. */
  lemma RenameFrameKeepsCells(frame: Frame, cfg: CsvConfig)
    requires forall i :: 0 <= i < |frame| ==> RenamesClashFree(frame[i].Keys, cfg)
    ensures forall i :: 0 <= i < |frame| ==> RenamedTwice(frame[i], cfg, RenameFrame(frame, cfg)[i])
  {
    forall i | 0 <= i < |frame|
      ensures RenamedTwice(frame[i], cfg, RenameTwice(frame[i], cfg))
    {
      RenameTwiceFacts(frame[i], cfg);
    }
  }

  /** One row renamed twice keeps its width and its cells. */
  lemma RenameTwiceFacts(row: Row, cfg: CsvConfig)
    requires RenamesClashFree(row.Keys, cfg)
    ensures RenamedTwice(row, cfg, RenameTwice(row, cfg))
  {
    RenamedClashFree(row, cfg);
    RenameTwiceWidth(row, cfg);
    RenameTwiceCells(row, cfg);
  }

  /** `renamed` has the width of `row` and each cell of `row` under its
      twice-renamed label. */
  ghost predicate RenamedTwice(row: Row, cfg: CsvConfig, renamed: Row) {
    |renamed| == |row| && CellsRenamed(row, cfg, renamed)
  }

  ghost predicate CellsRenamed(row: Row, cfg: CsvConfig, renamed: Row) {
    forall c :: c in row ==>
      var n := NewName(cfg.coordinatesMap, NewName(cfg.csvTableMap, c));
      n in renamed && renamed[n] == row[c]
  }

  lemma RenameTwiceWidth(row: Row, cfg: CsvConfig)
    requires RenameClashFree(row.Keys, cfg.csvTableMap)
    requires RenameClashFree(RenameRow(row, cfg.csvTableMap).Keys, cfg.coordinatesMap)
    ensures |RenameRow(RenameRow(row, cfg.csvTableMap), cfg.coordinatesMap)| == |row|
  {
    RenamePreservesWidth(row, cfg.csvTableMap);
    RenamePreservesWidth(RenameRow(row, cfg.csvTableMap), cfg.coordinatesMap);
  }

  lemma RenameTwiceCells(row: Row, cfg: CsvConfig)
    requires RenameClashFree(row.Keys, cfg.csvTableMap)
    requires RenameClashFree(RenameRow(row, cfg.csvTableMap).Keys, cfg.coordinatesMap)
    ensures CellsRenamed(row, cfg, RenameRow(RenameRow(row, cfg.csvTableMap), cfg.coordinatesMap))
  {
    var once := RenameRow(row, cfg.csvTableMap);
    forall c | c in row
      ensures NewName(cfg.coordinatesMap, NewName(cfg.csvTableMap, c)) in RenameRow(once, cfg.coordinatesMap)
      ensures RenameRow(once, cfg.coordinatesMap)[NewName(cfg.coordinatesMap, NewName(cfg.csvTableMap, c))] == row[c]
    {
      RenamedCell(row, cfg.csvTableMap, c);
      RenamedCell(once, cfg.coordinatesMap, NewName(cfg.csvTableMap, c));
    }
  }

  /** A column of a row keeps its cell under its new label. */
  lemma RenamedCell(row: Row, mapping: Dict<string>, c: string)
    requires RenameClashFree(row.Keys, mapping) && c in row
    ensures NewName(mapping, c) in RenameRow(row, mapping)
    ensures RenameRow(row, mapping)[NewName(mapping, c)] == row[c]
  {
  }

  /** `row` with the cells of `updates` written in and then column `col`
      dropped: the shape of the type step of the loaders. */
  function Rewrite(row: Row, updates: map<string, Value>, col: string): (r: Row)
    ensures forall c :: c in r <==> (c in row || c in updates) && c != col
    ensures forall c :: c in r ==> r[c] == if c in updates then updates[c] else row[c]
  {
    (row + updates) - {col}
  }

  /** `drop(columns=[col])`. */
  function DropColumn(frame: Frame, col: string): (r: Frame)
    ensures |r| == |frame|
    ensures forall i, c :: 0 <= i < |r| ==> (c in r[i] <==> c in frame[i] && c != col)
    ensures forall i, c :: 0 <= i < |r| && c in r[i] ==> r[i][c] == frame[i][c]
  {
    seq(|frame|, i requires 0 <= i < |frame| => frame[i] - {col})
  }

  /** `df[col] = df.apply(f, axis=1)`: `f` on every row, the first failure
      aborting the load. On a frame with no rows pandas instead probes `f`
      on a row of NaN; every row function of the loaders fails on it, so
      `apply` returns a copy of the whole frame, and assigning that frame
      to one column raises. */
  function ApplyRows<A, B>(rows: seq<A>, f: A -> Result<B>): (r: Result<seq<B>>)
    ensures |rows| == 0 ==> r == Err(EmptyApplyError)
    ensures |rows| > 0 ==> (r.Ok? <==> forall i :: 0 <= i < |rows| ==> f(rows[i]).Ok?)
    ensures r.Ok? ==> |r.value| == |rows| && forall i :: 0 <= i < |rows| ==> r.value[i] == f(rows[i]).value
    ensures r.Err? && |rows| > 0 ==>
      exists k :: 0 <= k < |rows| && f(rows[k]).Err? && r.error == f(rows[k]).error
                  && forall j :: 0 <= j < k ==> f(rows[j]).Ok?
  {
    if |rows| == 0 then Err(EmptyApplyError) else MapResult(rows, f)
  }

  // The OAS and accuracy steps each write two columns with two separate
  // `df.apply` passes over the whole frame, both reading the same source
  // column, and then drop that column. The second pass therefore sees what
  // the first wrote: a source column named like the first derived column
  // is overwritten before the second pass reads it.

  /** One row through both passes and the drop. */
  function TwoPassRow(row: Row, first: Row -> Result<Row>, second: Row -> Result<Row>, col: string)
    : Result<Row>
  {
    var once :- first(row);
    var twice :- second(once);
    Ok(twice - {col})
  }

  /** Both passes over the frame, one after the other, then the drop: a
      failure of the first pass anywhere wins over any failure of the
      second, and a frame with no rows fails the first pass. */
  function TwoPasses(frame: Frame, first: Row -> Result<Row>, second: Row -> Result<Row>, col: string)
    : (r: Result<Frame>)
    ensures r.Ok? <==> |frame| > 0 && forall i :: 0 <= i < |frame| ==> TwoPassRow(frame[i], first, second, col).Ok?
    ensures |frame| == 0 ==> r == Err(EmptyApplyError)
    ensures r.Ok? ==> |r.value| == |frame|
    ensures r.Ok? ==> forall i :: 0 <= i < |frame| ==>
                        r.value[i] == TwoPassRow(frame[i], first, second, col).value
    ensures r.Err? && |frame| > 0 ==>
              exists k :: 0 <= k < |frame| && TwoPassRow(frame[k], first, second, col) == Err(r.error)
    ensures (exists k :: 0 <= k < |frame| && first(frame[k]).Err?) ==>
              r.Err? && exists k :: 0 <= k < |frame| && first(frame[k]) == Err(r.error)
                                    && forall j :: 0 <= j < k ==> first(frame[j]).Ok?
  {
    match ApplyRows(frame, first)
    case Err(e) => Err(e)
    case Ok(once) =>
      match ApplyRows(once, second)
      case Err(e) =>
        assert exists k :: 0 <= k < |once| && second(once[k]) == Err(e);
        Err(e)
      case Ok(twice) =>
        Ok(DropColumn(twice, col))
  }

  /** `parse_oas(row[col])`: a missing column is a KeyError, a cell that is
      not text has no `split`. */
  function ParseOasCell(row: Row, col: string): Result<(string, string)> {
    if col !in row then Err(KeyError(Text(col)))
    else if !row[col].Text? then Err(AttributeError)
    else ParseOas(row[col].s)
  }

  /** The first OAS pass: `oas_code`. */
  function OasCodePass(col: string): Row -> Result<Row> {
    row => if ParseOasCell(row, col).Ok? then Ok(row[OasCode := Text(ParseOasCell(row, col).value.0)])
           else Err(ParseOasCell(row, col).error)
  }

  /** The second OAS pass: `obst_number`. */
  function ObstNumberPass(col: string): Row -> Result<Row> {
    row => if ParseOasCell(row, col).Ok? then Ok(row[ObstNumber := Text(ParseOasCell(row, col).value.1)])
           else Err(ParseOasCell(row, col).error)
  }

  /** The OAS step on one row: `oas_code` and `obst_number` from the split of
      the identifier column, which is then dropped. A missing column is a
      KeyError, a non-text cell has no `split`; an identifier column named
      `oas_code` is overwritten by the first pass, and the second pass then
      finds no hyphen to split at. */
  function SplitOasRow(row: Row, col: string): (r: Result<Row>)
    ensures r.Ok? <==> col in row && row[col].Text? && multiset(row[col].s)['-'] == 1 && col != OasCode
    ensures r.Ok? ==> OasCode in r.value && col !in r.value
                      && r.value[OasCode] == Text(ParseOas(row[col].s).value.0)
    ensures r.Ok? && col != ObstNumber ==>
              && ObstNumber in r.value && r.value[OasCode].Text? && r.value[ObstNumber].Text?
              && r.value[OasCode].s + "-" + r.value[ObstNumber].s == row[col].s
    ensures r.Ok? ==> forall c :: c in row && c != col && c != OasCode && c != ObstNumber ==>
                        c in r.value && r.value[c] == row[c]
    ensures r.Ok? ==> forall c :: c in r.value ==> c in row || c == OasCode || c == ObstNumber
    ensures col == OasCode && col in row && row[col].Text? && multiset(row[col].s)['-'] == 1 ==>
              r == Err(UnpackError)
    ensures r.Err? ==> r.error in {KeyError(Text(col)), AttributeError, UnpackError}
  {
    OasRowDecides(row, col);
    if TwoPassRow(row, OasCodePass(col), ObstNumberPass(col), col).Ok? then
      OasRowCells(row, col);
      TwoPassRow(row, OasCodePass(col), ObstNumberPass(col), col)
    else
      TwoPassRow(row, OasCodePass(col), ObstNumberPass(col), col)
  }

  /** When the OAS passes succeed on a row, and how they fail. */
  lemma OasRowDecides(row: Row, col: string)
    ensures var r := TwoPassRow(row, OasCodePass(col), ObstNumberPass(col), col);
            && (r.Ok? <==> col in row && row[col].Text? && multiset(row[col].s)['-'] == 1 && col != OasCode)
            && (r.Err? ==> r.error in {KeyError(Text(col)), AttributeError, UnpackError})
            && (col == OasCode && col in row && row[col].Text? && multiset(row[col].s)['-'] == 1 ==>
                  r == Err(UnpackError))
  {
    if col == OasCode && col in row && row[col].Text? && multiset(row[col].s)['-'] == 1 {
      assert '-' !in ParseOas(row[col].s).value.0;
    }
  }

  /** The cells the OAS passes write, keep and drop. */
  lemma OasRowCells(row: Row, col: string)
    requires TwoPassRow(row, OasCodePass(col), ObstNumberPass(col), col).Ok?
    ensures col in row && row[col].Text? && ParseOas(row[col].s).Ok?
    ensures var out := TwoPassRow(row, OasCodePass(col), ObstNumberPass(col), col).value;
            && OasCode in out && col !in out
            && out[OasCode] == Text(ParseOas(row[col].s).value.0)
            && (col != ObstNumber ==>
                  && ObstNumber in out && out[OasCode].Text? && out[ObstNumber].Text?
                  && out[OasCode].s + "-" + out[ObstNumber].s == row[col].s)
            && (forall c :: c in row && c != col && c != OasCode && c != ObstNumber ==> c in out && out[c] == row[c])
            && (forall c :: c in out ==> c in row || c == OasCode || c == ObstNumber)
  {
    OasRowDecides(row, col);
    var (code, ident) := ParseOasCell(row, col).value;
    var once := row[OasCode := Text(code)];
    assert OasCodePass(col)(row) == Ok(once);
    assert ParseOasCell(once, col) == ParseOasCell(row, col);
    var twice := once[ObstNumber := Text(ident)];
    assert ObstNumberPass(col)(once) == Ok(twice);
    assert TwoPassRow(row, OasCodePass(col), ObstNumberPass(col), col).value == twice - {col};
  }

  /** The OAS step over a frame: every row split, or the first failure;
      a frame with no rows fails. */
  function SplitOas(frame: Frame, col: string): (r: Result<Frame>)
    ensures r.Ok? <==> |frame| > 0 && forall i :: 0 <= i < |frame| ==> SplitOasRow(frame[i], col).Ok?
    ensures |frame| == 0 ==> r == Err(EmptyApplyError)
    ensures r.Ok? ==> |r.value| == |frame|
    ensures r.Ok? ==> forall i :: 0 <= i < |frame| ==> r.value[i] == SplitOasRow(frame[i], col).value
    ensures r.Err? && |frame| > 0 ==> exists k :: 0 <= k < |frame| && SplitOasRow(frame[k], col) == Err(r.error)
    ensures r.Err? && |frame| > 0 ==> r.error in {KeyError(Text(col)), AttributeError, UnpackError}
    ensures r.Ok? && col != ObstNumber ==>
              HasColumn(r.value, OasCode) && HasColumn(r.value, ObstNumber) && Lacks(r.value, col)
    ensures r.Ok? ==> CarriesOver(frame, r.value, {col, OasCode, ObstNumber})
  {
    var r := TwoPasses(frame, OasCodePass(col), ObstNumberPass(col), col);
    if |frame| == 0 then
      r
    else if r.Err? then
      OasFailureWitness(frame, col, r.error);
      r
    else
      OasColumns(frame, col, r.value);
      r
  }

  /** The columns of the OAS-split rows. */
  lemma OasColumns(frame: Frame, col: string, out: Frame)
    requires |out| == |frame|
    requires forall i :: 0 <= i < |frame| ==> SplitOasRow(frame[i], col) == Ok(out[i])
    ensures col != ObstNumber ==> HasColumn(out, OasCode) && HasColumn(out, ObstNumber) && Lacks(out, col)
    ensures CarriesOver(frame, out, {col, OasCode, ObstNumber})
  {
  }

  lemma OasFailureWitness(frame: Frame, col: string, e: Error)
    requires exists k :: 0 <= k < |frame| && TwoPassRow(frame[k], OasCodePass(col), ObstNumberPass(col), col) == Err(e)
    ensures exists k :: 0 <= k < |frame| && SplitOasRow(frame[k], col) == Err(e)
  {
    var k :| 0 <= k < |frame| && TwoPassRow(frame[k], OasCodePass(col), ObstNumberPass(col), col) == Err(e);
    assert SplitOasRow(frame[k], col) == Err(e);
  }

  /** The accuracy mask: a cell is invalid unless it is text of two
      characters once stripped. */
  predicate AccuracyInvalid(v: Value) {
    !(v.Text? && |Strip(v.s)| == 2)
  }

  /** The mask looks only at the stripped text: stripping a cell first, as
      the loader does, never changes whether it is set aside. */
  lemma AccuracyMaskAfterStrip(v: Value)
    ensures AccuracyInvalid(StripCell(v)) <==> AccuracyInvalid(v)
    ensures v.Text? ==> (AccuracyInvalid(v) <==> |Strip(v.s)| != 2)
    ensures !v.Text? ==> AccuracyInvalid(v)
  {
    if v.Text? {
      StripIdempotent(v.s);
    }
  }

  predicate AccuracyInvalidRow(col: string, row: Row) {
    col in row && AccuracyInvalid(row[col])
  }

  /** Every row of `frame` has the accuracy column with an invalid code. */
  predicate AllAccuracyInvalid(frame: Frame, col: string) {
    forall i :: 0 <= i < |frame| ==> AccuracyInvalidRow(col, frame[i])
  }

  /** The rows of `xs` that satisfy `p`, in their original order. */
  function Filter<T>(xs: seq<T>, p: T -> bool): (r: seq<T>)
    ensures |r| <= |xs|
    ensures forall i :: 0 <= i < |r| ==> p(r[i])
    ensures forall i :: 0 <= i < |r| ==> r[i] in xs
    ensures forall i :: 0 <= i < |xs| && p(xs[i]) ==> xs[i] in r
  {
    if |xs| == 0 then []
    else if p(xs[0]) then [xs[0]] + Filter(xs[1..], p)
    else Filter(xs[1..], p)
  }

  /** Filtering is order-preserving: it distributes over concatenation. */
  lemma {:induction false} FilterConcat<T>(xs: seq<T>, ys: seq<T>, p: T -> bool)
    ensures Filter(xs + ys, p) == Filter(xs, p) + Filter(ys, p)
  {
    if |xs| > 0 {
      assert (xs + ys)[1..] == xs[1..] + ys;
      FilterConcat(xs[1..], ys, p);
    } else {
      assert xs + ys == ys;
    }
  }

  /** A predicate and its negation split the rows without loss or
      duplication. */
  lemma {:induction false} FilterPartition<T>(xs: seq<T>, p: T -> bool, q: T -> bool)
    requires forall x :: q(x) == !p(x)
    ensures multiset(Filter(xs, p)) + multiset(Filter(xs, q)) == multiset(xs)
    ensures |Filter(xs, p)| + |Filter(xs, q)| == |xs|
  {
    if |xs| > 0 {
      FilterPartition(xs[1..], p, q);
      assert xs == [xs[0]] + xs[1..];
    }
  }

  /** `df[accuracy_column]`: a KeyError unless every row has the column. */
  predicate HasColumn(frame: Frame, col: string) {
    forall i :: 0 <= i < |frame| ==> col in frame[i]
  }

  /** No row has column `col`. */
  predicate Lacks(frame: Frame, col: string) {
    forall i :: 0 <= i < |frame| ==> col !in frame[i]
  }

  /** Columns outside `touched` that every row of `before` has, or that no
      row of `before` has, are still so in `after`. */
  ghost predicate CarriesOver(before: Frame, after: Frame, touched: set<string>) {
    forall c :: c !in touched ==>
      (HasColumn(before, c) ==> HasColumn(after, c)) && (Lacks(before, c) ==> Lacks(after, c))
  }

  /** The mask as a row filter: the rows it keeps. */
  function KeepsAccuracy(col: string): Row -> bool {
    row => !AccuracyInvalidRow(col, row)
  }

  /** The mask as a row filter: the rows it sets aside. */
  function SetsAsideAccuracy(col: string): Row -> bool {
    row => AccuracyInvalidRow(col, row)
  }

  /** The rows the accuracy mask keeps: exactly the rows whose accuracy
      cell is valid. They stay in their original order because `Filter`
      distributes over concatenation (`FilterConcat`). */
  function KeptRows(frame: Frame, col: string): (r: Frame)
    ensures forall i :: 0 <= i < |r| ==> !AccuracyInvalidRow(col, r[i]) && r[i] in frame
    ensures forall i :: 0 <= i < |frame| && !AccuracyInvalidRow(col, frame[i]) ==> frame[i] in r
  {
    Filter(frame, KeepsAccuracy(col))
  }

  /** The rows the accuracy mask sets aside: exactly the rows whose
      accuracy cell is invalid, in their original order by `FilterConcat`. */
  function InvalidRows(frame: Frame, col: string): (r: Frame)
    ensures forall i :: 0 <= i < |r| ==> AccuracyInvalidRow(col, r[i]) && r[i] in frame
    ensures forall i :: 0 <= i < |frame| && AccuracyInvalidRow(col, frame[i]) ==> frame[i] in r
  {
    Filter(frame, SetsAsideAccuracy(col))
  }

  /** The accuracy partition: rows kept and rows set aside as invalid,
      which together are the frame's rows without loss or duplication. */
  function PartitionAccuracy(frame: Frame, col: string): (r: (Frame, Frame))
    ensures r == (KeptRows(frame, col), InvalidRows(frame, col))
    ensures |r.0| + |r.1| == |frame|
    ensures multiset(r.0) + multiset(r.1) == multiset(frame)
    ensures forall i :: 0 <= i < |r.0| ==> !AccuracyInvalidRow(col, r.0[i])
    ensures forall i :: 0 <= i < |r.1| ==> AccuracyInvalidRow(col, r.1[i])
    ensures CarriesOver(frame, r.0, {})
  {
    FilterPartition(frame, KeepsAccuracy(col), SetsAsideAccuracy(col));
    (KeptRows(frame, col), InvalidRows(frame, col))
  }

  /** `parse_accuracy(row[col])`: a missing column is a KeyError, a cell that
      is not text cannot be indexed. */
  function ParseAccuracyCell(row: Row, col: string): Result<(int, char)> {
    if col !in row then Err(KeyError(Text(col)))
    else if !row[col].Text? then Err(TypeError)
    else ParseAccuracy(row[col].s)
  }

  /** The first accuracy pass: `hor_acc_code`. */
  function HorAccPass(col: string): Row -> Result<Row> {
    row => if ParseAccuracyCell(row, col).Ok? then Ok(row[HorAccCode := Int(ParseAccuracyCell(row, col).value.0)])
           else Err(ParseAccuracyCell(row, col).error)
  }

  /** The second accuracy pass: `vert_acc_code`. */
  function VertAccPass(col: string): Row -> Result<Row> {
    row => if ParseAccuracyCell(row, col).Ok? then Ok(row[VertAccCode := Text([ParseAccuracyCell(row, col).value.1])])
           else Err(ParseAccuracyCell(row, col).error)
  }

  /** The accuracy step on one row: `hor_acc_code` and `vert_acc_code` from
      the two-character code, whose column is then dropped. An accuracy
      column named `hor_acc_code` holds an integer by the time the second
      pass indexes it. */
  function SplitAccuracyRow(row: Row, col: string): (r: Result<Row>)
    ensures r.Ok? <==> && col in row && row[col].Text? && |row[col].s| >= 2 && IsDigit(row[col].s[0])
                       && col != HorAccCode
    ensures r.Ok? ==> && HorAccCode in r.value && col !in r.value
                      && r.value[HorAccCode] == Int(row[col].s[0] as int - '0' as int)
    ensures r.Ok? && col != VertAccCode ==>
              VertAccCode in r.value && r.value[VertAccCode] == Text([row[col].s[1]])
    ensures r.Ok? ==> forall c :: c in row && c != col && c != HorAccCode && c != VertAccCode ==>
                        c in r.value && r.value[c] == row[c]
    ensures r.Ok? ==> forall c :: c in r.value ==> c in row || c == HorAccCode || c == VertAccCode
    ensures col == HorAccCode && col in row && row[col].Text? && |row[col].s| >= 2 && IsDigit(row[col].s[0]) ==>
              r == Err(TypeError)
    ensures r.Err? ==> r.error in {KeyError(Text(col)), TypeError, IndexError, NotAnInteger}
    ensures r == Err(IndexError) ==> col in row && row[col].Text? && |row[col].s| < 2
  {
    AccuracyRowDecides(row, col);
    if TwoPassRow(row, HorAccPass(col), VertAccPass(col), col).Ok? then
      AccuracyRowCells(row, col);
      TwoPassRow(row, HorAccPass(col), VertAccPass(col), col)
    else
      TwoPassRow(row, HorAccPass(col), VertAccPass(col), col)
  }

  /** When the accuracy passes succeed on a row, and how they fail. */
  lemma AccuracyRowDecides(row: Row, col: string)
    ensures var r := TwoPassRow(row, HorAccPass(col), VertAccPass(col), col);
            && (r.Ok? <==> && col in row && row[col].Text? && |row[col].s| >= 2 && IsDigit(row[col].s[0])
                           && col != HorAccCode)
            && (col == HorAccCode && col in row && row[col].Text? && |row[col].s| >= 2 && IsDigit(row[col].s[0]) ==>
                  r == Err(TypeError))
            && (r.Err? ==> r.error in {KeyError(Text(col)), TypeError, IndexError, NotAnInteger})
            && (r == Err(IndexError) ==> col in row && row[col].Text? && |row[col].s| < 2)
  {
  }

  /** The cells the accuracy passes write, keep and drop. */
  lemma AccuracyRowCells(row: Row, col: string)
    requires TwoPassRow(row, HorAccPass(col), VertAccPass(col), col).Ok?
    ensures col in row && row[col].Text? && |row[col].s| >= 2
    ensures var out := TwoPassRow(row, HorAccPass(col), VertAccPass(col), col).value;
            && HorAccCode in out && col !in out
            && out[HorAccCode] == Int(row[col].s[0] as int - '0' as int)
            && (col != VertAccCode ==> VertAccCode in out && out[VertAccCode] == Text([row[col].s[1]]))
            && (forall c :: c in row && c != col && c != HorAccCode && c != VertAccCode ==> c in out && out[c] == row[c])
            && (forall c :: c in out ==> c in row || c == HorAccCode || c == VertAccCode)
  {
    AccuracyRowDecides(row, col);
    var cell := ParseAccuracyCell(row, col);
    assert cell == ParseAccuracy(row[col].s);
    var (h, v) := cell.value;
    var once := row[HorAccCode := Int(h)];
    assert HorAccPass(col)(row) == Ok(once);
    assert col in once && once[col] == row[col];
    assert ParseAccuracyCell(once, col) == cell;
    var twice := once[VertAccCode := Text([v])];
    assert VertAccPass(col)(once) == Ok(twice);
    var out := twice - {col};
    assert TwoPassRow(row, HorAccPass(col), VertAccPass(col), col).value == out;
    assert h == row[col].s[0] as int - '0' as int && v == row[col].s[1];
  }

  /** The accuracy step over the kept rows: every row split, or the first
      failure; no kept rows at all fail. */
  function SplitAccuracy(frame: Frame, col: string): (r: Result<Frame>)
    ensures r.Ok? <==> |frame| > 0 && forall i :: 0 <= i < |frame| ==> SplitAccuracyRow(frame[i], col).Ok?
    ensures |frame| == 0 ==> r == Err(EmptyApplyError)
    ensures r.Ok? ==> |r.value| == |frame|
    ensures r.Ok? ==> forall i :: 0 <= i < |frame| ==> r.value[i] == SplitAccuracyRow(frame[i], col).value
    ensures r.Err? && |frame| > 0 ==> exists k :: 0 <= k < |frame| && SplitAccuracyRow(frame[k], col) == Err(r.error)
    ensures r.Ok? && col != VertAccCode ==>
              HasColumn(r.value, HorAccCode) && HasColumn(r.value, VertAccCode) && Lacks(r.value, col)
    ensures r.Ok? ==> CarriesOver(frame, r.value, {col, HorAccCode, VertAccCode})
    ensures r.Err? && |frame| > 0 ==> r.error in {KeyError(Text(col)), TypeError, IndexError, NotAnInteger}
  {
    var r := TwoPasses(frame, HorAccPass(col), VertAccPass(col), col);
    if |frame| == 0 then
      r
    else if r.Err? then
      AccuracyFailureWitness(frame, col, r.error);
      r
    else
      AccuracyColumns(frame, col, r.value);
      r
  }

  /** The columns of the accuracy-split rows. */
  lemma AccuracyColumns(frame: Frame, col: string, out: Frame)
    requires |out| == |frame|
    requires forall i :: 0 <= i < |frame| ==> SplitAccuracyRow(frame[i], col) == Ok(out[i])
    ensures col != VertAccCode ==> HasColumn(out, HorAccCode) && HasColumn(out, VertAccCode) && Lacks(out, col)
    ensures CarriesOver(frame, out, {col, HorAccCode, VertAccCode})
  {
  }

  lemma AccuracyFailureWitness(frame: Frame, col: string, e: Error)
    requires exists k :: 0 <= k < |frame| && TwoPassRow(frame[k], HorAccPass(col), VertAccPass(col), col) == Err(e)
    ensures exists k :: 0 <= k < |frame| && SplitAccuracyRow(frame[k], col) == Err(e)
  {
    var k :| 0 <= k < |frame| && TwoPassRow(frame[k], HorAccPass(col), VertAccPass(col), col) == Err(e);
    assert SplitAccuracyRow(frame[k], col) == Err(e);
  }

  /** A row the mask keeps meets the length precondition of
      `parse_accuracy`: its accuracy text has at least two characters, and
      exactly two once the cell is stripped, as the CSV path strips it. */
  lemma KeptRowHasTwoCharacters(row: Row, col: string)
    requires col in row && !AccuracyInvalidRow(col, row)
    ensures row[col].Text? && |row[col].s| >= 2
    ensures Strip(row[col].s) == row[col].s ==> |row[col].s| == 2
  {
  }

  /** The obstacle-type step on one row: `type_id` is the id the lookup
      binds to the type name, whose column is then dropped. An unknown name
      is a KeyError. */
  function ResolveTypeRow(row: Row, col: string, typeIndex: map<Value, Value>): (r: Result<Row>)
    ensures r.Ok? <==> col in row && row[col] in typeIndex
    ensures r.Ok? && col != TypeId ==>
              TypeId in r.value && col !in r.value && r.value[TypeId] == typeIndex[row[col]]
    ensures r.Ok? ==> forall c :: c in row && c != col && c != TypeId ==> c in r.value && r.value[c] == row[c]
    ensures r.Ok? ==> forall c :: c in r.value ==> c in row || c == TypeId
    ensures r.Err? ==> r.error.KeyError?
    ensures r.Err? && col in row ==> r.error == KeyError(row[col])
  {
    if col !in row then Err(KeyError(Text(col)))
    else if row[col] !in typeIndex then Err(KeyError(row[col]))
    else Ok(Rewrite(row, map[TypeId := typeIndex[row[col]]], col))
  }

  /** The type lookup over a frame: one unknown name fails the whole load
      rather than dropping its row, and a frame with no rows fails. */
  function ResolveTypes(frame: Frame, col: string, typeIndex: map<Value, Value>): (r: Result<Frame>)
    ensures r.Ok? <==> |frame| > 0 && forall i :: 0 <= i < |frame| ==> col in frame[i] && frame[i][col] in typeIndex
    ensures |frame| == 0 ==> r == Err(EmptyApplyError)
    ensures r.Ok? ==> |r.value| == |frame|
    ensures r.Ok? && col != TypeId ==> forall i :: 0 <= i < |frame| ==>
              TypeId in r.value[i] && col !in r.value[i] && r.value[i][TypeId] == typeIndex[frame[i][col]]
    ensures r.Ok? ==> forall i :: 0 <= i < |frame| ==> r.value[i] == ResolveTypeRow(frame[i], col, typeIndex).value
    ensures r.Ok? ==> CarriesOver(frame, r.value, {col, TypeId})
    ensures r.Err? && |frame| > 0 ==> r.error.KeyError?
  {
    ApplyRows(frame, row => ResolveTypeRow(row, col, typeIndex))
  }

  /** The output of the CSV path: rows handed to the database, and rows set
      aside for an invalid accuracy code. */
  datatype CsvLoad = CsvLoad(loaded: Frame, invalidAccuracy: Frame)

  /** The parsed columns differ from each other and from the columns the
      loader derives, so that no step drops what another added. */
  predicate ParsedColumnsFresh(oasCol: string, accCol: string, typeCol: string) {
    && NotDerived(oasCol) && NotDerived(accCol) && NotDerived(typeCol)
    && oasCol != accCol && oasCol != typeCol && accCol != typeCol
  }

  predicate NotDerived(col: string) {
    col !in {OasCode, ObstNumber, HorAccCode, VertAccCode, TypeId}
  }

  /** Stripping and both renames: the rows the parsing steps start from. */
  function PrepareRows(frame: Frame, cfg: CsvConfig): (r: Frame)
    requires forall i :: 0 <= i < |frame| ==> RenamesClashFree(frame[i].Keys, cfg)
    ensures |r| == |frame|
  {
    RenameFrame(StripFrame(frame), cfg)
  }

  /** A row the accuracy mask keeps goes through: its accuracy code splits
      and its obstacle type is known. */
  predicate KeptRowLoads(row: Row, accCol: string, typeCol: string, typeIndex: map<Value, Value>) {
    && SplitAccuracyRow(row, accCol).Ok?
    && ResolveTypeRow(SplitAccuracyRow(row, accCol).value, typeCol, typeIndex).Ok?
  }

  /** The row handed to the database for a kept row. */
  function LoadKeptRow(row: Row, accCol: string, typeCol: string, typeIndex: map<Value, Value>): Row
    requires KeptRowLoads(row, accCol, typeCol, typeIndex)
  {
    ResolveTypeRow(SplitAccuracyRow(row, accCol).value, typeCol, typeIndex).value
  }

  /** After the OAS split, a row has the accuracy column and is either set
      aside for its accuracy code or goes through: an invalid code never
      fails the load. */
  predicate AccuracyRowPasses(row: Row, accCol: string, typeCol: string, typeIndex: map<Value, Value>) {
    accCol in row && (AccuracyInvalidRow(accCol, row) || KeptRowLoads(row, accCol, typeCol, typeIndex))
  }

  /** One stripped, renamed row does not fail `load_csv`: its OAS identifier
      splits, and the split row is set aside or goes through. */
  predicate CsvRowLoads(row: Row, oasCol: string, accCol: string, typeCol: string, typeIndex: map<Value, Value>) {
    && SplitOasRow(row, oasCol).Ok?
    && AccuracyRowPasses(SplitOasRow(row, oasCol).value, accCol, typeCol, typeIndex)
  }

  /** Every row loads, for given parsed columns. */
  predicate RowsLoad(frame: Frame, oasCol: string, accCol: string, typeCol: string, typeIndex: map<Value, Value>) {
    forall i :: 0 <= i < |frame| ==> CsvRowLoads(frame[i], oasCol, accCol, typeCol, typeIndex)
  }

  /** One stripped, renamed row reaches the accuracy split: its OAS
      identifier splits and its accuracy code is valid. */
  predicate CsvRowKept(row: Row, oasCol: string, accCol: string) {
    SplitOasRow(row, oasCol).Ok? && !AccuracyInvalidRow(accCol, SplitOasRow(row, oasCol).value)
  }

  /** Some row survives the accuracy mask, so that the steps after it have
      rows to run on. */
  predicate SomeRowKept(frame: Frame, oasCol: string, accCol: string) {
    exists i :: 0 <= i < |frame| && CsvRowKept(frame[i], oasCol, accCol)
  }

  /** What `load_csv` needs to succeed on stripped, renamed rows: the three
      parsed columns configured, every row loading, and some row kept. */
  predicate CsvRowsLoad(frame: Frame, cfg: CsvConfig, typeIndex: map<Value, Value>) {
    && ParsedColumn(cfg, OasIdentRole).Ok?
    && ParsedColumn(cfg, AccuracyRole).Ok?
    && ParsedColumn(cfg, ObstacleTypeRole).Ok?
    && RowsLoad(frame, ParsedColumn(cfg, OasIdentRole).value, ParsedColumn(cfg, AccuracyRole).value,
                ParsedColumn(cfg, ObstacleTypeRole).value, typeIndex)
    && SomeRowKept(frame, ParsedColumn(cfg, OasIdentRole).value, ParsedColumn(cfg, AccuracyRole).value)
  }

  /** What `load_csv` hands on when it succeeds on stripped, renamed rows:
      the rows set aside are the OAS-split rows with an invalid accuracy
      code, in order, and the rows loaded are the others, in order, each
      through the accuracy and type steps. */
  predicate CsvOutcome(frame: Frame, cfg: CsvConfig, typeIndex: map<Value, Value>, load: CsvLoad)
    requires CsvRowsLoad(frame, cfg, typeIndex)
  {
    var oasCol := ParsedColumn(cfg, OasIdentRole).value;
    var accCol := ParsedColumn(cfg, AccuracyRole).value;
    var typeCol := ParsedColumn(cfg, ObstacleTypeRole).value;
    var split := SplitOas(frame, oasCol).value;
    var kept := KeptRows(split, accCol);
    && load.invalidAccuracy == InvalidRows(split, accCol)
    && |load.loaded| == |kept|
    && forall i :: 0 <= i < |kept| ==>
         KeptRowLoads(kept[i], accCol, typeCol, typeIndex)
         && load.loaded[i] == LoadKeptRow(kept[i], accCol, typeCol, typeIndex)
  }

  /** The loaded rows carry the five derived columns and none of the three
      parsed ones. */
  predicate LoadedColumns(loaded: Frame, oasCol: string, accCol: string, typeCol: string) {
    && HasColumn(loaded, OasCode) && HasColumn(loaded, ObstNumber)
    && HasColumn(loaded, HorAccCode) && HasColumn(loaded, VertAccCode)
    && HasColumn(loaded, TypeId)
    && Lacks(loaded, oasCol) && Lacks(loaded, accCol) && Lacks(loaded, typeCol)
  }

  /** A property of every element a filter would keep holds of every
      element it keeps. */
  lemma FilterCoversForward<T>(xs: seq<T>, p: T -> bool, q: T -> bool)
    requires forall i :: 0 <= i < |xs| && p(xs[i]) ==> q(xs[i])
    ensures forall j :: 0 <= j < |Filter(xs, p)| ==> q(Filter(xs, p)[j])
  {
    var f := Filter(xs, p);
    forall j | 0 <= j < |f| ensures q(f[j]) {
      assert f[j] in xs && p(f[j]);
      var i :| 0 <= i < |xs| && xs[i] == f[j];
      assert p(xs[i]);
    }
  }

  /** A property of every element a filter keeps holds of every element it
      would keep. */
  lemma FilterCoversBack<T>(xs: seq<T>, p: T -> bool, q: T -> bool)
    requires forall j :: 0 <= j < |Filter(xs, p)| ==> q(Filter(xs, p)[j])
    ensures forall i :: 0 <= i < |xs| && p(xs[i]) ==> q(xs[i])
  {
    var f := Filter(xs, p);
    forall i | 0 <= i < |xs| && p(xs[i]) ensures q(xs[i]) {
      assert xs[i] in f;
      var j :| 0 <= j < |f| && f[j] == xs[i];
      assert q(f[j]);
    }
  }

  /** `KeptRowLoads` as a row predicate. */
  function LoadsWhenKept(accCol: string, typeCol: string, typeIndex: map<Value, Value>): Row -> bool {
    row => KeptRowLoads(row, accCol, typeCol, typeIndex)
  }

  /** Every row passes the accuracy and type steps exactly when the column is
      there and every kept row loads. */
  lemma KeptRowsDecide(frame: Frame, accCol: string, typeCol: string, typeIndex: map<Value, Value>)
    ensures (forall i :: 0 <= i < |frame| ==> AccuracyRowPasses(frame[i], accCol, typeCol, typeIndex))
            <==> (&& HasColumn(frame, accCol)
                  && forall j :: 0 <= j < |KeptRows(frame, accCol)| ==>
                       KeptRowLoads(KeptRows(frame, accCol)[j], accCol, typeCol, typeIndex))
  {
    var keep, loads := KeepsAccuracy(accCol), LoadsWhenKept(accCol, typeCol, typeIndex);
    var kept := KeptRows(frame, accCol);
    if forall i :: 0 <= i < |frame| ==> AccuracyRowPasses(frame[i], accCol, typeCol, typeIndex) {
      assert forall i :: 0 <= i < |frame| && keep(frame[i]) ==> loads(frame[i]);
      FilterCoversForward(frame, keep, loads);
    }
    if HasColumn(frame, accCol) && forall j :: 0 <= j < |kept| ==> loads(kept[j]) {
      FilterCoversBack(frame, keep, loads);
      forall i | 0 <= i < |frame| ensures AccuracyRowPasses(frame[i], accCol, typeCol, typeIndex) {
        assert keep(frame[i]) ==> loads(frame[i]);
      }
    }
  }

  /** The steps of `load_csv` after the OAS split: the accuracy partition
      and split, then the obstacle-type lookup. */
  function AccuracyAndType(frame: Frame, accCol: string, cfg: CsvConfig, typeIndex: map<Value, Value>)
    : (r: Result<CsvLoad>)
    ensures r.Ok? <==> && ParsedColumn(cfg, ObstacleTypeRole).Ok?
                       && |KeptRows(frame, accCol)| > 0
                       && forall i :: 0 <= i < |frame| ==>
                            AccuracyRowPasses(frame[i], accCol, ParsedColumn(cfg, ObstacleTypeRole).value, typeIndex)
    ensures r.Ok? ==> r.value.invalidAccuracy == InvalidRows(frame, accCol)
    ensures r.Ok? ==>
              var typeCol := ParsedColumn(cfg, ObstacleTypeRole).value;
              var kept := KeptRows(frame, accCol);
              && |r.value.loaded| == |kept|
              && forall i :: 0 <= i < |kept| ==>
                   KeptRowLoads(kept[i], accCol, typeCol, typeIndex)
                   && r.value.loaded[i] == LoadKeptRow(kept[i], accCol, typeCol, typeIndex)
    ensures r.Ok? ==> |r.value.loaded| + |r.value.invalidAccuracy| == |frame|
    ensures r.Ok? ==> forall i :: 0 <= i < |r.value.invalidAccuracy| ==>
                        AccuracyInvalidRow(accCol, r.value.invalidAccuracy[i])
    ensures r.Ok? ==>
              var typeCol := ParsedColumn(cfg, ObstacleTypeRole).value;
              var touched := {accCol, typeCol, HorAccCode, VertAccCode, TypeId};
              && CarriesOver(frame, r.value.loaded, touched)
              && (NotDerived(accCol) && NotDerived(typeCol) && accCol != typeCol ==>
                    && HasColumn(r.value.loaded, HorAccCode) && HasColumn(r.value.loaded, VertAccCode)
                    && HasColumn(r.value.loaded, TypeId)
                    && Lacks(r.value.loaded, accCol) && Lacks(r.value.loaded, typeCol))
    ensures HasColumn(frame, accCol) && |KeptRows(frame, accCol)| == 0 ==> r == Err(EmptyApplyError)
    ensures r.Err? ==> r.error.KeyError? || r.error in {TypeError, NotAnInteger, EmptyApplyError}
    ensures r == Err(EmptyApplyError) ==> |KeptRows(frame, accCol)| == 0
  {
    AccuracyAndTypeDecides(frame, accCol, cfg, typeIndex);
    AccuracyAndTypeErrors(frame, accCol, cfg, typeIndex);
    if AccuracyAndTypeSteps(frame, accCol, cfg, typeIndex).Ok? then
      AccuracyAndTypeOutcome(frame, accCol, cfg, typeIndex);
      AccuracyAndTypeSteps(frame, accCol, cfg, typeIndex)
    else
      AccuracyAndTypeSteps(frame, accCol, cfg, typeIndex)
  }

  /** The accuracy and type steps in the order `load_csv` runs them. */
  function AccuracyAndTypeSteps(frame: Frame, accCol: string, cfg: CsvConfig, typeIndex: map<Value, Value>)
    : Result<CsvLoad>
  {
    if !HasColumn(frame, accCol) then
      Err(KeyError(Text(accCol)))
    else
      var withAcc :- SplitAccuracy(KeptRows(frame, accCol), accCol);
      var typeCol :- ParsedColumn(cfg, ObstacleTypeRole);
      var typed :- ResolveTypes(withAcc, typeCol, typeIndex);
      Ok(CsvLoad(typed, InvalidRows(frame, accCol)))
  }

  /** How the accuracy and type steps fail: the empty-apply error exactly
      when the mask keeps no row. */
  lemma AccuracyAndTypeErrors(frame: Frame, accCol: string, cfg: CsvConfig, typeIndex: map<Value, Value>)
    ensures var r := AccuracyAndTypeSteps(frame, accCol, cfg, typeIndex);
            && (HasColumn(frame, accCol) && |KeptRows(frame, accCol)| == 0 ==> r == Err(EmptyApplyError))
            && (r.Err? ==> r.error.KeyError? || r.error in {TypeError, NotAnInteger, EmptyApplyError})
            && (r == Err(EmptyApplyError) ==> |KeptRows(frame, accCol)| == 0)
  {
    var r := AccuracyAndTypeSteps(frame, accCol, cfg, typeIndex);
    if HasColumn(frame, accCol) {
      var kept := KeptRows(frame, accCol);
      var split := SplitAccuracy(kept, accCol);
      if split.Err? {
        assert r == Err(split.error);
        if |kept| > 0 {
          AccuracySplitFails(frame, accCol, "", typeIndex, split.error);
        }
      } else {
        assert |split.value| > 0;
        var typeCol := ParsedColumn(cfg, ObstacleTypeRole);
        if typeCol.Err? {
          assert r == Err(typeCol.error);
        } else {
          var typed := ResolveTypes(split.value, typeCol.value, typeIndex);
          assert typed.Err? ==> r == Err(typed.error) && typed.error.KeyError?;
        }
      }
    }
  }

  /** When the accuracy and type steps succeed. */
  lemma AccuracyAndTypeDecides(frame: Frame, accCol: string, cfg: CsvConfig, typeIndex: map<Value, Value>)
    ensures AccuracyAndTypeSteps(frame, accCol, cfg, typeIndex).Ok? <==>
              && ParsedColumn(cfg, ObstacleTypeRole).Ok?
              && |KeptRows(frame, accCol)| > 0
              && forall i :: 0 <= i < |frame| ==>
                   AccuracyRowPasses(frame[i], accCol, ParsedColumn(cfg, ObstacleTypeRole).value, typeIndex)
  {
    if HasColumn(frame, accCol) {
      var kept := KeptRows(frame, accCol);
      var typeCol := if ParsedColumn(cfg, ObstacleTypeRole).Ok? then ParsedColumn(cfg, ObstacleTypeRole).value else "";
      match SplitAccuracy(kept, accCol)
      case Err(e) =>
        if |kept| > 0 {
          AccuracySplitFails(frame, accCol, typeCol, typeIndex, e);
        }
      case Ok(withAcc) =>
        if ParsedColumn(cfg, ObstacleTypeRole).Ok? {
          match ResolveTypes(withAcc, typeCol, typeIndex)
          case Err(e) =>
            TypeLookupFails(frame, accCol, typeCol, typeIndex, withAcc, e);
          case Ok(typed) =>
            AccuracyAndTypeLoads(frame, accCol, typeCol, typeIndex, withAcc, typed);
        }
    } else if ParsedColumn(cfg, ObstacleTypeRole).Ok? {
      var k :| 0 <= k < |frame| && accCol !in frame[k];
      assert !AccuracyRowPasses(frame[k], accCol, ParsedColumn(cfg, ObstacleTypeRole).value, typeIndex);
    }
  }

  /** What the accuracy and type steps produce when they succeed. */
  lemma AccuracyAndTypeOutcome(frame: Frame, accCol: string, cfg: CsvConfig, typeIndex: map<Value, Value>)
    requires AccuracyAndTypeSteps(frame, accCol, cfg, typeIndex).Ok?
    ensures var r := AccuracyAndTypeSteps(frame, accCol, cfg, typeIndex);
            var typeCol := ParsedColumn(cfg, ObstacleTypeRole).value;
            var kept := KeptRows(frame, accCol);
            var touched := {accCol, typeCol, HorAccCode, VertAccCode, TypeId};
            && r.value.invalidAccuracy == InvalidRows(frame, accCol)
            && |r.value.loaded| == |kept|
            && (forall i :: 0 <= i < |kept| ==>
                  KeptRowLoads(kept[i], accCol, typeCol, typeIndex)
                  && r.value.loaded[i] == LoadKeptRow(kept[i], accCol, typeCol, typeIndex))
            && |r.value.loaded| + |r.value.invalidAccuracy| == |frame|
            && (forall i :: 0 <= i < |r.value.invalidAccuracy| ==>
                  AccuracyInvalidRow(accCol, r.value.invalidAccuracy[i]))
            && CarriesOver(frame, r.value.loaded, touched)
            && (NotDerived(accCol) && NotDerived(typeCol) && accCol != typeCol ==>
                  && HasColumn(r.value.loaded, HorAccCode) && HasColumn(r.value.loaded, VertAccCode)
                  && HasColumn(r.value.loaded, TypeId)
                  && Lacks(r.value.loaded, accCol) && Lacks(r.value.loaded, typeCol))
  {
    var (kept, invalid) := PartitionAccuracy(frame, accCol);
    var typeCol := ParsedColumn(cfg, ObstacleTypeRole).value;
    var withAcc := SplitAccuracy(kept, accCol).value;
    var typed := ResolveTypes(withAcc, typeCol, typeIndex).value;
    AccuracyAndTypeLoads(frame, accCol, typeCol, typeIndex, withAcc, typed);
    TypedColumns(frame, kept, withAcc, typed, accCol, typeCol);
  }

  /** A failing accuracy split fails on a row that passes the mask, so its
      error is never the IndexError of a short code. */
  lemma AccuracySplitFails(frame: Frame, accCol: string, typeCol: string, typeIndex: map<Value, Value>, e: Error)
    requires |KeptRows(frame, accCol)| > 0
    requires SplitAccuracy(KeptRows(frame, accCol), accCol) == Err(e)
    ensures e != IndexError && e != EmptyApplyError
    ensures !forall i :: 0 <= i < |frame| ==> AccuracyRowPasses(frame[i], accCol, typeCol, typeIndex)
  {
    var kept := KeptRows(frame, accCol);
    var k :| 0 <= k < |kept| && SplitAccuracyRow(kept[k], accCol) == Err(e);
    KeptRowNeverShort(kept[k], accCol);
    KeptRowsDecide(frame, accCol, typeCol, typeIndex);
    assert !KeptRowLoads(kept[k], accCol, typeCol, typeIndex);
  }

  /** The accuracy split of a row the mask keeps never fails for a short
      code. */
  lemma KeptRowNeverShort(row: Row, col: string)
    requires !AccuracyInvalidRow(col, row)
    ensures SplitAccuracyRow(row, col) != Err(IndexError)
  {
    if col in row {
      KeptRowHasTwoCharacters(row, col);
    }
  }

  /** A failing type lookup fails on a kept row. */
  lemma TypeLookupFails(frame: Frame, accCol: string, typeCol: string, typeIndex: map<Value, Value>,
                        withAcc: Frame, e: Error)
    requires SplitAccuracy(KeptRows(frame, accCol), accCol) == Ok(withAcc)
    requires ResolveTypes(withAcc, typeCol, typeIndex) == Err(e)
    ensures !forall i :: 0 <= i < |frame| ==> AccuracyRowPasses(frame[i], accCol, typeCol, typeIndex)
  {
    var kept := KeptRows(frame, accCol);
    var k :| 0 <= k < |withAcc| && !(typeCol in withAcc[k] && withAcc[k][typeCol] in typeIndex);
    assert !KeptRowLoads(kept[k], accCol, typeCol, typeIndex);
    KeptRowsDecide(frame, accCol, typeCol, typeIndex);
  }

  /** When both steps succeed, every row passes and the loaded rows are the
      kept rows, each rewritten. */
  lemma AccuracyAndTypeLoads(frame: Frame, accCol: string, typeCol: string, typeIndex: map<Value, Value>,
                             withAcc: Frame, typed: Frame)
    requires HasColumn(frame, accCol)
    requires SplitAccuracy(KeptRows(frame, accCol), accCol) == Ok(withAcc)
    requires ResolveTypes(withAcc, typeCol, typeIndex) == Ok(typed)
    ensures forall i :: 0 <= i < |frame| ==> AccuracyRowPasses(frame[i], accCol, typeCol, typeIndex)
    ensures |typed| == |KeptRows(frame, accCol)|
    ensures forall i :: 0 <= i < |KeptRows(frame, accCol)| ==>
              KeptRowLoads(KeptRows(frame, accCol)[i], accCol, typeCol, typeIndex)
              && typed[i] == LoadKeptRow(KeptRows(frame, accCol)[i], accCol, typeCol, typeIndex)
  {
    KeptRowsLoad(KeptRows(frame, accCol), accCol, typeCol, typeIndex, withAcc, typed);
    KeptRowsDecide(frame, accCol, typeCol, typeIndex);
  }

  /** Rows that pass the accuracy split and the type lookup each load, as
      the rewriting of that row. */
  lemma KeptRowsLoad(kept: Frame, accCol: string, typeCol: string, typeIndex: map<Value, Value>,
                     withAcc: Frame, typed: Frame)
    requires SplitAccuracy(kept, accCol) == Ok(withAcc)
    requires ResolveTypes(withAcc, typeCol, typeIndex) == Ok(typed)
    ensures |typed| == |kept|
    ensures forall i :: 0 <= i < |kept| ==>
              KeptRowLoads(kept[i], accCol, typeCol, typeIndex)
              && typed[i] == LoadKeptRow(kept[i], accCol, typeCol, typeIndex)
  {
    forall i | 0 <= i < |kept|
      ensures KeptRowLoads(kept[i], accCol, typeCol, typeIndex)
      ensures typed[i] == LoadKeptRow(kept[i], accCol, typeCol, typeIndex)
    {
      assert SplitAccuracyRow(kept[i], accCol).Ok? && withAcc[i] == SplitAccuracyRow(kept[i], accCol).value;
      assert typed[i] == ResolveTypeRow(withAcc[i], typeCol, typeIndex).value;
    }
  }

  /** The column bookkeeping of the accuracy and type steps. */
  lemma TypedColumns(frame: Frame, kept: Frame, withAcc: Frame, typed: Frame, accCol: string, typeCol: string)
    requires CarriesOver(frame, kept, {})
    requires CarriesOver(kept, withAcc, {accCol, HorAccCode, VertAccCode})
    requires CarriesOver(withAcc, typed, {typeCol, TypeId})
    requires accCol != VertAccCode ==>
               HasColumn(withAcc, HorAccCode) && HasColumn(withAcc, VertAccCode) && Lacks(withAcc, accCol)
    requires typeCol != TypeId ==> HasColumn(typed, TypeId) && Lacks(typed, typeCol)
    ensures CarriesOver(frame, typed, {accCol, typeCol, HorAccCode, VertAccCode, TypeId})
    ensures NotDerived(accCol) && NotDerived(typeCol) && accCol != typeCol ==>
              && HasColumn(typed, HorAccCode) && HasColumn(typed, VertAccCode) && HasColumn(typed, TypeId)
              && Lacks(typed, accCol) && Lacks(typed, typeCol)
  {
    var touched := {accCol, typeCol, HorAccCode, VertAccCode, TypeId};
    forall c | c !in touched
      ensures HasColumn(frame, c) ==> HasColumn(typed, c)
      ensures Lacks(frame, c) ==> Lacks(typed, c)
    {
      CarryColumn(frame, kept, {}, c);
      CarryColumn(kept, withAcc, {accCol, HorAccCode, VertAccCode}, c);
      CarryColumn(withAcc, typed, {typeCol, TypeId}, c);
    }
    if NotDerived(accCol) && NotDerived(typeCol) && accCol != typeCol {
      CarryColumn(withAcc, typed, {typeCol, TypeId}, HorAccCode);
      CarryColumn(withAcc, typed, {typeCol, TypeId}, VertAccCode);
      CarryColumn(withAcc, typed, {typeCol, TypeId}, accCol);
    }
  }

  /** The parsing steps of `load_csv` on stripped, renamed rows: the OAS
      split, the accuracy partition and split, the obstacle-type lookup. */
  function ParseRows(frame: Frame, cfg: CsvConfig, typeIndex: map<Value, Value>): (r: Result<CsvLoad>)
    ensures r.Ok? <==> CsvRowsLoad(frame, cfg, typeIndex)
    ensures r.Ok? ==> CsvOutcome(frame, cfg, typeIndex, r.value)
    ensures r.Ok? ==> |r.value.loaded| + |r.value.invalidAccuracy| == |frame|
    ensures r.Ok? ==> AllAccuracyInvalid(r.value.invalidAccuracy, ParsedColumn(cfg, AccuracyRole).value)
    ensures r.Ok? ==>
              var oasCol := ParsedColumn(cfg, OasIdentRole).value;
              var accCol := ParsedColumn(cfg, AccuracyRole).value;
              var typeCol := ParsedColumn(cfg, ObstacleTypeRole).value;
              ParsedColumnsFresh(oasCol, accCol, typeCol) ==> LoadedColumns(r.value.loaded, oasCol, accCol, typeCol)
    ensures r.Err? ==> r.error.KeyError? || r.error in {AttributeError, UnpackError, TypeError, NotAnInteger, EmptyApplyError}
  {
    ParseStepsDecide(frame, cfg, typeIndex);
    ParseStepsErrors(frame, cfg, typeIndex);
    if ParseSteps(frame, cfg, typeIndex).Ok? then
      ParseStepsOutcome(frame, cfg, typeIndex);
      ParseSteps(frame, cfg, typeIndex)
    else
      ParseSteps(frame, cfg, typeIndex)
  }

  /** The parsing steps in the order `load_csv` runs them. */
  function ParseSteps(frame: Frame, cfg: CsvConfig, typeIndex: map<Value, Value>): Result<CsvLoad> {
    var oasCol :- ParsedColumn(cfg, OasIdentRole);
    var withOas :- SplitOas(frame, oasCol);
    var accCol :- ParsedColumn(cfg, AccuracyRole);
    AccuracyAndType(withOas, accCol, cfg, typeIndex)
  }

  /** The errors the parsing steps fail with: never an IndexError. */
  lemma ParseStepsErrors(frame: Frame, cfg: CsvConfig, typeIndex: map<Value, Value>)
    ensures ParseSteps(frame, cfg, typeIndex).Err? ==>
              var e := ParseSteps(frame, cfg, typeIndex).error;
              e.KeyError? || e in {AttributeError, UnpackError, TypeError, NotAnInteger, EmptyApplyError}
  {
    var oasCol := ParsedColumn(cfg, OasIdentRole);
    if oasCol.Ok? {
      var withOas := SplitOas(frame, oasCol.value);
      if withOas.Ok? {
        var accCol := ParsedColumn(cfg, AccuracyRole);
        if accCol.Ok? {
          assert ParseSteps(frame, cfg, typeIndex) == AccuracyAndType(withOas.value, accCol.value, cfg, typeIndex);
        }
      }
    }
  }

  /** When the parsing steps succeed. */
  lemma ParseStepsDecide(frame: Frame, cfg: CsvConfig, typeIndex: map<Value, Value>)
    ensures ParseSteps(frame, cfg, typeIndex).Ok? <==> CsvRowsLoad(frame, cfg, typeIndex)
  {
    var oasCol, accCol, typeCol := ParsedColumn(cfg, OasIdentRole), ParsedColumn(cfg, AccuracyRole),
                                   ParsedColumn(cfg, ObstacleTypeRole);
    if oasCol.Ok? {
      match SplitOas(frame, oasCol.value)
      case Err(e) =>
        if accCol.Ok? && typeCol.Ok? && |frame| > 0 {
          OasSplitFails(frame, oasCol.value, accCol.value, typeCol.value, typeIndex, e);
        }
      case Ok(withOas) =>
        if accCol.Ok? && typeCol.Ok? {
          RowsLoadAfterSplit(frame, oasCol.value, accCol.value, typeCol.value, typeIndex, withOas);
          SomeRowKeptAfterSplit(frame, oasCol.value, accCol.value, withOas);
        }
    }
  }

  /** What the parsing steps produce when they succeed. */
  lemma ParseStepsOutcome(frame: Frame, cfg: CsvConfig, typeIndex: map<Value, Value>)
    requires ParseSteps(frame, cfg, typeIndex).Ok?
    ensures CsvRowsLoad(frame, cfg, typeIndex)
    ensures CsvOutcome(frame, cfg, typeIndex, ParseSteps(frame, cfg, typeIndex).value)
    ensures
      var r := ParseSteps(frame, cfg, typeIndex);
      var oasCol := ParsedColumn(cfg, OasIdentRole).value;
      var accCol := ParsedColumn(cfg, AccuracyRole).value;
      var typeCol := ParsedColumn(cfg, ObstacleTypeRole).value;
      && |r.value.loaded| + |r.value.invalidAccuracy| == |frame|
      && (forall i :: 0 <= i < |r.value.invalidAccuracy| ==> AccuracyInvalidRow(accCol, r.value.invalidAccuracy[i]))
      && (ParsedColumnsFresh(oasCol, accCol, typeCol) ==> LoadedColumns(r.value.loaded, oasCol, accCol, typeCol))
  {
    ParseStepsDecide(frame, cfg, typeIndex);
    var oasCol := ParsedColumn(cfg, OasIdentRole).value;
    var accCol := ParsedColumn(cfg, AccuracyRole).value;
    var typeCol := ParsedColumn(cfg, ObstacleTypeRole).value;
    var withOas := SplitOas(frame, oasCol).value;
    var load := AccuracyAndType(withOas, accCol, cfg, typeIndex).value;
    if ParsedColumnsFresh(oasCol, accCol, typeCol) {
      OasColumnsSurvive(withOas, load.loaded, oasCol, accCol, typeCol);
    }
  }

  /** A failing OAS split fails on some row. */
  lemma OasSplitFails(frame: Frame, oasCol: string, accCol: string, typeCol: string, typeIndex: map<Value, Value>, e: Error)
    requires |frame| > 0 && SplitOas(frame, oasCol) == Err(e)
    ensures !RowsLoad(frame, oasCol, accCol, typeCol, typeIndex)
  {
    var k :| 0 <= k < |frame| && SplitOasRow(frame[k], oasCol) == Err(e);
    assert !CsvRowLoads(frame[k], oasCol, accCol, typeCol, typeIndex);
  }

  /** Once the OAS split succeeds, every row loads exactly when every split
      row passes the accuracy and type steps. */
  lemma RowsLoadAfterSplit(frame: Frame, oasCol: string, accCol: string, typeCol: string,
                           typeIndex: map<Value, Value>, withOas: Frame)
    requires SplitOas(frame, oasCol) == Ok(withOas)
    ensures RowsLoad(frame, oasCol, accCol, typeCol, typeIndex) <==>
              forall i :: 0 <= i < |withOas| ==> AccuracyRowPasses(withOas[i], accCol, typeCol, typeIndex)
  {
  }

  /** Once the OAS split succeeds, some row is kept exactly when the mask
      keeps some split row. */
  lemma SomeRowKeptAfterSplit(frame: Frame, oasCol: string, accCol: string, withOas: Frame)
    requires SplitOas(frame, oasCol) == Ok(withOas)
    ensures SomeRowKept(frame, oasCol, accCol) <==> |KeptRows(withOas, accCol)| > 0
  {
    var kept := KeptRows(withOas, accCol);
    if SomeRowKept(frame, oasCol, accCol) {
      var i :| 0 <= i < |frame| && CsvRowKept(frame[i], oasCol, accCol);
      assert withOas[i] in kept;
    }
    if |kept| > 0 {
      var i :| 0 <= i < |withOas| && withOas[i] == kept[0];
      assert CsvRowKept(frame[i], oasCol, accCol);
    }
  }

  /** The OAS columns survive the later steps, which neither add nor drop
      them. */
  lemma OasColumnsSurvive(withOas: Frame, loaded: Frame, oasCol: string, accCol: string, typeCol: string)
    requires ParsedColumnsFresh(oasCol, accCol, typeCol)
    requires HasColumn(withOas, OasCode) && HasColumn(withOas, ObstNumber) && Lacks(withOas, oasCol)
    requires CarriesOver(withOas, loaded, {accCol, typeCol, HorAccCode, VertAccCode, TypeId})
    ensures HasColumn(loaded, OasCode) && HasColumn(loaded, ObstNumber) && Lacks(loaded, oasCol)
  {
    var touched := {accCol, typeCol, HorAccCode, VertAccCode, TypeId};
    CarryColumn(withOas, loaded, touched, OasCode);
    CarryColumn(withOas, loaded, touched, ObstNumber);
    CarryColumn(withOas, loaded, touched, oasCol);
  }

  /** One column's presence, or absence, survives a step that does not
      touch it. */
  lemma CarryColumn(before: Frame, after: Frame, touched: set<string>, c: string)
    requires CarriesOver(before, after, touched) && c !in touched
    ensures HasColumn(before, c) ==> HasColumn(after, c)
    ensures Lacks(before, c) ==> Lacks(after, c)
  {
  }

  /** The row transformation of `load_csv`, from the rows the reader
      produced to the rows handed to `load_data` and the rows written to
      the invalid-accuracy file. */
  function LoadCsv(frame: Frame, cfg: CsvConfig, typeIndex: map<Value, Value>): (r: Result<CsvLoad>)
    requires forall i :: 0 <= i < |frame| ==> RenamesClashFree(frame[i].Keys, cfg)
    ensures r.Ok? <==> CsvRowsLoad(PrepareRows(frame, cfg), cfg, typeIndex)
    ensures r.Ok? ==> CsvOutcome(PrepareRows(frame, cfg), cfg, typeIndex, r.value)
    ensures r.Ok? ==> |r.value.loaded| + |r.value.invalidAccuracy| == |frame|
    ensures r.Ok? ==> AllAccuracyInvalid(r.value.invalidAccuracy, ParsedColumn(cfg, AccuracyRole).value)
    ensures r.Ok? ==>
              var oasCol := ParsedColumn(cfg, OasIdentRole).value;
              var accCol := ParsedColumn(cfg, AccuracyRole).value;
              var typeCol := ParsedColumn(cfg, ObstacleTypeRole).value;
              ParsedColumnsFresh(oasCol, accCol, typeCol) ==> LoadedColumns(r.value.loaded, oasCol, accCol, typeCol)
    ensures r.Err? ==> r.error.KeyError? || r.error in {AttributeError, UnpackError, TypeError, NotAnInteger, EmptyApplyError}
  {
    var rows := PrepareRows(frame, cfg);
    assert |rows| == |frame|;
    ParseRows(rows, cfg, typeIndex)
  }

  /** Stripped, renamed rows whose only fault is that every accuracy code is
      invalid fail the load: once the mask has set them all aside, the
      accuracy split runs on a frame with no rows. A file with no rows at
      all fails already at the OAS split. */
  lemma AllInvalidAccuracyFails(rows: Frame, cfg: CsvConfig, typeIndex: map<Value, Value>)
    requires ParsedColumn(cfg, OasIdentRole).Ok? && ParsedColumn(cfg, AccuracyRole).Ok?
    requires ParsedColumn(cfg, ObstacleTypeRole).Ok?
    requires forall i :: 0 <= i < |rows| ==>
               && SplitOasRow(rows[i], ParsedColumn(cfg, OasIdentRole).value).Ok?
               && AccuracyInvalidRow(ParsedColumn(cfg, AccuracyRole).value,
                                     SplitOasRow(rows[i], ParsedColumn(cfg, OasIdentRole).value).value)
    ensures ParseRows(rows, cfg, typeIndex) == Err(EmptyApplyError)
  {
    ParseRowsRunsSteps(rows, cfg, typeIndex);
    var oasCol := ParsedColumn(cfg, OasIdentRole).value;
    var accCol := ParsedColumn(cfg, AccuracyRole).value;
    if |rows| > 0 {
      var withOas := SplitOas(rows, oasCol).value;
      assert forall i :: 0 <= i < |withOas| ==> withOas[i] == SplitOasRow(rows[i], oasCol).value;
      AccuracyAndTypeAllInvalid(withOas, accCol, cfg, typeIndex);
    }
  }

  /** When the mask sets every row aside, the accuracy split runs on no
      rows. */
  lemma AccuracyAndTypeAllInvalid(frame: Frame, accCol: string, cfg: CsvConfig, typeIndex: map<Value, Value>)
    requires forall i :: 0 <= i < |frame| ==> AccuracyInvalidRow(accCol, frame[i])
    ensures AccuracyAndType(frame, accCol, cfg, typeIndex) == Err(EmptyApplyError)
  {
    AllInvalidSetAside(frame, accCol);
  }

  /** `ParseRows` is the parsing steps, with the facts about them. */
  lemma ParseRowsRunsSteps(frame: Frame, cfg: CsvConfig, typeIndex: map<Value, Value>)
    ensures ParseRows(frame, cfg, typeIndex) == ParseSteps(frame, cfg, typeIndex)
  {
  }

  /** The accuracy and type steps as `load_csv` evidently means them: when
      the mask sets every row aside, the steps that derive columns are
      skipped and nothing is loaded. */
  function AccuracyAndTypeGuarded(frame: Frame, accCol: string, cfg: CsvConfig, typeIndex: map<Value, Value>)
    : (r: Result<CsvLoad>)
    ensures HasColumn(frame, accCol) && |KeptRows(frame, accCol)| == 0 && ParsedColumn(cfg, ObstacleTypeRole).Ok? ==>
              r == Ok(CsvLoad([], frame))
    ensures |KeptRows(frame, accCol)| > 0 ==> r == AccuracyAndType(frame, accCol, cfg, typeIndex)
    ensures r.Err? ==> r.error != EmptyApplyError
  {
    if HasColumn(frame, accCol) && |KeptRows(frame, accCol)| == 0 then
      NoneKeptAllSetAside(frame, accCol);
      var _ :- ParsedColumn(cfg, ObstacleTypeRole);
      Ok(CsvLoad([], InvalidRows(frame, accCol)))
    else
      AccuracyAndType(frame, accCol, cfg, typeIndex)
  }

  /** When the mask keeps no row, it sets every row aside. */
  lemma NoneKeptAllSetAside(frame: Frame, accCol: string)
    requires HasColumn(frame, accCol) && |KeptRows(frame, accCol)| == 0
    ensures InvalidRows(frame, accCol) == frame
  {
    assert forall i :: 0 <= i < |frame| ==> AccuracyInvalidRow(accCol, frame[i]);
    AllInvalidSetAside(frame, accCol);
  }

  /** The parsing steps as `load_csv` evidently means them: a file with no
      rows, or one whose rows the mask sets aside, loads nothing instead of
      failing. Wherever the source does not run an apply on a frame with
      no rows, this agrees with it. */
  function ParseRowsGuarded(frame: Frame, cfg: CsvConfig, typeIndex: map<Value, Value>): (r: Result<CsvLoad>)
    ensures CsvRowsLoad(frame, cfg, typeIndex) ==> r == ParseRows(frame, cfg, typeIndex)
    ensures ParseRows(frame, cfg, typeIndex).Err? && ParseRows(frame, cfg, typeIndex).error != EmptyApplyError ==>
              r == ParseRows(frame, cfg, typeIndex)
    ensures r.Err? ==> r.error != EmptyApplyError
  {
    ParseStepsDecide(frame, cfg, typeIndex);
    var oasCol :- ParsedColumn(cfg, OasIdentRole);
    if |frame| == 0 then
      var _ :- ParsedColumn(cfg, AccuracyRole);
      var _ :- ParsedColumn(cfg, ObstacleTypeRole);
      Ok(CsvLoad([], []))
    else
      var withOas :- SplitOas(frame, oasCol);
      var accCol :- ParsedColumn(cfg, AccuracyRole);
      AccuracyAndTypeGuarded(withOas, accCol, cfg, typeIndex)
  }

  /** Under the guard, rows whose only fault is that every accuracy code is
      invalid load: nothing goes to the database, and every row, split,
      goes to the invalid-accuracy file. */
  lemma GuardedSetsAsideAllInvalid(rows: Frame, cfg: CsvConfig, typeIndex: map<Value, Value>)
    requires ParsedColumn(cfg, OasIdentRole).Ok? && ParsedColumn(cfg, AccuracyRole).Ok?
    requires ParsedColumn(cfg, ObstacleTypeRole).Ok?
    requires forall i :: 0 <= i < |rows| ==>
               && SplitOasRow(rows[i], ParsedColumn(cfg, OasIdentRole).value).Ok?
               && AccuracyInvalidRow(ParsedColumn(cfg, AccuracyRole).value,
                                     SplitOasRow(rows[i], ParsedColumn(cfg, OasIdentRole).value).value)
    ensures ParseRowsGuarded(rows, cfg, typeIndex).Ok?
    ensures ParseRowsGuarded(rows, cfg, typeIndex).value.loaded == []
    ensures |rows| > 0 ==> ParseRowsGuarded(rows, cfg, typeIndex).value.invalidAccuracy
                           == SplitOas(rows, ParsedColumn(cfg, OasIdentRole).value).value
    ensures |rows| == 0 ==> ParseRowsGuarded(rows, cfg, typeIndex).value.invalidAccuracy == []
  {
    var oasCol := ParsedColumn(cfg, OasIdentRole).value;
    var accCol := ParsedColumn(cfg, AccuracyRole).value;
    if |rows| > 0 {
      var withOas := SplitOas(rows, oasCol).value;
      assert forall i :: 0 <= i < |withOas| ==> withOas[i] == SplitOasRow(rows[i], oasCol).value;
      AllInvalidSetAside(withOas, accCol);
      assert HasColumn(withOas, accCol);
      assert AccuracyAndTypeGuarded(withOas, accCol, cfg, typeIndex) == Ok(CsvLoad([], withOas));
    }
  }

  /** When every row has an invalid accuracy code, the mask keeps none and
      sets all aside. */
  lemma AllInvalidSetAside(frame: Frame, accCol: string)
    requires forall i :: 0 <= i < |frame| ==> AccuracyInvalidRow(accCol, frame[i])
    ensures InvalidRows(frame, accCol) == frame
    ensures KeptRows(frame, accCol) == []
  {
    FilterAll(frame, SetsAsideAccuracy(accCol));
    FilterNone(frame, KeepsAccuracy(accCol));
  }

  /** A filter that keeps every element is the identity. */
  lemma {:induction false} FilterAll<T>(xs: seq<T>, p: T -> bool)
    requires forall i :: 0 <= i < |xs| ==> p(xs[i])
    ensures Filter(xs, p) == xs
  {
    if |xs| > 0 {
      FilterAll(xs[1..], p);
    }
  }

  /** A filter that keeps no element is empty. */
  lemma {:induction false} FilterNone<T>(xs: seq<T>, p: T -> bool)
    requires forall i :: 0 <= i < |xs| ==> !p(xs[i])
    ensures Filter(xs, p) == []
  {
    if |xs| > 0 {
      FilterNone(xs[1..], p);
    }
  }

  /** The DAT field extents: 1-based, inclusive (start, end) positions. */
  type FieldExtents = Dict<(int, int)>

  /** `load_dat`'s conversion of 1-based inclusive extents to the 0-based,
      end-exclusive column specs of the fixed-width reader. Field names and
      their order are kept. */
  function ColSpecs(fields: FieldExtents): (specs: Dict<(int, int)>)
    ensures DictKeys(specs) == DictKeys(fields)
    ensures forall i :: 0 <= i < |fields| ==>
              specs[i].1.0 == fields[i].1.0 - 1 && specs[i].1.1 == fields[i].1.1
  {
    var specs := seq(|fields|, i requires 0 <= i < |fields| =>
      (fields[i].0, (fields[i].1.0 - 1, fields[i].1.1)));
    assert DictKeys(specs) == DictKeys(fields);
    specs
  }

  /** A column spec selects exactly the characters of its 1-based inclusive
      extent: the `k`-th character of the field is the character at 1-based
      position `start + k` of the line. */
  lemma ColSpecSelectsExtent(fields: FieldExtents, i: int, line: string)
    requires 0 <= i < |fields|
    requires 1 <= fields[i].1.0 <= fields[i].1.1 <= |line|
    ensures var spec := ColSpecs(fields)[i].1;
            && 0 <= spec.0 <= spec.1 <= |line|
            && |line[spec.0..spec.1]| == fields[i].1.1 - fields[i].1.0 + 1
            && forall k :: 0 <= k < |line[spec.0..spec.1]| ==>
                 line[spec.0..spec.1][k] == line[fields[i].1.0 + k - 1]
  {
  }

  /** The DAT source columns and the columns derived from them. */
  const LonSource := "lon_src"
  const LatSource := "lat_src"
  const ObstTypeSource := "obst_type"
  const Lon := "lon"
  const Lat := "lat"

  /** `dms_to_dd(row[src], maxDegree)` written to column `dst`. A missing
      column is a KeyError; a cell that is not text cannot be indexed; empty
      text has no last character. */
  function ConvertDatCoordinate(row: Row, src: string, dst: string, maxDegree: int): (r: Result<Row>)
    ensures r.Ok? <==> && src in row && row[src].Text? && |row[src].s| >= 1
                       && DmsToDd(row[src].s, maxDegree).Ok?
    ensures r.Ok? ==> && dst in r.value
                      && r.value[dst] == Num(DmsToDd(row[src].s, maxDegree).value)
    ensures r.Ok? ==> forall c :: c != dst ==> (c in r.value <==> c in row)
                                                && (c in row ==> r.value[c] == row[c])
    ensures src !in row ==> r == Err(KeyError(Text(src)))
    ensures src in row && !row[src].Text? ==> r == Err(TypeError)
    ensures src in row && row[src] == Text("") ==> r == Err(IndexError)
    ensures src in row && row[src].Text? && |row[src].s| >= 1 && r.Err? ==>
              r.error == CoordinateError(None)
  {
    if src !in row then Err(KeyError(Text(src)))
    else
      match row[src]
      case Text(s) =>
        if |s| == 0 then Err(IndexError)
        else
          (match DmsToDd(s, maxDegree)
           case Err(e) => Err(e)
           case Ok(v) => Ok(row[dst := Num(v)]))
      case _ => Err(TypeError)
  }

  /** One coordinate column over a frame: every row converted, or the first
      failure aborts the load; a frame with no rows fails. */
  function ConvertDatColumn(frame: Frame, src: string, dst: string, maxDegree: int): (r: Result<Frame>)
    ensures r.Ok? <==> |frame| > 0 && forall i :: 0 <= i < |frame| ==> ConvertDatCoordinate(frame[i], src, dst, maxDegree).Ok?
    ensures |frame| == 0 ==> r == Err(EmptyApplyError)
    ensures r.Ok? ==> |r.value| == |frame|
    ensures r.Ok? ==> forall i :: 0 <= i < |frame| ==>
              r.value[i] == ConvertDatCoordinate(frame[i], src, dst, maxDegree).value
    ensures r.Err? && |frame| > 0 ==>
      exists k :: && 0 <= k < |frame| && ConvertDatCoordinate(frame[k], src, dst, maxDegree).Err?
                  && r.error == ConvertDatCoordinate(frame[k], src, dst, maxDegree).error
                  && forall j :: 0 <= j < k ==> ConvertDatCoordinate(frame[j], src, dst, maxDegree).Ok?
  {
    ApplyRows(frame, row => ConvertDatCoordinate(row, src, dst, maxDegree))
  }

  /** What `load_dat` needs of one row: both coordinates non-empty DMS text
      within range, longitude within 180 degrees and latitude within 90, and
      a known type name. */
  predicate DatRowConverts(row: Row, typeIndex: map<Value, Value>) {
    && LonSource in row && row[LonSource].Text? && |row[LonSource].s| >= 1
    && LatSource in row && row[LatSource].Text? && |row[LatSource].s| >= 1
    && DmsToDd(row[LonSource].s, 180).Ok? && DmsToDd(row[LatSource].s, 90).Ok?
    && ObstTypeSource in row && row[ObstTypeSource] in typeIndex
  }

  /** What `load_dat` makes of one row: both coordinates converted, the
      type name known, and the output row holding the converted coordinates
      and the type id in place of the source columns. */
  predicate DatRowLoaded(row: Row, out: Row, typeIndex: map<Value, Value>) {
    && DatRowConverts(row, typeIndex)
    && Lon in out && out[Lon] == Num(DmsToDd(row[LonSource].s, 180).value)
    && Lat in out && out[Lat] == Num(DmsToDd(row[LatSource].s, 90).value)
    && TypeId in out && out[TypeId] == typeIndex[row[ObstTypeSource]]
    && LonSource !in out && LatSource !in out && ObstTypeSource !in out
  }

  /** The row transformation of `load_dat`: longitude (at most 180 degrees)
      and latitude (at most 90 degrees) from their DMS columns, which are
      then dropped, and the obstacle type replaced by its id. Each step runs
      over the whole frame before the next, so when the longitude step fails
      its first failing row decides the error; a file with no rows fails at
      the first step. */
  function LoadDat(frame: Frame, typeIndex: map<Value, Value>): (r: Result<Frame>)
    ensures r.Ok? <==> |frame| > 0 && forall i :: 0 <= i < |frame| ==> DatRowConverts(frame[i], typeIndex)
    ensures |frame| == 0 ==> r == Err(EmptyApplyError)
    ensures r.Ok? ==> |r.value| == |frame|
    ensures r.Ok? ==> forall i :: 0 <= i < |frame| ==> DatRowLoaded(frame[i], r.value[i], typeIndex)
    ensures (exists i :: 0 <= i < |frame| && ConvertDatCoordinate(frame[i], LonSource, Lon, 180).Err?)
            ==> r.Err?
    ensures forall k :: && 0 <= k < |frame| && LonFailsFirstAt(frame, k)
                        ==> r == Err(ConvertDatCoordinate(frame[k], LonSource, Lon, 180).error)
  {
    DatStepsDecide(frame, typeIndex);
    LonStepFirstError(frame, typeIndex);
    if DatSteps(frame, typeIndex).Ok? then
      DatStepsRows(frame, typeIndex);
      DatSteps(frame, typeIndex)
    else
      DatSteps(frame, typeIndex)
  }

  /** Row `k` is the first row whose longitude does not convert. */
  predicate LonFailsFirstAt(frame: Frame, k: int)
    requires 0 <= k < |frame|
  {
    && ConvertDatCoordinate(frame[k], LonSource, Lon, 180).Err?
    && forall j :: 0 <= j < k ==> ConvertDatCoordinate(frame[j], LonSource, Lon, 180).Ok?
  }

  /** The longitude step runs over the whole frame first, so its first
      failing row decides the error of the DAT steps. */
  lemma LonStepFirstError(frame: Frame, typeIndex: map<Value, Value>)
    ensures forall k :: 0 <= k < |frame| && LonFailsFirstAt(frame, k) ==>
              DatSteps(frame, typeIndex) == Err(ConvertDatCoordinate(frame[k], LonSource, Lon, 180).error)
  {
    forall k | 0 <= k < |frame| && LonFailsFirstAt(frame, k)
      ensures DatSteps(frame, typeIndex) == Err(ConvertDatCoordinate(frame[k], LonSource, Lon, 180).error)
    {
      var lon := ConvertDatColumn(frame, LonSource, Lon, 180);
      assert lon.Err?;
      var m :| && 0 <= m < |frame| && ConvertDatCoordinate(frame[m], LonSource, Lon, 180).Err?
               && lon.error == ConvertDatCoordinate(frame[m], LonSource, Lon, 180).error
               && forall j :: 0 <= j < m ==> ConvertDatCoordinate(frame[j], LonSource, Lon, 180).Ok?;
      assert m == k;
    }
  }

  /** The steps of `load_dat` in the order it runs them. */
  function DatSteps(frame: Frame, typeIndex: map<Value, Value>): Result<Frame> {
    var withLon :- ConvertDatColumn(frame, LonSource, Lon, 180);
    var withLat :- ConvertDatColumn(withLon, LatSource, Lat, 90);
    ResolveTypes(DropSources(withLat), ObstTypeSource, typeIndex)
  }

  /** The DAT steps succeed exactly when there are rows and every row
      converts. */
  lemma DatStepsDecide(frame: Frame, typeIndex: map<Value, Value>)
    ensures DatSteps(frame, typeIndex).Ok? <==>
              |frame| > 0 && forall i :: 0 <= i < |frame| ==> DatRowConverts(frame[i], typeIndex)
  {
    match ConvertDatColumn(frame, LonSource, Lon, 180)
    case Err(_) =>
      if |frame| > 0 {
        var i :| 0 <= i < |frame| && !ConvertDatCoordinate(frame[i], LonSource, Lon, 180).Ok?;
        assert !DatRowConverts(frame[i], typeIndex);
      }
    case Ok(withLon) =>
      LatStepDecides(frame, typeIndex, withLon);
  }

  /** After the longitude step, the rest succeeds exactly when every row
      converts. */
  lemma LatStepDecides(frame: Frame, typeIndex: map<Value, Value>, withLon: Frame)
    requires ConvertDatColumn(frame, LonSource, Lon, 180) == Ok(withLon)
    ensures DatSteps(frame, typeIndex).Ok? <==>
              |frame| > 0 && forall i :: 0 <= i < |frame| ==> DatRowConverts(frame[i], typeIndex)
  {
    match ConvertDatColumn(withLon, LatSource, Lat, 90)
    case Err(_) =>
      var i :| 0 <= i < |frame| && !ConvertDatCoordinate(withLon[i], LatSource, Lat, 90).Ok?;
      LonStepKeeps(frame[i], withLon[i]);
      assert !DatRowConverts(frame[i], typeIndex);
    case Ok(withLat) =>
      CoordinateStepsKeep(frame, typeIndex, withLon, withLat);
      TypeStepDecides(frame, typeIndex, withLat);
  }

  /** The coordinate steps leave the type cells alone, and once they
      succeed, a row converts exactly when its type name is known. */
  lemma CoordinateStepsKeep(frame: Frame, typeIndex: map<Value, Value>, withLon: Frame, withLat: Frame)
    requires ConvertDatColumn(frame, LonSource, Lon, 180) == Ok(withLon)
    requires ConvertDatColumn(withLon, LatSource, Lat, 90) == Ok(withLat)
    ensures |withLat| == |frame|
    ensures forall i :: 0 <= i < |frame| ==>
              && (ObstTypeSource in withLat[i] <==> ObstTypeSource in frame[i])
              && (ObstTypeSource in frame[i] ==> withLat[i][ObstTypeSource] == frame[i][ObstTypeSource])
              && (DatRowConverts(frame[i], typeIndex) <==>
                    ObstTypeSource in frame[i] && frame[i][ObstTypeSource] in typeIndex)
  {
    forall i | 0 <= i < |frame|
      ensures ObstTypeSource in withLat[i] <==> ObstTypeSource in frame[i]
      ensures ObstTypeSource in frame[i] ==> withLat[i][ObstTypeSource] == frame[i][ObstTypeSource]
      ensures DatRowConverts(frame[i], typeIndex) <==> ObstTypeSource in frame[i] && frame[i][ObstTypeSource] in typeIndex
    {
      LonStepKeeps(frame[i], withLon[i]);
      LatStepKeeps(withLon[i], withLat[i]);
      ConvertedRowDecides(frame[i], withLon[i], typeIndex);
    }
  }

  /** After both coordinate steps, the type step succeeds exactly when every
      type name is known. */
  lemma TypeStepDecides(frame: Frame, typeIndex: map<Value, Value>, withLat: Frame)
    requires |withLat| == |frame|
    requires forall i :: 0 <= i < |frame| ==>
               && (ObstTypeSource in withLat[i] <==> ObstTypeSource in frame[i])
               && (ObstTypeSource in frame[i] ==> withLat[i][ObstTypeSource] == frame[i][ObstTypeSource])
               && (DatRowConverts(frame[i], typeIndex) <==>
                     ObstTypeSource in frame[i] && frame[i][ObstTypeSource] in typeIndex)
    ensures ResolveTypes(DropSources(withLat), ObstTypeSource, typeIndex).Ok? <==>
              |frame| > 0 && forall i :: 0 <= i < |frame| ==> DatRowConverts(frame[i], typeIndex)
  {
    var dropped := DropSources(withLat);
    forall i | 0 <= i < |frame|
      ensures ObstTypeSource in dropped[i] <==> ObstTypeSource in frame[i]
      ensures ObstTypeSource in frame[i] ==> dropped[i][ObstTypeSource] == frame[i][ObstTypeSource]
    {
      DatColumnsDistinct();
    }
  }

  /** A row whose coordinates convert converts exactly when its type name is
      known. */
  lemma ConvertedRowDecides(row: Row, withLon: Row, typeIndex: map<Value, Value>)
    requires ConvertDatCoordinate(row, LonSource, Lon, 180) == Ok(withLon)
    requires ConvertDatCoordinate(withLon, LatSource, Lat, 90).Ok?
    ensures DatRowConverts(row, typeIndex) <==> ObstTypeSource in row && row[ObstTypeSource] in typeIndex
  {
    LonStepKeeps(row, withLon);
  }

  /** The longitude step leaves the latitude and type cells alone. */
  lemma LonStepKeeps(row: Row, withLon: Row)
    requires ConvertDatCoordinate(row, LonSource, Lon, 180) == Ok(withLon)
    ensures ConvertDatCoordinate(withLon, LatSource, Lat, 90).Ok? <==> ConvertDatCoordinate(row, LatSource, Lat, 90).Ok?
    ensures ObstTypeSource in withLon <==> ObstTypeSource in row
    ensures ObstTypeSource in row ==> withLon[ObstTypeSource] == row[ObstTypeSource]
  {
    DatColumnsDistinct();
  }

  /** The latitude step leaves the type cell alone. */
  lemma LatStepKeeps(withLon: Row, withLat: Row)
    requires ConvertDatCoordinate(withLon, LatSource, Lat, 90) == Ok(withLat)
    ensures ObstTypeSource in withLat <==> ObstTypeSource in withLon
    ensures ObstTypeSource in withLon ==> withLat[ObstTypeSource] == withLon[ObstTypeSource]
  {
    DatColumnsDistinct();
  }

  /** What the DAT steps make of each row when they succeed. */
  lemma DatStepsRows(frame: Frame, typeIndex: map<Value, Value>)
    requires DatSteps(frame, typeIndex).Ok?
    ensures |DatSteps(frame, typeIndex).value| == |frame|
    ensures forall i :: 0 <= i < |frame| ==> DatRowLoaded(frame[i], DatSteps(frame, typeIndex).value[i], typeIndex)
  {
    var withLon := ConvertDatColumn(frame, LonSource, Lon, 180).value;
    var withLat := ConvertDatColumn(withLon, LatSource, Lat, 90).value;
    var typed := DatSteps(frame, typeIndex).value;
    forall i | 0 <= i < |frame|
      ensures DatRowLoaded(frame[i], typed[i], typeIndex)
    {
      var lon, lat := CoordinateSteps(frame[i], withLon[i], withLat[i]);
      TypeStep(withLat[i], typed[i], typeIndex);
      DatRowAssembled(frame[i], lon, lat, withLat[i], typed[i], typeIndex);
      assert DatRowShape(frame[i], lon, lat, typed[i], typeIndex);
    }
  }

  /** The columns of a loaded DAT row, given its converted coordinates. */
  predicate DatRowShape(row: Row, lon: real, lat: real, out: Row, typeIndex: map<Value, Value>) {
    && ObstTypeSource in row && row[ObstTypeSource] in typeIndex
    && Lon in out && out[Lon] == Num(lon) && Lat in out && out[Lat] == Num(lat)
    && TypeId in out && out[TypeId] == typeIndex[row[ObstTypeSource]]
    && LonSource !in out && LatSource !in out && ObstTypeSource !in out
  }

  /** Converting, dropping and looking up the type shape a row as loaded. */
  lemma DatRowAssembled(row: Row, lon: real, lat: real, withLat: Row, typed: Row, typeIndex: map<Value, Value>)
    requires withLat == row[Lon := Num(lon)][Lat := Num(lat)]
    requires ObstTypeSource in withLat && withLat[ObstTypeSource] in typeIndex
    requires typed == (withLat - {LonSource, LatSource})[TypeId := typeIndex[withLat[ObstTypeSource]]]
                      - {ObstTypeSource}
    ensures DatRowShape(row, lon, lat, typed, typeIndex)
  {
    DatColumnsDistinct();
  }

  /** The DAT column names are pairwise distinct. */
  lemma DatColumnsDistinct()
    ensures Lon != Lat && Lon != LonSource && Lon != LatSource && Lon != ObstTypeSource && Lon != TypeId
    ensures Lat != LonSource && Lat != LatSource && Lat != ObstTypeSource && Lat != TypeId
    ensures LonSource != LatSource && LonSource != ObstTypeSource && LonSource != TypeId
    ensures LatSource != ObstTypeSource && LatSource != TypeId && ObstTypeSource != TypeId
  {
  }

  /** Both coordinate conversions of one row. */
  lemma CoordinateSteps(row: Row, withLon: Row, withLat: Row) returns (lon: real, lat: real)
    requires ConvertDatCoordinate(row, LonSource, Lon, 180) == Ok(withLon)
    requires ConvertDatCoordinate(withLon, LatSource, Lat, 90) == Ok(withLat)
    ensures LonSource in row && row[LonSource].Text? && |row[LonSource].s| >= 1
    ensures LatSource in row && row[LatSource].Text? && |row[LatSource].s| >= 1
    ensures DmsToDd(row[LonSource].s, 180) == Ok(lon) && DmsToDd(row[LatSource].s, 90) == Ok(lat)
    ensures withLat == row[Lon := Num(lon)][Lat := Num(lat)]
  {
    lon := DmsToDd(row[LonSource].s, 180).value;
    assert withLon == row[Lon := Num(lon)];
    assert withLon[LatSource] == row[LatSource];
    lat := DmsToDd(withLon[LatSource].s, 90).value;
  }

  /** The type step of one DAT row. */
  lemma TypeStep(withLat: Row, typed: Row, typeIndex: map<Value, Value>)
    requires ResolveTypeRow(withLat - {LonSource, LatSource}, ObstTypeSource, typeIndex) == Ok(typed)
    ensures ObstTypeSource in withLat && withLat[ObstTypeSource] in typeIndex
    ensures typed == (withLat - {LonSource, LatSource})[TypeId := typeIndex[withLat[ObstTypeSource]]]
                     - {ObstTypeSource}
  {
  }

  /** Every loaded DAT row carries a longitude within 180 degrees and a
      latitude within 90 degrees of zero. */
  lemma LoadDatInRange(frame: Frame, typeIndex: map<Value, Value>, i: int)
    requires LoadDat(frame, typeIndex).Ok? && 0 <= i < |frame|
    ensures var out := LoadDat(frame, typeIndex).value[i];
            && Lon in out && out[Lon].Num? && -180.0 <= out[Lon].r <= 180.0
            && Lat in out && out[Lat].Num? && -90.0 <= out[Lat].r <= 90.0
  {
    var out := LoadDat(frame, typeIndex).value[i];
    assert DatRowLoaded(frame[i], out, typeIndex);
  }

  /** `drop(columns=["lon_src", "lat_src"])` on every row. */
  function DropSources(frame: Frame): (r: Frame)
    ensures |r| == |frame|
    ensures forall i :: 0 <= i < |frame| ==> r[i] == frame[i] - {LonSource, LatSource}
    ensures forall i :: 0 <= i < |frame| ==> LonSource !in r[i] && LatSource !in r[i]
    ensures forall i, c :: 0 <= i < |frame| && c in frame[i] && c != LonSource && c != LatSource ==>
              c in r[i] && r[i][c] == frame[i][c]
    ensures forall i :: 0 <= i < |frame| ==> r[i].Keys <= frame[i].Keys
  {
    seq(|frame|, i requires 0 <= i < |frame| => frame[i] - {LonSource, LatSource})
  }
}

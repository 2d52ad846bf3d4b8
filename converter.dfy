/**
 * `convert_excel_files` without its dialogs and file I/O: every sheet of
 * every chosen workbook goes through column selection, the split-key
 * adjustment, row splitting, date conversion, completion to the template
 * columns and conversion to text, and is saved under its output name;
 * a sheet lacking a mapped column is skipped.
 */
module Conversion {
  import opened Wrappers
  import opened Dicts
  import opened Tables
  import opened MappingSpec
  import opened ColumnSelector
  import opened SplitKeys
  import opened RowSplitter
  import opened DateNormalizer
  import opened WorkingTables
  import opened OutputNames

  /** A loaded `column_mapping`: a dictionary whose two nested dictionaries are dictionaries too. */
  predicate WellFormed(cm: ColumnMapping)
  {
    Valid(cm) && Valid(SplitInfoOf(cm)) && Valid(DateInfoOf(cm))
  }

  /** What becomes of one sheet. */
  datatype SheetOutcome =
    | Skipped(missing: seq<string>)                 // mapped source columns the sheet lacks
    | Converted(table: Table, warned: seq<string>)  // the frame saved, and the `split_info` keys reported

  /** The frame a sheet that has every mapped column ends up as. */
  function Output<D>(cm: ColumnMapping, template: seq<string>, mapped: Table,
                     parse: (string, string) -> Option<D>, format: (D, string) -> string): (t: Table)
    requires Rectangular(mapped)
  {
    var split := RowSplitter.SplitTable(mapped, Adjust(TemplateToFile(cm), SplitInfoOf(cm)).adjusted);
    var dated := DateColumns(split.columns, split.rows, DateInfoOf(cm), parse, format);
    Table(template, RenderedUpTo(Completed(split.columns, dated, template), |template|))
  }

  /**
   * One sheet, from the frame `pd.read_excel(..., dtype=str)` gives to the
   * frame saved: skipped when a mapped source column is missing; otherwise
   * exactly the template columns, at least as many rows as the sheet.
   */
  function Convert<D>(cm: ColumnMapping, template: seq<string>, t: Table,
                      parse: (string, string) -> Option<D>, format: (D, string) -> string): (o: SheetOutcome)
    requires Valid(cm) && Rectangular(t)
    ensures var tf := TemplateToFile(cm);
            o.Skipped? <==> exists j :: 0 <= j < |tf| && tf[j].1 !in t.columns
    ensures o.Skipped? ==> o.missing == MissingColumns(Values(TemplateToFile(cm)), t.columns)
    ensures o.Converted? ==> o.table.columns == template && Rectangular(o.table) && |o.table.rows| >= |t.rows|
    ensures o.Converted? ==>
              forall f :: f in o.warned <==> (f in Keys(SplitInfoOf(cm)) && Resolve(TemplateToFile(cm), f).Unmapped?)
  {
    var tf := TemplateToFile(cm);
    match Select(t, tf)
    case Failure(missing) => Skipped(missing)
    case Success(mapped) =>
      AdjustWarnings(tf, SplitInfoOf(cm));
      Converted(Output(cm, template, mapped, parse, format), Adjust(tf, SplitInfoOf(cm)).warned)
  }

  /** The body of the `for sheet_name in sheet_names` loop, on one sheet already read. */
  method ConvertSheet<D>(cm: ColumnMapping, template: seq<string>, t: Table,
                         parse: (string, string) -> Option<D>, format: (D, string) -> string)
      returns (o: SheetOutcome)
    requires Valid(cm) && Rectangular(t)
    ensures o == Convert(cm, template, t, parse, format)
  {
    var splitInfo := SplitInfoOf(cm);
    var dateInfo := DateInfoOf(cm);
    var tf := TemplateToFile(cm);
    var selected := Select(t, tf);
    if selected.Failure? {
      return Skipped(selected.error);
    }
    var mapped := selected.value;
    var adjusted, warned := AdjustSplitInfo(tf, splitInfo);
    var rows := mapped.rows;
    if adjusted != [] {
      AdjustedEntries(tf, splitInfo);
      rows := SplitRows(mapped.columns, mapped.rows, adjusted);
    }
    var frame := new WorkingTable(Table(mapped.columns, rows));
    frame.ConvertDates(dateInfo, parse, format);
    frame.Complete(template);
    frame.Stringify();
    o := Converted(frame.Snapshot(), warned);
  }

  /** Every saved cell is text, and never the text `nan`. */
  lemma ConvertedText<D>(cm: ColumnMapping, template: seq<string>, t: Table,
                         parse: (string, string) -> Option<D>, format: (D, string) -> string)
    requires Valid(cm) && Rectangular(t)
    requires Convert(cm, template, t, parse, format).Converted?
    ensures var out := Convert(cm, template, t, parse, format).table;
            forall i, k :: 0 <= i < |out.rows| && 0 <= k < |template| ==>
              out.rows[i][k].Text? && out.rows[i][k].s != "nan"
  {
    var out := Convert(cm, template, t, parse, format).table;
    forall i, k | 0 <= i < |out.rows| && 0 <= k < |template|
      ensures out.rows[i][k].Text? && out.rows[i][k].s != "nan"
    {
      var mapped := Select(t, TemplateToFile(cm)).value;
      var split := RowSplitter.SplitTable(mapped, Adjust(TemplateToFile(cm), SplitInfoOf(cm)).adjusted);
      var dated := DateColumns(split.columns, split.rows, DateInfoOf(cm), parse, format);
      var done := Completed(split.columns, dated, template);
      assert out.rows[i][k] == Text(Render(done[i][k]));
      RenderFacts(done[i][k]);
    }
  }

  /**
   * A template column the mapping does not fill is `''` in every saved
   * row: it was added as an empty column.
   */
  lemma UnmappedColumnsBlank<D>(cm: ColumnMapping, template: seq<string>, t: Table,
                                parse: (string, string) -> Option<D>, format: (D, string) -> string, k: nat)
    requires Valid(cm) && Rectangular(t)
    requires Convert(cm, template, t, parse, format).Converted?
    requires k < |template| && template[k] !in Keys(TemplateToFile(cm))
    ensures var out := Convert(cm, template, t, parse, format).table;
            forall i :: 0 <= i < |out.rows| ==> out.rows[i][k] == Text("")
  {
    var out := Convert(cm, template, t, parse, format).table;
    var mapped := Select(t, TemplateToFile(cm)).value;
    var split := RowSplitter.SplitTable(mapped, Adjust(TemplateToFile(cm), SplitInfoOf(cm)).adjusted);
    var dated := DateColumns(split.columns, split.rows, DateInfoOf(cm), parse, format);
    var done := Completed(split.columns, dated, template);
    forall i | 0 <= i < |out.rows| ensures out.rows[i][k] == Text("") {
      assert done[i][k] == Text("");
      assert out.rows[i][k] == Text(Render(done[i][k]));
    }
  }

  /**
   * Without row splitting, row `i` of the saved frame comes from row `i`
   * of the sheet, and a mapped template column holds the text of the
   * source column it is mapped to, run through the date conversion
   * configured for that template column (if any).
   */
  lemma MappedColumnsCopied<D>(cm: ColumnMapping, template: seq<string>, t: Table,
                               parse: (string, string) -> Option<D>, format: (D, string) -> string,
                               i: nat, k: nat)
    requires WellFormed(cm) && Rectangular(t)
    requires Convert(cm, template, t, parse, format).Converted?
    requires Adjust(TemplateToFile(cm), SplitInfoOf(cm)).adjusted == []
    requires i < |t.rows| && k < |template| && template[k] in Keys(TemplateToFile(cm))
    ensures var tf, out := TemplateToFile(cm), Convert(cm, template, t, parse, format).table;
            var source := Get(tf, template[k]).value;
            |out.rows| == |t.rows| && source in t.columns &&
            out.rows[i][k] ==
              Text(Render(DateCell(template[k], t.rows[i][IndexOf(t.columns, source)], DateInfoOf(cm), parse, format)))
  {
    var tf := TemplateToFile(cm);
    var mapped := Select(t, tf).value;
    var j := IndexOf(Keys(tf), template[k]);
    assert Keys(tf)[j] == tf[j].0;
    KeyPosition(tf, j);
    assert Get(tf, template[k]) == Some(tf[j].1);
    var source := tf[j].1;
    assert ColumnNamed(mapped, tf[j].0) == ColumnNamed(t, source);
    assert ColumnNamed(mapped, tf[j].0)[i] == mapped.rows[i][j];
    var cell := t.rows[i][IndexOf(t.columns, source)];
    assert mapped.rows[i][j] == cell;
    DateColumnsCell(mapped.columns, mapped.rows, DateInfoOf(cm), parse, format, i, j);
    var dated := DateColumns(mapped.columns, mapped.rows, DateInfoOf(cm), parse, format);
    var done := Completed(mapped.columns, dated, template);
    assert done[i][k] == dated[i][j];
  }

  /**
   * With row splitting, the saved frame has exactly the rows the split
   * produces: each sheet row contributes the widest piece list among its
   * split columns (at least one row).
   */
  lemma ConvertedRowCount<D>(cm: ColumnMapping, template: seq<string>, t: Table,
                             parse: (string, string) -> Option<D>, format: (D, string) -> string)
    requires Valid(cm) && Rectangular(t)
    requires Convert(cm, template, t, parse, format).Converted?
    ensures var tf := TemplateToFile(cm);
            var adjusted := Adjust(tf, SplitInfoOf(cm)).adjusted;
            var mapped := Select(t, tf).value;
            |Convert(cm, template, t, parse, format).table.rows| ==
              if adjusted == [] then |t.rows| else TotalRows(mapped.columns, mapped.rows, adjusted)
  {
    var tf := TemplateToFile(cm);
    var adjusted := Adjust(tf, SplitInfoOf(cm)).adjusted;
    var mapped := Select(t, tf).value;
    if adjusted != [] {
      ExpandAllCount(mapped.columns, mapped.rows, adjusted);
    }
  }

  /** One sheet of a workbook: its name and its cells as read with `dtype=str`. */
  datatype Sheet = Sheet(name: string, table: Table)

  /** A file written to the save directory: its name and the frame saved in it. */
  datatype Written = Written(fileName: string, table: Table)

  /** Every sheet has one cell per column in every row. */
  predicate AllRectangular(sheets: seq<Sheet>)
  {
    forall k :: 0 <= k < |sheets| ==> Rectangular(sheets[k].table)
  }

  /** What becomes of each sheet, in sheet order. */
  function Outcomes<D>(cm: ColumnMapping, template: seq<string>, sheets: seq<Sheet>,
                       parse: (string, string) -> Option<D>, format: (D, string) -> string): (os: seq<SheetOutcome>)
    requires Valid(cm) && AllRectangular(sheets)
    ensures |os| == |sheets|
  {
    seq(|sheets|, k requires 0 <= k < |sheets| => Convert(cm, template, sheets[k].table, parse, format))
  }

  /**
   * The files written for the sheets of a workbook with `sheetCount`
   * sheets, given what became of each: one per converted sheet, in sheet
   * order, named after the workbook and the sheet.
   */
  function Files(path: string, sheets: seq<Sheet>, outcomes: seq<SheetOutcome>, sheetCount: nat): (w: seq<Written>)
    requires |outcomes| == |sheets|
    ensures |w| <= |sheets|
  {
    if sheets == [] then []
    else
      var n := |sheets| - 1;
      var rest := Files(path, sheets[..n], outcomes[..n], sheetCount);
      if outcomes[n].Converted? then rest + [Written(OutputName(path, sheets[n].name, sheetCount), outcomes[n].table)]
      else rest
  }

  /** One more sheet adds its file when it was converted, and nothing otherwise. */
  lemma FilesStep(path: string, sheets: seq<Sheet>, outcomes: seq<SheetOutcome>, sheetCount: nat, k: nat)
    requires |outcomes| == |sheets| && k < |sheets|
    ensures Files(path, sheets[..k + 1], outcomes[..k + 1], sheetCount) ==
            Files(path, sheets[..k], outcomes[..k], sheetCount) +
            if outcomes[k].Converted? then [Written(OutputName(path, sheets[k].name, sheetCount), outcomes[k].table)]
            else []
  {
    assert sheets[..k + 1][..k] == sheets[..k] && outcomes[..k + 1][..k] == outcomes[..k];
  }

  /** How many of the outcomes are converted sheets. */
  function ConvertedSheets(outcomes: seq<SheetOutcome>): nat
  {
    if outcomes == [] then 0
    else
      var n := |outcomes| - 1;
      ConvertedSheets(outcomes[..n]) + if outcomes[n].Converted? then 1 else 0
  }

  /** One file per converted sheet, and none for a skipped one. */
  lemma {:induction false} FilesCount(path: string, sheets: seq<Sheet>, outcomes: seq<SheetOutcome>, sheetCount: nat)
    requires |outcomes| == |sheets|
    ensures |Files(path, sheets, outcomes, sheetCount)| == ConvertedSheets(outcomes)
  {
    if sheets != [] {
      var n := |sheets| - 1;
      FilesCount(path, sheets[..n], outcomes[..n], sheetCount);
    }
  }

  /**
   * Every converted sheet is written, under its output name, at the
   * position given by the number of converted sheets before it: a skipped
   * sheet does not stop the later ones, and the files follow sheet order.
   */
  lemma {:induction false} FilesAt(path: string, sheets: seq<Sheet>, outcomes: seq<SheetOutcome>, sheetCount: nat,
                                   k: nat)
    requires |outcomes| == |sheets| && k < |sheets| && outcomes[k].Converted?
    ensures ConvertedSheets(outcomes[..k]) < |Files(path, sheets, outcomes, sheetCount)|
    ensures Files(path, sheets, outcomes, sheetCount)[ConvertedSheets(outcomes[..k])] ==
            Written(OutputName(path, sheets[k].name, sheetCount), outcomes[k].table)
  {
    var n := |sheets| - 1;
    var rest := Files(path, sheets[..n], outcomes[..n], sheetCount);
    var w := Files(path, sheets, outcomes, sheetCount);
    assert w[..|rest|] == rest;
    if k == n {
      FilesCount(path, sheets[..n], outcomes[..n], sheetCount);
      assert w == rest + [Written(OutputName(path, sheets[n].name, sheetCount), outcomes[n].table)];
    } else {
      FilesAt(path, sheets[..n], outcomes[..n], sheetCount, k);
      assert outcomes[..n][..k] == outcomes[..k] && sheets[..n][k] == sheets[k] && outcomes[..n][k] == outcomes[k];
      assert w[ConvertedSheets(outcomes[..k])] == rest[ConvertedSheets(outcomes[..k])];
    }
  }

  /** A converted sheet's file comes before the file of every later converted sheet. */
  lemma {:induction false} ConvertedSheetsOrder(outcomes: seq<SheetOutcome>, k: nat, k2: nat)
    requires k < k2 <= |outcomes| && outcomes[k].Converted?
    ensures ConvertedSheets(outcomes[..k]) < ConvertedSheets(outcomes[..k2])
    decreases k2
  {
    var prefix := outcomes[..k2];
    assert prefix[..k2 - 1] == outcomes[..k2 - 1] && prefix[k2 - 1] == outcomes[k2 - 1];
    if k2 > k + 1 {
      ConvertedSheetsOrder(outcomes, k, k2 - 1);
    }
  }

  /** Nothing else is written: every file is the output of one converted sheet. */
  lemma {:induction false} FilesFrom(path: string, sheets: seq<Sheet>, outcomes: seq<SheetOutcome>, sheetCount: nat,
                                     a: nat)
    requires |outcomes| == |sheets| && a < |Files(path, sheets, outcomes, sheetCount)|
    ensures exists k :: 0 <= k < |sheets| && outcomes[k].Converted? &&
              Files(path, sheets, outcomes, sheetCount)[a] ==
                Written(OutputName(path, sheets[k].name, sheetCount), outcomes[k].table)
  {
    var n := |sheets| - 1;
    var rest := Files(path, sheets[..n], outcomes[..n], sheetCount);
    var w := Files(path, sheets, outcomes, sheetCount);
    if a < |rest| {
      FilesFrom(path, sheets[..n], outcomes[..n], sheetCount, a);
      var k :| 0 <= k < n && outcomes[..n][k].Converted? &&
               rest[a] == Written(OutputName(path, sheets[..n][k].name, sheetCount), outcomes[..n][k].table);
      assert w[a] == rest[a];
      assert sheets[..n][k] == sheets[k] && outcomes[..n][k] == outcomes[k];
    } else {
      assert outcomes[n].Converted? && w[a] == Written(OutputName(path, sheets[n].name, sheetCount), outcomes[n].table);
    }
  }

  /** The files written for one workbook. */
  function WorkbookFiles<D>(cm: ColumnMapping, template: seq<string>, path: string, sheets: seq<Sheet>,
                            parse: (string, string) -> Option<D>, format: (D, string) -> string): seq<Written>
    requires Valid(cm) && AllRectangular(sheets)
  {
    Files(path, sheets, Outcomes(cm, template, sheets, parse, format), |sheets|)
  }

  /** The loop body for sheet `k`: convert it, and add its file when it was converted. */
  method ConvertSheetAt<D>(cm: ColumnMapping, template: seq<string>, path: string, sheets: seq<Sheet>, k: nat,
                           parse: (string, string) -> Option<D>, format: (D, string) -> string,
                           ghost outcomes: seq<SheetOutcome>, written: seq<Written>)
      returns (written': seq<Written>)
    requires Valid(cm) && AllRectangular(sheets) && k < |sheets|
    requires outcomes == Outcomes(cm, template, sheets, parse, format)
    requires written == Files(path, sheets[..k], outcomes[..k], |sheets|)
    ensures written' == Files(path, sheets[..k + 1], outcomes[..k + 1], |sheets|)
  {
    FilesStep(path, sheets, outcomes, |sheets|, k);
    var o := ConvertSheet(cm, template, sheets[k].table, parse, format);
    written' := written;
    if o.Converted? {
      written' := written + [Written(OutputName(path, sheets[k].name, |sheets|), o.table)];
    }
  }

  /** The `for sheet_name in sheet_names` loop over one workbook. */
  method ConvertWorkbook<D>(cm: ColumnMapping, template: seq<string>, path: string, sheets: seq<Sheet>,
                            parse: (string, string) -> Option<D>, format: (D, string) -> string)
      returns (written: seq<Written>)
    requires Valid(cm) && AllRectangular(sheets)
    ensures written == WorkbookFiles(cm, template, path, sheets, parse, format)
  {
    ghost var outcomes := Outcomes(cm, template, sheets, parse, format);
    written := [];
    for k := 0 to |sheets|
      invariant written == Files(path, sheets[..k], outcomes[..k], |sheets|)
    {
      written := ConvertSheetAt(cm, template, path, sheets, k, parse, format, outcomes, written);
    }
    assert sheets[..|sheets|] == sheets && outcomes[..|sheets|] == outcomes;
  }

  /** The name each sheet of a workbook with `sheetCount` sheets would be saved under, in sheet order. */
  function FileNames(path: string, sheets: seq<Sheet>, sheetCount: nat): (names: seq<string>)
    ensures |names| == |sheets|
  {
    seq(|sheets|, j requires 0 <= j < |sheets| => OutputName(path, sheets[j].name, sheetCount))
  }

  /** Every file of `w` carries the name of one of the sheets. */
  predicate NamedAfter(w: seq<Written>, path: string, sheets: seq<Sheet>, sheetCount: nat)
  {
    forall a :: 0 <= a < |w| ==> w[a].fileName in FileNames(path, sheets, sheetCount)
  }

  /** No two files of `w` have the same name. */
  predicate DistinctNames(w: seq<Written>)
  {
    forall a, b :: 0 <= a < b < |w| ==> w[a].fileName != w[b].fileName
  }

  /** Every file written for a workbook is named after one of its sheets. */
  lemma {:induction false} FilesNamedAfterSheets(path: string, sheets: seq<Sheet>, outcomes: seq<SheetOutcome>,
                                                 sheetCount: nat)
    requires |outcomes| == |sheets|
    ensures NamedAfter(Files(path, sheets, outcomes, sheetCount), path, sheets, sheetCount)
  {
    if sheets != [] {
      var n := |sheets| - 1;
      var front := sheets[..n];
      FilesNamedAfterSheets(path, front, outcomes[..n], sheetCount);
      var names := FileNames(path, sheets, sheetCount);
      assert FileNames(path, front, sheetCount) == names[..n];
      var rest := Files(path, front, outcomes[..n], sheetCount);
      var w := Files(path, sheets, outcomes, sheetCount);
      forall a | 0 <= a < |rest| ensures w[a].fileName in names {
        var j := IndexOf(names[..n], rest[a].fileName);
        assert w[a] == rest[a] && names[j] == rest[a].fileName;
      }
      if outcomes[n].Converted? {
        assert w == rest + [Written(names[n], outcomes[n].table)];
      }
    }
  }

  /**
   * The sheets of one workbook are saved under pairwise different names
   * when the workbook's sheet names are pairwise different.
   */
  lemma {:induction false} FilesDistinct(path: string, sheets: seq<Sheet>, outcomes: seq<SheetOutcome>,
                                         sheetCount: nat)
    requires |outcomes| == |sheets| && sheetCount > 1
    requires forall a, b :: 0 <= a < b < |sheets| ==> sheets[a].name != sheets[b].name
    ensures DistinctNames(Files(path, sheets, outcomes, sheetCount))
  {
    if sheets != [] {
      var n := |sheets| - 1;
      var front := sheets[..n];
      FilesDistinct(path, front, outcomes[..n], sheetCount);
      FilesNamedAfterSheets(path, front, outcomes[..n], sheetCount);
      var rest := Files(path, front, outcomes[..n], sheetCount);
      var names := FileNames(path, front, sheetCount);
      if outcomes[n].Converted? {
        var name := OutputName(path, sheets[n].name, sheetCount);
        forall a | 0 <= a < |rest| ensures rest[a].fileName != name {
          assert rest[a].fileName in names;
          var j := IndexOf(names, rest[a].fileName);
          OutputNamesCollide(path, sheets[j].name, sheets[n].name, sheetCount);
        }
        var w := Files(path, sheets, outcomes, sheetCount);
        assert w == rest + [Written(name, outcomes[n].table)];
        forall a, b | 0 <= a < b < |w| ensures w[a].fileName != w[b].fileName {
          if b < |rest| {
            assert w[a] == rest[a] && w[b] == rest[b];
          } else {
            assert b == |rest| && w[a] == rest[a];
            assert w[b].fileName == name;
          }
        }
      }
    }
  }

  /**
   * No two sheets of a workbook overwrite each other's output file: with
   * several sheets of different names, the written files have different
   * names.
   */
  lemma WorkbookNamesDistinct<D>(cm: ColumnMapping, template: seq<string>, path: string, sheets: seq<Sheet>,
                                 parse: (string, string) -> Option<D>, format: (D, string) -> string)
    requires Valid(cm) && AllRectangular(sheets)
    requires forall a, b :: 0 <= a < b < |sheets| ==> sheets[a].name != sheets[b].name
    ensures DistinctNames(WorkbookFiles(cm, template, path, sheets, parse, format))
  {
    if |sheets| > 1 {
      FilesDistinct(path, sheets, Outcomes(cm, template, sheets, parse, format), |sheets|);
    }
  }

  /** The files written for a list of workbooks, each given by its path and its sheets. */
  function AllFiles<D>(cm: ColumnMapping, template: seq<string>, books: seq<(string, seq<Sheet>)>,
                       parse: (string, string) -> Option<D>, format: (D, string) -> string): (w: seq<Written>)
    requires Valid(cm) && forall b :: 0 <= b < |books| ==> AllRectangular(books[b].1)
  {
    if books == [] then []
    else
      var n := |books| - 1;
      AllFiles(cm, template, books[..n], parse, format) +
      WorkbookFiles(cm, template, books[n].0, books[n].1, parse, format)
  }

  /** The `for file_path in file_paths` loop. */
  method ConvertFiles<D>(cm: ColumnMapping, template: seq<string>, books: seq<(string, seq<Sheet>)>,
                         parse: (string, string) -> Option<D>, format: (D, string) -> string)
      returns (written: seq<Written>)
    requires Valid(cm) && forall b :: 0 <= b < |books| ==> AllRectangular(books[b].1)
    ensures written == AllFiles(cm, template, books, parse, format)
  {
    written := [];
    for b := 0 to |books|
      invariant written == AllFiles(cm, template, books[..b], parse, format)
    {
      assert books[..b + 1][..b] == books[..b];
      var files := ConvertWorkbook(cm, template, books[b].0, books[b].1, parse, format);
      written := written + files;
    }
    assert books[..|books|] == books;
  }
}

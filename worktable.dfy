/**
 * The last three stages work on `mapped_df` in place, one column at a
 * time: date columns are reassigned, missing template columns are added
 * as all-`''` columns before the frame is reordered to the template, and
 * every column is turned into text with `'nan'` blanked.
 */
module WorkingTables {
  import opened Wrappers
  import opened Dicts
  import opened Tables
  import opened MappingSpec
  import opened DateNormalizer

  /** Column `j` of every row run through `convert_date` with the given patterns. */
  function ConvertColumn<D>(rows: seq<Row>, j: nat, inFmt: string, outFmt: string,
                            parse: (string, string) -> Option<D>, format: (D, string) -> string): (r: seq<Row>)
    requires forall k :: 0 <= k < |rows| ==> j < |rows[k]|
    ensures |r| == |rows| && forall k :: 0 <= k < |rows| ==> |r[k]| == |rows[k]|
  {
    seq(|rows|, k requires 0 <= k < |rows| =>
      rows[k][j := Text(ConvertDate(rows[k][j], inFmt, outFmt, parse, format))])
  }

  /**
   * The date stage over the entries of `date_format_info`: an entry
   * converts its column when the column is present and both converted
   * patterns are non-empty.
   */
  function DateColumns<D>(cols: seq<string>, rows: seq<Row>, info: Dict<string, DatePair>,
                          parse: (string, string) -> Option<D>, format: (D, string) -> string): (r: seq<Row>)
    requires Fits(cols, rows)
    ensures Fits(cols, r) && |r| == |rows|
  {
    if info == [] then rows
    else
      var n := |info| - 1;
      var rest := DateColumns(cols, rows, info[..n], parse, format);
      var c, p := info[n].0, info[n].1;
      if c in cols && DatePattern(p.input) != "" && DatePattern(p.output) != "" then
        ConvertColumn(rest, IndexOf(cols, c), DatePattern(p.input), DatePattern(p.output), parse, format)
      else rest
  }

  /** The date conversion applied to one cell of column `c`, as `date_format_info` says. */
  function DateCell<D>(c: string, cell: Cell, info: Dict<string, DatePair>,
                       parse: (string, string) -> Option<D>, format: (D, string) -> string): Cell
  {
    match Get(info, c)
    case Some(p) =>
      if p.input != "" && p.output != "" then
        Text(ConvertDate(cell, DatePattern(p.input), DatePattern(p.output), parse, format))
      else cell
    case None => cell
  }

  /**
   * Cell by cell, the date stage converts exactly the columns that have
   * an entry with both patterns given, once, and leaves every other cell
   * alone.
   */
  lemma {:induction false} DateColumnsCell<D>(cols: seq<string>, rows: seq<Row>, info: Dict<string, DatePair>,
                                              parse: (string, string) -> Option<D>, format: (D, string) -> string,
                                              r: nat, k: nat)
    requires Fits(cols, rows) && Distinct(cols) && Valid(info)
    requires r < |rows| && k < |cols|
    ensures DateColumns(cols, rows, info, parse, format)[r][k] == DateCell(cols[k], rows[r][k], info, parse, format)
  {
    if info != [] {
      var n := |info| - 1;
      LastKeyFresh(info);
      ValidPrefix(info, n);
      DateColumnsCell(cols, rows, info[..n], parse, format, r, k);
      var c, p := info[n].0, info[n].1;
      assert info == info[..n] + [info[n]];
      GetAppend(info[..n], c, p, cols[k]);
      DatePatternEmpty(p.input);
      DatePatternEmpty(p.output);
      if c in cols {
        var j := IndexOf(cols, c);
        if j == k {
          assert cols[k] == c;
        } else {
          assert cols[k] != c;
        }
      } else {
        assert cols[k] != c;
      }
    }
  }

  /** The columns `mapped_df[col] = ''` adds, in template order, each once. */
  function Extra(cols: seq<string>, template: seq<string>): (e: seq<string>)
    ensures forall t :: t in template ==> t in cols + e
    ensures forall x :: x in e ==> x !in cols && x in template
  {
    if template == [] then []
    else
      var n := |template| - 1;
      var e := Extra(cols, template[..n]);
      assert forall t :: t in template ==> t in template[..n] || t == template[n];
      if template[n] in cols + e then e else e + [template[n]]
  }

  /** `n` empty-text cells. */
  function Blanks(n: nat): (b: Row)
    ensures |b| == n && forall i :: 0 <= i < n ==> b[i] == Text("")
  {
    seq(n, _ => Text(""))
  }

  /**
   * The frame after completion: one column per template column, in
   * template order, holding the old column of that name (the first one)
   * or `''` in every row.
   */
  function Completed(cols: seq<string>, rows: seq<Row>, template: seq<string>): (r: seq<Row>)
    requires Fits(cols, rows)
    ensures |r| == |rows| && Fits(template, r)
  {
    seq(|rows|, i requires 0 <= i < |rows| =>
      seq(|template|, k requires 0 <= k < |template| =>
        if template[k] in cols then rows[i][IndexOf(cols, template[k])] else Text("")))
  }

  /** The first position of an element of the front part is unaffected by what follows. */
  lemma {:induction false} IndexOfAppend(a: seq<string>, b: seq<string>, x: string)
    requires x in a + b
    ensures x in a ==> IndexOf(a + b, x) == IndexOf(a, x)
    ensures x !in a ==> IndexOf(a + b, x) >= |a|
  {
    if x in a {
      var j := IndexOf(a, x);
      assert (a + b)[j] == x;
    } else {
      forall j | 0 <= j < |a| ensures (a + b)[j] != x {
        assert (a + b)[j] == a[j] && a[j] in a;
      }
    }
  }

  /** `mapped_df[template]`: the rows reordered to the template columns (first match of each name). */
  function Reorder(cols: seq<string>, rows: seq<Row>, template: seq<string>): (r: seq<Row>)
    requires Fits(cols, rows) && forall t :: t in template ==> t in cols
    ensures |r| == |rows| && Fits(template, r)
  {
    seq(|rows|, i requires 0 <= i < |rows| =>
      seq(|template|, k requires 0 <= k < |template| => rows[i][IndexOf(cols, template[k])]))
  }

  /**
   * Adding the missing columns as blanks and then reordering gives the
   * completed frame.
   */
  lemma CompletedByReorder(cols: seq<string>, rows: seq<Row>, template: seq<string>, padded: seq<Row>)
    requires Fits(cols, rows) && |padded| == |rows|
    requires forall i :: 0 <= i < |rows| ==> padded[i] == rows[i] + Blanks(|Extra(cols, template)|)
    ensures Fits(cols + Extra(cols, template), padded)
    ensures Reorder(cols + Extra(cols, template), padded, template) == Completed(cols, rows, template)
  {
    var all := cols + Extra(cols, template);
    var a := Reorder(all, padded, template);
    var b := Completed(cols, rows, template);
    forall i, k | 0 <= i < |rows| && 0 <= k < |template| ensures a[i][k] == b[i][k] {
      IndexOfAppend(cols, Extra(cols, template), template[k]);
    }
    forall i | 0 <= i < |rows| ensures a[i] == b[i] {
    }
  }

  /** `astype(str)` followed by `replace('nan', '')` on one cell. */
  function Render(c: Cell): string
  {
    match c
    case Null => ""
    case Text(s) => if s == "nan" then "" else s
  }

  /** Column `j` of every row turned into its rendered text. */
  function RenderColumn(rows: seq<Row>, j: nat): (r: seq<Row>)
    requires forall k :: 0 <= k < |rows| ==> j < |rows[k]|
    ensures |r| == |rows| && forall k :: 0 <= k < |rows| ==> |r[k]| == |rows[k]|
  {
    seq(|rows|, k requires 0 <= k < |rows| => rows[k][j := Text(Render(rows[k][j]))])
  }

  /** The rows with their first `j` columns rendered. */
  function RenderedUpTo(rows: seq<Row>, j: nat): (r: seq<Row>)
    ensures |r| == |rows| && forall k :: 0 <= k < |rows| ==> |r[k]| == |rows[k]|
  {
    seq(|rows|, i requires 0 <= i < |rows| =>
      seq(|rows[i]|, k requires 0 <= k < |rows[i]| =>
        if k < j then Text(Render(rows[i][k])) else rows[i][k]))
  }

  /** With no column rendered yet, the rows are as they were. */
  lemma RenderNothing(rows: seq<Row>)
    ensures RenderedUpTo(rows, 0) == rows
  {
    forall i | 0 <= i < |rows| ensures RenderedUpTo(rows, 0)[i] == rows[i] {
    }
  }

  /** Rendering one more column extends the rendered prefix by that column. */
  lemma RenderStep(rows: seq<Row>, j: nat)
    requires forall k :: 0 <= k < |rows| ==> j < |rows[k]|
    ensures RenderColumn(RenderedUpTo(rows, j), j) == RenderedUpTo(rows, j + 1)
  {
    var a, b := RenderColumn(RenderedUpTo(rows, j), j), RenderedUpTo(rows, j + 1);
    forall i | 0 <= i < |rows| ensures a[i] == b[i] {
    }
  }

  /** Rendering is text-only, blanks `'nan'`, and is idempotent. */
  lemma RenderFacts(c: Cell)
    ensures Render(Text(Render(c))) == Render(c)
    ensures Render(c) != "nan"
    ensures c.Text? && c.s != "nan" ==> Render(c) == c.s
  {
  }

  /**
   * `mapped_df` from the point where it holds the mapped and split
   * columns: a column list and rows of cells, updated in place.
   */
  class WorkingTable {
    var columns: seq<string>
    var rows: seq<Row>

    /** Every row has one cell per column. */
    predicate Valid()
      reads this
    {
      Fits(columns, rows)
    }

    constructor (t: Table)
      requires Rectangular(t)
      ensures columns == t.columns && rows == t.rows && Valid()
    {
      columns := t.columns;
      rows := t.rows;
    }

    /** The frame as a value. */
    function Snapshot(): (t: Table)
      reads this
      requires Valid()
      ensures Rectangular(t)
    {
      Table(columns, rows)
    }

    /**
     * `if date_format_info:` ... `mapped_df[col] = mapped_df[col].apply(convert_date)`
     * for each entry whose column is present and whose converted patterns
     * are both non-empty.
     */
    method ConvertDates<D>(info: Dict<string, DatePair>,
                           parse: (string, string) -> Option<D>, format: (D, string) -> string)
      requires Valid()
      modifies this
      ensures Valid() && columns == old(columns)
      ensures rows == DateColumns(old(columns), old(rows), info, parse, format)
    {
      if info == [] {
        return;
      }
      ghost var rows0 := rows;
      for k := 0 to |info|
        invariant Valid() && columns == old(columns)
        invariant rows == DateColumns(columns, rows0, info[..k], parse, format)
      {
        assert info[..k + 1][..k] == info[..k];
        var c, config := info[k].0, info[k].1;
        if c in columns {
          var inFmt := ConvertDateFormat(config.input);
          var outFmt := ConvertDateFormat(config.output);
          if inFmt != "" && outFmt != "" {
            rows := ConvertColumn(rows, IndexOf(columns, c), inFmt, outFmt, parse, format);
          }
        }
      }
      assert info[..|info|] == info;
    }

    /**
     * Adds every template column the frame lacks as an all-`''` column,
     * then reorders the frame to exactly the template columns.
     */
    method Complete(template: seq<string>)
      requires Valid()
      modifies this
      ensures Valid() && columns == template
      ensures rows == Completed(old(columns), old(rows), template)
    {
      ghost var cols0, rows0 := columns, rows;
      for k := 0 to |template|
        invariant columns == cols0 + Extra(cols0, template[..k])
        invariant |rows| == |rows0|
        invariant forall i :: 0 <= i < |rows| ==> rows[i] == rows0[i] + Blanks(|columns| - |cols0|)
        invariant Valid()
      {
        assert template[..k + 1][..k] == template[..k];
        var col := template[k];
        if col !in columns {
          columns := columns + [col];
          var rs := rows;
          rows := seq(|rs|, i requires 0 <= i < |rs| => rs[i] + [Text("")]);
          assert Blanks(|columns| - |cols0|) == Blanks(|columns| - |cols0| - 1) + [Text("")];
        }
      }
      assert template[..|template|] == template;
      CompletedByReorder(cols0, rows0, template, rows);
      rows := Reorder(columns, rows, template);
      columns := template;
    }

    /** `mapped_df[col] = mapped_df[col].astype(str)` then `.replace('nan', '')`, column by column. */
    method Stringify()
      requires Valid()
      modifies this
      ensures Valid() && columns == old(columns)
      ensures rows == RenderedUpTo(old(rows), |columns|)
    {
      ghost var rows0 := rows;
      RenderNothing(rows0);
      for j := 0 to |columns|
        invariant Valid() && columns == old(columns)
        invariant rows == RenderedUpTo(rows0, j)
      {
        RenderStep(rows0, j);
        rows := RenderColumn(rows, j);
      }
    }
  }
}

/**
 * The row splitter: every row is rewritten into as many rows as the
 * longest piece list among its split columns ("zip-longest" with `''` as
 * the fill). Non-split cells are copied into every output row; a row
 * with no split column present, or whose processing raises, is kept once
 * and unchanged.
 */
module RowSplitter {
  import opened Wrappers
  import opened Dicts
  import opened Tables
  import opened SplitPieces

  /** `split_values_dict`: the piece list of each split column, in collection order. */
  type Lists = Dict<string, seq<string>>

  /**
   * The first step for one row: the piece lists of the split columns the
   * row has, or `None` once a split raises.
   */
  function Collect(cols: seq<string>, row: Row, adjusted: Dict<string, string>): (r: Option<Lists>)
    requires |row| == |cols|
    ensures r.Some? ==> Valid(r.value)
    ensures r.Some? ==> forall e :: e in r.value ==> e.0 in cols && e.0 in Keys(adjusted)
  {
    if adjusted == [] then Some([])
    else
      var n := |adjusted| - 1;
      LastKeyFresh(adjusted);
      assert Keys(adjusted)[n] == adjusted[n].0;
      match Collect(cols, row, adjusted[..n])
      case None => None
      case Some(l) =>
        var c := adjusted[n].0;
        if c in cols then
          match Pieces(row[IndexOf(cols, c)], adjusted[n].1)
          case None => None
          case Some(ps) =>
            var r := Put(l, c, ps);
            assert forall e :: e in r ==> e in l || e == (c, ps);
            Some(r)
        else Some(l)
  }

  /** `max_length`: the longest piece list, and at least 1. */
  function Width(l: Lists): (w: nat)
    ensures w >= 1
    ensures forall k :: 0 <= k < |l| ==> |l[k].1| <= w
    ensures w == 1 || exists k :: 0 <= k < |l| && |l[k].1| == w
  {
    if l == [] then 1
    else
      var n := |l| - 1;
      var w := Width(l[..n]);
      if |l[n].1| > w then |l[n].1| else w
  }

  /** The value written into a split column of output row `i`: piece `i`, or `''` past the end. */
  function PieceAt(ps: seq<string>, i: nat): Cell
  {
    if i < |ps| then Text(ps[i]) else Text("")
  }

  /** `new_row = row.copy()` followed by the assignments of output row `i`, entry by entry. */
  function Assign(cols: seq<string>, row: Row, l: Lists, i: nat): (r: Row)
    requires |row| == |cols| && forall e :: e in l ==> e.0 in cols
    ensures |r| == |row|
  {
    if l == [] then row
    else
      var n := |l| - 1;
      assert forall e :: e in l[..n] ==> e in l;
      Assign(cols, row, l[..n], i)[IndexOf(cols, l[n].0) := PieceAt(l[n].1, i)]
  }

  /** The first `n` output rows of a rewritten row. */
  function Copies(cols: seq<string>, row: Row, l: Lists, n: nat): (out: seq<Row>)
    requires |row| == |cols| && forall e :: e in l ==> e.0 in cols
    ensures |out| == n && forall i :: 0 <= i < n ==> |out[i]| == |cols|
  {
    if n == 0 then [] else Copies(cols, row, l, n - 1) + [Assign(cols, row, l, n - 1)]
  }

  /** Output row `i` of a rewritten row is the `i`-th assignment of its pieces. */
  lemma {:induction false} CopiesAt(cols: seq<string>, row: Row, l: Lists, n: nat, i: nat)
    requires |row| == |cols| && forall e :: e in l ==> e.0 in cols
    requires i < n
    ensures Copies(cols, row, l, n)[i] == Assign(cols, row, l, i)
  {
    if i < n - 1 {
      CopiesAt(cols, row, l, n - 1, i);
    }
  }

  /** The rows one input row becomes. */
  function ExpandRow(cols: seq<string>, row: Row, adjusted: Dict<string, string>): (out: seq<Row>)
    requires |row| == |cols|
    ensures |out| >= 1
    ensures forall i :: 0 <= i < |out| ==> |out[i]| == |cols|
  {
    match Collect(cols, row, adjusted)
    case None => [row]
    case Some(l) =>
      if l == [] then [row]
      else Copies(cols, row, l, Width(l))
  }

  /** `new_rows` after the rows of `rows`, in order. */
  function ExpandAll(cols: seq<string>, rows: seq<Row>, adjusted: Dict<string, string>): (out: seq<Row>)
    requires Fits(cols, rows)
    ensures |out| >= |rows| && Fits(cols, out)
  {
    if rows == [] then []
    else
      var n := |rows| - 1;
      assert Fits(cols, rows[..n]);
      ExpandAll(cols, rows[..n], adjusted) + ExpandRow(cols, rows[n], adjusted)
  }

  /** The splitting stage: untouched when `adjusted_split_info` is empty. */
  function SplitTable(t: Table, adjusted: Dict<string, string>): (r: Table)
    requires Rectangular(t)
    ensures Rectangular(r) && r.columns == t.columns && |r.rows| >= |t.rows|
    ensures adjusted == [] ==> r == t
  {
    if adjusted == [] then t
    else
      Table(t.columns, ExpandAll(t.columns, t.rows, adjusted))
  }

  /** Once a split has raised, the rest of the entries do not matter. */
  lemma {:induction false} CollectNoneStays(cols: seq<string>, row: Row, adjusted: Dict<string, string>, k: nat)
    requires |row| == |cols| && k <= |adjusted|
    requires Collect(cols, row, adjusted[..k]).None?
    ensures Collect(cols, row, adjusted).None?
    decreases |adjusted| - k
  {
    if k < |adjusted| {
      assert adjusted[..k + 1][..k] == adjusted[..k];
      CollectNoneStays(cols, row, adjusted, k + 1);
    } else {
      assert adjusted[..k] == adjusted;
    }
  }

  /** One successful collection step appends a fresh entry, and `max_length` follows it. */
  lemma CollectStep(cols: seq<string>, row: Row, adjusted: Dict<string, string>, k: nat, l: Lists, ps: seq<string>)
    requires |row| == |cols| && Valid(adjusted) && k < |adjusted|
    requires Collect(cols, row, adjusted[..k]) == Some(l)
    ensures adjusted[k].0 !in Keys(l)
    ensures Put(l, adjusted[k].0, ps) == l + [(adjusted[k].0, ps)]
  {
    var a := adjusted[..k + 1];
    assert a[..k] == adjusted[..k];
    ValidPrefix(adjusted, k + 1);
    LastKeyFresh(a);
    forall j | 0 <= j < |l| ensures Keys(l)[j] != adjusted[k].0 {
      assert l[j] in l;
    }
    PutMissing(l, adjusted[k].0, ps);
  }

  /** Adding a piece list raises `max_length` to its length when that is larger. */
  lemma WidthAppend(l: Lists, c: string, ps: seq<string>)
    ensures Width(l + [(c, ps)]) == if |ps| > Width(l) then |ps| else Width(l)
  {
    assert (l + [(c, ps)])[..|l|] == l;
  }

  /**
   * The first step of the per-row body: collect the piece lists of the
   * split columns while tracking `max_length`; `None` when a split raises.
   */
  method CollectPieces(cols: seq<string>, row: Row, adjusted: Dict<string, string>)
      returns (lists: Option<Lists>, maxLength: nat)
    requires |row| == |cols| && Valid(adjusted)
    ensures lists == Collect(cols, row, adjusted)
    ensures lists.Some? ==> maxLength == Width(lists.value)
  {
    var collected: Lists := [];
    maxLength := 1;
    for k := 0 to |adjusted|
      invariant Collect(cols, row, adjusted[..k]) == Some(collected)
      invariant maxLength == Width(collected)
    {
      var c, symbol := adjusted[k].0, adjusted[k].1;
      assert adjusted[..k + 1][..k] == adjusted[..k];
      if c in cols {
        var pieces := Pieces(row[IndexOf(cols, c)], symbol);
        if pieces.None? {
          CollectNoneStays(cols, row, adjusted, k + 1);
          return None, maxLength;
        }
        CollectStep(cols, row, adjusted, k, collected, pieces.value);
        WidthAppend(collected, c, pieces.value);
        collected := Put(collected, c, pieces.value);
        if |pieces.value| > maxLength {
          maxLength := |pieces.value|;
        }
      }
    }
    assert adjusted[..|adjusted|] == adjusted;
    lists := Some(collected);
  }

  /** The second step: `max_length` copies of the row with the split columns overwritten. */
  method EmitRows(cols: seq<string>, row: Row, lists: Lists, maxLength: nat) returns (out: seq<Row>)
    requires |row| == |cols| && forall e :: e in lists ==> e.0 in cols
    ensures out == Copies(cols, row, lists, maxLength)
  {
    out := [];
    for i := 0 to maxLength
      invariant out == Copies(cols, row, lists, i)
    {
      var newRow := row;
      for k := 0 to |lists|
        invariant forall e :: e in lists[..k] ==> e in lists
        invariant newRow == Assign(cols, row, lists[..k], i)
      {
        assert lists[..k + 1][..k] == lists[..k];
        newRow := newRow[IndexOf(cols, lists[k].0) := PieceAt(lists[k].1, i)];
      }
      assert lists[..|lists|] == lists;
      out := out + [newRow];
    }
  }

  /**
   * The per-row body: the row is rewritten when at least one split column
   * is present, and kept as it was when none is or when a split raises.
   */
  method SplitRow(cols: seq<string>, row: Row, adjusted: Dict<string, string>) returns (out: seq<Row>)
    requires |row| == |cols| && Valid(adjusted)
    ensures out == ExpandRow(cols, row, adjusted)
  {
    var lists, maxLength := CollectPieces(cols, row, adjusted);
    if lists.None? || lists.value == [] {
      out := [row];
    } else {
      out := EmitRows(cols, row, lists.value, maxLength);
    }
  }

  /** The loop over `mapped_df.iterrows()` that builds `new_rows`. */
  method SplitRows(cols: seq<string>, rows: seq<Row>, adjusted: Dict<string, string>) returns (newRows: seq<Row>)
    requires Fits(cols, rows)
    requires Valid(adjusted)
    ensures newRows == ExpandAll(cols, rows, adjusted)
  {
    newRows := [];
    for r := 0 to |rows|
      invariant newRows == ExpandAll(cols, rows[..r], adjusted)
    {
      assert rows[..r + 1][..r] == rows[..r];
      var block := SplitRow(cols, rows[r], adjusted);
      newRows := newRows + block;
    }
    assert rows[..|rows|] == rows;
  }

  /** Expanding a concatenation of rows concatenates the expansions. */
  lemma {:induction false} ExpandAllAppend(cols: seq<string>, a: seq<Row>, b: seq<Row>, adjusted: Dict<string, string>)
    requires Fits(cols, a) && Fits(cols, b)
    ensures Fits(cols, a + b)
    ensures ExpandAll(cols, a + b, adjusted) == ExpandAll(cols, a, adjusted) + ExpandAll(cols, b, adjusted)
  {
    if b != [] {
      var n := |b| - 1;
      var ab := a + b;
      assert ab[..|ab| - 1] == a + b[..n];
      assert ab[|ab| - 1] == b[n];
      assert Fits(cols, b[..n]);
      ExpandAllAppend(cols, a, b[..n], adjusted);
      assert ExpandAll(cols, ab, adjusted) ==
             ExpandAll(cols, a + b[..n], adjusted) + ExpandRow(cols, b[n], adjusted);
    } else {
      assert a + b == a;
    }
  }

  /**
   * Each input row's output rows form one contiguous block, blocks follow
   * the input order, and the total is the sum of the block sizes.
   */
  lemma ExpandAllBlocks(cols: seq<string>, rows: seq<Row>, adjusted: Dict<string, string>, r: nat)
    requires Fits(cols, rows)
    requires r < |rows|
    ensures ExpandAll(cols, rows, adjusted) ==
            ExpandAll(cols, rows[..r], adjusted) + ExpandRow(cols, rows[r], adjusted) +
            ExpandAll(cols, rows[r + 1..], adjusted)
  {
    assert rows == (rows[..r] + [rows[r]]) + rows[r + 1..];
    ExpandAllAppend(cols, rows[..r] + [rows[r]], rows[r + 1..], adjusted);
    assert (rows[..r] + [rows[r]])[..r] == rows[..r];
  }

  /** The number of rows each input row becomes, summed over `rows`. */
  function TotalRows(cols: seq<string>, rows: seq<Row>, adjusted: Dict<string, string>): nat
    requires Fits(cols, rows)
  {
    if rows == [] then 0
    else |ExpandRow(cols, rows[0], adjusted)| + TotalRows(cols, rows[1..], adjusted)
  }

  /** `len(new_rows)` is the sum over the input rows of their block sizes. */
  lemma {:induction false} ExpandAllCount(cols: seq<string>, rows: seq<Row>, adjusted: Dict<string, string>)
    requires Fits(cols, rows)
    ensures |ExpandAll(cols, rows, adjusted)| == TotalRows(cols, rows, adjusted)
  {
    if rows != [] {
      ExpandAllBlocks(cols, rows, adjusted, 0);
      ExpandAllCount(cols, rows[1..], adjusted);
    }
  }

  /**
   * The cells of output row `i`: a column with a piece list holds piece
   * `i` or `''`, any other column keeps the original cell.
   */
  lemma {:induction false} AssignCell(cols: seq<string>, row: Row, l: Lists, i: nat, k: nat)
    requires |row| == |cols| && forall e :: e in l ==> e.0 in cols
    requires Distinct(cols) && Valid(l) && k < |cols|
    ensures Assign(cols, row, l, i)[k] ==
            if cols[k] in Keys(l) then PieceAt(Get(l, cols[k]).value, i) else row[k]
  {
    if l != [] {
      var n := |l| - 1;
      assert forall e :: e in l[..n] ==> e in l;
      LastKeyFresh(l);
      AssignCell(cols, row, l[..n], i, k);
      assert l == l[..n] + [l[n]];
      GetAppend(l[..n], l[n].0, l[n].1, cols[k]);
      KeysAppend(l[..n], l[n]);
      if IndexOf(cols, l[n].0) == k {
        assert cols[k] == l[n].0;
      } else {
        assert cols[k] != l[n].0;
      }
    }
  }

  /**
   * What the collected lists hold: for every split column the row has,
   * exactly the piece list of its cell under its delimiter; nothing for
   * any other column.
   */
  lemma {:induction false} CollectGet(cols: seq<string>, row: Row, adjusted: Dict<string, string>, c: string)
    requires |row| == |cols| && Valid(adjusted)
    requires Collect(cols, row, adjusted).Some?
    ensures c in Keys(Collect(cols, row, adjusted).value) <==> c in cols && c in Keys(adjusted)
    ensures c in cols && c in Keys(adjusted) ==>
            Some(Get(Collect(cols, row, adjusted).value, c).value) ==
            Pieces(row[IndexOf(cols, c)], Get(adjusted, c).value)
  {
    if adjusted != [] {
      var n := |adjusted| - 1;
      LastKeyFresh(adjusted);
      assert adjusted == adjusted[..n] + [adjusted[n]];
      KeysAppend(adjusted[..n], adjusted[n]);
      GetAppend(adjusted[..n], adjusted[n].0, adjusted[n].1, c);
      CollectGet(cols, row, adjusted[..n], c);
      var l := Collect(cols, row, adjusted[..n]).value;
      var a := adjusted[n].0;
      if a in cols {
        var ps := Pieces(row[IndexOf(cols, a)], adjusted[n].1).value;
        forall j | 0 <= j < |l| ensures Keys(l)[j] != a {
          assert l[j] in l;
        }
        PutMissing(l, a, ps);
        KeysAppend(l, (a, ps));
        GetAppend(l, a, ps, c);
      }
    }
  }

  /**
   * Output row `i` of a row whose splits did not raise: every split
   * column the row has holds piece `i` of its cell's piece list (or `''`
   * past its end), and every other column keeps the original cell.
   */
  lemma ExpandRowCells(cols: seq<string>, row: Row, adjusted: Dict<string, string>, i: nat, k: nat)
    requires |row| == |cols| && Valid(adjusted) && Distinct(cols) && k < |cols|
    requires Collect(cols, row, adjusted).Some?
    requires i < |ExpandRow(cols, row, adjusted)|
    ensures cols[k] in Keys(adjusted) ==>
              Pieces(row[k], Get(adjusted, cols[k]).value).Some? &&
              ExpandRow(cols, row, adjusted)[i][k] ==
                PieceAt(Pieces(row[k], Get(adjusted, cols[k]).value).value, i)
    ensures cols[k] !in Keys(adjusted) ==> ExpandRow(cols, row, adjusted)[i][k] == row[k]
  {
    var c := cols[k];
    assert IndexOf(cols, c) == k by {
      var j := IndexOf(cols, c);
      assert cols[j] == cols[k];
    }
    var l := Collect(cols, row, adjusted).value;
    CollectGet(cols, row, adjusted, c);
    if l != [] {
      CopiesAt(cols, row, l, Width(l), i);
      AssignCell(cols, row, l, i, k);
    }
  }

  /**
   * A row with a present text cell in a split column whose delimiter is
   * empty makes `split` raise, and is kept once, unchanged.
   */
  lemma EmptyDelimiterKeepsRow(cols: seq<string>, row: Row, adjusted: Dict<string, string>, k: nat)
    requires |row| == |cols| && k < |adjusted|
    requires adjusted[k].1 == "" && adjusted[k].0 in cols
    requires row[IndexOf(cols, adjusted[k].0)].Text?
    ensures ExpandRow(cols, row, adjusted) == [row]
  {
    assert adjusted[..k + 1][..k] == adjusted[..k];
    if Collect(cols, row, adjusted[..k]).Some? {
      assert Collect(cols, row, adjusted[..k + 1]).None?;
    }
    CollectNoneStays(cols, row, adjusted, k + 1);
  }

  /** The number of rows a row without a raising split becomes. */
  lemma ExpandRowLength(cols: seq<string>, row: Row, adjusted: Dict<string, string>)
    requires |row| == |cols| && Collect(cols, row, adjusted).Some?
    ensures var l := Collect(cols, row, adjusted).value;
            |ExpandRow(cols, row, adjusted)| == if l == [] then 1 else Width(l)
  {
  }

  /**
   * A row becomes at least as many rows as any present split column has
   * pieces (and one row when a split raises).
   */
  lemma ExpandRowCovers(cols: seq<string>, row: Row, adjusted: Dict<string, string>, c: string)
    requires |row| == |cols| && Valid(adjusted)
    requires c in Keys(adjusted) && c in cols
    ensures Collect(cols, row, adjusted).None? ==> ExpandRow(cols, row, adjusted) == [row]
    ensures Collect(cols, row, adjusted).Some? ==>
              Pieces(row[IndexOf(cols, c)], Get(adjusted, c).value).Some? &&
              |Pieces(row[IndexOf(cols, c)], Get(adjusted, c).value).value| <=
                |ExpandRow(cols, row, adjusted)|
  {
    if Collect(cols, row, adjusted).Some? {
      var l := Collect(cols, row, adjusted).value;
      ExpandRowLength(cols, row, adjusted);
      CollectGet(cols, row, adjusted, c);
      var j := IndexOf(Keys(l), c);
      assert Get(l, c).value == l[j].1;
    }
  }

  /**
   * A rewritten row becomes exactly as many rows as its longest piece
   * list, or one row.
   */
  lemma ExpandRowTight(cols: seq<string>, row: Row, adjusted: Dict<string, string>)
    requires |row| == |cols| && Valid(adjusted)
    requires Collect(cols, row, adjusted).Some?
    ensures |ExpandRow(cols, row, adjusted)| == 1 ||
            exists c :: c in Keys(adjusted) && c in cols &&
              Pieces(row[IndexOf(cols, c)], Get(adjusted, c).value).Some? &&
              |Pieces(row[IndexOf(cols, c)], Get(adjusted, c).value).value| ==
                |ExpandRow(cols, row, adjusted)|
  {
    var l := Collect(cols, row, adjusted).value;
    ExpandRowLength(cols, row, adjusted);
    if l != [] && Width(l) != 1 {
      var k :| 0 <= k < |l| && |l[k].1| == Width(l);
      var c := l[k].0;
      assert Keys(l)[k] == c;
      var j := IndexOf(Keys(l), c);
      assert j == k by {
        assert Keys(l)[j] == Keys(l)[k];
      }
      assert Get(l, c) == Some(l[k].1);
      CollectGet(cols, row, adjusted, c);
      assert c in Keys(adjusted) && c in cols;
      assert Pieces(row[IndexOf(cols, c)], Get(adjusted, c).value) == Some(l[k].1);
    }
  }
}

/**
 * Column selection: the mapped source columns are looked up in the sheet,
 * a sheet lacking any of them is skipped with the list of missing names,
 * and otherwise the mapped columns are projected in mapping order and
 * renamed to their template names.
 */
module ColumnSelector {
  import opened Wrappers
  import opened Dicts
  import opened Tables

  /** The cells of column `j`, top to bottom. */
  function ColumnAt(t: Table, j: nat): (col: seq<Cell>)
    requires Rectangular(t) && j < |t.columns|
    ensures |col| == |t.rows|
  {
    seq(|t.rows|, i requires 0 <= i < |t.rows| => t.rows[i][j])
  }

  /** The cells of the (first) column named `c`. */
  function ColumnNamed(t: Table, c: string): seq<Cell>
    requires Rectangular(t) && c in t.columns
  {
    ColumnAt(t, IndexOf(t.columns, c))
  }

  /** `[col for col in wanted if col not in present]`. */
  function MissingColumns(wanted: seq<string>, present: seq<string>): (m: seq<string>)
    ensures forall c :: c in m <==> c in wanted && c !in present
    ensures |m| <= |wanted|
  {
    if wanted == [] then []
    else
      var n := |wanted| - 1;
      assert forall c :: c in wanted <==> c in wanted[..n] || c == wanted[n];
      var rest := MissingColumns(wanted[..n], present);
      if wanted[n] in present then rest else rest + [wanted[n]]
  }

  /** The last wanted column adds itself at the end when it is absent. */
  lemma MissingColumnsLast(w: seq<string>, present: seq<string>)
    requires w != []
    ensures MissingColumns(w, present) ==
            MissingColumns(w[..|w| - 1], present) + if w[|w| - 1] in present then [] else [w[|w| - 1]]
  {
  }

  /**
   * The comprehension keeps mapping order and repeats: the missing list of
   * a concatenation is the concatenation of the missing lists.
   */
  lemma {:induction false} MissingColumnsAppend(a: seq<string>, b: seq<string>, present: seq<string>)
    ensures MissingColumns(a + b, present) == MissingColumns(a, present) + MissingColumns(b, present)
    decreases |b|
  {
    if b == [] {
      assert a + b == a;
    } else {
      var n, ab := |b| - 1, a + b;
      MissingColumnsAppend(a, b[..n], present);
      MissingColumnsLast(ab, present);
      MissingColumnsLast(b, present);
      assert ab[..|ab| - 1] == a + b[..n] && ab[|ab| - 1] == b[n];
      var ma, mb, tail := MissingColumns(a, present), MissingColumns(b[..n], present),
                          if b[n] in present then [] else [b[n]];
      assert MissingColumns(ab, present) == (ma + mb) + tail;
      assert (ma + mb) + tail == ma + (mb + tail);
    }
  }

  /** One wanted column contributes itself exactly when the sheet lacks it. */
  lemma MissingColumnsSingle(c: string, present: seq<string>)
    ensures MissingColumns([c], present) == if c in present then [] else [c]
  {
    MissingColumnsLast([c], present);
  }

  /** The columns at positions `idx`, in that order, renamed to `names`. */
  function Project(t: Table, names: seq<string>, idx: seq<nat>): (p: Table)
    requires Rectangular(t) && |names| == |idx|
    requires forall k :: 0 <= k < |idx| ==> idx[k] < |t.columns|
    ensures p.columns == names && |p.rows| == |t.rows| && Rectangular(p)
    ensures forall k :: 0 <= k < |idx| ==> ColumnAt(p, k) == ColumnAt(t, idx[k])
  {
    var p := Table(names, seq(|t.rows|, i requires 0 <= i < |t.rows| =>
               seq(|idx|, k requires 0 <= k < |idx| => t.rows[i][idx[k]])));
    assert forall k :: 0 <= k < |idx| ==> ColumnAt(p, k) == ColumnAt(t, idx[k]) by {
      forall k | 0 <= k < |idx| ensures ColumnAt(p, k) == ColumnAt(t, idx[k]) {
        assert forall i :: 0 <= i < |t.rows| ==> ColumnAt(p, k)[i] == ColumnAt(t, idx[k])[i];
      }
    }
    p
  }

  /** Every mapped source column is present exactly when nothing is missing. */
  lemma NothingMissing(tf: Dict<string, string>, present: seq<string>)
    ensures MissingColumns(Values(tf), present) == [] <==>
            forall j :: 0 <= j < |tf| ==> tf[j].1 in present
  {
    var m := MissingColumns(Values(tf), present);
    if m != [] {
      assert m[0] in m;
      var j := IndexOf(Values(tf), m[0]);
      assert tf[j].1 !in present;
    } else {
      forall j | 0 <= j < |tf| ensures tf[j].1 in present {
        assert Values(tf)[j] == tf[j].1 && Values(tf)[j] in Values(tf);
      }
    }
  }

  /** In a dictionary without repeats, the `j`-th key is found at position `j`. */
  lemma KeyPosition(tf: Dict<string, string>, j: nat)
    requires Valid(tf) && j < |tf|
    ensures tf[j].0 in Keys(tf) && IndexOf(Keys(tf), tf[j].0) == j
  {
    assert Keys(tf)[j] == tf[j].0;
    var k := IndexOf(Keys(tf), tf[j].0);
    assert Keys(tf)[k] == Keys(tf)[j];
  }

  /**
   * `df[file_columns_ordered]` followed by `mapped_df.columns =
   * template_columns_ordered`, or the list of missing columns.
   */
  function Select(t: Table, tf: Dict<string, string>): (r: Result<Table, seq<string>>)
    requires Rectangular(t) && Valid(tf)
    ensures r.Failure? <==> exists j :: 0 <= j < |tf| && tf[j].1 !in t.columns
    ensures r.Failure? ==> r.error == MissingColumns(Values(tf), t.columns)
    ensures r.Success? ==> Rectangular(r.value)
    ensures r.Success? ==> r.value.columns == Keys(tf) && |r.value.rows| == |t.rows|
    ensures r.Success? ==> forall j :: 0 <= j < |tf| ==>
              tf[j].1 in t.columns && tf[j].0 in r.value.columns &&
              ColumnNamed(r.value, tf[j].0) == ColumnNamed(t, tf[j].1)
  {
    var missing := MissingColumns(Values(tf), t.columns);
    NothingMissing(tf, t.columns);
    if missing != [] then
      Failure(missing)
    else
      var picked := seq(|tf|, j requires 0 <= j < |tf| => IndexOf(t.columns, tf[j].1));
      var out := Project(t, Keys(tf), picked);
      assert forall j :: 0 <= j < |tf| ==>
          tf[j].0 in out.columns && ColumnNamed(out, tf[j].0) == ColumnNamed(t, tf[j].1) by {
        forall j | 0 <= j < |tf|
          ensures tf[j].0 in out.columns && ColumnNamed(out, tf[j].0) == ColumnNamed(t, tf[j].1)
        {
          KeyPosition(tf, j);
        }
      }
      Success(out)
  }
}

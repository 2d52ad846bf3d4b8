/**
 * Translation of `split_info`, which the mapping dialog keys by SOURCE
 * column, into `adjusted_split_info`, keyed by TEMPLATE column.
 *
 * A source column is looked up, trimmed and lower-cased, in the reverse
 * mapping `{v.strip().lower(): k.strip().lower()}`; the template column
 * written to is the first one (in mapping order) whose trimmed, lower-cased
 * name equals the looked-up name. A source column the reverse mapping does
 * not know, or knows under an empty name, is reported and dropped.
 */
module SplitKeys {
  import opened Wrappers
  import opened Dicts
  import opened StringOps

  /** `{v.strip().lower(): k.strip().lower() for k, v in tf.items()}`. */
  function ReverseMapping(tf: Dict<string, string>): (rm: Dict<string, string>)
    ensures Valid(rm)
  {
    if tf == [] then []
    else
      var n := |tf| - 1;
      Put(ReverseMapping(tf[..n]), Normalize(tf[n].1), Normalize(tf[n].0))
  }

  /**
   * Reference reading of the reverse mapping: the normalised template name
   * of the LAST entry whose normalised source name is `x` (a dict
   * comprehension keeps the last value written under a key).
   */
  function LastKeyFor(tf: Dict<string, string>, x: string): Option<string>
  {
    if tf == [] then None
    else
      var n := |tf| - 1;
      if Normalize(tf[n].1) == x then Some(Normalize(tf[n].0)) else LastKeyFor(tf[..n], x)
  }

  /** The reverse mapping answers every lookup as the reference reading does. */
  lemma {:induction false} ReverseMappingGet(tf: Dict<string, string>, x: string)
    ensures Get(ReverseMapping(tf), x) == LastKeyFor(tf, x)
  {
    if tf != [] {
      var n := |tf| - 1;
      ReverseMappingGet(tf[..n], x);
      if Normalize(tf[n].1) != x {
        PutOther(ReverseMapping(tf[..n]), Normalize(tf[n].1), Normalize(tf[n].0), x);
      }
    }
  }

  /** A name the reverse mapping yields is the normal form of some template key. */
  lemma {:induction false} LastKeyForIsKey(tf: Dict<string, string>, x: string)
    requires LastKeyFor(tf, x).Some?
    ensures exists j :: 0 <= j < |tf| && Normalize(Keys(tf)[j]) == LastKeyFor(tf, x).value
  {
    var n := |tf| - 1;
    if Normalize(tf[n].1) == x {
      assert Keys(tf)[n] == tf[n].0;
    } else {
      LastKeyForIsKey(tf[..n], x);
      var j :| 0 <= j < n && Normalize(Keys(tf[..n])[j]) == LastKeyFor(tf, x).value;
      assert Keys(tf[..n])[j] == Keys(tf)[j];
    }
  }

  /** The trimmed, lower-cased form of every column name, in order. */
  function NormalForms(cols: seq<string>): (ns: seq<string>)
    ensures |ns| == |cols| && forall k :: 0 <= k < |cols| ==> ns[k] == Normalize(cols[k])
  {
    seq(|cols|, k requires 0 <= k < |cols| => Normalize(cols[k]))
  }

  /** What becomes of one `split_info` entry's source column. */
  datatype Resolution =
    | Unmapped              // reported with a warning and dropped
    | Column(name: string)  // applied to this template column
    | NoColumn              // silently dropped (cannot happen, see ResolveNeverMisses)

  /** The inner search of the adjustment loop for source column `fileCol`. */
  function Resolve(tf: Dict<string, string>, fileCol: string): Resolution
  {
    var found := Get(ReverseMapping(tf), Normalize(fileCol));
    if found.Some? && found.value != "" then
      var names := NormalForms(Keys(tf));
      if found.value in names then Column(Keys(tf)[IndexOf(names, found.value)]) else NoColumn
    else Unmapped
  }

  /**
   * A source column is reported exactly when no entry maps to it (after
   * normalisation) or the last such entry's template name is blank.
   */
  lemma ResolveUnmapped(tf: Dict<string, string>, fileCol: string)
    ensures var t := LastKeyFor(tf, Normalize(fileCol));
            Resolve(tf, fileCol).Unmapped? <==> t.None? || t.value == ""
  {
    ReverseMappingGet(tf, Normalize(fileCol));
  }

  /**
   * A resolved source column goes to the first template column (in
   * mapping order) whose normal form is the name the last matching entry
   * gives.
   */
  lemma ResolveColumn(tf: Dict<string, string>, fileCol: string)
    requires Resolve(tf, fileCol).Column?
    ensures var t := LastKeyFor(tf, Normalize(fileCol));
            t.Some? &&
            exists j :: 0 <= j < |tf| && tf[j].0 == Resolve(tf, fileCol).name &&
              Normalize(tf[j].0) == t.value &&
              forall k :: 0 <= k < j ==> Normalize(tf[k].0) != t.value
  {
    ReverseMappingGet(tf, Normalize(fileCol));
    var found := Get(ReverseMapping(tf), Normalize(fileCol));
    assert found.Some? && found.value != "" && found.value in NormalForms(Keys(tf));
    FirstWithNormalForm(tf, found.value);
  }

  /** The first entry of `tf` whose key has normal form `v`. */
  lemma FirstWithNormalForm(tf: Dict<string, string>, v: string)
    requires v in NormalForms(Keys(tf))
    ensures var j := IndexOf(NormalForms(Keys(tf)), v);
            j < |tf| && Keys(tf)[j] == tf[j].0 && Normalize(tf[j].0) == v &&
            forall k :: 0 <= k < j ==> Normalize(tf[k].0) != v
  {
    var names := NormalForms(Keys(tf));
    var j := IndexOf(names, v);
    forall k | 0 <= k < j ensures Normalize(tf[k].0) != v {
      assert names[k] == Normalize(Keys(tf)[k]) && Keys(tf)[k] == tf[k].0;
    }
  }

  /** The search for a template column never comes back empty. */
  lemma ResolveNeverMisses(tf: Dict<string, string>, fileCol: string)
    ensures !Resolve(tf, fileCol).NoColumn?
  {
    var x := Normalize(fileCol);
    ReverseMappingGet(tf, x);
    var found := Get(ReverseMapping(tf), x);
    if found.Some? && found.value != "" {
      LastKeyForIsKey(tf, x);
      var j :| 0 <= j < |tf| && Normalize(Keys(tf)[j]) == found.value;
      assert NormalForms(Keys(tf))[j] == found.value;
    }
  }

  /**
   * The inner `for orig_col in template_columns_ordered` search: the
   * position of the first column whose trimmed, lower-cased name is `t`,
   * or `|cols|` when there is none.
   */
  method FindColumn(cols: seq<string>, t: string) returns (j: nat)
    ensures j <= |cols|
    ensures j < |cols| <==> t in NormalForms(cols)
    ensures j < |cols| ==> j == IndexOf(NormalForms(cols), t)
  {
    j := 0;
    while j < |cols| && Normalize(cols[j]) != t
      invariant j <= |cols|
      invariant forall k :: 0 <= k < j ==> Normalize(cols[k]) != t
    {
      j := j + 1;
    }
    var names := NormalForms(cols);
    if j < |cols| {
      var k := IndexOf(names, t);
      assert names[j] == t;
    }
  }

  /** `adjusted_split_info` together with the source columns reported as not found. */
  datatype Adjustment = Adjustment(adjusted: Dict<string, string>, warned: seq<string>)

  /** The adjustment loop over the first `|si|` entries of `split_info`. */
  function Adjust(tf: Dict<string, string>, si: Dict<string, string>): Adjustment
  {
    if si == [] then Adjustment([], [])
    else
      var n := |si| - 1;
      var rest := Adjust(tf, si[..n]);
      match Resolve(tf, si[n].0)
      case Unmapped => Adjustment(rest.adjusted, rest.warned + [si[n].0])
      case Column(c) => Adjustment(Put(rest.adjusted, c, si[n].1), rest.warned)
      case NoColumn => rest
  }

  /**
   * The nested loop that fills `adjusted_split_info`, with the log's
   * warnings collected as the list of unmatched source columns.
   */
  method AdjustSplitInfo(tf: Dict<string, string>, si: Dict<string, string>)
      returns (adjusted: Dict<string, string>, warned: seq<string>)
    ensures Adjustment(adjusted, warned) == Adjust(tf, si)
  {
    var rm := ReverseMapping(tf);
    var cols := Keys(tf);
    adjusted, warned := [], [];
    for i := 0 to |si|
      invariant Adjustment(adjusted, warned) == Adjust(tf, si[..i])
    {
      assert si[..i + 1][..i] == si[..i];
      var fileCol, symbol := si[i].0, si[i].1;
      var found := Get(rm, Normalize(fileCol));
      if found.Some? && found.value != "" {
        var j := FindColumn(cols, found.value);
        if j < |cols| {
          adjusted := Put(adjusted, cols[j], symbol);
        }
      } else {
        warned := warned + [fileCol];
      }
    }
    assert si[..|si|] == si;
  }

  /**
   * The delimiter finally recorded for template column `c`: that of the
   * last `split_info` entry resolving to `c`.
   */
  function LastSymbolFor(tf: Dict<string, string>, si: Dict<string, string>, c: string): Option<string>
  {
    if si == [] then None
    else
      var n := |si| - 1;
      if Resolve(tf, si[n].0) == Column(c) then Some(si[n].1) else LastSymbolFor(tf, si[..n], c)
  }

  /**
   * The adjusted dictionary has no repeated key, is keyed by template
   * columns only, and holds for each of them the delimiter of the last
   * entry resolving to it.
   */
  lemma {:induction false} AdjustedEntries(tf: Dict<string, string>, si: Dict<string, string>)
    ensures Valid(Adjust(tf, si).adjusted)
    ensures forall c :: c in Keys(Adjust(tf, si).adjusted) ==> c in Keys(tf)
    ensures forall c :: Get(Adjust(tf, si).adjusted, c) == LastSymbolFor(tf, si, c)
  {
    if si != [] {
      var n := |si| - 1;
      AdjustedEntries(tf, si[..n]);
      var rest := Adjust(tf, si[..n]);
      match Resolve(tf, si[n].0)
      case Unmapped =>
      case NoColumn =>
      case Column(c) =>
        forall x ensures Get(Put(rest.adjusted, c, si[n].1), x) == LastSymbolFor(tf, si, x) {
          if x != c {
            PutOther(rest.adjusted, c, si[n].1, x);
          }
        }
        var names := NormalForms(Keys(tf));
        var j := IndexOf(names, Get(ReverseMapping(tf), Normalize(si[n].0)).value);
        assert c == Keys(tf)[j];
    }
  }

  /** The last `split_info` entry adds a report exactly when it does not resolve. */
  lemma AdjustWarnedStep(tf: Dict<string, string>, si: Dict<string, string>)
    requires si != []
    ensures var n := |si| - 1;
            Adjust(tf, si).warned ==
              Adjust(tf, si[..n]).warned + if Resolve(tf, si[n].0).Unmapped? then [si[n].0] else []
  {
  }

  /**
   * A source column is reported exactly when it is a key of `split_info`
   * that does not resolve.
   */
  lemma {:induction false} AdjustWarnings(tf: Dict<string, string>, si: Dict<string, string>)
    ensures forall f :: f in Adjust(tf, si).warned <==> f in Keys(si) && Resolve(tf, f).Unmapped?
  {
    if si != [] {
      var n := |si| - 1;
      AdjustWarnings(tf, si[..n]);
      AdjustWarnedStep(tf, si);
      var rest := Adjust(tf, si[..n]).warned;
      var w := Adjust(tf, si).warned;
      var last := si[n].0;
      var reported := Resolve(tf, last).Unmapped?;
      assert w == rest + if reported then [last] else [];
      assert si == si[..n] + [si[n]];
      KeysAppend(si[..n], si[n]);
      assert Keys(si) == Keys(si[..n]) + [last];
      forall f ensures f in w <==> f in Keys(si) && Resolve(tf, f).Unmapped? {
        assert f in w <==> f in rest || (reported && f == last);
        assert f in Keys(si) <==> f in Keys(si[..n]) || f == last;
      }
    }
  }

  /** Every report names a `split_info` key, and there are no more reports than entries. */
  lemma {:induction false} AdjustWarningsCount(tf: Dict<string, string>, si: Dict<string, string>)
    ensures |Adjust(tf, si).warned| <= |si|
    ensures forall i :: 0 <= i < |Adjust(tf, si).warned| ==>
              exists j :: 0 <= j < |si| && Adjust(tf, si).warned[i] == si[j].0
  {
    if si != [] {
      var n := |si| - 1;
      AdjustWarningsCount(tf, si[..n]);
      AdjustWarnedStep(tf, si);
      var rest := Adjust(tf, si[..n]).warned;
      var w := Adjust(tf, si).warned;
      assert w == rest + if Resolve(tf, si[n].0).Unmapped? then [si[n].0] else [];
      forall i | 0 <= i < |w| ensures exists j :: 0 <= j < |si| && w[i] == si[j].0 {
        if i < |rest| {
          var j :| 0 <= j < n && rest[i] == si[..n][j].0;
          assert w[i] == rest[i] && si[..n][j] == si[j];
        } else {
          assert w[i] == si[n].0;
        }
      }
    }
  }

  /**
   * `split_info` is keyed by source column, so when two template columns
   * share a source column, its delimiter goes to the template column of
   * the later mapping entry only, whichever dialog row it was set on.
   */
  lemma SharedSourceSplitsLast(a: string, b: string, x: string, y: string, f: string, d: string)
    requires Normalize(x) == Normalize(f) && Normalize(y) == Normalize(f)
    requires Normalize(b) != "" && Normalize(a) != Normalize(b)
    ensures Adjust([(a, x), (b, y)], [(f, d)]) == Adjustment([(b, d)], [])
  {
    var tf := [(a, x), (b, y)];
    ReverseMappingGet(tf, Normalize(f));
    assert tf[..1] == [(a, x)];
    assert LastKeyFor(tf, Normalize(f)) == Some(Normalize(b));
    var names := NormalForms(Keys(tf));
    assert Keys(tf) == [a, b] && names == [Normalize(a), Normalize(b)];
    assert IndexOf(names, Normalize(b)) == 1;
    assert Resolve(tf, f) == Column(b);
    var si := [(f, d)];
    assert si[..0] == [] && Adjust(tf, si[..0]) == Adjustment([], []);
  }
}

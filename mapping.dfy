/**
 * The saved column mapping (`save_mapping`) and the three views the
 * converter takes of it (`column_mapping.get('split_info', {})`,
 * `column_mapping.get('date_format_info', {})` and the template-to-file
 * comprehension that drops those two keys).
 */
module MappingSpec {
  import opened Wrappers
  import opened Dicts

  /** An input/output pair of date patterns in `yyyy-MM-dd` token syntax. */
  datatype DatePair = DatePair(input: string, output: string)

  /**
   * A value of the `column_mapping` dictionary: the source column chosen
   * for a template column, or one of the two nested dictionaries stored
   * under the reserved keys.
   */
  datatype MapValue =
    | Source(column: string)
    | SplitTable(splits: Dict<string, string>)
    | DateTable(dates: Dict<string, DatePair>)

  type ColumnMapping = Dict<string, MapValue>

  const SplitInfoKey: string := "split_info"
  const DateFormatInfoKey: string := "date_format_info"

  predicate Reserved(k: string)
  {
    k == SplitInfoKey || k == DateFormatInfoKey
  }

  /**
   * What the mapping dialog shows on one template column's line: the chosen
   * source column, the delimiter, and the input and output date patterns
   * (each `""` when left blank).
   */
  datatype MappingRow = MappingRow(selected: string, splitSymbol: string, inputFormat: string, outputFormat: string)

  /** The entries `column_mapping[col] = selected_col` adds, in dialog order. */
  function SelectedPairs(template: seq<string>, ui: seq<MappingRow>): (d: ColumnMapping)
    requires |ui| == |template|
    ensures forall k :: k in Keys(d) ==> k in template
    ensures forall e :: e in d ==> e.1.Source?
  {
    if template == [] then []
    else
      var n := |template| - 1;
      var rest := SelectedPairs(template[..n], ui[..n]);
      KeysAppend(rest, (template[n], Source(ui[n].selected)));
      assert forall x :: x in template[..n] ==> x in template;
      if ui[n].selected != "" then rest + [(template[n], Source(ui[n].selected))] else rest
  }

  /** A column of a template without repeats does not occur before its own position. */
  lemma NotEarlier(template: seq<string>, n: nat)
    requires Distinct(template) && n < |template|
    ensures template[n] !in template[..n]
  {
    assert forall j :: 0 <= j < n ==> template[..n][j] != template[n];
  }

  /** The template columns that end up mapped, in dialog order. */
  function MappedColumns(template: seq<string>, ui: seq<MappingRow>): seq<string>
    requires |ui| == |template|
  {
    if template == [] then []
    else
      var n := |template| - 1;
      var rest := MappedColumns(template[..n], ui[..n]);
      if ui[n].selected != "" && !Reserved(template[n]) then rest + [template[n]] else rest
  }

  /**
   * The delimiter `split_info` records for source column `s`: the last line
   * that selects `s` with a non-empty delimiter wins.
   */
  function LastSplit(ui: seq<MappingRow>, s: string): Option<string>
  {
    if ui == [] then None
    else
      var last := ui[|ui| - 1];
      if last.selected == s && s != "" && last.splitSymbol != "" then Some(last.splitSymbol)
      else LastSplit(ui[..|ui| - 1], s)
  }

  /** The date patterns recorded for one line, if both were given. */
  function DateEntry(row: MappingRow): Option<DatePair>
  {
    if row.selected != "" && row.inputFormat != "" && row.outputFormat != ""
    then Some(DatePair(row.inputFormat, row.outputFormat))
    else None
  }

  /** `{k: v for k, v in column_mapping.items() if k not in ('split_info', 'date_format_info')}`. */
  function TemplateToFile(cm: ColumnMapping): (tf: Dict<string, string>)
    ensures forall k :: k in Keys(tf) ==> k in Keys(cm) && !Reserved(k)
    ensures Valid(cm) ==> Valid(tf)
  {
    if cm == [] then []
    else
      var n := |cm| - 1;
      var rest := TemplateToFile(cm[..n]);
      LastKeyFresh(cm);
      match cm[n].1
      case Source(s) =>
        if Reserved(cm[n].0) then rest
        else
          KeysAppend(rest, (cm[n].0, s));
          assert Keys(cm)[n] == cm[n].0;
          rest + [(cm[n].0, s)]
      case _ => rest
  }

  /** `column_mapping.get('split_info', {})`. */
  function SplitInfoOf(cm: ColumnMapping): Dict<string, string>
  {
    match Get<string, MapValue>(cm, SplitInfoKey)
    case Some(SplitTable(d)) => d
    case _ => []
  }

  /** `column_mapping.get('date_format_info', {})`. */
  function DateInfoOf(cm: ColumnMapping): Dict<string, DatePair>
  {
    match Get<string, MapValue>(cm, DateFormatInfoKey)
    case Some(DateTable(d)) => d
    case _ => []
  }

  /**
   * `column_mapping.get('split_info', {})`: the nested dictionary when the
   * key holds one, and the empty dictionary when the key is absent or holds
   * something else.
   */
  lemma SplitInfoLookup(cm: ColumnMapping)
    ensures SplitInfoKey !in Keys(cm) ==> SplitInfoOf(cm) == []
    ensures forall d :: Get(cm, SplitInfoKey) == Some(SplitTable(d)) ==> SplitInfoOf(cm) == d
    ensures Get(cm, SplitInfoKey).Some? && !Get(cm, SplitInfoKey).value.SplitTable? ==> SplitInfoOf(cm) == []
  {
  }

  /**
   * `column_mapping.get('date_format_info', {})`: the nested dictionary when
   * the key holds one, and the empty dictionary otherwise.
   */
  lemma DateInfoLookup(cm: ColumnMapping)
    ensures DateFormatInfoKey !in Keys(cm) ==> DateInfoOf(cm) == []
    ensures forall d :: Get(cm, DateFormatInfoKey) == Some(DateTable(d)) ==> DateInfoOf(cm) == d
    ensures Get(cm, DateFormatInfoKey).Some? && !Get(cm, DateFormatInfoKey).value.DateTable? ==> DateInfoOf(cm) == []
  {
  }

  /** The source column a non-reserved template key is mapped to. */
  lemma {:induction false} TemplateToFileGet(cm: ColumnMapping, k: string)
    requires Valid(cm)
    ensures Get(TemplateToFile(cm), k) ==
            if Reserved(k) then None
            else match Get<string, MapValue>(cm, k) case Some(Source(s)) => Some(s) case _ => None
  {
    if cm != [] {
      var n := |cm| - 1;
      var rest := TemplateToFile(cm[..n]);
      assert cm == cm[..n] + [cm[n]];
      LastKeyFresh(cm);
      TemplateToFileGet(cm[..n], k);
      GetAppend(cm[..n], cm[n].0, cm[n].1, k);
      if cm[n].1.Source? && !Reserved(cm[n].0) {
        GetAppend(rest, cm[n].0, cm[n].1.column, k);
      }
    }
  }

  /** Entries the template-to-file comprehension leaves out. */
  predicate Dropped(e: (string, MapValue))
  {
    Reserved(e.0) || !e.1.Source?
  }

  /** Replacing one left-out entry by another does not change the template-to-file view. */
  lemma {:induction false} TemplateToFileUpdate(cm: ColumnMapping, i: nat, e: (string, MapValue))
    requires i < |cm| && Dropped(cm[i]) && Dropped(e)
    ensures TemplateToFile(cm[i := e]) == TemplateToFile(cm)
  {
    var n := |cm| - 1;
    var cm' := cm[i := e];
    assert cm'[..n] == if i == n then cm[..n] else cm[..n][i := e];
    if i < n {
      TemplateToFileUpdate(cm[..n], i, e);
    }
  }

  /** Storing a reserved key never changes the template-to-file view. */
  lemma TemplateToFileIgnoresReserved(cm: ColumnMapping, k: string, v: MapValue)
    requires Reserved(k) && !v.Source?
    ensures TemplateToFile(Put(cm, k, v)) == TemplateToFile(cm)
  {
    if k in Keys(cm) {
      TemplateToFileUpdate(cm, IndexOf(Keys(cm), k), (k, v));
    } else {
      var cm' := cm + [(k, v)];
      assert cm'[..|cm'| - 1] == cm;
    }
  }

  /** The template-to-file view of the selected pairs lists exactly the mapped columns. */
  lemma {:induction false} SelectedPairsKeys(template: seq<string>, ui: seq<MappingRow>)
    requires |ui| == |template|
    ensures Keys(TemplateToFile(SelectedPairs(template, ui))) == MappedColumns(template, ui)
  {
    if template != [] {
      var n := |template| - 1;
      SelectedPairsKeys(template[..n], ui[..n]);
      var rest := SelectedPairs(template[..n], ui[..n]);
      if ui[n].selected != "" {
        var e := (template[n], Source(ui[n].selected));
        var d := rest + [e];
        assert d[..|d| - 1] == rest;
        if !Reserved(template[n]) {
          KeysAppend(TemplateToFile(rest), (template[n], ui[n].selected));
        }
      }
    }
  }

  /**
   * `save_mapping`: walks the dialog lines in template order and fills
   * `column_mapping`, `split_info` (keyed by the SOURCE column) and
   * `date_format_info` (keyed by the template column, only when both
   * patterns are given), then stores the two nested dictionaries under
   * their reserved keys.
   */
  method SaveMapping(template: seq<string>, ui: seq<MappingRow>) returns (cm: ColumnMapping)
    requires |ui| == |template|
    requires Distinct(template)
    ensures Valid(cm)
    ensures Keys(TemplateToFile(cm)) == MappedColumns(template, ui)
    ensures forall i :: 0 <= i < |template| && !Reserved(template[i]) ==>
              Get(TemplateToFile(cm), template[i]) ==
              (if ui[i].selected != "" then Some(ui[i].selected) else None)
    ensures forall k :: k in Keys(TemplateToFile(cm)) ==> k in template
    ensures SplitInfoOf(cm) == SplitInfoFor(ui)
    ensures Valid(SplitInfoOf(cm))
    ensures forall s :: Get(SplitInfoOf(cm), s) == LastSplit(ui, s)
    ensures Valid(DateInfoOf(cm))
    ensures forall i :: 0 <= i < |template| ==> Get(DateInfoOf(cm), template[i]) == DateEntry(ui[i])
    ensures forall k :: k in Keys(DateInfoOf(cm)) ==> k in template
  {
    var columns: ColumnMapping := [];
    var splitInfo: Dict<string, string> := [];
    var dateInfo: Dict<string, DatePair> := [];
    for i := 0 to |template|
      invariant columns == SelectedPairs(template[..i], ui[..i])
      invariant splitInfo == SplitInfoFor(ui[..i])
      invariant dateInfo == DateInfoFor(template[..i], ui[..i])
    {
      assert template[..i + 1][..i] == template[..i] && ui[..i + 1][..i] == ui[..i];
      var row := ui[i];
      if row.selected != "" {
        NotEarlier(template, i);
        PutMissing(columns, template[i], Source(row.selected));
        columns := Put(columns, template[i], Source(row.selected));
        if row.splitSymbol != "" {
          splitInfo := Put(splitInfo, row.selected, row.splitSymbol);
        }
        if row.inputFormat != "" && row.outputFormat != "" {
          dateInfo := Put(dateInfo, template[i], DatePair(row.inputFormat, row.outputFormat));
        }
      }
    }
    assert template[..|template|] == template && ui[..|ui|] == ui;
    cm := Put(Put(columns, SplitInfoKey, SplitTable(splitInfo)), DateFormatInfoKey, DateTable(dateInfo));
    SplitInfoForGet(ui);
    DateInfoForGet(template, ui);
    SelectedView(template, ui);
    Assembled(columns, splitInfo, dateInfo);
  }

  /** The `split_info` dictionary after the dialog lines `ui`. */
  function SplitInfoFor(ui: seq<MappingRow>): Dict<string, string>
  {
    if ui == [] then []
    else
      var rest := SplitInfoFor(ui[..|ui| - 1]);
      var row := ui[|ui| - 1];
      if row.selected != "" && row.splitSymbol != "" then Put(rest, row.selected, row.splitSymbol) else rest
  }

  /** The `date_format_info` dictionary after the dialog lines `ui`. */
  function DateInfoFor(template: seq<string>, ui: seq<MappingRow>): Dict<string, DatePair>
    requires |ui| == |template|
  {
    if ui == [] then []
    else
      var n := |ui| - 1;
      var rest := DateInfoFor(template[..n], ui[..n]);
      match DateEntry(ui[n])
      case Some(p) => Put(rest, template[n], p)
      case None => rest
  }

  /** `split_info` holds, for each source column, the delimiter of the last line selecting it. */
  lemma {:induction false} SplitInfoForGet(ui: seq<MappingRow>)
    ensures Valid(SplitInfoFor(ui))
    ensures forall s :: Get(SplitInfoFor(ui), s) == LastSplit(ui, s)
  {
    if ui != [] {
      var n := |ui| - 1;
      SplitInfoForGet(ui[..n]);
      var rest := SplitInfoFor(ui[..n]);
      var row := ui[n];
      forall s ensures Get(SplitInfoFor(ui), s) == LastSplit(ui, s) {
        if row.selected != "" && row.splitSymbol != "" && s != row.selected {
          PutOther(rest, row.selected, row.splitSymbol, s);
        }
      }
    }
  }

  /** The first dialog line that selected `s` with a non-blank delimiter, if any. */
  function FirstSplitRow(ui: seq<MappingRow>, s: string): (r: Option<nat>)
    ensures r.Some? ==> r.value < |ui| && ui[r.value].selected == s && s != "" && ui[r.value].splitSymbol != ""
  {
    if ui == [] then None
    else
      var n := |ui| - 1;
      match FirstSplitRow(ui[..n], s)
      case Some(i) => Some(i)
      case None => if ui[n].selected == s && s != "" && ui[n].splitSymbol != "" then Some(n) else None
  }

  /**
   * The keys of `split_info` are the source columns some line gave a
   * delimiter, in the order of the first such line: a later line only
   * replaces the delimiter, keeping the key's place.
   */
  lemma {:induction false} SplitInfoOrder(ui: seq<MappingRow>)
    ensures forall s :: s in Keys(SplitInfoFor(ui)) <==> FirstSplitRow(ui, s).Some?
    ensures forall a, b :: 0 <= a < b < |Keys(SplitInfoFor(ui))| ==>
              FirstSplitRow(ui, Keys(SplitInfoFor(ui))[a]).Some? &&
              FirstSplitRow(ui, Keys(SplitInfoFor(ui))[b]).Some? &&
              FirstSplitRow(ui, Keys(SplitInfoFor(ui))[a]).value < FirstSplitRow(ui, Keys(SplitInfoFor(ui))[b]).value
  {
    if ui != [] {
      var n := |ui| - 1;
      SplitInfoOrder(ui[..n]);
      var row := ui[n];
      var before := Keys(SplitInfoFor(ui[..n]));
      var after := Keys(SplitInfoFor(ui));
      var grows := row.selected != "" && row.splitSymbol != "" && row.selected !in before;
      assert after == if grows then before + [row.selected] else before;
      forall s ensures s in after <==> FirstSplitRow(ui, s).Some? {
        if FirstSplitRow(ui[..n], s).None? && s in after {
          assert s == row.selected;
        }
      }
      forall a, b | 0 <= a < b < |after|
        ensures FirstSplitRow(ui, after[a]).Some? && FirstSplitRow(ui, after[b]).Some? &&
                FirstSplitRow(ui, after[a]).value < FirstSplitRow(ui, after[b]).value
      {
        assert after[a] == before[a] && after[a] in before;
        if b < |before| {
          assert after[b] == before[b] && after[b] in before;
        } else {
          assert grows && after[b] == row.selected;
          assert FirstSplitRow(ui, after[b]) == Some(n);
        }
      }
    } else {
      assert |Keys(SplitInfoFor(ui))| == 0;
    }
  }

  /** `date_format_info` holds, for each template column, the patterns of its own line. */
  lemma {:induction false} DateInfoForGet(template: seq<string>, ui: seq<MappingRow>)
    requires |ui| == |template| && Distinct(template)
    ensures Valid(DateInfoFor(template, ui))
    ensures forall k :: k in Keys(DateInfoFor(template, ui)) ==> k in template
    ensures forall i :: 0 <= i < |template| ==> Get(DateInfoFor(template, ui), template[i]) == DateEntry(ui[i])
  {
    if ui != [] {
      var n := |ui| - 1;
      assert Distinct(template[..n]);
      DateInfoForGet(template[..n], ui[..n]);
      var rest := DateInfoFor(template[..n], ui[..n]);
      NotEarlier(template, n);
      assert forall x :: x in template[..n] ==> x in template;
      forall i | 0 <= i < |template|
        ensures Get(DateInfoFor(template, ui), template[i]) == DateEntry(ui[i])
      {
        if i < n {
          assert template[..n][i] == template[i] != template[n];
          if DateEntry(ui[n]).Some? {
            PutOther(rest, template[n], DateEntry(ui[n]).value, template[i]);
          }
        }
      }
    }
  }

  /**
   * Storing the two nested dictionaries under their reserved keys keeps the
   * mapping a dictionary, makes them what the converter reads back, and
   * leaves the template-to-source view as it was.
   */
  lemma Assembled(columns: ColumnMapping, splitInfo: Dict<string, string>, dateInfo: Dict<string, DatePair>)
    requires Valid(columns)
    ensures var cm := Put(Put(columns, SplitInfoKey, SplitTable(splitInfo)), DateFormatInfoKey, DateTable(dateInfo));
      && Valid(cm)
      && TemplateToFile(cm) == TemplateToFile(columns)
      && SplitInfoOf(cm) == splitInfo
      && DateInfoOf(cm) == dateInfo
  {
    var withSplits := Put(columns, SplitInfoKey, SplitTable(splitInfo));
    TemplateToFileIgnoresReserved(columns, SplitInfoKey, SplitTable(splitInfo));
    TemplateToFileIgnoresReserved(withSplits, DateFormatInfoKey, DateTable(dateInfo));
    PutOther(withSplits, DateFormatInfoKey, DateTable(dateInfo), SplitInfoKey);
  }

  /**
   * The template-to-source view of the selected pairs: the mapped columns
   * in dialog order, each with its own selection.
   */
  lemma SelectedView(template: seq<string>, ui: seq<MappingRow>)
    requires |ui| == |template| && Distinct(template)
    ensures Valid(SelectedPairs(template, ui))
    ensures var tf := TemplateToFile(SelectedPairs(template, ui));
      && Keys(tf) == MappedColumns(template, ui)
      && (forall i :: 0 <= i < |template| && !Reserved(template[i]) ==>
            Get(tf, template[i]) == (if ui[i].selected != "" then Some(ui[i].selected) else None))
      && (forall k :: k in Keys(tf) ==> k in template)
  {
    var columns := SelectedPairs(template, ui);
    SelectedPairsValid(template, ui);
    SelectedPairsKeys(template, ui);
    forall i | 0 <= i < |template| && !Reserved(template[i])
      ensures Get(TemplateToFile(columns), template[i]) == (if ui[i].selected != "" then Some(ui[i].selected) else None)
    {
      TemplateToFileGet(columns, template[i]);
      SelectedPairsGet(template, ui, i);
    }
  }

  /** The selected pairs never repeat a key. */
  lemma {:induction false} SelectedPairsValid(template: seq<string>, ui: seq<MappingRow>)
    requires |ui| == |template| && Distinct(template)
    ensures Valid(SelectedPairs(template, ui))
  {
    if template != [] {
      var n := |template| - 1;
      assert Distinct(template[..n]);
      SelectedPairsValid(template[..n], ui[..n]);
      var rest := SelectedPairs(template[..n], ui[..n]);
      if ui[n].selected != "" {
        KeysAppend(rest, (template[n], Source(ui[n].selected)));
        NotEarlier(template, n);
      }
    }
  }

  /** Each template column is stored with its own selection, or not at all. */
  lemma {:induction false} SelectedPairsGet(template: seq<string>, ui: seq<MappingRow>, i: nat)
    requires |ui| == |template| && Distinct(template) && i < |template|
    ensures Get(SelectedPairs(template, ui), template[i]) ==
            (if ui[i].selected != "" then Some(Source(ui[i].selected)) else None)
  {
    var n := |template| - 1;
    var rest := SelectedPairs(template[..n], ui[..n]);
    assert Distinct(template[..n]);
    if i < n {
      SelectedPairsGet(template[..n], ui[..n], i);
    } else {
      NotEarlier(template, n);
    }
    if ui[n].selected != "" {
      GetAppend(rest, template[n], Source(ui[n].selected), template[i]);
    }
  }
}

/**
 * Date normalisation: `yyyy-MM-dd`-style patterns are rewritten into
 * strftime directives by sequential token substitution, and a cell is
 * parsed with the input pattern and re-printed with the output pattern.
 *
 * `strptime` and `strftime` are not modelled; they are the parameters
 * `parse` (`None` standing for the `ValueError` of a mismatch) and
 * `format`, over an arbitrary type `D` of parsed date-times.
 */
module DateNormalizer {
  import opened Wrappers
  import opened StringOps
  import opened Tables

  /** The substitutions, longest token first; the order matters. */
  const Replacements: seq<(string, string)> :=
    [("yyyy", "%Y"), ("yy", "%y"), ("MM", "%m"), ("dd", "%d"), ("HH", "%H"), ("mm", "%M"), ("ss", "%S")]

  /** Every substitution replaces a non-empty token with a non-empty directive. */
  predicate Proper(rs: seq<(string, string)>)
  {
    forall k :: 0 <= k < |rs| ==> rs[k].0 != "" && rs[k].1 != ""
  }

  /** The substitutions `rs` applied to `s` one after the other. */
  function ApplyAll(s: string, rs: seq<(string, string)>): string
    requires Proper(rs)
  {
    if rs == [] then s
    else
      var n := |rs| - 1;
      ReplaceAll(ApplyAll(s, rs[..n]), rs[n].0, rs[n].1)
  }

  /** `convert_date_format(fmt)`. */
  function DatePattern(fmt: string): string
  {
    if fmt == "" then fmt else ApplyAll(fmt, Replacements)
  }

  /** The loop of `convert_date_format`, updating `result` one substitution at a time. */
  method ConvertDateFormat(fmt: string) returns (result: string)
    ensures result == DatePattern(fmt)
  {
    if fmt == "" {
      return fmt;
    }
    result := fmt;
    for i := 0 to |Replacements|
      invariant result == ApplyAll(fmt, Replacements[..i])
    {
      assert Replacements[..i + 1][..i] == Replacements[..i];
      result := ReplaceAll(result, Replacements[i].0, Replacements[i].1);
    }
    assert Replacements[..|Replacements|] == Replacements;
  }

  /** Replacing with a non-empty string never empties a string nor fills an empty one. */
  lemma {:induction false} ReplaceAllEmpty(s: string, o: string, n: string)
    requires o != "" && n != ""
    ensures ReplaceAll(s, o, n) == "" <==> s == ""
    decreases |s|
  {
    if |s| >= |o| && s[..|o|] != o {
      ReplaceAllEmpty(s[1..], o, n);
    } else if |s| >= |o| {
      ReplaceAllEmpty(s[|o|..], o, n);
    }
  }

  /** The substitutions keep a pattern empty exactly when it was. */
  lemma {:induction false} ApplyAllEmpty(s: string, rs: seq<(string, string)>)
    requires Proper(rs)
    ensures ApplyAll(s, rs) == "" <==> s == ""
  {
    if rs != [] {
      var n := |rs| - 1;
      assert Proper(rs[..n]);
      ApplyAllEmpty(s, rs[..n]);
      ReplaceAllEmpty(ApplyAll(s, rs[..n]), rs[n].0, rs[n].1);
    }
  }

  /**
   * A converted pattern is empty exactly when the pattern was: the
   * `if input_fmt and output_fmt` test is a test on the patterns as saved.
   */
  lemma DatePatternEmpty(fmt: string)
    ensures DatePattern(fmt) == "" <==> fmt == ""
  {
    if fmt != "" {
      ApplyAllEmpty(fmt, Replacements);
    }
  }

  /** A pattern without any token is left as it is. */
  lemma {:induction false} ApplyAllUntouched(s: string, rs: seq<(string, string)>)
    requires Proper(rs)
    requires forall k :: 0 <= k < |rs| ==> !Contains(s, rs[k].0)
    ensures ApplyAll(s, rs) == s
  {
    if rs != [] {
      var n := |rs| - 1;
      assert Proper(rs[..n]);
      ApplyAllUntouched(s, rs[..n]);
      ReplaceIsJoinOfSplit(s, rs[n].0, rs[n].1);
      SplitWithoutSeparator(s, rs[n].0);
    }
  }

  /** A string without the token's first character is left as it is. */
  lemma {:induction false} ReplaceAbsent(s: string, o: string, n: string)
    requires o != "" && forall i :: 0 <= i < |s| ==> s[i] != o[0]
    ensures ReplaceAll(s, o, n) == s
    decreases |s|
  {
    if |s| >= |o| {
      assert s[..|o|][0] != o[0];
      ReplaceAbsent(s[1..], o, n);
      assert [s[0]] + s[1..] == s;
    }
  }

  /** Once no later substitution changes the intermediate result, it is the final one. */
  lemma {:induction false} ApplyAllSettled(s: string, rs: seq<(string, string)>, k: nat, r: string)
    requires Proper(rs) && k <= |rs|
    requires Proper(rs[..k]) && ApplyAll(s, rs[..k]) == r
    requires forall j :: k <= j < |rs| ==> ReplaceAll(r, rs[j].0, rs[j].1) == r
    ensures ApplyAll(s, rs) == r
    decreases |rs| - k
  {
    if k < |rs| {
      assert rs[..k + 1][..k] == rs[..k];
      assert Proper(rs[..k + 1]);
      ApplyAllSettled(s, rs, k + 1, r);
    } else {
      assert rs[..k] == rs;
    }
  }

  /** A prefix without the token's first character passes through a replacement untouched. */
  lemma {:induction false} ReplaceAfterAbsent(a: string, m: string, o: string, n: string)
    requires o != "" && forall i :: 0 <= i < |a| ==> a[i] != o[0]
    ensures ReplaceAll(a + m, o, n) == a + ReplaceAll(m, o, n)
    decreases |a|
  {
    if a != [] {
      var s := a + m;
      if |s| < |o| {
        assert |m| < |o|;
      } else {
        assert s[..|o|][0] == a[0];
        assert s[1..] == a[1..] + m;
        ReplaceAfterAbsent(a[1..], m, o, n);
      }
    } else {
      assert a + m == m;
    }
  }

  /**
   * A token `o1` whose replacement and surroundings lack the first
   * character of a later token `o2` is replaced whole, and `o2` then finds
   * nothing.
   */
  lemma {:induction false} LongBeforeShort(a: string, b: string, o1: string, n1: string, o2: string, n2: string)
    requires o1 != "" && o2 != ""
    requires forall i :: 0 <= i < |a| ==> a[i] != o1[0] && a[i] != o2[0]
    requires forall i :: 0 <= i < |b| ==> b[i] != o1[0] && b[i] != o2[0]
    requires forall i :: 0 <= i < |n1| ==> n1[i] != o2[0]
    ensures ReplaceAll(ReplaceAll(a + o1 + b, o1, n1), o2, n2) == a + n1 + b
  {
    assert a + o1 + b == a + (o1 + b);
    ReplaceAfterAbsent(a, o1 + b, o1, n1);
    assert (o1 + b)[..|o1|] == o1 && (o1 + b)[|o1|..] == b;
    ReplaceAbsent(b, o1, n1);
    var r := a + (n1 + b);
    assert r == a + n1 + b;
    assert forall i :: 0 <= i < |r| ==> r[i] != o2[0] by {
      forall i | 0 <= i < |r| ensures r[i] != o2[0] {
        if i < |a| {
          assert r[i] == a[i];
        } else if i < |a| + |n1| {
          assert r[i] == n1[i - |a|];
        } else {
          assert r[i] == b[i - |a| - |n1|];
        }
      }
    }
    ReplaceAbsent(r, o2, n2);
  }

  /** Two substitutions, one after the other. */
  lemma ApplyTwo(s: string, rs: seq<(string, string)>)
    requires |rs| == 2 && Proper(rs)
    ensures ApplyAll(s, rs) == ReplaceAll(ReplaceAll(s, rs[0].0, rs[0].1), rs[1].0, rs[1].1)
  {
    var first := rs[..1];
    assert first[..0] == [] && first[0] == rs[0] && Proper(first);
    assert ApplyAll(s, first[..0]) == s;
    assert ApplyAll(s, first) == ReplaceAll(s, rs[0].0, rs[0].1);
  }

  /**
   * The four-digit year token is substituted whole before the two-digit
   * one can see it: a `yyyy` run with no other `y` around it becomes `%Y`,
   * never `%y%y`.
   */
  lemma YearTokens(a: string, b: string)
    requires forall i :: 0 <= i < |a| ==> a[i] != 'y'
    requires forall i :: 0 <= i < |b| ==> b[i] != 'y'
    ensures Proper(Replacements[..2])
    ensures ApplyAll(a + "yyyy" + b, Replacements[..2]) == a + "%Y" + b
  {
    var rs := Replacements[..2];
    assert rs[0] == ("yyyy", "%Y") && rs[1] == ("yy", "%y");
    ApplyTwo(a + "yyyy" + b, rs);
    LongBeforeShort(a, b, "yyyy", "%Y", "yy", "%y");
  }

  /**
   * When nothing else in the pattern is a token, a lone `yyyy` run is the
   * whole conversion: it becomes `%Y` and the rest is kept.
   */
  lemma LongestTokenFirst(a: string, b: string)
    requires forall i :: 0 <= i < |a| ==> a[i] !in "yMdHms"
    requires forall i :: 0 <= i < |b| ==> b[i] !in "yMdHms"
    ensures DatePattern(a + "yyyy" + b) == a + "%Y" + b
  {
    var rs := Replacements;
    var r := a + "%Y" + b;
    YearTokens(a, b);
    forall j | 2 <= j < |rs| ensures ReplaceAll(r, rs[j].0, rs[j].1) == r {
      assert rs[j].0[0] in "MdHms";
      ReplaceAbsent(r, rs[j].0, rs[j].1);
    }
    ApplyAllSettled(a + "yyyy" + b, rs, 2, r);
  }

  /**
   * `convert_date(val)`: a missing or blank cell becomes `''`; otherwise
   * the stripped text is parsed with the input pattern and printed with the
   * output pattern, and text that does not parse is returned unstripped.
   */
  function ConvertDate<D>(val: Cell, inFmt: string, outFmt: string,
                          parse: (string, string) -> Option<D>, format: (D, string) -> string): (r: string)
    ensures val.Null? ==> r == ""
    ensures val.Text? && Strip(val.s) == "" ==> r == ""
    ensures val.Text? && Strip(val.s) != "" && parse(Strip(val.s), inFmt).None? ==> r == val.s
    ensures val.Text? && Strip(val.s) != "" && parse(Strip(val.s), inFmt).Some? ==>
              r == format(parse(Strip(val.s), inFmt).value, outFmt)
  {
    match val
    case Null => ""
    case Text(s) =>
      if Strip(s) == "" then ""
      else
        match parse(Strip(s), inFmt)
        case None => s
        case Some(dt) => format(dt, outFmt)
  }

  /**
   * Re-running the normalisation on its own output, with the output
   * pattern on both sides, changes nothing when printing and parsing with
   * that pattern round-trip and print no surrounding whitespace.
   */
  lemma ConvertDateStable<D>(val: Cell, d: D, inFmt: string, outFmt: string,
                             parse: (string, string) -> Option<D>, format: (D, string) -> string)
    requires val.Text? && Strip(val.s) != "" && parse(Strip(val.s), inFmt) == Some(d)
    requires Strip(format(d, outFmt)) == format(d, outFmt)
    requires format(d, outFmt) != "" ==> parse(format(d, outFmt), outFmt) == Some(d)
    ensures var once := ConvertDate(val, inFmt, outFmt, parse, format);
            ConvertDate(Text(once), outFmt, outFmt, parse, format) == once
  {
  }
}

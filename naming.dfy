/**
 * The name under which a converted sheet is saved: the input file's name
 * without directory and extension, followed by `_<sheet>` when the
 * workbook has more than one sheet, and `.xlsx`.
 *
 * Paths are taken with `/` as the only separator (`posixpath`).
 */
module OutputNames {
  import opened Wrappers

  /** `os.path.basename(p)`: what follows the last separator. */
  function Basename(p: string): string
  {
    if p == [] then []
    else if p[|p| - 1] == '/' then []
    else Basename(p[..|p| - 1]) + [p[|p| - 1]]
  }

  /**
   * The basename is a suffix of the path, preceded by `/` unless it is
   * the whole path.
   */
  lemma {:induction false} BasenameSuffix(p: string)
    ensures |Basename(p)| <= |p| && Basename(p) == p[|p| - |Basename(p)|..]
    ensures |Basename(p)| < |p| ==> p[|p| - |Basename(p)| - 1] == '/'
  {
    if p != [] && p[|p| - 1] != '/' {
      var q := p[..|p| - 1];
      BasenameSuffix(q);
      var rest := Basename(q);
      assert Basename(p) == rest + [p[|p| - 1]];
      assert q[|q| - |rest|..] + [p[|p| - 1]] == p[|p| - 1 - |rest|..];
    }
  }

  /** The basename holds no separator. */
  lemma {:induction false} BasenameNoSeparator(p: string)
    ensures '/' !in Basename(p)
  {
    if p != [] && p[|p| - 1] != '/' {
      var q := p[..|p| - 1];
      BasenameNoSeparator(q);
      var b := Basename(p);
      assert b == Basename(q) + [p[|p| - 1]];
      forall i | 0 <= i < |b| ensures b[i] != '/' {
        if i < |b| - 1 {
          assert b[i] == Basename(q)[i] && Basename(q)[i] in Basename(q);
        }
      }
    }
  }

  /** `s.rfind(c)`: the last position holding `c`, if any. */
  function LastIndex(s: string, c: char): (r: Option<nat>)
    ensures r.None? <==> c !in s
    ensures r.Some? ==> r.value < |s| && s[r.value] == c &&
                        forall k :: r.value < k < |s| ==> s[k] != c
  {
    if s == [] then None
    else if s[|s| - 1] == c then Some(|s| - 1)
    else
      var r := LastIndex(s[..|s| - 1], c);
      assert forall x :: x in s ==> x in s[..|s| - 1] || x == s[|s| - 1];
      r
  }

  /** `s[..n]` has a character other than `.`. */
  predicate HasNonDot(s: string, n: nat)
    requires n <= |s|
  {
    exists k :: 0 <= k < n && s[k] != '.'
  }

  /**
   * `os.path.splitext(name)[0]` for a name without separators: the text
   * before the last `.`, unless everything before that dot is dots (a
   * leading-dot name has no extension), in which case the whole name.
   */
  function Stem(name: string): string
  {
    match LastIndex(name, '.')
    case None => name
    case Some(d) => if HasNonDot(name, d) then name[..d] else name
  }

  /** The saved file's name (within the save directory). */
  function OutputName(path: string, sheet: string, sheetCount: nat): string
  {
    Stem(Basename(path)) + (if sheetCount > 1 then "_" + sheet else "") + ".xlsx"
  }

  /**
   * Round trip: the stem of `stem.ext` is `stem`, for an extension without
   * dots and a stem that is not all dots.
   */
  lemma StemOfExtension(stem: string, ext: string)
    requires '.' !in ext && HasNonDot(stem, |stem|)
    ensures Stem(stem + "." + ext) == stem
  {
    var name := stem + "." + ext;
    var k :| 0 <= k < |stem| && stem[k] != '.';
    assert name[k] == stem[k];
    forall j | |stem| < j < |name| ensures name[j] != '.' {
      assert name[j] == ext[j - |stem| - 1];
    }
    assert name[|stem|] == '.';
    assert name[..|stem|] == stem;
  }

  /** A name whose only dot is its first character (`.bashrc`) has no extension. */
  lemma StemOfDotName(name: string)
    requires |name| >= 2 && name[0] == '.' && '.' !in name[1..]
    ensures Stem(name) == name
  {
    forall k | 1 <= k < |name| ensures name[k] != '.' {
      assert name[k] == name[1..][k - 1];
    }
    assert LastIndex(name, '.') == Some(0);
  }

  /**
   * The name of a saved file for `dir/stem.ext`: the stem, the sheet
   * suffix exactly when the workbook has several sheets, and `.xlsx`.
   */
  lemma OutputNameOf(dir: string, stem: string, ext: string, sheet: string, sheetCount: nat)
    requires dir == "" || dir[|dir| - 1] == '/'
    requires '/' !in stem && '/' !in ext && '.' !in ext && HasNonDot(stem, |stem|)
    ensures OutputName(dir + stem + "." + ext, sheet, sheetCount) ==
            stem + (if sheetCount > 1 then "_" + sheet else "") + ".xlsx"
  {
    var base := stem + "." + ext;
    assert '/' !in base by {
      forall i | 0 <= i < |base| ensures base[i] != '/' {
        if i < |stem| {
          assert base[i] == stem[i] && stem[i] in stem;
        } else if i > |stem| {
          assert base[i] == ext[i - |stem| - 1] && ext[i - |stem| - 1] in ext;
        }
      }
    }
    assert dir + stem + "." + ext == dir + base;
    BasenameOf(dir, base);
    StemOfExtension(stem, ext);
  }

  /** A character other than the separator extends the basename. */
  lemma BasenameSnoc(p: string, c: char)
    requires c != '/'
    ensures Basename(p + [c]) == Basename(p) + [c]
  {
    assert (p + [c])[..|p|] == p;
  }

  /** The basename of `dir/base` is `base` when `base` has no separator. */
  lemma {:induction false} BasenameOf(dir: string, base: string)
    requires dir == "" || dir[|dir| - 1] == '/'
    requires '/' !in base
    ensures Basename(dir + base) == base
  {
    if base == [] {
      assert dir + base == dir;
    } else {
      var n := |base| - 1;
      var front := base[..n];
      assert base[n] in base;
      assert '/' !in front by {
        forall i | 0 <= i < n ensures front[i] != '/' {
          assert front[i] == base[i] && base[i] in base;
        }
      }
      BasenameOf(dir, front);
      assert dir + base == (dir + front) + [base[n]];
      BasenameSnoc(dir + front, base[n]);
      assert front + [base[n]] == base;
    }
  }

  /**
   * Two sheets of one workbook are saved under the same name exactly when
   * the workbook has a single sheet or the sheet names agree.
   */
  lemma OutputNamesCollide(path: string, s1: string, s2: string, sheetCount: nat)
    ensures OutputName(path, s1, sheetCount) == OutputName(path, s2, sheetCount) <==>
            sheetCount <= 1 || s1 == s2
  {
    if sheetCount > 1 && OutputName(path, s1, sheetCount) == OutputName(path, s2, sheetCount) {
      var stem := Stem(Basename(path));
      var n1, n2 := OutputName(path, s1, sheetCount), OutputName(path, s2, sheetCount);
      assert |s1| == |s2|;
      assert n1[|stem| + 1..|stem| + 1 + |s1|] == s1;
      assert n2[|stem| + 1..|stem| + 1 + |s2|] == s2;
    }
  }
}

/**
 * The few Python `str` methods the converter relies on: `strip()`,
 * `strip(chars)`, `lower()`, `split(sep)`, `sep.join(...)` and
 * `replace(old, new)`.
 */
module StringOps {

  /** Python's `str.isspace()` for one character: the characters `strip()` removes. */
  predicate IsSpace(c: char)
  {
    var n := c as int;
    (0x09 <= n <= 0x0D) || (0x1C <= n <= 0x20) || n == 0x85 || n == 0xA0 ||
    n == 0x1680 || (0x2000 <= n <= 0x200A) || n == 0x2028 || n == 0x2029 ||
    n == 0x202F || n == 0x205F || n == 0x3000
  }

  /** Drops characters satisfying `drop` from the front. */
  function TrimLeft(s: string, drop: char -> bool): string
  {
    if s != [] && drop(s[0]) then TrimLeft(s[1..], drop) else s
  }

  /** Drops characters satisfying `drop` from the back. */
  function TrimRight(s: string, drop: char -> bool): string
  {
    if s != [] && drop(s[|s| - 1]) then TrimRight(s[..|s| - 1], drop) else s
  }

  /** `TrimLeft` removes exactly the longest prefix of droppable characters. */
  lemma {:induction false} TrimLeftSpec(s: string, drop: char -> bool)
    ensures var r := TrimLeft(s, drop);
            |r| <= |s| && r == s[|s| - |r|..] &&
            (r != [] ==> !drop(r[0])) &&
            forall i :: 0 <= i < |s| - |r| ==> drop(s[i])
  {
    if s != [] && drop(s[0]) {
      var t, r := s[1..], TrimLeft(s, drop);
      TrimLeftSpec(t, drop);
      assert r == TrimLeft(t, drop);
      assert t[|t| - |r|..] == s[|s| - |r|..];
      forall i | 0 <= i < |s| - |r| ensures drop(s[i]) {
        if i > 0 {
          assert s[i] == t[i - 1];
        }
      }
    }
  }

  /** `TrimRight` removes exactly the longest suffix of droppable characters. */
  lemma {:induction false} TrimRightSpec(s: string, drop: char -> bool)
    ensures var r := TrimRight(s, drop);
            |r| <= |s| && r == s[..|r|] &&
            (r != [] ==> !drop(r[|r| - 1])) &&
            forall i :: |r| <= i < |s| ==> drop(s[i])
  {
    if s != [] && drop(s[|s| - 1]) {
      var t, r := s[..|s| - 1], TrimRight(s, drop);
      TrimRightSpec(t, drop);
      assert r == TrimRight(t, drop);
      assert t[..|r|] == s[..|r|];
      forall i | |r| <= i < |s| ensures drop(s[i]) {
        if i < |s| - 1 {
          assert s[i] == t[i];
        }
      }
    }
  }

  /** `s.strip()`: leading and trailing whitespace removed. */
  function Strip(s: string): string
  {
    TrimRight(TrimLeft(s, IsSpace), IsSpace)
  }

  /**
   * `s.strip(chars)`: every leading and trailing character that occurs
   * anywhere in `chars` is removed; `chars` is a set of characters, not a
   * substring.
   */
  function StripChars(s: string, chars: string): string
  {
    TrimRight(TrimLeft(s, c => c in chars), c => c in chars)
  }

  /**
   * `strip()` yields a contiguous piece of its input with no whitespace at
   * either end, having removed only whitespace.
   */
  lemma StripSpec(s: string)
    ensures var r, i := Strip(s), |s| - |TrimLeft(s, IsSpace)|;
            (r != [] ==> !IsSpace(r[0]) && !IsSpace(r[|r| - 1])) &&
            0 <= i <= |s| - |r| && r == s[i..i + |r|] &&
            (forall k :: 0 <= k < i ==> IsSpace(s[k])) &&
            (forall k :: i + |r| <= k < |s| ==> IsSpace(s[k]))
  {
    var l := TrimLeft(s, IsSpace);
    TrimLeftSpec(s, IsSpace);
    TrimRightSpec(l, IsSpace);
    var r := Strip(s);
    var i := |s| - |l|;
    assert r == s[i..i + |r|];
    assert forall k :: i + |r| <= k < |s| ==> s[k] == l[k - i];
  }

  /**
   * `strip(chars)` yields a contiguous piece of its input with no
   * character of `chars` at either end, having removed only characters of
   * `chars`.
   */
  lemma StripCharsSpec(s: string, chars: string)
    ensures var r, i := StripChars(s, chars), |s| - |TrimLeft(s, c => c in chars)|;
            (r != [] ==> r[0] !in chars && r[|r| - 1] !in chars) &&
            0 <= i <= |s| - |r| && r == s[i..i + |r|] &&
            (forall k :: 0 <= k < i ==> s[k] in chars) &&
            (forall k :: i + |r| <= k < |s| ==> s[k] in chars)
  {
    var l := TrimLeft(s, c => c in chars);
    TrimLeftSpec(s, c => c in chars);
    TrimRightSpec(l, c => c in chars);
    var r := StripChars(s, chars);
    var i := |s| - |l|;
    assert r == s[i..i + |r|];
    assert forall k :: i + |r| <= k < |s| ==> s[k] == l[k - i];
  }

  /** Python's `str.lower()` on one character (ASCII letters only). */
  function LowerChar(c: char): char
  {
    if 'A' <= c <= 'Z' then (c as int + 32) as char else c
  }

  /** `s.lower()`. */
  function Lower(s: string): string
  {
    if s == [] then [] else [LowerChar(s[0])] + Lower(s[1..])
  }

  /** `lower()` maps each character on its own and keeps the length. */
  lemma {:induction false} LowerSpec(s: string)
    ensures |Lower(s)| == |s| && forall i :: 0 <= i < |s| ==> Lower(s)[i] == LowerChar(s[i])
  {
    if s != [] {
      LowerSpec(s[1..]);
    }
  }

  /** `s.strip().lower()`, the normal form used to compare column names. */
  function Normalize(s: string): string
  {
    Lower(Strip(s))
  }

  /** Whether `d` occurs in `s` starting at index `i`. */
  predicate OccursAt(s: string, d: string, i: int)
  {
    0 <= i <= |s| - |d| && s[i..i + |d|] == d
  }

  /** Whether `d` occurs in `s` as a substring. */
  ghost predicate Contains(s: string, d: string)
  {
    exists i :: OccursAt(s, d, i)
  }

  /**
   * `s.split(d)` for a non-empty separator: cut at every occurrence of `d`,
   * scanning left to right without overlaps. (Python raises on an empty
   * separator; callers handle that case before calling.)
   */
  function Split(s: string, d: string): (ps: seq<string>)
    requires d != ""
    ensures |ps| >= 1
    decreases |s|
  {
    if |s| < |d| then [s]
    else if s[..|d|] == d then [""] + Split(s[|d|..], d)
    else
      var rest := Split(s[1..], d);
      [[s[0]] + rest[0]] + rest[1..]
  }

  /** `d.join(ps)`. */
  function Join(ps: seq<string>, d: string): string
    requires |ps| >= 1
  {
    if |ps| == 1 then ps[0] else ps[0] + d + Join(ps[1..], d)
  }

  /** `s.replace(o, n)` for a non-empty `o`: every occurrence, left to right, without overlaps. */
  function ReplaceAll(s: string, o: string, n: string): string
    requires o != ""
    decreases |s|
  {
    if |s| < |o| then s
    else if s[..|o|] == o then n + ReplaceAll(s[|o|..], o, n)
    else [s[0]] + ReplaceAll(s[1..], o, n)
  }

  /** Prepending a character to the first piece prepends it to the joined string. */
  lemma JoinConsFirst(c: char, ps: seq<string>, d: string)
    requires |ps| >= 1
    ensures Join([[c] + ps[0]] + ps[1..], d) == [c] + Join(ps, d)
  {
    var qs := [[c] + ps[0]] + ps[1..];
    assert qs[0] == [c] + ps[0] && qs[1..] == ps[1..];
  }

  /** An empty first piece contributes only the separator. */
  lemma JoinConsEmpty(ps: seq<string>, d: string)
    requires |ps| >= 1
    ensures Join([""] + ps, d) == d + Join(ps, d)
  {
    assert ([""] + ps)[1..] == ps;
  }

  /** Joining the pieces of a split with the same separator gives back the input. */
  lemma {:induction false} SplitJoin(s: string, d: string)
    requires d != ""
    ensures Join(Split(s, d), d) == s
    decreases |s|
  {
    if |s| < |d| {
    } else if s[..|d|] == d {
      var rest := Split(s[|d|..], d);
      assert Split(s, d) == [""] + rest;
      SplitJoin(s[|d|..], d);
      JoinConsEmpty(rest, d);
      assert s == d + s[|d|..];
    } else {
      var rest := Split(s[1..], d);
      assert Split(s, d) == [[s[0]] + rest[0]] + rest[1..];
      SplitJoin(s[1..], d);
      JoinConsFirst(s[0], rest, d);
      assert s == [s[0]] + s[1..];
    }
  }

  /** The first piece of a split is a prefix of the input. */
  lemma {:induction false} FirstPieceIsPrefix(s: string, d: string)
    requires d != ""
    ensures |Split(s, d)[0]| <= |s| && Split(s, d)[0] == s[..|Split(s, d)[0]|]
    decreases |s|
  {
    if |s| >= |d| && s[..|d|] != d {
      var tail := s[1..];
      var p := Split(tail, d)[0];
      FirstPieceIsPrefix(tail, d);
      assert Split(s, d)[0] == [s[0]] + p;
      assert p == tail[..|p|];
      assert s[..|p| + 1] == [s[0]] + tail[..|p|];
    }
  }

  /** No piece of a split contains the separator. */
  lemma {:induction false} SplitPiecesAvoidSeparator(s: string, d: string)
    requires d != ""
    ensures forall p :: p in Split(s, d) ==> !Contains(p, d)
    decreases |s|
  {
    var ps := Split(s, d);
    if |s| < |d| {
      assert ps == [s];
    } else if s[..|d|] == d {
      SplitPiecesAvoidSeparator(s[|d|..], d);
      assert !Contains("", d);
    } else {
      var rest := Split(s[1..], d);
      SplitPiecesAvoidSeparator(s[1..], d);
      var q := [s[0]] + rest[0];
      assert ps == [q] + rest[1..];
      assert rest[0] in rest;
      forall i | 0 <= i <= |q| - |d| ensures !OccursAt(q, d, i) {
        if i == 0 {
          FirstPieceIsPrefix(s, d);
          assert q[..|d|] == s[..|d|];
        } else {
          assert q[i..i + |d|] == rest[0][i - 1..i - 1 + |d|];
          assert !OccursAt(rest[0], d, i - 1);
        }
      }
      forall p | p in ps ensures !Contains(p, d) {
        if p != q {
          assert p in rest;
        }
      }
    }
  }

  /**
   * No occurrence of `d` starts inside `p` when `p` is followed by `d`,
   * not even one running into that `d`.
   */
  ghost predicate NoEarlierCut(p: string, d: string)
    requires d != ""
  {
    !Contains(p + d[..|d| - 1], d)
  }

  /**
   * A character in front of a piece with no earlier cut adds none, when
   * the text it begins does not start with the separator.
   */
  lemma NoEarlierCutCons(c: char, p: string, d: string, s: string)
    requires d != "" && NoEarlierCut(p, d)
    requires |p| + |d| <= |s| && s[..|p| + |d|] == [c] + p + d[..|d| - 1] && s[..|d|] != d
    ensures NoEarlierCut([c] + p, d)
  {
    var u := p + d[..|d| - 1];
    var t := [c] + u;
    assert t == [c] + p + d[..|d| - 1];
    forall i | 0 <= i <= |t| - |d| ensures !OccursAt(t, d, i) {
      if i == 0 {
        assert t[..|d|] == s[..|d|];
      } else {
        var here, there := t[i..i + |d|], u[i - 1..i - 1 + |d|];
        assert forall j :: 0 <= j < |d| ==> here[j] == there[j];
        assert here == there;
        assert !OccursAt(u, d, i - 1);
      }
    }
  }

  /** The first cut is at the leftmost occurrence of the separator. */
  lemma {:induction false} FirstCutLeftmost(s: string, d: string)
    requires d != "" && |Split(s, d)| > 1
    ensures NoEarlierCut(Split(s, d)[0], d)
    decreases |s|
  {
    if s[..|d|] == d {
      assert Split(s, d)[0] == "" && |"" + d[..|d| - 1]| < |d|;
    } else {
      var rest := Split(s[1..], d);
      assert Split(s, d) == [[s[0]] + rest[0]] + rest[1..];
      FirstCutLeftmost(s[1..], d);
      SplitJoin(s[1..], d);
      var p, more := rest[0], Join(rest[1..], d);
      assert Join(rest, d) == p + d + more;
      assert s == [s[0]] + p + d + more;
      assert s[..|p| + |d|] == [s[0]] + p + d[..|d| - 1];
      NoEarlierCutCons(s[0], p, d, s);
    }
  }

  /** The split cuts at the leftmost occurrence of the separator, every time. */
  lemma {:induction false} SplitCutsLeftmost(s: string, d: string)
    requires d != ""
    ensures forall k :: 0 <= k < |Split(s, d)| - 1 ==> NoEarlierCut(Split(s, d)[k], d)
    decreases |s|
  {
    var ps := Split(s, d);
    if |ps| > 1 {
      FirstCutLeftmost(s, d);
    }
    if |s| >= |d| {
      var tail := if s[..|d|] == d then s[|d|..] else s[1..];
      var rest := Split(tail, d);
      SplitCutsLeftmost(tail, d);
      assert ps[1..] == rest || ps[1..] == rest[1..];
      forall k | 1 <= k < |ps| - 1 ensures NoEarlierCut(ps[k], d) {
        assert ps[k] == ps[1..][k - 1];
        if ps[1..] == rest {
          assert NoEarlierCut(rest[k - 1], d);
        } else {
          assert ps[1..][k - 1] == rest[k];
          assert NoEarlierCut(rest[k], d);
        }
      }
    }
  }

  /** A string without the separator splits into itself alone. */
  lemma {:induction false} SplitWithoutSeparator(s: string, d: string)
    requires d != "" && !Contains(s, d)
    ensures Split(s, d) == [s]
    decreases |s|
  {
    if |s| >= |d| {
      assert s[0..0 + |d|] == s[..|d|];
      assert !OccursAt(s, d, 0);
      forall i | 0 <= i <= |s| - 1 - |d| ensures !OccursAt(s[1..], d, i) {
        assert s[1..][i..i + |d|] == s[i + 1..i + 1 + |d|];
        assert !OccursAt(s, d, i + 1);
      }
      SplitWithoutSeparator(s[1..], d);
      assert [s[0]] + s[1..] == s;
    }
  }

  /** `s.replace(o, n)` is `n.join(s.split(o))`. */
  lemma {:induction false} ReplaceIsJoinOfSplit(s: string, o: string, n: string)
    requires o != ""
    ensures ReplaceAll(s, o, n) == Join(Split(s, o), n)
    decreases |s|
  {
    if |s| < |o| {
    } else if s[..|o|] == o {
      ReplaceIsJoinOfSplit(s[|o|..], o, n);
    } else {
      var rest := Split(s[1..], o);
      ReplaceIsJoinOfSplit(s[1..], o, n);
      var ps := Split(s, o);
      if |rest| > 1 {
        assert ps[1..] == rest[1..];
        assert Join(ps, n) == ([s[0]] + rest[0]) + n + Join(rest[1..], n);
      }
    }
  }
}

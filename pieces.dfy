/**
 * The piece list of one split cell: the value is cut at every occurrence
 * of the delimiter, each fragment is trimmed of whitespace, of delimiter
 * characters and of whitespace again, empty fragments are dropped, and a
 * value with no fragment left is kept whole. A missing cell gives one
 * empty piece. Python's `split` raises on an empty delimiter; that is the
 * `None` result.
 */
module SplitPieces {
  import opened Wrappers
  import opened StringOps
  import opened Tables

  /** `v.strip().strip(d).strip()`. */
  function Clean(v: string, d: string): string
  {
    Strip(StripChars(Strip(v), d))
  }

  /** `[c for c in (clean(v) for v in vs) if c]`, in order. */
  function CleanPieces(vs: seq<string>, d: string): (r: seq<string>)
    ensures |r| <= |vs|
    ensures forall k :: 0 <= k < |r| ==> r[k] != ""
  {
    if vs == [] then []
    else
      var rest := CleanPieces(vs[1..], d);
      var c := Clean(vs[0], d);
      if c != "" then [c] + rest else rest
  }

  /** The list `split_values_dict[col]` receives for one cell, or `None` when the split raises. */
  function Pieces(c: Cell, d: string): (r: Option<seq<string>>)
    ensures c.Null? ==> r == Some([""])
    ensures c.Text? ==> (r.None? <==> d == "")
    ensures r.Some? ==> |r.value| >= 1
  {
    match c
    case Null => Some([""])
    case Text(s) =>
      if d == "" then None
      else
        var vs := CleanPieces(Split(s, d), d);
        if vs != [] then Some(vs) else Some([s])
  }

  /** Every surviving fragment is one of the cleaned split pieces. */
  lemma {:induction false} CleanPiecesFrom(vs: seq<string>, d: string)
    ensures forall c :: c in CleanPieces(vs, d) ==> exists v :: v in vs && c == Clean(v, d)
  {
    if vs != [] {
      CleanPiecesFrom(vs[1..], d);
      forall c | c in CleanPieces(vs, d) ensures exists v :: v in vs && c == Clean(v, d) {
        if c != Clean(vs[0], d) {
          assert c in CleanPieces(vs[1..], d);
          var v :| v in vs[1..] && c == Clean(v, d);
          assert v in vs;
        }
      }
    }
  }

  /** How many of the fragments clean to something non-blank. */
  function Kept(vs: seq<string>, d: string): nat
  {
    if vs == [] then 0 else (if Clean(vs[0], d) != "" then 1 else 0) + Kept(vs[1..], d)
  }

  /** The count of kept fragments adds up over a concatenation. */
  lemma {:induction false} KeptAppend(a: seq<string>, b: seq<string>, d: string)
    ensures Kept(a + b, d) == Kept(a, d) + Kept(b, d)
  {
    if a != [] {
      assert (a + b)[0] == a[0] && (a + b)[1..] == a[1..] + b;
      KeptAppend(a[1..], b, d);
    } else {
      assert a + b == b;
    }
  }

  /** Only fragments with a non-blank cleaning survive: one piece per such fragment. */
  lemma {:induction false} CleanPiecesCount(vs: seq<string>, d: string)
    ensures |CleanPieces(vs, d)| == Kept(vs, d)
  {
    if vs != [] {
      CleanPiecesCount(vs[1..], d);
    }
  }

  /**
   * Every fragment whose cleaning is non-blank survives, as the piece
   * whose position is the number of surviving fragments before it.
   */
  lemma {:induction false} CleanPiecesKeep(vs: seq<string>, d: string, k: nat)
    requires k < |vs| && Clean(vs[k], d) != ""
    ensures Kept(vs[..k], d) < |CleanPieces(vs, d)|
    ensures CleanPieces(vs, d)[Kept(vs[..k], d)] == Clean(vs[k], d)
  {
    if k == 0 {
      assert vs[..0] == [];
    } else {
      var rest := CleanPieces(vs[1..], d);
      var r := CleanPieces(vs, d);
      CleanPiecesKeep(vs[1..], d, k - 1);
      assert vs[1..][k - 1] == vs[k];
      var before := Kept(vs[1..][..k - 1], d);
      assert vs[..k][0] == vs[0] && vs[..k][1..] == vs[1..][..k - 1];
      if Clean(vs[0], d) != "" {
        assert r == [Clean(vs[0], d)] + rest;
        assert Kept(vs[..k], d) == 1 + before;
        assert r[1 + before] == rest[before];
      } else {
        assert r == rest;
        assert Kept(vs[..k], d) == before;
      }
    }
  }

  /** The surviving fragments keep their order: a later one lands at a later position. */
  lemma KeptOrder(vs: seq<string>, d: string, k: nat, k2: nat)
    requires k < k2 <= |vs| && Clean(vs[k], d) != ""
    ensures Kept(vs[..k], d) < Kept(vs[..k2], d)
  {
    assert vs[..k2] == vs[..k] + vs[k..k2];
    KeptAppend(vs[..k], vs[k..k2], d);
    assert vs[k..k2][0] == vs[k];
  }

  /** A cleaned fragment has no whitespace at either end. */
  lemma CleanIsTrimmed(v: string, d: string)
    ensures var c := Clean(v, d); c != "" ==> !IsSpace(c[0]) && !IsSpace(c[|c| - 1])
  {
    StripSpec(StripChars(Strip(v), d));
  }

  /** A fragment that is already trimmed and has no delimiter character is its own cleaning. */
  lemma CleanOfClean(v: string, d: string)
    requires v != "" && !IsSpace(v[0]) && !IsSpace(v[|v| - 1])
    requires forall k :: 0 <= k < |v| ==> v[k] !in d
    ensures Clean(v, d) == v
  {
    assert TrimLeft(v, IsSpace) == v;
    assert TrimRight(v, IsSpace) == v;
    assert TrimLeft(v, c => c in d) == v;
    assert TrimRight(v, c => c in d) == v;
  }

  /**
   * The pieces of a present value: either the value is kept whole because
   * no fragment survived cleaning, or every piece is a non-empty,
   * whitespace-trimmed cleaning of a split fragment.
   */
  lemma PiecesOfText(s: string, d: string)
    requires d != ""
    ensures var ps := Pieces(Text(s), d).value;
            (CleanPieces(Split(s, d), d) == [] && ps == [s]) ||
            (ps == CleanPieces(Split(s, d), d) &&
             forall k :: 0 <= k < |ps| ==>
               ps[k] != "" && !IsSpace(ps[k][0]) && !IsSpace(ps[k][|ps[k]| - 1]) &&
               exists v :: v in Split(s, d) && ps[k] == Clean(v, d))
  {
    var vs := CleanPieces(Split(s, d), d);
    CleanPiecesFrom(Split(s, d), d);
    forall k | 0 <= k < |vs|
      ensures !IsSpace(vs[k][0]) && !IsSpace(vs[k][|vs[k]| - 1]) &&
              exists v :: v in Split(s, d) && vs[k] == Clean(v, d)
    {
      assert vs[k] in vs;
      var v :| v in Split(s, d) && vs[k] == Clean(v, d);
      CleanIsTrimmed(v, d);
    }
  }

  /** A list whose every fragment cleans to nothing leaves no piece. */
  lemma {:induction false} CleanPiecesAllBlank(vs: seq<string>, d: string)
    requires forall v :: v in vs ==> Clean(v, d) == ""
    ensures CleanPieces(vs, d) == []
  {
    if vs != [] {
      assert forall v :: v in vs[1..] ==> v in vs;
      CleanPiecesAllBlank(vs[1..], d);
    }
  }

  /** When no fragment survives, the value is kept whole and unstripped. */
  lemma AllBlankKeptWhole(s: string, d: string)
    requires d != "" && forall v :: v in Split(s, d) ==> Clean(v, d) == ""
    ensures Pieces(Text(s), d) == Some([s])
  {
    CleanPiecesAllBlank(Split(s, d), d);
  }

  /** `d.join(ps).split(d) == ps` for a delimiter none of whose characters occurs in a piece. */
  lemma {:induction false} SplitOfJoin(ps: seq<string>, d: string)
    requires |ps| >= 1 && d != ""
    requires forall k, i :: 0 <= k < |ps| && 0 <= i < |ps[k]| ==> ps[k][i] !in d
    ensures Split(Join(ps, d), d) == ps
    decreases |Join(ps, d)|
  {
    var s := Join(ps, d);
    if |ps[0]| == 0 {
      if |ps| == 1 {
        assert s == "";
      } else {
        assert s == d + Join(ps[1..], d);
        assert s[..|d|] == d;
        assert s[|d|..] == Join(ps[1..], d);
        SplitOfJoin(ps[1..], d);
      }
    } else if |ps| == 1 && |s| < |d| {
      assert s == ps[0];
    } else {
      var ps' := ps[0 := ps[0][1..]];
      assert ps'[1..] == ps[1..];
      assert s == [ps[0][0]] + Join(ps', d);
      assert d[0] in d && s[0] == ps[0][0];
      assert |s| >= |d| && s[..|d|] != d;
      assert s[1..] == Join(ps', d);
      assert forall k, i :: 0 <= k < |ps'| && 0 <= i < |ps'[k]| ==> ps'[k][i] !in d by {
        forall k, i | 0 <= k < |ps'| && 0 <= i < |ps'[k]| ensures ps'[k][i] !in d {
          if k == 0 {
            assert ps'[0][i] == ps[0][i + 1];
          }
        }
      }
      SplitOfJoin(ps', d);
      assert [ps[0][0]] + ps'[0] == ps[0];
      assert [[ps[0][0]] + ps'[0]] + ps'[1..] == ps;
    }
  }

  /** Cleaning a list of already clean, non-empty fragments changes nothing. */
  lemma {:induction false} CleanPiecesOfClean(ps: seq<string>, d: string)
    requires forall k :: 0 <= k < |ps| ==> ps[k] != "" && Clean(ps[k], d) == ps[k]
    ensures CleanPieces(ps, d) == ps
  {
    if ps != [] {
      CleanPiecesOfClean(ps[1..], d);
    }
  }

  /**
   * Round trip: values joined with a delimiter from non-empty, trimmed
   * fragments free of every character of that delimiter split back into
   * exactly those fragments.
   */
  lemma PiecesOfJoin(ps: seq<string>, d: string)
    requires |ps| >= 1 && d != ""
    requires forall k :: 0 <= k < |ps| ==>
               ps[k] != "" && !IsSpace(ps[k][0]) && !IsSpace(ps[k][|ps[k]| - 1])
    requires forall k, i :: 0 <= k < |ps| && 0 <= i < |ps[k]| ==> ps[k][i] !in d
    ensures Pieces(Text(Join(ps, d)), d) == Some(ps)
  {
    SplitOfJoin(ps, d);
    forall k | 0 <= k < |ps| ensures Clean(ps[k], d) == ps[k] {
      CleanOfClean(ps[k], d);
    }
    CleanPiecesOfClean(ps, d);
  }
}

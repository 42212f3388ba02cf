/** The order in which folders are processed (src/main.rs:408-411): a stable
    sort of the walk's folders by component count, deepest first, so that a
    folder is packed before the folder that contains it. */
module Schedule {
  import opened Paths

  /** Deepest first: the component count never grows along the sequence. */
  predicate DeepestFirst(s: seq<Path>) {
    forall i, j :: 0 <= i < j < |s| ==> Depth(s[i]) >= Depth(s[j])
  }

  /** The folders of `s` at depth `d`, in the order of `s`. */
  function AtDepth(s: seq<Path>, d: nat): seq<Path> {
    if s == [] then []
    else (if Depth(s[0]) == d then [s[0]] else []) + AtDepth(s[1..], d)
  }

  /** `p` goes in front of the first folder no deeper than itself. */
  function Insert(p: Path, s: seq<Path>): (r: seq<Path>)
    ensures multiset(r) == multiset(s) + multiset{p}
  {
    if s == [] || Depth(s[0]) <= Depth(p) then [p] + s
    else
      assert s == [s[0]] + s[1..];
      [s[0]] + Insert(p, s[1..])
  }

  /** `sort_by` with `b.components().count().cmp(&a.components().count())`. */
  function SortByDepth(s: seq<Path>): (r: seq<Path>)
    ensures multiset(r) == multiset(s)
    ensures DeepestFirst(r)
  {
    if s == [] then []
    else
      var rest := SortByDepth(s[1..]);
      InsertKeepsOrder(s[0], rest);
      assert s == [s[0]] + s[1..];
      Insert(s[0], rest)
  }

  lemma {:induction false} InsertKeepsOrder(p: Path, s: seq<Path>)
    requires DeepestFirst(s)
    ensures DeepestFirst(Insert(p, s))
  {
    if s == [] || Depth(s[0]) <= Depth(p) {
      Cons(p, s);
    } else {
      var tail := Insert(p, s[1..]);
      InsertKeepsOrder(p, s[1..]);
      forall x | x in tail ensures Depth(x) <= Depth(s[0]) {
        assert x in multiset(tail);
        if x != p {
          assert x in s[1..];
        }
      }
      Cons(s[0], tail);
    }
  }

  lemma Cons(x: Path, t: seq<Path>)
    requires DeepestFirst(t) && forall y :: y in t ==> Depth(y) <= Depth(x)
    ensures DeepestFirst([x] + t)
  {
    var r := [x] + t;
    forall i, j | 0 <= i < j < |r| ensures Depth(r[i]) >= Depth(r[j]) {
      assert r[j] == t[j - 1];
      if i > 0 {
        assert r[i] == t[i - 1];
      }
    }
  }

  /** Inserting `p` puts it in front of every folder of its own depth. */
  lemma {:induction false} InsertAtDepth(p: Path, s: seq<Path>, d: nat)
    ensures AtDepth(Insert(p, s), d) == (if Depth(p) == d then [p] else []) + AtDepth(s, d)
  {
    var r := Insert(p, s);
    if s == [] || Depth(s[0]) <= Depth(p) {
      assert r[1..] == s;
    } else {
      InsertAtDepth(p, s[1..], d);
      assert r[1..] == Insert(p, s[1..]);
    }
  }

  /** The sort is stable: at every depth the folders keep their walk order. */
  lemma {:induction false} SortIsStable(s: seq<Path>, d: nat)
    ensures AtDepth(SortByDepth(s), d) == AtDepth(s, d)
  {
    if s != [] {
      SortIsStable(s[1..], d);
      InsertAtDepth(s[0], SortByDepth(s[1..]), d);
    }
  }

  lemma {:induction false} AtDepthMembers(s: seq<Path>, d: nat, x: Path)
    ensures x in AtDepth(s, d) <==> x in s && Depth(x) == d
  {
    if s != [] {
      AtDepthMembers(s[1..], d, x);
      assert x in s <==> x == s[0] || x in s[1..];
    }
  }

  /** Deepest-first order together with the per-depth order determines the
      sequence: any stable deepest-first sort of the walk gives this order. */
  lemma {:induction false} DeepestFirstUnique(a: seq<Path>, b: seq<Path>)
    requires DeepestFirst(a) && DeepestFirst(b)
    requires forall d: nat :: AtDepth(a, d) == AtDepth(b, d)
    ensures a == b
  {
    if a == [] {
      if b != [] {
        AtDepthMembers(b, Depth(b[0]), b[0]);
      }
    } else if b == [] {
      AtDepthMembers(a, Depth(a[0]), a[0]);
      AtDepthMembers(b, Depth(a[0]), a[0]);
    } else {
      SameDeepest(a, b);
      SameDeepest(b, a);
      var d := Depth(a[0]);
      assert AtDepth(a, d) == [a[0]] + AtDepth(a[1..], d);
      assert AtDepth(b, d) == [b[0]] + AtDepth(b[1..], d);
      assert a[0] == AtDepth(a, d)[0] == AtDepth(b, d)[0] == b[0];
      forall e: nat ensures AtDepth(a[1..], e) == AtDepth(b[1..], e) {
        var head := if d == e then [a[0]] else [];
        assert AtDepth(a, e) == head + AtDepth(a[1..], e);
        assert AtDepth(b, e) == head + AtDepth(b[1..], e);
        assert AtDepth(a, e) == AtDepth(b, e);
        assert (head + AtDepth(a[1..], e))[|head|..] == AtDepth(a[1..], e);
        assert (head + AtDepth(b[1..], e))[|head|..] == AtDepth(b[1..], e);
      }
      assert DeepestFirst(a[1..]) by {
        forall i, j | 0 <= i < j < |a[1..]| ensures Depth(a[1..][i]) >= Depth(a[1..][j]) {
          assert a[1..][i] == a[i + 1] && a[1..][j] == a[j + 1];
        }
      }
      assert DeepestFirst(b[1..]) by {
        forall i, j | 0 <= i < j < |b[1..]| ensures Depth(b[1..][i]) >= Depth(b[1..][j]) {
          assert b[1..][i] == b[i + 1] && b[1..][j] == b[j + 1];
        }
      }
      DeepestFirstUnique(a[1..], b[1..]);
      assert a == [a[0]] + a[1..] && b == [b[0]] + b[1..];
    }
  }

  lemma SameDeepest(a: seq<Path>, b: seq<Path>)
    requires a != [] && b != [] && DeepestFirst(b)
    requires forall d: nat :: AtDepth(a, d) == AtDepth(b, d)
    ensures Depth(a[0]) <= Depth(b[0])
  {
    var d := Depth(a[0]);
    AtDepthMembers(a, d, a[0]);
    assert AtDepth(a, d) == AtDepth(b, d);
    AtDepthMembers(b, d, a[0]);
    var j :| 0 <= j < |b| && b[j] == a[0];
    if j > 0 {
      assert Depth(b[0]) >= Depth(b[j]);
    }
  }

  /** The scheduled order is the one stable deepest-first order of the walk. */
  lemma SortIsTheStableOrder(s: seq<Path>, r: seq<Path>)
    requires DeepestFirst(r) && forall d: nat :: AtDepth(r, d) == AtDepth(s, d)
    ensures r == SortByDepth(s)
  {
    forall d: nat ensures AtDepth(r, d) == AtDepth(SortByDepth(s), d) {
      SortIsStable(s, d);
    }
    DeepestFirstUnique(r, SortByDepth(s));
  }

  /** In a deepest-first order no folder comes before one of its subfolders. */
  lemma SubfoldersFirst(s: seq<Path>, i: nat, j: nat)
    requires DeepestFirst(s) && i < j < |s|
    requires s[i] != s[j]
    ensures !(s[i] <= s[j])
  {
  }

  predicate Distinct(s: seq<Path>) {
    forall i, j :: 0 <= i < j < |s| ==> s[i] != s[j]
  }

  lemma {:induction false} InsertKeepsDistinct(p: Path, s: seq<Path>)
    requires Distinct(s) && p !in s
    ensures Distinct(Insert(p, s))
  {
    if s != [] && Depth(s[0]) > Depth(p) {
      var tail := Insert(p, s[1..]);
      assert Distinct(s[1..]) by {
        forall i, j | 0 <= i < j < |s[1..]| ensures s[1..][i] != s[1..][j] {
          assert s[1..][i] == s[i + 1] && s[1..][j] == s[j + 1];
        }
      }
      assert p !in s[1..];
      InsertKeepsDistinct(p, s[1..]);
      assert s[0] !in tail by {
        assert s[0] in multiset(tail) <==> s[0] in multiset(s[1..]) + multiset{p};
      }
      DistinctCons(s[0], tail);
    } else {
      DistinctCons(p, s);
    }
  }

  lemma DistinctCons(x: Path, t: seq<Path>)
    requires Distinct(t) && x !in t
    ensures Distinct([x] + t)
  {
    var r := [x] + t;
    forall i, j | 0 <= i < j < |r| ensures r[i] != r[j] {
      assert r[j] == t[j - 1];
      if i > 0 {
        assert r[i] == t[i - 1];
      }
    }
  }

  /** Sorting a list without repeats gives a list without repeats. */
  lemma {:induction false} SortKeepsDistinct(s: seq<Path>)
    requires Distinct(s)
    ensures Distinct(SortByDepth(s))
  {
    if s != [] {
      var rest := s[1..];
      assert Distinct(rest) by {
        forall i, j | 0 <= i < j < |rest| ensures rest[i] != rest[j] {
          assert rest[i] == s[i + 1] && rest[j] == s[j + 1];
        }
      }
      SortKeepsDistinct(rest);
      assert s[0] !in SortByDepth(rest) by {
        assert s[0] in multiset(SortByDepth(rest)) <==> s[0] in multiset(rest);
      }
      InsertKeepsDistinct(s[0], SortByDepth(rest));
    }
  }
}

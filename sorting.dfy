/** Python's stable `list.sort` / `sorted`, modelled as insertion sort under a total preorder. */
module Sorting {

  ghost predicate TotalPreorder<T(!new)>(le: (T, T) -> bool) {
    && (forall a, b :: le(a, b) || le(b, a))
    && (forall a, b, c :: le(a, b) && le(b, c) ==> le(a, c))
  }

  predicate SortedBy<T>(s: seq<T>, le: (T, T) -> bool) {
    forall i, j :: 0 <= i < j < |s| ==> le(s[i], s[j])
  }

  /** Inserts `x` after every element that is not greater than it (so equal keys keep
      their arrival order). */
  function InsertSorted<T(!new)>(s: seq<T>, x: T, le: (T, T) -> bool): (r: seq<T>)
    requires TotalPreorder(le) && SortedBy(s, le)
    ensures SortedBy(r, le)
    ensures multiset(r) == multiset(s) + multiset{x}
    ensures |r| == |s| + 1
    decreases |s|
  {
    if s == [] then [x]
    else
      var last := s[|s| - 1];
      var init := s[..|s| - 1];
      assert s == init + [last];
      if le(last, x) then s + [x]
      else
        var r' := InsertSorted(init, x, le);
        assert le(x, last);
        assert forall i :: 0 <= i < |r'| ==> le(r'[i], last) by {
          forall i | 0 <= i < |r'| ensures le(r'[i], last) {
            assert r'[i] in multiset(r');
            if r'[i] != x {
              assert r'[i] in multiset(init);
              var k :| 0 <= k < |init| && init[k] == r'[i];
              assert s[k] == init[k];
            }
          }
        }
        r' + [last]
  }

  function SortBy<T(!new)>(s: seq<T>, le: (T, T) -> bool): (r: seq<T>)
    requires TotalPreorder(le)
    ensures SortedBy(r, le)
    ensures multiset(r) == multiset(s)
    ensures |r| == |s|
    decreases |s|
  {
    if s == [] then []
    else
      assert s == s[..|s| - 1] + [s[|s| - 1]];
      InsertSorted(SortBy(s[..|s| - 1], le), s[|s| - 1], le)
  }

  /** The elements of `s` that tie with `y` (each is `le` the other), in their order in `s`. */
  function Ties<T>(s: seq<T>, y: T, le: (T, T) -> bool): (r: seq<T>)
    ensures |r| <= |s|
    decreases |s|
  {
    if s == [] then []
    else Ties(s[..|s| - 1], y, le) + (if le(y, s[|s| - 1]) && le(s[|s| - 1], y) then [s[|s| - 1]] else [])
  }

  /** Inserting `x` puts it after every element it ties with. */
  lemma {:induction false} InsertTies<T(!new)>(s: seq<T>, x: T, y: T, le: (T, T) -> bool)
    requires TotalPreorder(le) && SortedBy(s, le)
    ensures Ties(InsertSorted(s, x, le), y, le) == Ties(s, y, le) + (if le(y, x) && le(x, y) then [x] else [])
    decreases |s|
  {
    if s == [] {
      assert [x][..0] == [];
    } else {
      var last := s[|s| - 1];
      var init := s[..|s| - 1];
      if le(last, x) {
        assert InsertSorted(s, x, le) == s + [x];
        assert (s + [x])[..|s|] == s;
      } else {
        InsertBefore(s, x, y, le);
      }
    }
  }

  /** The case of `InsertTies` where `x` goes before the last element. */
  lemma {:induction false} InsertBefore<T(!new)>(s: seq<T>, x: T, y: T, le: (T, T) -> bool)
    requires TotalPreorder(le) && SortedBy(s, le) && s != [] && !le(s[|s| - 1], x)
    ensures Ties(InsertSorted(s, x, le), y, le) == Ties(s, y, le) + (if le(y, x) && le(x, y) then [x] else [])
    decreases |s|, 0
  {
    var last := s[|s| - 1];
    var init := s[..|s| - 1];
    assert SortedBy(init, le) by {
      forall i, j | 0 <= i < j < |init| ensures le(init[i], init[j]) {
        assert init[i] == s[i] && init[j] == s[j];
      }
    }
    var r' := InsertSorted(init, x, le);
    var tx: seq<T> := if le(y, x) && le(x, y) then [x] else [];
    var tl: seq<T> := if le(y, last) && le(last, y) then [last] else [];
    assert InsertSorted(s, x, le) == r' + [last];
    assert Ties(r' + [last], y, le) == Ties(r', y, le) + tl by {
      assert (r' + [last])[..|r'|] == r';
    }
    assert Ties(r', y, le) == Ties(init, y, le) + tx by {
      InsertTies(init, x, y, le);
    }
    assert Ties(s, y, le) == Ties(init, y, le) + tl;
    assert tx == [] || tl == [] by {
      TieExclusive(x, last, y, le);
    }
    if tx == [] {
      assert Ties(init, y, le) + tx == Ties(init, y, le);
      assert Ties(init, y, le) + tl + tx == Ties(init, y, le) + tl;
    } else {
      assert Ties(init, y, le) + tl == Ties(init, y, le);
    }
  }

  /** An element smaller than `last` never ties with the same `y` as `last`. */
  lemma TieExclusive<T(!new)>(x: T, last: T, y: T, le: (T, T) -> bool)
    requires TotalPreorder(le) && !le(last, x)
    ensures !(le(y, x) && le(x, y) && le(y, last) && le(last, y))
  {
  }

  /** Python's sort is stable: the elements that tie with any `y` keep their input order. */
  lemma {:induction false} SortByStable<T(!new)>(s: seq<T>, le: (T, T) -> bool)
    requires TotalPreorder(le)
    ensures forall y :: Ties(SortBy(s, le), y, le) == Ties(s, y, le)
    decreases |s|
  {
    if s != [] {
      var init := s[..|s| - 1];
      SortByStable(init, le);
      forall y ensures Ties(SortBy(s, le), y, le) == Ties(s, y, le) {
        InsertTies(SortBy(init, le), s[|s| - 1], y, le);
      }
    }
  }

  /** Two elements keep their order exactly when the first is not greater (stability). */
  lemma SortTwo<T(!new)>(a: T, b: T, le: (T, T) -> bool)
    requires TotalPreorder(le)
    ensures SortBy([a, b], le) == if le(a, b) then [a, b] else [b, a]
  {
    assert [a, b][..1] == [a];
    assert [a][..0] == [];
    assert SortBy([a], le) == [a];
    if !le(a, b) {
      assert [a][..0] == [];
    }
  }
}

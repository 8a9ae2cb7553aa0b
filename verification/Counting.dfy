/** Counting arguments for whole runs: a run reports one row of findings per object, and what is promised is how
    many there are in all. */
module Counting {

  /** The findings of a run, summed row by row. */
  ghost function Total<T(!new)>(rows: seq<set<T>>): nat {
    if rows == [] then 0 else Total(rows[..|rows| - 1]) + |rows[|rows| - 1]|
  }

  ghost function Tagged<T(!new)>(n: int, s: set<T>): set<(int, T)> {
    set x | x in s :: (n, x)
  }

  /** The findings of a run as (row, finding) cells. */
  ghost function Cells<T(!new)>(rows: seq<set<T>>): set<(int, T)> {
    if rows == [] then {} else Cells(rows[..|rows| - 1]) + Tagged(|rows| - 1, rows[|rows| - 1])
  }

  lemma {:induction false} CellsAre<T(!new)>(rows: seq<set<T>>)
    ensures forall k, x :: (k, x) in Cells(rows) <==> 0 <= k < |rows| && x in rows[k]
  {
    if rows != [] {
      CellsAre(rows[..|rows| - 1]);
    }
  }

  lemma {:induction false} TotalCountsCells<T(!new)>(rows: seq<set<T>>)
    ensures Total(rows) == |Cells(rows)|
  {
    if rows != [] {
      var init, n := rows[..|rows| - 1], |rows| - 1;
      TotalCountsCells(init);
      CellsAre(init);
      TaggedSize(n, rows[n]);
      assert Cells(init) !! Tagged(n, rows[n]);
      assert |Cells(init) + Tagged(n, rows[n])| == |Cells(init)| + |Tagged(n, rows[n])|;
    }
  }

  lemma {:induction false} TaggedSize<T(!new)>(n: int, s: set<T>)
    ensures |Tagged(n, s)| == |s|
  {
    if s == {} {
      assert Tagged(n, s) == {};
    } else {
      var e :| e in s;
      TaggedSize(n, s - {e});
      assert Tagged(n, s) == Tagged(n, s - {e}) + {(n, e)};
    }
  }

  ghost predicate Injective<A(!new), B>(m: map<A, B>) {
    forall a, b :: a in m && b in m && m[a] == m[b] ==> a == b
  }

  /** A finite map has at most as many values as keys, and as many exactly when it is injective. */
  lemma {:induction false} ImageSize<A(!new), B(!new)>(m: map<A, B>)
    ensures |m.Values| <= |m.Keys|
    ensures |m.Values| == |m.Keys| <==> Injective(m)
    decreases |m.Keys|
  {
    if m.Keys == {} {
      assert m == map[];
    } else {
      var k :| k in m;
      var rest := m - {k};
      assert rest.Keys == m.Keys - {k};
      ImageSize(rest);
      assert m.Values == rest.Values + {m[k]} by {
        forall v | v in m.Values
          ensures v in rest.Values + {m[k]}
        {
          var a :| a in m && m[a] == v;
          assert a == k || (a in rest && rest[a] == v);
        }
      }
      if m[k] in rest.Values {
        var a :| a in rest && rest[a] == m[k];
        assert a in m && a != k && m[a] == m[k];
      } else if Injective(rest) {
        forall a, b | a in m && b in m && m[a] == m[b]
          ensures a == b
        {
          assert a != k ==> a in rest && m[a] in rest.Values;
          assert b != k ==> b in rest && m[b] in rest.Values;
        }
      } else {
        var a, b :| a in rest && b in rest && rest[a] == rest[b] && a != b;
        assert a in m && b in m && m[a] == m[b];
      }
    }
  }

  /** A bijection, given as a map, makes two sets equally large. */
  lemma SameSize<A(!new), B(!new)>(m: map<A, B>, keys: set<A>, values: set<B>)
    requires m.Keys == keys && m.Values == values && Injective(m)
    ensures |keys| == |values|
  {
    ImageSize(m);
  }

  /** A sequence without repetition has as many entries as elements. */
  lemma {:induction false} DistinctSize<T(!new)>(s: seq<T>, elements: set<T>)
    requires forall i, j :: 0 <= i < j < |s| ==> s[i] != s[j]
    requires forall x :: x in s <==> x in elements
    ensures |s| == |elements|
  {
    if s == [] {
      assert forall x :: x !in elements;
    } else {
      var x, rest := s[|s| - 1], s[..|s| - 1];
      assert s == rest + [x];
      DistinctSize(rest, elements - {x});
    }
  }
}

/**
 * Ascending iteration over the keys of an ordered map (`BTreeMap::keys`),
 * which the reliability layer relies on: its loops visit sequence numbers
 * from the smallest up.
 */
module OrderedKeys {

  predicate IsLeast(m: nat, s: set<nat>) {
    m in s && forall x :: x in s ==> m <= x
  }

  predicate StrictlyIncreasing(r: seq<nat>) {
    forall i, j :: 0 <= i < j < |r| ==> r[i] < r[j]
  }

  lemma {:induction false} LeastExists(s: set<nat>)
    requires s != {}
    ensures exists m :: IsLeast(m, s)
    decreases |s|
  {
    var y :| y in s;
    if s != {y} {
      LeastExists(s - {y});
      var m :| IsLeast(m, s - {y});
      var least := if m < y then m else y;
      forall x | x in s
        ensures least <= x
      {
        if x != y {
          assert x in s - {y};
        }
      }
      assert IsLeast(least, s);
    } else {
      assert IsLeast(y, s);
    }
  }

  /** The smallest element of a non-empty set. */
  ghost function Least(s: set<nat>): (m: nat)
    requires s != {}
    ensures IsLeast(m, s)
  {
    LeastExists(s);
    var m :| IsLeast(m, s);
    m
  }

  /** The elements of `s` from the smallest up. */
  ghost function Ascending(s: set<nat>): (r: seq<nat>)
    decreases |s|
  {
    if s == {} then [] else [Least(s)] + Ascending(s - {Least(s)})
  }

  /** `Ascending(s)` lists every element of `s` once, in increasing order. */
  lemma {:induction false} AscendingSpec(s: set<nat>)
    ensures StrictlyIncreasing(Ascending(s))
    ensures forall x :: x in Ascending(s) <==> x in s
    ensures |Ascending(s)| == |s|
    decreases |s|
  {
    if s != {} {
      var m := Least(s);
      var rest := Ascending(s - {m});
      AscendingSpec(s - {m});
      assert Ascending(s) == [m] + rest;
      forall i, j | 0 <= i < j < |[m] + rest|
        ensures ([m] + rest)[i] < ([m] + rest)[j]
      {
        if i == 0 {
          assert rest[j - 1] in s - {m};
        }
      }
    }
  }

  /** The elements of `Ascending(s)` are those of `s`. */
  lemma AscendingElements(s: set<nat>)
    ensures forall x :: x in Ascending(s) <==> x in s
  {
    AscendingSpec(s);
  }

  /** Two positions of `Ascending(s)` are in the order of their values. */
  lemma AscendingOrdered(s: set<nat>, i: nat, j: nat)
    requires i < j < |Ascending(s)|
    ensures Ascending(s)[i] < Ascending(s)[j]
  {
    AscendingSpec(s);
  }

  /** An increasing listing of `s` is `Ascending(s)`: there is only one. */
  lemma {:induction false} AscendingUnique(s: set<nat>, r: seq<nat>)
    requires StrictlyIncreasing(r)
    requires forall x :: x in r <==> x in s
    ensures r == Ascending(s)
    decreases |r|
  {
    if r == [] {
      assert s == {};
    } else {
      assert r[0] in s;
      assert IsLeast(r[0], s) by {
        forall x | x in s
          ensures r[0] <= x
        {
          var i :| 0 <= i < |r| && r[i] == x;
          if i > 0 {
            assert r[0] < r[i];
          }
        }
      }
      assert Least(s) == r[0];
      forall x
        ensures x in r[1..] <==> x in s - {r[0]}
      {
        if x in r[1..] {
          var i :| 1 <= i < |r| && r[i] == x;
          assert r[0] < r[i];
        }
        if x in s - {r[0]} {
          var i :| 0 <= i < |r| && r[i] == x;
          assert i != 0;
          assert r[1..][i - 1] == x;
        }
      }
      AscendingUnique(s - {r[0]}, r[1..]);
      assert r == [r[0]] + r[1..];
    }
  }

  /** `keys().cloned().collect()` on an ordered map with key set `s`. */
  method SortedKeys(s: set<nat>) returns (r: seq<nat>)
    ensures r == Ascending(s)
  {
    r := [];
    var rest := s;
    while rest != {}
      invariant r + Ascending(rest) == Ascending(s)
      decreases |rest|
    {
      LeastExists(rest);
      var k :| IsLeast(k, rest);
      assert k == Least(rest);
      assert Ascending(rest) == [k] + Ascending(rest - {k});
      r := r + [k];
      rest := rest - {k};
    }
  }
}

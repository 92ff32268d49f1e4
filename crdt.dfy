/**
 * Conflict-free replicated data types: a last-writer-wins register, an
 * add-wins observed-remove set keyed by add tags, and an observed-remove
 * set with add and remove timestamps (tombstones).
 *
 * A register is a value; `merge(&mut self, other)` is the function that
 * returns the new value of `self`. The sets are objects whose maps the
 * methods update. `HashMap`/`HashSet` iteration order plays no role: each
 * loop's effect is the same whatever order it visits.
 */
module Crdts {
  import opened Base

  // ---------------------------------------------------------------- string order

  /** `String`'s `Ord`: lexicographic, a proper prefix before its extensions. */
  predicate StrLess(a: string, b: string)
  {
    if a == [] then b != []
    else if b == [] then false
    else a[0] < b[0] || (a[0] == b[0] && StrLess(a[1..], b[1..]))
  }

  lemma {:induction false} StrLessIrreflexive(a: string)
    ensures !StrLess(a, a)
  {
    if a != [] {
      StrLessIrreflexive(a[1..]);
    }
  }

  lemma {:induction false} StrLessTotal(a: string, b: string)
    ensures a == b || StrLess(a, b) || StrLess(b, a)
    ensures !(StrLess(a, b) && StrLess(b, a))
  {
    if a != [] && b != [] {
      StrLessTotal(a[1..], b[1..]);
      if a[0] == b[0] && a[1..] == b[1..] {
        assert a == [a[0]] + a[1..] && b == [b[0]] + b[1..];
      }
    }
  }

  lemma {:induction false} StrLessTransitive(a: string, b: string, c: string)
    requires StrLess(a, b) && StrLess(b, c)
    ensures StrLess(a, c)
  {
    if a != [] && a[0] == b[0] && b[0] == c[0] {
      StrLessTransitive(a[1..], b[1..], c[1..]);
    }
  }

  // ---------------------------------------------------------------- LWW register

  datatype LWWRegister<T> = LWWRegister(value: T, timestamp: u64, nodeId: string)

  /** Registers are ordered by timestamp, then by node id. */
  predicate Older<T>(a: LWWRegister<T>, b: LWWRegister<T>)
  {
    a.timestamp < b.timestamp || (a.timestamp == b.timestamp && StrLess(a.nodeId, b.nodeId))
  }

  lemma OlderStrict<T>(a: LWWRegister<T>, b: LWWRegister<T>, c: LWWRegister<T>)
    ensures !Older(a, a)
    ensures !(Older(a, b) && Older(b, a))
    ensures Older(a, b) && Older(b, c) ==> Older(a, c)
    ensures Older(a, b) || Older(b, a) || (a.timestamp == b.timestamp && a.nodeId == b.nodeId)
  {
    StrLessIrreflexive(a.nodeId);
    StrLessTotal(a.nodeId, b.nodeId);
    if Older(a, b) && Older(b, c) && a.timestamp == b.timestamp == c.timestamp {
      StrLessTransitive(a.nodeId, b.nodeId, c.nodeId);
    }
  }

  /**
   * `merge`: the other register wins when it has the later timestamp, or
   * the same timestamp and the greater node id; on a full tie `self` stays.
   */
  function Merge<T>(self: LWWRegister<T>, other: LWWRegister<T>): (r: LWWRegister<T>)
    ensures r == self || r == other
    ensures r == other <== Older(self, other)
    ensures r == self <== !Older(self, other)
  {
    if other.timestamp > self.timestamp then other
    else if other.timestamp == self.timestamp && StrLess(self.nodeId, other.nodeId) then other
    else self
  }

  /** The merge keeps the newest of the two: neither input is newer than the result. */
  lemma MergeKeepsNewest<T>(a: LWWRegister<T>, b: LWWRegister<T>)
    ensures !Older(Merge(a, b), a) && !Older(Merge(a, b), b)
  {
    OlderStrict(a, b, a);
    OlderStrict(b, a, b);
  }

  /** Merging a register with itself changes nothing. */
  lemma MergeIdempotent<T>(a: LWWRegister<T>)
    ensures Merge(a, a) == a
  {
    StrLessIrreflexive(a.nodeId);
  }

  /** Merge order does not matter unless two different registers tie on timestamp and node. */
  lemma MergeCommutative<T>(a: LWWRegister<T>, b: LWWRegister<T>)
    requires a == b || a.timestamp != b.timestamp || a.nodeId != b.nodeId
    ensures Merge(a, b) == Merge(b, a)
  {
    OlderStrict(a, b, a);
  }

  /** Merging is associative, ties included. */
  lemma MergeAssociative<T>(a: LWWRegister<T>, b: LWWRegister<T>, c: LWWRegister<T>)
    ensures Merge(Merge(a, b), c) == Merge(a, Merge(b, c))
  {
    OlderStrict(a, b, c);
    OlderStrict(a, c, b);
    OlderStrict(b, a, c);
    OlderStrict(b, c, a);
    OlderStrict(c, a, b);
    OlderStrict(c, b, a);
  }

  /** Merging the same register in twice is merging it once. */
  lemma MergeAbsorbs<T>(a: LWWRegister<T>, b: LWWRegister<T>)
    ensures Merge(Merge(a, b), b) == Merge(a, b)
  {
    MergeAssociative(a, b, b);
    MergeIdempotent(b);
  }

  /** The register test: a later write wins, an earlier one is ignored. */
  lemma RegisterScenario()
    ensures Merge(LWWRegister(10, 100, "A"), LWWRegister(20, 200, "B")).value == 20
    ensures Merge(LWWRegister(20, 200, "B"), LWWRegister(30, 50, "C")).value == 20
  {
  }

  // ---------------------------------------------------------------- tag maps

  /** The tags of `k`, or none. */
  function TagsOf<K, V>(m: map<K, set<V>>, k: K): set<V>
  {
    if k in m then m[k] else {}
  }

  /** The key-wise union of two tag maps: what both `merge`s compute. */
  function Union<K, V>(a: map<K, set<V>>, b: map<K, set<V>>): (u: map<K, set<V>>)
    ensures u.Keys == a.Keys + b.Keys
    ensures forall k :: k in u ==> u[k] == TagsOf(a, k) + TagsOf(b, k)
  {
    map k | k in a.Keys + b.Keys :: TagsOf(a, k) + TagsOf(b, k)
  }

  /** Looking up a key of a union, present or not. */
  lemma TagsOfUnion<K, V>(a: map<K, set<V>>, b: map<K, set<V>>, k: K)
    ensures TagsOf(Union(a, b), k) == TagsOf(a, k) + TagsOf(b, k)
  {
  }

  lemma UnionCommutative<K, V>(a: map<K, set<V>>, b: map<K, set<V>>)
    ensures Union(a, b) == Union(b, a)
  {
    var l, r := Union(a, b), Union(b, a);
    assert l.Keys == r.Keys;
    forall k | k in l
      ensures l[k] == r[k]
    {
    }
  }

  lemma UnionIdempotent<K, V>(a: map<K, set<V>>)
    ensures Union(a, a) == a
  {
    var u := Union(a, a);
    assert u.Keys == a.Keys;
    forall k | k in u
      ensures u[k] == a[k]
    {
    }
  }

  lemma UnionAssociative<K, V>(a: map<K, set<V>>, b: map<K, set<V>>, c: map<K, set<V>>)
    ensures Union(Union(a, b), c) == Union(a, Union(b, c))
  {
    var l, r := Union(Union(a, b), c), Union(a, Union(b, c));
    assert l.Keys == r.Keys;
    forall k | k in l
      ensures l[k] == r[k]
    {
      TagsOfUnion(a, b, k);
      TagsOfUnion(b, c, k);
    }
  }

  /**
   * The loop of `merge`: for each entry of `theirs`, `entry(k).or_default()`
   * then insert every tag.
   */
  method UnionInto<K, V>(mine: map<K, set<V>>, theirs: map<K, set<V>>) returns (r: map<K, set<V>>)
    ensures r == Union(mine, theirs)
  {
    r := mine;
    var todo := theirs.Keys;
    while todo != {}
      invariant todo <= theirs.Keys
      invariant r.Keys == mine.Keys + (theirs.Keys - todo)
      invariant forall k :: k in r ==> r[k] == TagsOf(mine, k) + (if k in todo then {} else TagsOf(theirs, k))
      decreases todo
    {
      var k :| k in todo;
      var tags := TagsOf(r, k);
      tags := tags + theirs[k];
      r := r[k := tags];
      todo := todo - {k};
    }
  }

  // ---------------------------------------------------------------- OR-set

  /** The add-wins set: each present element maps to the tags of its adds. */
  class ORSet<T(==)> {
    var elements: map<T, set<string>>

    /** An element is present exactly while it has a tag. */
    ghost predicate Valid()
      reads this
    {
      forall e :: e in elements ==> elements[e] != {}
    }

    constructor ()
      ensures Valid() && elements == map[]
    {
      elements := map[];
    }

    method Add(element: T, tag: string)
      requires Valid()
      modifies this
      ensures Valid()
      ensures elements == old(elements)[element := TagsOf(old(elements), element) + {tag}]
      ensures Contains(element)
    {
      var tags := TagsOf(elements, element);
      elements := elements[element := tags + {tag}];
    }

    /**
     * `remove`: the observed tags are dropped, and the element with them
     * once none is left; an absent element is left alone.
     */
    method Remove(element: T, tags: set<string>)
      requires Valid()
      modifies this
      ensures Valid()
      ensures element !in old(elements) ==> elements == old(elements)
      ensures element in old(elements) && old(elements)[element] <= tags ==>
        elements == old(elements) - {element}
      ensures element in old(elements) && !(old(elements)[element] <= tags) ==>
        elements == old(elements)[element := old(elements)[element] - tags]
      ensures Contains(element) <==> TagsOf(old(elements), element) - tags != {}
    {
      if element in elements {
        var current := elements[element];
        var todo := tags;
        while todo != {}
          invariant todo <= tags
          invariant current == elements[element] - (tags - todo)
          decreases todo
        {
          var tag :| tag in todo;
          current := current - {tag};
          todo := todo - {tag};
        }
        assert current == elements[element] - tags;
        if current == {} {
          elements := elements - {element};
        } else {
          elements := elements[element := current];
        }
      }
    }

    predicate Contains(element: T)
      reads this
    {
      element in elements
    }

    /** The present elements (the source collects them in hash order). */
    function Elements(): set<T>
      reads this
    {
      elements.Keys
    }

    /** `merge`: every element of either replica, with the union of its tags. */
    method Merge(other: ORSet<T>)
      requires Valid() && other.Valid()
      modifies this
      ensures Valid()
      ensures elements == Union(old(elements), old(other.elements))
      ensures elements.Keys == old(elements).Keys + old(other.elements).Keys
    {
      elements := UnionInto(elements, other.elements);
    }
  }

  // ---------------------------------------------------------------- OR-set with tombstones

  /** The timestamps of adds and of removes, per element. */
  class ORSetWithTombstones<T(==)> {
    var addSet: map<T, set<u64>>
    var removeSet: map<T, set<u64>>

    constructor ()
      ensures addSet == map[] && removeSet == map[]
    {
      addSet := map[];
      removeSet := map[];
    }

    method Add(element: T, timestamp: u64)
      modifies this
      ensures addSet == old(addSet)[element := TagsOf(old(addSet), element) + {timestamp}]
      ensures removeSet == old(removeSet)
    {
      var stamps := TagsOf(addSet, element);
      addSet := addSet[element := stamps + {timestamp}];
    }

    method Remove(element: T, timestamp: u64)
      modifies this
      ensures removeSet == old(removeSet)[element := TagsOf(old(removeSet), element) + {timestamp}]
      ensures addSet == old(addSet)
    {
      var stamps := TagsOf(removeSet, element);
      removeSet := removeSet[element := stamps + {timestamp}];
    }

    /** Present when some add of the element has no remove with the same timestamp. */
    predicate Contains(element: T)
      reads this
      ensures Contains(element) <==> TagsOf(addSet, element) - TagsOf(removeSet, element) != {}
    {
      if element in addSet then
        if element in removeSet then addSet[element] - removeSet[element] != {}
        else addSet[element] != {}
      else false
    }

    /** `merge`: the union of the add sets and the union of the remove sets. */
    method Merge(other: ORSetWithTombstones<T>)
      modifies this
      ensures addSet == Union(old(addSet), old(other.addSet))
      ensures removeSet == Union(old(removeSet), old(other.removeSet))
    {
      var theirAdds, theirRemoves := other.addSet, other.removeSet;
      addSet := UnionInto(addSet, theirAdds);
      removeSet := UnionInto(removeSet, theirRemoves);
    }
  }

  /** An element is present in a tombstone set when some add tag has no matching remove tag. */
  predicate Present<T>(adds: map<T, set<u64>>, removes: map<T, set<u64>>, e: T)
  {
    TagsOf(adds, e) - TagsOf(removes, e) != {}
  }

  /**
   * Merging tombstone sets is order-independent and idempotent, so replicas
   * that have merged each other's state agree on every element: an element
   * is present after either order of merge exactly when one of its add tags,
   * from either replica, has been removed on neither.
   */
  lemma TombstoneMergeConverges<T>(a: map<T, set<u64>>, ra: map<T, set<u64>>, b: map<T, set<u64>>, rb: map<T, set<u64>>, e: T)
    ensures Union(a, b) == Union(b, a) && Union(ra, rb) == Union(rb, ra)
    ensures Union(Union(a, b), b) == Union(a, b)
    ensures Present(Union(a, b), Union(ra, rb), e) <==> Present(Union(b, a), Union(rb, ra), e)
    ensures Present(Union(b, Union(a, b)), Union(rb, Union(ra, rb)), e) <==> Present(Union(a, b), Union(ra, rb), e)
    ensures Present(Union(a, b), Union(ra, rb), e) <==>
      (TagsOf(a, e) + TagsOf(b, e)) - (TagsOf(ra, e) + TagsOf(rb, e)) != {}
  {
    UnionCommutative(a, b);
    UnionCommutative(ra, rb);
    UnionAssociative(a, b, b);
    UnionIdempotent(b);
    MergeBackAbsorbs(a, b);
    MergeBackAbsorbs(ra, rb);
    TagsOfUnion(a, b, e);
    TagsOfUnion(ra, rb, e);
  }

  /** Merging a replica's state back into the replica that produced the merge changes nothing. */
  lemma MergeBackAbsorbs<K, V>(a: map<K, set<V>>, b: map<K, set<V>>)
    ensures Union(b, Union(a, b)) == Union(a, b)
  {
    UnionCommutative(b, Union(a, b));
    UnionAssociative(a, b, b);
    UnionIdempotent(b);
  }

  /**
   * Two replicas that merge each other, one after the other, end with the
   * same add and remove sets and so agree on every element.
   */
  method MutualMerge<T>(x: ORSetWithTombstones<T>, y: ORSetWithTombstones<T>)
    requires x != y
    modifies x, y
    ensures x.addSet == y.addSet == Union(old(x.addSet), old(y.addSet))
    ensures x.removeSet == y.removeSet == Union(old(x.removeSet), old(y.removeSet))
    ensures forall e :: x.Contains(e) <==> y.Contains(e)
  {
    x.Merge(y);
    y.Merge(x);
    MergeBackAbsorbs(old(x.addSet), old(y.addSet));
    MergeBackAbsorbs(old(x.removeSet), old(y.removeSet));
  }

  /** The set test: a remove observed at the add's timestamp hides it after the merge. */
  method TombstoneScenario() returns (a: bool, b: bool, c: bool)
    ensures !a && b && c
  {
    var s1 := new ORSetWithTombstones<string>();
    s1.Add("A", 100);
    s1.Add("B", 100);
    var s2 := new ORSetWithTombstones<string>();
    s2.Remove("A", 100);
    s2.Add("C", 200);
    s1.Merge(s2);
    a := s1.Contains("A");
    b := s1.Contains("B");
    c := s1.Contains("C");
  }
}

/**
 * The set of Chummer/Backend/Datastructures/ConcurrentHashSet.cs, a `ConcurrentDictionary<T, bool>`
 * used for its keys. Every call is taken to be atomic. An argument that may be null is an
 * `Option<T>`; a collection argument is the sequence of its elements in enumeration order, so
 * duplicates and the position of a null are visible. The dictionary rejects a null key with
 * ArgumentNullException, which is where the error results below come from.
 */
module ConcurrentHashSets {
  import opened Common

  datatype Error = ArgumentNull | ArgumentOutOfRange | IndexOutOfRange | NullReference

  type Outcome<R> = Result<R, Error>

  /** No element of the collection is null. */
  predicate NullFree<T>(o: seq<Option<T>>) {
    forall k :: 0 <= k < |o| ==> o[k].Some?
  }

  /** No element of the collection occurs twice. */
  ghost predicate Distinct<T>(o: seq<Option<T>>) {
    forall i, j :: 0 <= i < j < |o| ==> o[i] != o[j]
  }

  /** The non-null elements of a collection. */
  function Values<T>(o: seq<Option<T>>): set<T> {
    set k | 0 <= k < |o| && o[k].Some? :: o[k].value
  }

  lemma ValuesSnoc<T>(o: seq<Option<T>>, i: nat)
    requires i < |o|
    ensures Values(o[..i + 1]) == Values(o[..i]) + (if o[i].Some? then {o[i].value} else {})
  {
    var p, q := o[..i + 1], o[..i];
    forall x | x in Values(p) ensures x in Values(q) + (if o[i].Some? then {o[i].value} else {}) {
      var k :| 0 <= k < |p| && p[k].Some? && p[k].value == x;
      if k < i {
        assert q[k] == p[k];
      }
    }
    forall x | x in Values(q) ensures x in Values(p) {
      var k :| 0 <= k < |q| && q[k].Some? && q[k].value == x;
      assert p[k] == q[k];
    }
    if o[i].Some? {
      assert p[i] == o[i];
    }
  }

  lemma ValuesCons<T>(o: seq<Option<T>>)
    requires o != []
    ensures Values(o) == Values(o[1..]) + (if o[0].Some? then {o[0].value} else {})
  {
    forall x | x in Values(o) ensures x in Values(o[1..]) + (if o[0].Some? then {o[0].value} else {}) {
      var k :| 0 <= k < |o| && o[k].Some? && o[k].value == x;
      if k > 0 {
        assert o[1..][k - 1] == o[k];
      }
    }
    forall x | x in Values(o[1..]) ensures x in Values(o) {
      var k :| 0 <= k < |o[1..]| && o[1..][k].Some? && o[1..][k].value == x;
      assert o[k + 1] == o[1..][k];
    }
  }

  lemma ValuesWhole<T>(o: seq<Option<T>>)
    ensures Values(o[..|o|]) == Values(o)
  {
    assert o[..|o|] == o;
  }

  /** The position of the first null in the collection, or its length. */
  function FirstNull<T>(o: seq<Option<T>>): (n: nat)
    ensures n <= |o|
    ensures forall k :: 0 <= k < n ==> o[k].Some?
    ensures n < |o| ==> o[n].None?
    ensures n == |o| <==> NullFree(o)
  {
    if o == [] then 0
    else if o[0].None? then 0
    else 1 + FirstNull(o[1..])
  }

  /** Subset cardinality: a subset is no larger, and a subset of equal size is the whole set. */
  lemma {:induction false} SubsetCard<T>(a: set<T>, b: set<T>)
    requires a <= b
    ensures |a| <= |b|
    ensures |a| == |b| <==> a == b
  {
    assert b == a + (b - a);
    assert a * (b - a) == {};
    assert |b| == |a| + |b - a|;
    if |b - a| == 0 {
      assert b - a == {};
    } else {
      var x :| x in b - a;
      assert a != b;
    }
  }

  /** Every element of `a` is in `b` exactly when `a * b` is as large as `a`. */
  lemma {:induction false} SubsetByCard<T>(a: set<T>, b: set<T>)
    ensures |a * b| == |a| <==> a <= b
  {
    SubsetCard(a * b, a);
    assert a * b == a <==> a <= b;
  }

  /** A collection without nulls or duplicates has as many distinct values as elements. */
  lemma {:induction false} DistinctValuesCard<T>(o: seq<Option<T>>)
    requires NullFree(o) && Distinct(o)
    ensures |Values(o)| == |o|
  {
    if o != [] {
      ValuesCons(o);
      DistinctValuesCard(o[1..]);
    }
  }

  /** The number of elements of the collection that are in `s` (nulls are never in `s`). */
  function CountIn<T>(o: seq<Option<T>>, s: set<T>): (n: nat)
    ensures n <= |o|
  {
    if o == [] then 0
    else CountIn(o[..|o| - 1], s) + (if o[|o| - 1].Some? && o[|o| - 1].value in s then 1 else 0)
  }

  /** Without nulls or duplicates, the count is the number of elements of `s` in the collection. */
  lemma {:induction false} CountInDistinct<T>(o: seq<Option<T>>, s: set<T>)
    requires NullFree(o) && Distinct(o)
    ensures CountIn(o, s) == |s * Values(o)|
  {
    if o == [] {
      assert s * Values(o) == {};
    } else {
      var n := |o| - 1;
      var p, x := o[..n], o[n].value;
      DistinctFront(o);
      ValuesSnoc(o, n);
      assert o[..n + 1] == o;
      CountInDistinct(p, s);
      assert CountIn(o, s) == CountIn(p, s) + (if x in s then 1 else 0);
      if x in s {
        assert s * Values(o) == (s * Values(p)) + {x};
      } else {
        assert s * Values(o) == s * Values(p);
      }
    }
  }

  /** Dropping the last element of a collection without nulls or duplicates keeps it so, and loses that value. */
  lemma DistinctFront<T>(o: seq<Option<T>>)
    requires NullFree(o) && Distinct(o) && o != []
    ensures NullFree(o[..|o| - 1]) && Distinct(o[..|o| - 1])
    ensures o[|o| - 1].value !in Values(o[..|o| - 1])
  {
    var n := |o| - 1;
    var p := o[..n];
    forall i, j | 0 <= i < j < |p| ensures p[i] != p[j] {
      assert p[i] == o[i] && p[j] == o[j];
    }
    forall k | 0 <= k < |p| && p[k].Some? ensures p[k].value != o[n].value {
      assert p[k] == o[k] && o[k] != o[n];
    }
  }

  /** For a collection without nulls or duplicates, counting the members finds a subset. */
  lemma CountMeansSubset<T>(o: seq<Option<T>>, s: set<T>)
    ensures NullFree(o) && Distinct(o) ==> (CountIn(o, s) == |s| <==> s <= Values(o))
  {
    if NullFree(o) && Distinct(o) {
      CountInDistinct(o, s);
      SubsetByCard(s, Values(o));
    }
  }

  /**
   * `other.All(ContainsKey)` with its short cut: the first null throws and the first element
   * outside `s` gives false, whichever comes first.
   */
  function AllContained<T>(o: seq<Option<T>>, s: set<T>): (r: Outcome<bool>)
    ensures r.Err? ==> r.error == ArgumentNull && !NullFree(o)
    ensures r == Ok(true) <==> NullFree(o) && Values(o) <= s
    ensures NullFree(o) ==> r == Ok(Values(o) <= s)
  {
    if o == [] then Ok(true)
    else
      ValuesCons(o);
      if o[0].None? then Err(ArgumentNull)
      else if o[0].value !in s then Ok(false)
      else AllContained(o[1..], s)
  }

  /** `other.Any(ContainsKey)`: the first null throws and the first element in `s` gives true. */
  function AnyContained<T>(o: seq<Option<T>>, s: set<T>): (r: Outcome<bool>)
    ensures r.Err? ==> r.error == ArgumentNull && !NullFree(o)
    ensures r == Ok(false) <==> NullFree(o) && Values(o) * s == {}
    ensures NullFree(o) ==> r == Ok(Values(o) * s != {})
  {
    if o == [] then Ok(false)
    else
      ValuesCons(o);
      if o[0].None? then Err(ArgumentNull)
      else if o[0].value in s then
        assert o[0].value in Values(o) * s;
        Ok(true)
      else AnyContained(o[1..], s)
  }

  /**
   * `All` throws exactly when it reaches a null: there is one, and every element before the
   * first null is present, so no earlier element ends the search with false.
   */
  lemma {:induction false} AllContainedThrows<T>(o: seq<Option<T>>, s: set<T>)
    ensures AllContained(o, s).Err? <==>
      FirstNull(o) < |o| && forall k :: 0 <= k < FirstNull(o) ==> o[k].value in s
    decreases |o|
  {
    if o != [] && o[0].Some? && o[0].value in s {
      AllContainedThrows(o[1..], s);
      assert forall k :: 1 <= k < FirstNull(o) ==> o[k] == o[1..][k - 1];
    }
  }

  /**
   * `Any` throws exactly when it reaches a null: there is one, and every element before the
   * first null is absent, so no earlier element ends the search with true.
   */
  lemma {:induction false} AnyContainedThrows<T>(o: seq<Option<T>>, s: set<T>)
    ensures AnyContained(o, s).Err? <==>
      FirstNull(o) < |o| && forall k :: 0 <= k < FirstNull(o) ==> o[k].value !in s
    decreases |o|
  {
    if o != [] && o[0].Some? && o[0].value !in s {
      AnyContainedThrows(o[1..], s);
      assert forall k :: 1 <= k < FirstNull(o) ==> o[k] == o[1..][k - 1];
    }
  }

  /** Adding an absent element or removing a present one. */
  function Flip<T>(s: set<T>, x: T): set<T> {
    if x in s then s - {x} else s + {x}
  }

  /** The set after flipping the membership of each non-null element of the collection in turn. */
  function Toggled<T>(s: set<T>, o: seq<Option<T>>): set<T> {
    if o == [] then s
    else
      var p := Toggled(s, o[..|o| - 1]);
      if o[|o| - 1].Some? then Flip(p, o[|o| - 1].value) else p
  }

  /** An element ends up present exactly when it started present XOR it occurs an odd number of times. */
  lemma {:induction false} ToggledParity<T>(s: set<T>, o: seq<Option<T>>, x: T)
    ensures x in Toggled(s, o) <==> (x in s) != (multiset(o)[Some(x)] % 2 == 1)
  {
    if o != [] {
      var p := o[..|o| - 1];
      assert o == p + [o[|o| - 1]];
      assert multiset(o) == multiset(p) + multiset{o[|o| - 1]};
      ToggledParity(s, p, x);
    }
  }

  class ConcurrentHashSet<T(==)> {
    /** The keys of `DicInternal`; a key is never null. */
    var items: set<T>

    constructor ()
      ensures items == {}
    {
      items := {};
    }

    /** `TryAdd(item)`: false for null or a present item; otherwise the item is added. */
    method TryAdd(item: Option<T>) returns (r: bool)
      modifies this
      ensures r <==> item.Some? && item.value !in old(items)
      ensures item.None? ==> items == old(items)
      ensures item.Some? ==> items == old(items) + {item.value}
    {
      if item.None? || item.value in items {
        return false;
      }
      items := items + {item.value};
      return true;
    }

    /** `ICollection<T>.Add(item)`: a null item is ignored. */
    method CollectionAdd(item: Option<T>)
      modifies this
      ensures items == if item.Some? then old(items) + {item.value} else old(items)
    {
      if item.Some? {
        items := items + {item.value};
      }
    }

    /** `ISet<T>.Add(item)`: a null item reaches the dictionary and throws. */
    method SetAdd(item: Option<T>) returns (r: Outcome<bool>)
      modifies this
      ensures item.None? ==> r == Err(ArgumentNull) && items == old(items)
      ensures item.Some? ==> r == Ok(item.value !in old(items)) && items == old(items) + {item.value}
    {
      if item.None? {
        return Err(ArgumentNull);
      }
      r := Ok(item.value !in items);
      items := items + {item.value};
    }

    /** `Contains(item)`: false for null. */
    function Contains(item: Option<T>): (r: bool)
      reads this
      ensures r ==> item.Some?
      ensures item.Some? ==> (r <==> item.value in items)
    {
      item.Some? && item.value in items
    }

    /** `Remove(item)`: false for null; otherwise whether the item was there. It is gone afterwards. */
    method Remove(item: Option<T>) returns (r: bool)
      modifies this
      ensures r <==> item.Some? && item.value in old(items)
      ensures item.None? ==> items == old(items)
      ensures item.Some? ==> items == old(items) - {item.value} && item.value !in items
    {
      if item.None? {
        return false;
      }
      r := item.value in items;
      items := items - {item.value};
    }

    /** `Clear()`. */
    method Clear()
      modifies this
      ensures items == {}
    {
      items := {};
    }

    /**
     * `TryTake(out item)`: on a non-empty set, some present element (the dictionary's first) is
     * removed and returned. The retry loop only repeats when another thread removed that element
     * in between, which cannot happen here.
     */
    method TryTake() returns (r: Option<T>)
      modifies this
      ensures old(items) == {} ==> r.None? && items == old(items)
      ensures old(items) != {} ==>
        r.Some? && r.value in old(items) && items == old(items) - {r.value} && |items| == |old(items)| - 1
    {
      if items == {} {
        return None;
      }
      var x :| x in items;
      items := items - {x};
      return Some(x);
    }

    /** `UnionWith(other)`: adds each element in turn; a null throws, keeping what was added before it. */
    method UnionWith(other: seq<Option<T>>) returns (r: Outcome<()>)
      modifies this
      ensures items == old(items) + Values(other[..FirstNull(other)])
      ensures r.Ok? <==> NullFree(other)
      ensures r.Err? ==> r.error == ArgumentNull
      ensures NullFree(other) ==> items == old(items) + Values(other)
    {
      ValuesWhole(other);
      var i := 0;
      while i < |other|
        invariant 0 <= i <= |other|
        invariant forall k :: 0 <= k < i ==> other[k].Some?
        invariant items == old(items) + Values(other[..i])
      {
        ValuesSnoc(other, i);
        if other[i].None? {
          return Err(ArgumentNull);
        }
        items := items + {other[i].value};
        i := i + 1;
      }
      return Ok(());
    }

    /** `ExceptWith(other)`: removes each element in turn; a null throws, keeping what was removed before it. */
    method ExceptWith(other: seq<Option<T>>) returns (r: Outcome<()>)
      modifies this
      ensures items == old(items) - Values(other[..FirstNull(other)])
      ensures r.Ok? <==> NullFree(other)
      ensures r.Err? ==> r.error == ArgumentNull
      ensures NullFree(other) ==> items == old(items) - Values(other)
    {
      ValuesWhole(other);
      var i := 0;
      while i < |other|
        invariant 0 <= i <= |other|
        invariant forall k :: 0 <= k < i ==> other[k].Some?
        invariant items == old(items) - Values(other[..i])
      {
        ValuesSnoc(other, i);
        if other[i].None? {
          return Err(ArgumentNull);
        }
        items := items - {other[i].value};
        i := i + 1;
      }
      return Ok(());
    }

    /**
     * `SymmetricExceptWith(other)`: each element in turn is added when absent and removed when
     * present; a null throws, keeping the flips made before it.
     */
    method SymmetricExceptWith(other: seq<Option<T>>) returns (r: Outcome<()>)
      modifies this
      ensures items == Toggled(old(items), other[..FirstNull(other)])
      ensures r.Ok? <==> NullFree(other)
      ensures r.Err? ==> r.error == ArgumentNull
      ensures NullFree(other) ==> items == Toggled(old(items), other)
    {
      assert other[..|other|] == other;
      var i := 0;
      while i < |other|
        invariant 0 <= i <= |other|
        invariant forall k :: 0 <= k < i ==> other[k].Some?
        invariant items == Toggled(old(items), other[..i])
      {
        if other[i].None? {
          return Err(ArgumentNull);
        }
        assert other[..i + 1][..i] == other[..i];
        var x := other[i].value;
        if x !in items {
          items := items + {x};
        } else {
          items := items - {x};
        }
        i := i + 1;
      }
      return Ok(());
    }

    /**
     * One pass of the `IntersectWith` loop: gather the keys outside `setOther`, then remove each
     * one that is still outside it. Reports whether any removal happened.
     */
    method IntersectPass(setOther: set<T>) returns (removal: bool)
      modifies this
      ensures items == old(items) * setOther
      ensures removal <==> !(old(items) <= setOther)
    {
      var toDelete := KeysOutside(setOther);
      removal := RemoveKeys(toDelete, setOther);
      assert (set x | x in toDelete) == old(items) - setOther;
      if |toDelete| > 0 {
        assert toDelete[0] in toDelete;
      }
      if !(old(items) <= setOther) {
        var x :| x in old(items) && x !in setOther;
        assert x in toDelete;
      }
    }

    /** The first loop of a pass: the keys that are not in `setOther`. */
    method KeysOutside(setOther: set<T>) returns (toDelete: seq<T>)
      ensures forall x :: x in toDelete <==> x in items && x !in setOther
    {
      toDelete := [];
      var rest := items;
      while rest != {}
        invariant rest <= items
        invariant forall x :: x in toDelete <==> x in items - rest && x !in setOther
        decreases |rest|
      {
        var x :| x in rest;
        if x !in setOther {
          toDelete := toDelete + [x];
        }
        rest := rest - {x};
      }
    }

    /**
     * The second loop of a pass: remove each gathered key that (on the double check) is still
     * outside `setOther`, noting whether a `TryRemove` succeeded.
     */
    method RemoveKeys(toDelete: seq<T>, setOther: set<T>) returns (removal: bool)
      modifies this
      requires forall x :: x in toDelete ==> x in items && x !in setOther
      ensures items == old(items) - set x | x in toDelete
      ensures removal <==> |toDelete| > 0
    {
      removal := false;
      var j := 0;
      while j < |toDelete|
        invariant 0 <= j <= |toDelete|
        invariant items == old(items) - set k | 0 <= k < j :: toDelete[k]
        invariant removal <==> j > 0
      {
        var x := toDelete[j];
        if x !in setOther {
          var removed := x in items;
          items := items - {x};
          removal := removed || removal;
        }
        j := j + 1;
      }
      assert (set k | 0 <= k < |toDelete| :: toDelete[k]) == set x | x in toDelete by {
        forall x | x in toDelete ensures x in set k | 0 <= k < |toDelete| :: toDelete[k] {
          var k :| 0 <= k < |toDelete| && toDelete[k] == x;
        }
      }
    }

    /**
     * The do/while of `IntersectWith`: passes repeat until one removes nothing. The first pass
     * already removes everything outside `setOther`, so there are two passes (one if nothing had
     * to go), and a repeated call changes nothing.
     */
    method RemoveUntilStable(setOther: set<T>) returns (ghost passes: nat)
      modifies this
      ensures items == old(items) * setOther
      ensures passes == if old(items) <= setOther then 1 else 2
    {
      passes := 0;
      var removal := true;
      while removal
        invariant items <= old(items) && old(items) * setOther <= items
        invariant passes == 0 ==> removal && items == old(items)
        invariant passes >= 1 ==> items <= setOther
        invariant passes == 1 ==> (removal <==> !(old(items) <= setOther))
        invariant passes <= 2 && (passes == 2 ==> !removal && !(old(items) <= setOther))
        decreases |items| + (if removal then 1 else 0)
      {
        ghost var before := items;
        removal := IntersectPass(setOther);
        passes := passes + 1;
        SubsetCard(items, before);
        if removal {
          ghost var x :| x in before && x !in setOther;
          assert x !in items;
        }
      }
    }

    /** `IntersectWith(other)`: keep only the elements that are in `other` (as a `HashSet<T>`). */
    method IntersectWith(other: seq<Option<T>>) returns (ghost passes: nat)
      modifies this
      ensures items == old(items) * Values(other)
      ensures old(items) <= Values(other) ==> items == old(items)
      ensures passes == if old(items) <= Values(other) then 1 else 2
    {
      passes := RemoveUntilStable(Values(other));
    }

    /**
     * `IsSubsetOf(other)` AS WRITTEN: `other.Count(ContainsKey) == Count`. Any null throws (the
     * count visits every element). It means "subset" only when `other` has no duplicates.
     */
    function IsSubsetOf(other: seq<Option<T>>): (r: Outcome<bool>)
      reads this
      ensures r.Err? <==> !NullFree(other)
      ensures r.Err? ==> r.error == ArgumentNull
      ensures NullFree(other) && Distinct(other) ==> r == Ok(items <= Values(other))
    {
      if !NullFree(other) then Err(ArgumentNull)
      else
        CountMeansSubset(other, items);
        Ok(CountIn(other, items) == |items|)
    }

    /** The intended `IsSubsetOf`: count each distinct element of `other` once. */
    function IsSubsetOfCorrected(other: seq<Option<T>>): (r: Outcome<bool>)
      reads this
      ensures r.Err? <==> !NullFree(other)
      ensures NullFree(other) ==> r == Ok(items <= Values(other))
    {
      if !NullFree(other) then Err(ArgumentNull)
      else
        SubsetByCard(items, Values(other));
        Ok(|items * Values(other)| == |items|)
    }

    /** `IsSupersetOf(other)`: `other.All(ContainsKey)`. */
    function IsSupersetOf(other: seq<Option<T>>): (r: Outcome<bool>)
      reads this
      ensures r.Err? ==> r.error == ArgumentNull && !NullFree(other)
      ensures r == Ok(true) <==> NullFree(other) && Values(other) <= items
    {
      AllContained(other, items)
    }

    /** `Overlaps(other)`: `other.Any(ContainsKey)`. */
    function Overlaps(other: seq<Option<T>>): (r: Outcome<bool>)
      reads this
      ensures r.Err? ==> r.error == ArgumentNull && !NullFree(other)
      ensures r == Ok(false) <==> NullFree(other) && Values(other) * items == {}
    {
      AnyContained(other, items)
    }

    /**
     * `SetEquals(other)` AS WRITTEN: every element must be present (stopping at the first that is
     * not, or at a null), and the number of elements must equal `Count`.
     */
    method SetEquals(other: seq<Option<T>>) returns (r: Outcome<bool>)
      ensures r == if AllContained(other, items) == Ok(true) then Ok(|other| == |items|) else AllContained(other, items)
      ensures NullFree(other) && Distinct(other) ==> r == Ok(Values(other) == items)
    {
      var count := 0;
      var i := 0;
      while i < |other|
        invariant 0 <= i <= |other| && count == i
        invariant AllContained(other, items) == AllContained(other[i..], items)
      {
        assert other[i..][1..] == other[i + 1..];
        if other[i].None? {
          return Err(ArgumentNull);
        }
        if other[i].value !in items {
          return Ok(false);
        }
        count := count + 1;
        i := i + 1;
      }
      if NullFree(other) && Distinct(other) && Values(other) <= items {
        DistinctValuesCard(other);
        SubsetCard(Values(other), items);
      }
      return Ok(count == |items|);
    }

    /** The intended `SetEquals`: compare with the number of distinct elements of `other`. */
    function SetEqualsCorrected(other: seq<Option<T>>): (r: Outcome<bool>)
      reads this
      ensures r == Ok(true) <==> NullFree(other) && Values(other) == items
      ensures NullFree(other) ==> r.Ok?
    {
      var all := AllContained(other, items);
      if all == Ok(true) then
        SubsetCard(Values(other), items);
        Ok(|Values(other)| == |items|)
      else all
    }

    /**
     * `IsProperSupersetOf(other)` AS WRITTEN: every element present (as in `SetEquals`) and fewer
     * elements than `Count`.
     */
    method IsProperSupersetOf(other: seq<Option<T>>) returns (r: Outcome<bool>)
      ensures r == if AllContained(other, items) == Ok(true) then Ok(|other| < |items|) else AllContained(other, items)
      ensures NullFree(other) && Distinct(other) ==> r == Ok(Values(other) < items)
    {
      var count := 0;
      var i := 0;
      while i < |other|
        invariant 0 <= i <= |other| && count == i
        invariant AllContained(other, items) == AllContained(other[i..], items)
      {
        assert other[i..][1..] == other[i + 1..];
        if other[i].None? {
          return Err(ArgumentNull);
        }
        if other[i].value !in items {
          return Ok(false);
        }
        count := count + 1;
        i := i + 1;
      }
      if NullFree(other) && Distinct(other) && Values(other) <= items {
        DistinctValuesCard(other);
        SubsetCard(Values(other), items);
      }
      return Ok(count < |items|);
    }

    /** The intended `IsProperSupersetOf`: compare with the number of distinct elements of `other`. */
    function IsProperSupersetOfCorrected(other: seq<Option<T>>): (r: Outcome<bool>)
      reads this
      ensures r == Ok(true) <==> NullFree(other) && Values(other) < items
      ensures NullFree(other) ==> r.Ok?
    {
      var all := AllContained(other, items);
      if all == Ok(true) then
        SubsetCard(Values(other), items);
        Ok(|Values(other)| < |items|)
      else all
    }

    /**
     * `IsProperSubsetOf(other)` AS WRITTEN: count the elements of `other` that are present, note
     * whether any is absent, and require the count to equal `Count` and some element to be absent.
     */
    method IsProperSubsetOf(other: seq<Option<T>>) returns (r: Outcome<bool>)
      ensures !NullFree(other) ==> r == Err(ArgumentNull)
      ensures NullFree(other) ==> r == Ok(CountIn(other, items) == |items| && !(Values(other) <= items))
      ensures NullFree(other) && Distinct(other) ==> r == Ok(items < Values(other))
    {
      var count := 0;
      var equals := true;
      var i := 0;
      while i < |other|
        invariant 0 <= i <= |other|
        invariant forall k :: 0 <= k < i ==> other[k].Some?
        invariant count == CountIn(other[..i], items)
        invariant equals <==> Values(other[..i]) <= items
      {
        ValuesSnoc(other, i);
        assert other[..i + 1][..i] == other[..i];
        if other[i].None? {
          return Err(ArgumentNull);
        }
        if other[i].value in items {
          count := count + 1;
        } else {
          equals := false;
        }
        i := i + 1;
      }
      assert other[..i] == other;
      if Distinct(other) {
        CountInDistinct(other, items);
        SubsetByCard(items, Values(other));
      }
      return Ok(count == |items| && !equals);
    }

    /** The intended `IsProperSubsetOf`: count each distinct element of `other` once. */
    function IsProperSubsetOfCorrected(other: seq<Option<T>>): (r: Outcome<bool>)
      reads this
      ensures r.Err? <==> !NullFree(other)
      ensures NullFree(other) ==> r == Ok(items < Values(other))
    {
      if !NullFree(other) then Err(ArgumentNull)
      else
        SubsetByCard(items, Values(other));
        Ok(|items * Values(other)| == |items| && !(Values(other) <= items))
    }

    /**
     * `CopyTo(array, arrayIndex)`: a null array is a NullReferenceException; the unchecked sum
     * `arrayIndex + Count` beyond the length is an ArgumentOutOfRangeException; then the elements
     * are written from `arrayIndex` on in enumeration order, and a write outside the array throws
     * IndexOutOfRangeException. On success the range `[arrayIndex, arrayIndex + Count)` lists every
     * element exactly once and nothing else changes.
     */
    method CopyTo(a: array?<T>, arrayIndex: Int32) returns (r: Outcome<()>)
      modifies a
      ensures a == null ==> r == Err(NullReference)
      ensures a != null && Wrap32(arrayIndex + |items|) > a.Length ==>
        r == Err(ArgumentOutOfRange) && a[..] == old(a[..])
      ensures a != null && Wrap32(arrayIndex + |items|) <= a.Length ==>
        (r.Ok? <==> items == {} || (0 <= arrayIndex && arrayIndex + |items| <= a.Length))
      ensures a != null && r.Err? ==> forall k :: 0 <= k < a.Length && k < arrayIndex ==> a[k] == old(a[k])
      ensures a != null && r.Ok? && items == {} ==> a[..] == old(a[..])
      ensures a != null && r.Ok? && items != {} ==>
        && 0 <= arrayIndex && arrayIndex + |items| <= a.Length
        && Enumerates(a[arrayIndex..arrayIndex + |items|], items)
        && forall k :: 0 <= k < a.Length && !(arrayIndex <= k < arrayIndex + |items|) ==> a[k] == old(a[k])
    {
      if a == null {
        return Err(NullReference);
      }
      if Wrap32(arrayIndex + |items|) > a.Length {
        return Err(ArgumentOutOfRange);
      }
      var order := Enumerate(items);
      var i: int := arrayIndex;
      var j := 0;
      while j < |order|
        invariant 0 <= j <= |order| && i == arrayIndex + j
        invariant j > 0 ==> 0 <= arrayIndex && i <= a.Length && a[arrayIndex..i] == order[..j]
        invariant forall k :: 0 <= k < a.Length && !(arrayIndex <= k < i) ==> a[k] == old(a[k])
      {
        if !(0 <= i < a.Length) {
          return Err(IndexOutOfRange);
        }
        a[i] := order[j];
        assert a[arrayIndex..i + 1] == a[arrayIndex..i] + [order[j]];
        assert order[..j + 1] == order[..j] + [order[j]];
        i := i + 1;
        j := j + 1;
      }
      if items == {} {
        assert a[..] == old(a[..]);
      } else {
        assert order[..j] == order;
      }
      return Ok(());
    }
  }

  /**
   * Duplicates in `other` mislead the counting predicates. With the set `{0, 1}` and `other` =
   * `[0, 0]`, `IsSubsetOf` and `SetEquals` say true though 1 is not in `other`, and
   * `IsProperSupersetOf` says false though `{0}` is a proper subset; with `other` = `[0, 0, 2]`,
   * `IsProperSubsetOf` says true though 1 is not in `other`.
   */
  method DuplicatesMiscount() returns (s: ConcurrentHashSet<int>, subset: Outcome<bool>, equal: Outcome<bool>,
                                      properSuper: Outcome<bool>, properSub: Outcome<bool>)
    ensures s.items == {0, 1}
    ensures subset == Ok(true) && !(s.items <= Values([Some(0), Some(0)]))
    ensures s.IsSubsetOfCorrected([Some(0), Some(0)]) == Ok(false)
    ensures equal == Ok(true) && s.items != Values([Some(0), Some(0)])
    ensures s.SetEqualsCorrected([Some(0), Some(0)]) == Ok(false)
    ensures properSuper == Ok(false) && Values([Some(0), Some(0)]) < s.items
    ensures s.IsProperSupersetOfCorrected([Some(0), Some(0)]) == Ok(true)
    ensures properSub == Ok(true) && !(s.items < Values([Some(0), Some(0), Some(2)]))
    ensures s.IsProperSubsetOfCorrected([Some(0), Some(0), Some(2)]) == Ok(false)
  {
    s := new ConcurrentHashSet<int>();
    var _ := s.TryAdd(Some(0));
    var _ := s.TryAdd(Some(1));
    var twice := [Some(0), Some(0)];
    var withTwo := [Some(0), Some(0), Some(2)];
    assert Values(twice) == {0} by {
      assert twice[0].value == 0;
    }
    assert Values(withTwo) == {0, 2} by {
      assert withTwo[0].value == 0 && withTwo[2].value == 2;
    }
    assert twice[..1] == [Some(0)];
    assert CountIn([Some(0)], {0, 1}) == 1 by {
      assert [Some(0)][..0] == [];
    }
    assert withTwo[..2] == twice;
    assert 1 in s.items;
    subset := s.IsSubsetOf(twice);
    equal := s.SetEquals(twice);
    properSuper := s.IsProperSupersetOf(twice);
    properSub := s.IsProperSubsetOf(withTwo);
  }
}

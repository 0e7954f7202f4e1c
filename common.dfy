/** Shared value types: an optional value (standing for a .NET reference that may be null)
    and the bounds and wrap-around of a 32-bit signed integer. */
module Common {

  /** `None` stands for a null reference or a value of the wrong runtime type. */
  datatype Option<+T> = None | Some(value: T)

  /** The outcome of a call that either returns a value or throws the exception named by `error`. */
  datatype Result<+R, +E> = Ok(value: R) | Err(error: E)

  const IntMinValue: int := -0x8000_0000
  const IntMaxValue: int := 0x7FFF_FFFF

  /** The values of a C# `int`. */
  type Int32 = x: int | IntMinValue <= x <= IntMaxValue

  predicate InInt32Range(x: int) {
    IntMinValue <= x <= IntMaxValue
  }

  /** Unchecked 32-bit two's-complement wrap-around, as C# arithmetic does by default. */
  function Wrap32(x: int): (r: Int32)
    ensures InInt32Range(x) ==> r == x
    ensures (r - x) % 0x1_0000_0000 == 0
  {
    (x - IntMinValue) % 0x1_0000_0000 + IntMinValue
  }

  /** Unchecked negation of a C# `int`: negating `int.MinValue` gives `int.MinValue` back. */
  function Negate32(x: Int32): (r: Int32)
    ensures x != IntMinValue ==> r == -x
    ensures x == IntMinValue ==> r == IntMinValue
  {
    Wrap32(-(x as int))
  }

  /**
   * An object pool, seen only through how many objects it has handed out and taken back. A
   * fetched object is taken to be empty, as the pool clears what is returned to it.
   */
  class Pool {
    var gets: nat
    var returned: nat

    constructor ()
      ensures gets == 0 && returned == 0
    {
      gets := 0;
      returned := 0;
    }

    method Get()
      modifies this
      ensures gets == old(gets) + 1 && returned == old(returned)
    {
      gets := gets + 1;
    }

    method Return()
      modifies this
      ensures returned == old(returned) + 1 && gets == old(gets)
    {
      returned := returned + 1;
    }
  }

  /** `s` lists every element of `items` exactly once, in some order. */
  ghost predicate Enumerates<T>(s: seq<T>, items: set<T>) {
    multiset(s) == multiset(items)
  }

  /** Two equal elements at different positions make that value occur at least twice. */
  lemma RepeatCountsTwice<T>(s: seq<T>, i: nat, j: nat)
    requires i < j < |s|
    ensures s[i] == s[j] ==> multiset(s)[s[i]] >= 2
  {
    assert s == s[..j] + s[j..];
    assert s[i] == s[..j][i] && s[j] == s[j..][0];
    assert multiset(s) == multiset(s[..j]) + multiset(s[j..]);
  }

  /** An enumeration has the set's size, holds only its elements, all of them, and none twice. */
  lemma EnumeratesMeaning<T>(s: seq<T>, items: set<T>)
    requires Enumerates(s, items)
    ensures |s| == |items|
    ensures forall i :: 0 <= i < |s| ==> s[i] in items
    ensures forall x :: x in items ==> x in s
    ensures forall i, j :: 0 <= i < j < |s| ==> s[i] != s[j]
  {
    assert |multiset(s)| == |multiset(items)|;
    forall i | 0 <= i < |s| ensures s[i] in items {
      assert s[i] in multiset(s);
    }
    forall x | x in items ensures x in s {
      assert x in multiset(items);
    }
    forall i, j | 0 <= i < j < |s| ensures s[i] != s[j] {
      assert s[i] in multiset(s);
      RepeatCountsTwice(s, i, j);
    }
  }

  /** An enumeration of a set, in an order the model leaves open (a hash table's order). */
  method Enumerate<T(==)>(items: set<T>) returns (s: seq<T>)
    ensures Enumerates(s, items)
  {
    s := [];
    var rest := items;
    while rest != {}
      invariant rest <= items
      invariant Enumerates(s, items - rest)
      decreases |rest|
    {
      var x :| x in rest;
      assert items - (rest - {x}) == (items - rest) + {x};
      s := s + [x];
      rest := rest - {x};
    }
    assert items - rest == items;
  }

  /** The first position of `x` in `s`, or -1 (`List<T>.IndexOf` with default equality). */
  function IndexOfItem<T(==)>(s: seq<T>, x: T): (r: int)
    ensures -1 <= r < |s|
    ensures r == -1 <==> x !in s
    ensures r >= 0 ==> s[r] == x && x !in s[..r]
  {
    if |s| == 0 then -1
    else if s[0] == x then 0
    else
      var r := IndexOfItem(s[1..], x);
      assert s == [s[0]] + s[1..];
      if r == -1 then -1
      else
        assert s[..r + 1] == [s[0]] + s[1..][..r];
        r + 1
  }

  /** `s` without its element at position `i`. */
  function RemovedAt<T>(s: seq<T>, i: nat): (r: seq<T>)
    requires i < |s|
    ensures |r| == |s| - 1
    ensures forall k :: 0 <= k < i ==> r[k] == s[k]
    ensures forall k :: i <= k < |r| ==> r[k] == s[k + 1]
  {
    s[..i] + s[i + 1..]
  }

  /** Removing the first occurrence of `x` keeps every other element in order, and only one `x` goes. */
  lemma RemoveFirstOccurrence<T>(s: seq<T>, x: T)
    requires x in s
    ensures var i := IndexOfItem(s, x);
      multiset(RemovedAt(s, i)) == multiset(s) - multiset{x}
  {
    var i := IndexOfItem(s, x);
    MultisetAround(s, i);
  }

  /** A sequence's multiset is what lies before position `i`, the element there, and what lies after. */
  lemma MultisetAround<T>(s: seq<T>, i: nat)
    requires i < |s|
    ensures multiset(s) == multiset(s[..i]) + multiset{s[i]} + multiset(s[i + 1..])
    ensures multiset(RemovedAt(s, i)) == multiset(s[..i]) + multiset(s[i + 1..])
  {
    assert s == s[..i] + ([s[i]] + s[i + 1..]);
  }
}

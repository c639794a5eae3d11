// The list operations the place graph is built from: Python's `list.append`
// guarded by `not in`, and `list.remove` guarded by `in`. Membership is the
// equality of T; for references (the places) that is object identity, as it
// is for Python objects that define no __eq__.
module Lists {

  /** No element occurs twice. */
  predicate NoDuplicates<T(==)>(s: seq<T>)
  {
    forall i, j :: 0 <= i < j < |s| ==> s[i] != s[j]
  }

  /** `if x not in s: s.append(x)`. */
  function AddUnique<T(==)>(s: seq<T>, x: T): (r: seq<T>)
    ensures x in r && (forall y :: y in s ==> y in r)
    ensures forall y :: y in r ==> y in s || y == x
    ensures |s| <= |r| && r[..|s|] == s
    ensures x in s ==> r == s
    ensures x !in s ==> |r| == |s| + 1 && r[|s|] == x
    ensures NoDuplicates(s) ==> NoDuplicates(r)
  {
    if x in s then s else s + [x]
  }

  /** Adds every element of xs, in order, each with AddUnique. */
  function AddAll<T(==)>(s: seq<T>, xs: seq<T>): (r: seq<T>)
    ensures (forall y :: y in s ==> y in r) && (forall y :: y in xs ==> y in r)
    ensures forall y :: y in r ==> y in s || y in xs
    ensures |s| <= |r| && r[..|s|] == s
    ensures NoDuplicates(s) ==> NoDuplicates(r)
  {
    if xs == [] then s else AddUnique(AddAll(s, xs[..|xs| - 1]), xs[|xs| - 1])
  }

  /** Adding one more element at the end of xs is one more AddUnique. */
  lemma AddAllSnoc<T>(s: seq<T>, xs: seq<T>, x: T)
    ensures AddAll(s, xs + [x]) == AddUnique(AddAll(s, xs), x)
  {
  }

  /** Into an empty list, a duplicate-free xs is added as it is, in its order. */
  lemma {:induction false} AddAllIntoEmpty<T>(xs: seq<T>)
    requires NoDuplicates(xs)
    ensures AddAll([], xs) == xs
  {
    if xs != [] {
      var init := xs[..|xs| - 1];
      assert NoDuplicates(init);
      AddAllIntoEmpty(init);
      assert xs[|xs| - 1] !in init;
      assert init + [xs[|xs| - 1]] == xs;
    }
  }

  /** Adding elements that are all present already changes nothing. */
  lemma {:induction false} AddAllAbsorbed<T>(s: seq<T>, xs: seq<T>)
    requires forall x :: x in xs ==> x in s
    ensures AddAll(s, xs) == s
  {
    if xs != [] {
      var init := xs[..|xs| - 1];
      assert forall x :: x in init ==> x in xs;
      AddAllAbsorbed(s, init);
      assert xs[|xs| - 1] in xs;
    }
  }

  /** The position of the first occurrence of x. */
  function FirstIndex<T(==)>(s: seq<T>, x: T): (i: nat)
    requires x in s
    ensures i < |s| && s[i] == x && x !in s[..i]
  {
    if s[0] == x then 0 else
      assert x in s[1..];
      var k := FirstIndex(s[1..], x);
      assert s[..k + 1] == [s[0]] + s[1..][..k];
      k + 1
  }

  /** `if x in s: s.remove(x)`: drops the first occurrence of x, if any. */
  function RemoveFirst<T(==)>(s: seq<T>, x: T): (r: seq<T>)
    ensures x !in s ==> r == s
    ensures x in s ==> |r| == |s| - 1
  {
    if s == [] then []
    else
      assert s == [s[0]] + s[1..];
      if s[0] == x then s[1..]
      else [s[0]] + RemoveFirst(s[1..], x)
  }

  /** Exactly one copy of x goes, if there is one; nothing else is lost or added. */
  lemma {:induction false} RemoveFirstMultiset<T>(s: seq<T>, x: T)
    ensures multiset(RemoveFirst(s, x)) == multiset(s) - multiset{x}
  {
    if s != [] {
      assert s == [s[0]] + s[1..];
      if s[0] != x {
        RemoveFirstMultiset(s[1..], x);
      }
    }
  }

  /** The occurrence removed is the first one, and the rest keep their order. */
  lemma {:induction false} RemoveFirstIsSplice<T>(s: seq<T>, x: T)
    requires x in s
    ensures RemoveFirst(s, x) == s[..FirstIndex(s, x)] + s[FirstIndex(s, x) + 1..]
  {
    if s[0] != x {
      var t := s[1..];
      assert x in t;
      RemoveFirstIsSplice(t, x);
      var k := FirstIndex(t, x);
      assert FirstIndex(s, x) == k + 1;
      calc {
        RemoveFirst(s, x);
        [s[0]] + RemoveFirst(t, x);
        [s[0]] + (t[..k] + t[k + 1..]);
        { assert s[..k + 1] == [s[0]] + t[..k]; assert s[k + 2..] == t[k + 1..]; }
        s[..k + 1] + s[k + 2..];
      }
    }
  }

  /** Removing what was just added gives back the list it was added to. */
  lemma {:induction false} RemoveUndoesAdd<T>(s: seq<T>, x: T)
    requires x !in s
    ensures RemoveFirst(AddUnique(s, x), x) == s
  {
    var u := s + [x];
    assert AddUnique(s, x) == u;
    if s == [] {
      assert u[1..] == [];
    } else {
      var t := s[1..];
      assert u[0] == s[0] && s[0] != x && u[1..] == t + [x];
      assert x !in t;
      assert AddUnique(t, x) == t + [x];
      RemoveUndoesAdd(t, x);
      assert RemoveFirst(u, x) == [s[0]] + t;
    }
  }

  /** Adding an element back after removing it from a duplicate-free list
    * gives the same elements, the added one now last. */
  lemma AddAfterRemove<T>(s: seq<T>, x: T)
    requires NoDuplicates(s) && x in s
    ensures AddUnique(RemoveFirst(s, x), x) == s[..FirstIndex(s, x)] + s[FirstIndex(s, x) + 1..] + [x]
  {
    RemoveFirstOfDistinct(s, x);
    RemoveFirstIsSplice(s, x);
  }

  /** In a duplicate-free list, removing x removes x and only x. */
  lemma {:induction false} RemoveFirstOfDistinct<T>(s: seq<T>, x: T)
    requires NoDuplicates(s)
    ensures NoDuplicates(RemoveFirst(s, x))
    ensures forall y :: y in RemoveFirst(s, x) ==> y in s && y != x
    ensures forall y :: y in s && y != x ==> y in RemoveFirst(s, x)
  {
    if s != [] {
      var t := s[1..];
      assert NoDuplicates(t);
      assert s[0] !in t;
      assert forall y :: y in s <==> y == s[0] || y in t;
      if s[0] != x {
        RemoveFirstOfDistinct(t, x);
        var r := RemoveFirst(t, x);
        assert RemoveFirst(s, x) == [s[0]] + r;
        assert s[0] !in r;
      }
    }
  }
}

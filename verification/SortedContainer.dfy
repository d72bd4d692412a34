/** Vectors kept in the order of a key, without two elements of the same key. */
module SortedContainer {

  // RD_NVAL, the largest 64-bit number
  const RD_NVAL := 0xFFFF_FFFF_FFFF_FFFF

  ghost predicate Increasing<T(!new)>(key: T -> nat, s: seq<T>) {
    forall i, j :: 0 <= i < j < |s| ==> key(s[i]) < key(s[j])
  }

  /** The vector with t added, unless an element of its key is there. */
  function Inserted<T>(key: T -> nat, s: seq<T>, t: T): seq<T> {
    if s == [] then [t]
    else if key(s[0]) < key(t) then [s[0]] + Inserted(key, s[1..], t)
    else if key(s[0]) == key(t) then s
    else [t] + s
  }

  /** The vector without the element that has the key of t. */
  function Removed<T>(key: T -> nat, s: seq<T>, t: T): seq<T> {
    if s == [] then []
    else if key(s[0]) == key(t) then s[1..]
    else [s[0]] + Removed(key, s[1..], t)
  }

  ghost predicate HasKey<T(!new)>(key: T -> nat, s: seq<T>, k: nat) {
    exists i :: 0 <= i < |s| && key(s[i]) == k
  }

  lemma HasKeyLater<T(!new)>(key: T -> nat, s: seq<T>, k: nat)
    requires s != []
    ensures HasKey(key, s, k) <==> key(s[0]) == k || HasKey(key, s[1..], k)
  {
    if HasKey(key, s[1..], k) {
      var i :| 0 <= i < |s[1..]| && key(s[1..][i]) == k;
      assert key(s[i + 1]) == k;
    }
    if HasKey(key, s, k) {
      var i :| 0 <= i < |s| && key(s[i]) == k;
      assert i > 0 ==> key(s[1..][i - 1]) == k;
    }
  }

  /** An element before an increasing rest. */
  lemma IncreasingWithFirst<T(!new)>(key: T -> nat, x: T, s: seq<T>)
    requires Increasing(key, s) && forall y <- s :: key(x) < key(y)
    ensures Increasing(key, [x] + s)
  {
    var s' := [x] + s;
    assert forall j :: 0 < j < |s'| ==> s'[j] in s && s'[j] == s[j - 1];
  }

  lemma IncreasingRest<T(!new)>(key: T -> nat, s: seq<T>)
    requires Increasing(key, s) && s != []
    ensures Increasing(key, s[1..]) && s == [s[0]] + s[1..] && forall y <- s[1..] :: key(s[0]) < key(y)
  {
  }

  lemma {:induction false} InsertedElements<T(!new)>(key: T -> nat, s: seq<T>, t: T)
    requires Increasing(key, s)
    ensures Increasing(key, Inserted(key, s, t))
    ensures forall x :: x in Inserted(key, s, t) <==> x in s || (x == t && !HasKey(key, s, key(t)))
  {
    hide Increasing, HasKey;
    if s == [] {
      Small(key, t);
    } else {
      IncreasingRest(key, s);
      HasKeyLater(key, s, key(t));
      if key(s[0]) < key(t) {
        InsertedElements(key, s[1..], t);
        IncreasingWithFirst(key, s[0], Inserted(key, s[1..], t));
      } else if key(s[0]) > key(t) {
        IncreasingWithFirst(key, t, s);
        NoSmaller(key, s, key(t));
      }
    }
  }

  lemma Small<T(!new)>(key: T -> nat, t: T)
    ensures Increasing(key, [t]) && forall k :: !HasKey(key, [], k)
  {
  }

  lemma NoSmaller<T(!new)>(key: T -> nat, s: seq<T>, k: nat)
    requires Increasing(key, s) && s != [] && k < key(s[0])
    ensures !HasKey(key, s, k)
  {
  }

  lemma {:induction false} RemovedElements<T(!new)>(key: T -> nat, s: seq<T>, t: T)
    requires Increasing(key, s)
    ensures Increasing(key, Removed(key, s, t))
    ensures forall x :: x in Removed(key, s, t) <==> x in s && key(x) != key(t)
    ensures |Removed(key, s, t)| == if HasKey(key, s, key(t)) then |s| - 1 else |s|
  {
    hide Increasing, HasKey;
    if s == [] {
      Small(key, t);
    } else {
      IncreasingRest(key, s);
      HasKeyLater(key, s, key(t));
      if key(s[0]) != key(t) {
        RemovedElements(key, s[1..], t);
        IncreasingWithFirst(key, s[0], Removed(key, s[1..], t));
      }
    }
  }

  lemma {:induction false} InsertedAt<T(!new)>(key: T -> nat, s: seq<T>, t: T, i: nat)
    requires i <= |s| && (forall j :: 0 <= j < i ==> key(s[j]) < key(t)) && (forall j :: i <= j < |s| ==> key(s[j]) > key(t))
    ensures Inserted(key, s, t) == s[..i] + [t] + s[i..]
  {
    if i > 0 {
      InsertedAt(key, s[1..], t, i - 1);
      assert s[..i] == [s[0]] + s[1..][..i - 1] && s[i..] == s[1..][i - 1..];
    } else if s != [] {
      assert key(s[0]) > key(t);
    }
  }

  lemma {:induction false} InsertedThere<T(!new)>(key: T -> nat, s: seq<T>, t: T, i: nat)
    requires i < |s| && key(s[i]) == key(t) && Increasing(key, s)
    ensures Inserted(key, s, t) == s
  {
    if i > 0 {
      InsertedThere(key, s[1..], t, i - 1);
      assert s == [s[0]] + s[1..];
    }
  }

  lemma {:induction false} RemovedAt<T(!new)>(key: T -> nat, s: seq<T>, t: T, i: nat)
    requires i < |s| && key(s[i]) == key(t) && forall j :: 0 <= j < i ==> key(s[j]) != key(t)
    ensures Removed(key, s, t) == s[..i] + s[i + 1..]
  {
    if i > 0 {
      RemovedAt(key, s[1..], t, i - 1);
      assert s[..i] == [s[0]] + s[1..][..i - 1] && s[i + 1..] == s[1..][i..];
    }
  }

  lemma {:induction false} RemovedNowhere<T(!new)>(key: T -> nat, s: seq<T>, t: T)
    requires forall j :: 0 <= j < |s| ==> key(s[j]) != key(t)
    ensures Removed(key, s, t) == s
  {
    if s != [] {
      assert key(s[0]) != key(t);
      RemovedNowhere(key, s[1..], t);
      assert s == [s[0]] + s[1..];
    }
  }

  class Container<T(!new)> {
    const key: T -> nat
    var items: seq<T>

    ghost predicate Valid()
      reads this
    {
      Increasing(key, items) && |items| < RD_NVAL
    }

    constructor (key: T -> nat)
      ensures Valid() && items == [] && this.key == key
    {
      this.key, items := key, [];
    }

    /** The first element whose key is not less than k, found by halving. */
    method LowerBound(k: nat) returns (i: nat)
      requires Valid()
      ensures i <= |items|
      ensures forall j :: 0 <= j < i ==> key(items[j]) < k
      ensures forall j :: i <= j < |items| ==> key(items[j]) >= k
    {
      i := 0;
      var count := |items|;
      while count > 0
        invariant 0 <= count && i + count <= |items|
        invariant forall j :: 0 <= j < i ==> key(items[j]) < k
        invariant forall j :: i + count <= j < |items| ==> key(items[j]) >= k
      {
        var half := count / 2;
        if key(items[i + half]) < k {
          i, count := i + half + 1, count - half - 1;
        } else {
          count := half;
        }
      }
    }

    /** The first element whose key is greater than k. */
    method UpperBound(k: nat) returns (i: nat)
      requires Valid()
      ensures i <= |items|
      ensures forall j :: 0 <= j < i ==> key(items[j]) <= k
      ensures forall j :: i <= j < |items| ==> key(items[j]) > k
    {
      i := 0;
      var count := |items|;
      while count > 0
        invariant 0 <= count && i + count <= |items|
        invariant forall j :: 0 <= j < i ==> key(items[j]) <= k
        invariant forall j :: i + count <= j < |items| ==> key(items[j]) > k
      {
        var half := count / 2;
        if key(items[i + half]) <= k {
          i, count := i + half + 1, count - half - 1;
        } else {
          count := half;
        }
      }
    }

    method IndexOf(t: T) returns (i: nat)
      requires Valid()
      ensures i == RD_NVAL <==> !HasKey(key, items, key(t))
      ensures i != RD_NVAL ==> i < |items| && key(items[i]) == key(t)
    {
      i := LowerBound(key(t));
      if i == |items| { return RD_NVAL; }
      if key(items[i]) != key(t) {
        return RD_NVAL;
      }
    }

    method Insert(t: T) returns (i: nat)
      requires Valid() && |items| + 1 < RD_NVAL
      modifies `items
      ensures Valid() && items == Inserted(key, old(items), t)
      ensures i < |items| && key(items[i]) == key(t)
    {
      InsertedElements(key, items, t);
      i := IndexOf(t);
      if i != RD_NVAL {
        InsertedThere(key, items, t, i);
        return;
      }
      i := UpperBound(key(t));
      InsertedAt(key, items, t, i);
      items := items[..i] + [t] + items[i..];
    }

    method Remove(t: T) returns (found: bool)
      requires Valid()
      modifies `items
      ensures Valid() && items == Removed(key, old(items), t)
      ensures found <==> HasKey(key, old(items), key(t))
    {
      RemovedElements(key, items, t);
      var i := IndexOf(t);
      if i == RD_NVAL {
        RemovedNowhere(key, items, t);
        return false;
      }
      RemovedAt(key, items, t, i);
      items := items[..i] + items[i + 1..];
      return true;
    }
  }
}

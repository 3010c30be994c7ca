/** The list idioms the domain classes use on their private lists:
    `if x not in s: s.append(x)` and `if x in s: s.remove(x)`, with
    Python's `in` being `==` here (object identity for class instances,
    value equality for strings, integers and enum members). */
module Lists {

  /** No element occurs twice. */
  predicate NoDup<T(==)>(s: seq<T>)
  {
    forall i, j :: 0 <= i < j < |s| ==> s[i] != s[j]
  }

  /** `if x not in s: s.append(x)`. */
  function Added<T(==)>(s: seq<T>, x: T): (r: seq<T>)
    ensures x in r
    ensures |s| <= |r| <= |s| + 1 && r[..|s|] == s
    ensures forall i :: 0 <= i < |r| ==> r[i] in s || r[i] == x
    ensures |r| == |s| + 1 <==> x !in s
  {
    if x in s then s else s + [x]
  }

  /** `if x in s: s.remove(x)`: drops the first occurrence of `x`. */
  function Removed<T(==)>(s: seq<T>, x: T): (r: seq<T>)
    ensures x !in s ==> r == s
    ensures x in s ==> |r| == |s| - 1
  {
    if s == [] then []
    else if s[0] == x then assert s == [s[0]] + s[1..]; s[1..]
    else assert s == [s[0]] + s[1..]; [s[0]] + Removed(s[1..], x)
  }

  /** When `x` is present, the remove cuts out its first occurrence. */
  lemma {:induction false} RemovedIsCut<T>(s: seq<T>, x: T) returns (k: nat)
    requires x in s
    ensures k < |s| && s[k] == x && x !in s[..k]
    ensures Removed(s, x) == s[..k] + s[k + 1..]
  {
    if s[0] == x {
      k := 0;
    } else {
      var t := s[1..];
      assert s == [s[0]] + t;
      assert x in t;
      var k' := RemovedIsCut(t, x);
      k := k' + 1;
      assert Removed(s, x) == [s[0]] + Removed(t, x);
      CutOfTail(s, k');
    }
  }

  /** Cutting index `k` out of the tail and putting the head back cuts
      index `k + 1` out of the list. */
  lemma CutOfTail<T>(s: seq<T>, k: nat)
    requires k + 1 < |s|
    ensures s[..k + 1] == [s[0]] + s[1..][..k]
    ensures [s[0]] + (s[1..][..k] + s[1..][k + 1..]) == s[..k + 1] + s[k + 2..]
  {
    var t := s[1..];
    assert s[k + 2..] == t[k + 1..];
    assert [s[0]] + (t[..k] + t[k + 1..]) == ([s[0]] + t[..k]) + t[k + 1..];
  }

  /** A remove takes away exactly one copy of `x`, when there is one. */
  lemma RemovedMultiset<T>(s: seq<T>, x: T)
    ensures multiset(Removed(s, x)) == multiset(s) - multiset{x}
  {
    if x in s {
      var k := RemovedIsCut(s, x);
      MultisetOfCut(s, k);
    }
  }

  /** Cutting one element out of a list takes one copy of it away. */
  lemma MultisetOfCut<T>(s: seq<T>, k: nat)
    requires k < |s|
    ensures multiset(s[..k] + s[k + 1..]) == multiset(s) - multiset{s[k]}
  {
    var a, b := s[..k], s[k + 1..];
    assert s == a + [s[k]] + b;
    assert multiset(s) == multiset(a) + multiset{s[k]} + multiset(b);
    assert multiset(a + b) == multiset(a) + multiset(b);
  }

  /** Adding an element that is already there changes nothing, so a second
      add leaves the list the first one produced. */
  lemma AddedIdempotent<T>(s: seq<T>, x: T)
    ensures Added(Added(s, x), x) == Added(s, x)
  {
  }

  /** An add keeps a duplicate-free list duplicate-free. */
  lemma AddedKeepsNoDup<T>(s: seq<T>, x: T)
    requires NoDup(s)
    ensures NoDup(Added(s, x))
  {
  }

  /** A remove keeps a duplicate-free list duplicate-free, and afterwards the
      element is gone. */
  lemma RemovedKeepsNoDup<T>(s: seq<T>, x: T)
    requires NoDup(s)
    ensures NoDup(Removed(s, x))
    ensures x !in Removed(s, x)
  {
    if x in s {
      var k := RemovedIsCut(s, x);
      var r := Removed(s, x);
      assert forall i :: 0 <= i < |r| ==> r[i] == s[if i < k then i else i + 1];
    }
  }

  /** Removing an element from the end of a list that does not hold it
      elsewhere leaves the rest. */
  lemma {:induction false} RemovedFromEnd<T>(s: seq<T>, x: T)
    requires x !in s
    ensures Removed(s + [x], x) == s
  {
    if s != [] {
      assert (s + [x])[1..] == s[1..] + [x];
      RemovedFromEnd(s[1..], x);
    }
  }

  /** Adding an absent element and then removing it restores the list. */
  lemma RemoveUndoesAdd<T>(s: seq<T>, x: T)
    requires x !in s
    ensures Removed(Added(s, x), x) == s
  {
    RemovedFromEnd(s, x);
  }

  /** The list after adding each element of `xs` in turn, oldest first. */
  function AddedAll<T(==)>(acc: seq<T>, xs: seq<T>): (r: seq<T>)
    ensures |acc| <= |r| && r[..|acc|] == acc
    ensures forall i :: 0 <= i < |xs| ==> xs[i] in r
  {
    if xs == [] then acc else Added(AddedAll(acc, xs[..|xs| - 1]), xs[|xs| - 1])
  }

  /** Adding one more element after a run of adds. */
  lemma AddedAllSnoc<T>(acc: seq<T>, xs: seq<T>, x: T)
    ensures AddedAll(acc, xs + [x]) == Added(AddedAll(acc, xs), x)
  {
    assert (xs + [x])[..|xs|] == xs;
  }

  /** Adding elements that are all present already changes nothing. */
  lemma {:induction false} AddedAllPresent<T>(acc: seq<T>, xs: seq<T>)
    requires forall x :: x in xs ==> x in acc
    ensures AddedAll(acc, xs) == acc
  {
    if xs != [] {
      AddedAllPresent(acc, xs[..|xs| - 1]);
    }
  }

  /** Adding the same elements twice has the effect of adding them once. */
  lemma AddedAllIdempotent<T>(acc: seq<T>, xs: seq<T>)
    ensures AddedAll(AddedAll(acc, xs), xs) == AddedAll(acc, xs)
  {
    AddedAllPresent(AddedAll(acc, xs), xs);
  }

  /** Adding pairwise-distinct new elements appends every one of them. */
  lemma {:induction false} AddedAllFresh<T>(acc: seq<T>, xs: seq<T>)
    requires NoDup(xs)
    requires forall x :: x in xs ==> x !in acc
    ensures AddedAll(acc, xs) == acc + xs
  {
    if xs != [] {
      var init := xs[..|xs| - 1];
      var last := xs[|xs| - 1];
      assert xs == init + [last];
      AddedAllFresh(acc, init);
      assert last !in init by {
        forall k | 0 <= k < |init| ensures init[k] != last {
          assert init[k] == xs[k];
        }
      }
      var a := acc + init;
      assert last !in a;
      assert AddedAll(acc, xs) == Added(a, last);
      assert Added(a, last) == a + [last];
      assert a + [last] == acc + xs;
    }
  }

  /** The elements of `s` that satisfy `f`, in their original order: a list
      comprehension with a condition, or a query's `WHERE` clause. */
  function Filter<T(==)>(s: seq<T>, f: T -> bool): (r: seq<T>)
    ensures |r| <= |s|
    ensures forall i :: 0 <= i < |r| ==> r[i] in s && f(r[i])
  {
    if s == [] then []
    else
      var rest := Filter(s[1..], f);
      assert forall i :: 0 <= i < |rest| ==> rest[i] in s by {
        forall i | 0 <= i < |rest| ensures rest[i] in s {
          assert rest[i] in s[1..];
        }
      }
      if f(s[0]) then [s[0]] + rest else rest
  }

  /** Every element that satisfies the condition is kept. */
  lemma {:induction false} FilterKeepsSelected<T>(s: seq<T>, f: T -> bool, i: nat)
    requires i < |s| && f(s[i])
    ensures s[i] in Filter(s, f)
  {
    if i > 0 {
      assert s[i] == s[1..][i - 1];
      FilterKeepsSelected(s[1..], f, i - 1);
    }
  }

  /** A condition that every element satisfies keeps the whole list. */
  lemma {:induction false} FilterAll<T>(s: seq<T>, f: T -> bool)
    requires forall i :: 0 <= i < |s| ==> f(s[i])
    ensures Filter(s, f) == s
  {
    if s != [] {
      assert forall i :: 0 <= i < |s[1..]| ==> s[1..][i] == s[i + 1];
      FilterAll(s[1..], f);
      assert s == [s[0]] + s[1..];
    }
  }

  /** Filtering a list extended at the end filters the extension separately. */
  lemma {:induction false} FilterSnoc<T>(s: seq<T>, x: T, f: T -> bool)
    ensures Filter(s + [x], f) == Filter(s, f) + (if f(x) then [x] else [])
  {
    if s != [] {
      assert (s + [x])[1..] == s[1..] + [x];
      FilterSnoc(s[1..], x, f);
    }
  }

  /** Filtering a duplicate-free list keeps it duplicate-free. */
  lemma {:induction false} FilterKeepsNoDup<T>(s: seq<T>, f: T -> bool)
    requires NoDup(s)
    ensures NoDup(Filter(s, f))
  {
    if s != [] {
      FilterKeepsNoDup(s[1..], f);
      var rest := Filter(s[1..], f);
      assert s[0] !in s[1..] by {
        forall k | 0 <= k < |s[1..]| ensures s[1..][k] != s[0] {
          assert s[1..][k] == s[k + 1];
        }
      }
      assert s[0] !in rest;
    }
  }

  /** Two conditions that agree on every element select the same elements. */
  lemma {:induction false} FilterAgree<T>(s: seq<T>, f: T -> bool, g: T -> bool)
    requires forall i :: 0 <= i < |s| ==> f(s[i]) == g(s[i])
    ensures Filter(s, f) == Filter(s, g)
  {
    if s != [] {
      assert forall i :: 0 <= i < |s[1..]| ==> s[1..][i] == s[i + 1];
      FilterAgree(s[1..], f, g);
    }
  }

  /** A condition that no element satisfies selects nothing. */
  lemma {:induction false} FilterNoneSelected<T>(s: seq<T>, f: T -> bool)
    requires forall i :: 0 <= i < |s| ==> !f(s[i])
    ensures Filter(s, f) == []
  {
    if s != [] {
      assert forall i :: 0 <= i < |s[1..]| ==> s[1..][i] == s[i + 1];
      FilterNoneSelected(s[1..], f);
    }
  }
}

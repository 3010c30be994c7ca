/** A like of a post, and the list operations that `Post` performs on its
    likes, where membership is decided by `Like.__eq__`. */
module Likes {
  import opened Common
  import opened Lists

  /** An immutable like record: the accessors return exactly these fields. */
  datatype Like = Like(id: int, userId: int, postId: int, createdAt: Timestamp)

  /** The right-hand side of `like == other`: a like, or any other value. */
  datatype Operand = LikeOperand(like: Like) | NonLike

  /** `Like.__eq__`: compares the id, the author and the post; the creation
      time plays no part. */
  predicate Equal(a: Like, b: Like)
  {
    a.id == b.id && a.userId == b.userId && a.postId == b.postId
  }

  /** `Like.__eq__(self, other)` for an arbitrary `other`. */
  predicate EqualTo(a: Like, other: Operand)
  {
    other.LikeOperand? && Equal(a, other.like)
  }

  /** The three fields equality looks at. */
  function Key(l: Like): (k: (int, int, int))
    ensures k.0 == l.id && k.1 == l.userId && k.2 == l.postId
  {
    (l.id, l.userId, l.postId)
  }

  /** Two likes are equal exactly when they agree on their key, whatever
      their creation times. */
  lemma EqualIffSameKey(a: Like, b: Like)
    ensures Equal(a, b) <==> Key(a) == Key(b)
    ensures Equal(a, b) <==> Equal(a.(createdAt := b.createdAt), b)
  {
  }

  /** A like is never equal to a value that is not a like. */
  lemma NeverEqualsNonLike(a: Like)
    ensures !EqualTo(a, NonLike)
  {
  }

  /** Changing any one of the compared fields makes the likes unequal. */
  lemma ChangedFieldUnequal(a: Like, v: int)
    ensures v != a.id ==> !Equal(a, a.(id := v))
    ensures v != a.userId ==> !Equal(a, a.(userId := v))
    ensures v != a.postId ==> !Equal(a, a.(postId := v))
  {
  }

  /** `Equal` is an equivalence relation. */
  lemma EqualIsEquivalence(a: Like, b: Like, c: Like)
    ensures Equal(a, a)
    ensures Equal(a, b) ==> Equal(b, a)
    ensures Equal(a, b) && Equal(b, c) ==> Equal(a, c)
  {
  }

  /** `like in likes`. */
  predicate HasLike(s: seq<Like>, x: Like)
  {
    exists i :: 0 <= i < |s| && Equal(s[i], x)
  }

  /** No two likes of the list are equal. */
  predicate Distinct(s: seq<Like>)
  {
    forall i, j :: 0 <= i < j < |s| ==> !Equal(s[i], s[j])
  }

  /** `Post.add_like`: appends the like unless an equal one is present. */
  function WithLike(s: seq<Like>, x: Like): (r: seq<Like>)
    ensures HasLike(r, x)
    ensures HasLike(s, x) ==> r == s
    ensures !HasLike(s, x) ==> r == s + [x]
  {
    if HasLike(s, x) then s else assert (s + [x])[|s|] == x; s + [x]
  }

  /** `Post.remove_like`: removes the first like equal to `x`, if any. */
  function WithoutLike(s: seq<Like>, x: Like): (r: seq<Like>)
    ensures !HasLike(s, x) ==> r == s
    ensures HasLike(s, x) ==> |r| == |s| - 1
  {
    if s == [] then []
    else if Equal(s[0], x) then s[1..]
    else
      assert HasLike(s, x) ==> HasLike(s[1..], x) by {
        if HasLike(s, x) {
          var i :| 0 <= i < |s| && Equal(s[i], x);
          assert Equal(s[1..][i - 1], x);
        }
      }
      assert !HasLike(s, x) ==> !HasLike(s[1..], x) by {
        if HasLike(s[1..], x) {
          var i :| 0 <= i < |s[1..]| && Equal(s[1..][i], x);
          assert Equal(s[i + 1], x);
        }
      }
      [s[0]] + WithoutLike(s[1..], x)
  }

  /** When an equal like is present, the remove cuts out the first one. */
  lemma {:induction false} WithoutLikeIsCut(s: seq<Like>, x: Like) returns (k: nat)
    requires HasLike(s, x)
    ensures k < |s| && Equal(s[k], x)
    ensures forall i :: 0 <= i < k ==> !Equal(s[i], x)
    ensures WithoutLike(s, x) == s[..k] + s[k + 1..]
  {
    if Equal(s[0], x) {
      k := 0;
    } else {
      var t := s[1..];
      var i :| 0 <= i < |s| && Equal(s[i], x);
      assert Equal(t[i - 1], x);
      var k' := WithoutLikeIsCut(t, x);
      k := k' + 1;
      assert s[..k] == [s[0]] + t[..k'];
      assert s[k + 1..] == t[k' + 1..];
      assert [s[0]] + (t[..k'] + t[k' + 1..]) == ([s[0]] + t[..k']) + t[k' + 1..];
    }
  }

  /** Adding a like twice leaves the list that adding it once produced. */
  lemma WithLikeIdempotent(s: seq<Like>, x: Like)
    ensures WithLike(WithLike(s, x), x) == WithLike(s, x)
  {
  }

  /** An add keeps a list of pairwise-unequal likes so. */
  lemma WithLikeKeepsDistinct(s: seq<Like>, x: Like)
    requires Distinct(s)
    ensures Distinct(WithLike(s, x))
  {
    if !HasLike(s, x) {
      var r := s + [x];
      forall i, j | 0 <= i < j < |r| ensures !Equal(r[i], r[j]) {
        if j == |s| {
          assert !Equal(s[i], x);
        }
      }
    }
  }

  /** A remove keeps a list of pairwise-unequal likes so, and then no like
      equal to `x` is left. */
  lemma WithoutLikeKeepsDistinct(s: seq<Like>, x: Like)
    requires Distinct(s)
    ensures Distinct(WithoutLike(s, x))
    ensures !HasLike(WithoutLike(s, x), x)
  {
    if HasLike(s, x) {
      var k := WithoutLikeIsCut(s, x);
      var r := WithoutLike(s, x);
      assert forall i :: 0 <= i < |r| ==> r[i] == s[if i < k then i else i + 1];
      forall i | 0 <= i < |r| ensures !Equal(r[i], x) {
        if i >= k {
          assert !Equal(s[k], s[i + 1]);
        }
      }
    }
  }

  /** Adding a like that has no equal in the list and then removing it
      restores the list. */
  lemma RemoveUndoesAdd(s: seq<Like>, x: Like)
    requires !HasLike(s, x)
    ensures WithoutLike(WithLike(s, x), x) == s
  {
    var r := s + [x];
    assert Equal(r[|s|], x);
    assert forall i :: 0 <= i < |s| ==> r[i] == s[i] && !Equal(r[i], x);
    var k := WithoutLikeIsCut(r, x);
    assert k == |s|;
    assert r[..|s|] == s;
  }

  /** A like with no equal in the list grows it by one and is then in it. */
  lemma FreshLikeGrows(s: seq<Like>, x: Like)
    requires !HasLike(s, x)
    ensures |WithLike(s, x)| == |s| + 1
    ensures WithLike(s, x)[|s|] == x
  {
  }

  /** The likes after adding each of `xs` in turn with `add_like`. */
  function WithLikes(acc: seq<Like>, xs: seq<Like>): (r: seq<Like>)
    ensures |acc| <= |r| <= |acc| + |xs| && r[..|acc|] == acc
    ensures forall i :: 0 <= i < |xs| ==> HasLike(r, xs[i])
  {
    if xs == [] then acc
    else
      var init := WithLikes(acc, xs[..|xs| - 1]);
      var r := WithLike(init, xs[|xs| - 1]);
      assert forall i :: 0 <= i < |xs| - 1 ==> xs[i] == xs[..|xs| - 1][i];
      assert forall i :: 0 <= i < |xs| - 1 ==> HasLike(r, xs[i]) by {
        forall i | 0 <= i < |xs| - 1 ensures HasLike(r, xs[i]) {
          assert HasLike(init, xs[..|xs| - 1][i]);
          var j :| 0 <= j < |init| && Equal(init[j], xs[i]);
          assert r[j] == init[j];
        }
      }
      r
  }

  /** Adding one more like after a run of adds. */
  lemma WithLikesSnoc(acc: seq<Like>, xs: seq<Like>, x: Like)
    ensures WithLikes(acc, xs + [x]) == WithLike(WithLikes(acc, xs), x)
  {
    assert (xs + [x])[..|xs|] == xs;
  }

  /** Adding pairwise-unequal likes none of which has an equal already
      present appends every one of them. */
  lemma {:induction false} WithLikesFresh(acc: seq<Like>, xs: seq<Like>)
    requires Distinct(xs)
    requires forall i :: 0 <= i < |xs| ==> !HasLike(acc, xs[i])
    ensures WithLikes(acc, xs) == acc + xs
  {
    if xs != [] {
      var init := xs[..|xs| - 1];
      var last := xs[|xs| - 1];
      assert xs == init + [last];
      assert forall i :: 0 <= i < |init| ==> init[i] == xs[i];
      WithLikesFresh(acc, init);
      forall j | 0 <= j < |acc + init| ensures !Equal((acc + init)[j], last) {
        if j < |acc| {
          assert !HasLike(acc, xs[|xs| - 1]);
        } else {
          assert !Equal(xs[j - |acc|], xs[|xs| - 1]);
        }
      }
    }
  }

  /** Selecting some of a list of pairwise-unequal likes keeps them so. */
  lemma {:induction false} FilterKeepsDistinct(s: seq<Like>, f: Like -> bool)
    requires Distinct(s)
    ensures Distinct(Filter(s, f))
  {
    if s != [] {
      var t := s[1..];
      assert Distinct(t) by {
        forall i, j | 0 <= i < j < |t| ensures !Equal(t[i], t[j]) {
          assert t[i] == s[i + 1] && t[j] == s[j + 1];
        }
      }
      FilterKeepsDistinct(t, f);
      var rest := Filter(t, f);
      if f(s[0]) {
        forall j | 0 <= j < |rest| ensures !Equal(s[0], rest[j]) {
          var k :| 0 <= k < |t| && t[k] == rest[j];
          assert t[k] == s[k + 1];
        }
        var r := [s[0]] + rest;
        forall i, j | 0 <= i < j < |r| ensures !Equal(r[i], r[j]) {
          if i > 0 {
            assert r[i] == rest[i - 1] && r[j] == rest[j - 1];
          }
        }
      }
    }
  }
}

/** Facts about Python lists used as association lists: duplicate-freedom,
    `list.remove` (first occurrence) and the sub-list that omits one value. */
module Lists {

  /** No element occurs twice: what a composite primary key guarantees of a join table. */
  predicate NoDup<T(==)>(s: seq<T>)
  {
    forall i, j | 0 <= i < j < |s| :: s[i] != s[j]
  }

  /** In a duplicate-free list every value occurs at most once. */
  lemma {:induction false} NoDupCount<T>(s: seq<T>, x: T)
    requires NoDup(s)
    ensures multiset(s)[x] <= 1
  {
    if s != [] {
      assert s == [s[0]] + s[1..];
      assert NoDup(s[1..]) by {
        forall i, j | 0 <= i < j < |s[1..]| ensures s[1..][i] != s[1..][j] {
          assert s[1..][i] == s[i + 1] && s[1..][j] == s[j + 1];
        }
      }
      NoDupCount(s[1..], x);
      if s[0] == x {
        assert x !in s[1..] by {
          forall k | 0 <= k < |s[1..]| ensures s[1..][k] != x {
            assert s[1..][k] == s[k + 1];
          }
        }
      }
    }
  }

  /** Index of the first occurrence of `x`. */
  function FirstIndex<T(==)>(s: seq<T>, x: T): (i: nat)
    requires x in s
    ensures i < |s| && s[i] == x && x !in s[..i]
  {
    if s[0] == x then 0
    else
      var j := FirstIndex(s[1..], x);
      assert s[..j + 1] == [s[0]] + s[1..][..j];
      j + 1
  }

  /** Python's `list.remove(x)`: drops the first occurrence of `x`. The list
      method raises when `x` is absent, hence the precondition. */
  function RemoveFirst<T(==)>(s: seq<T>, x: T): (r: seq<T>)
    requires x in s
    ensures r == s[..FirstIndex(s, x)] + s[FirstIndex(s, x) + 1..]
    ensures multiset(r) == multiset(s) - multiset{x}
    ensures |r| == |s| - 1
    ensures forall y :: y in r ==> y in s
  {
    var i := FirstIndex(s, x);
    assert s == s[..i] + [x] + s[i + 1..];
    s[..i] + s[i + 1..]
  }

  /** The list with every occurrence of `x` left out, other elements in order. */
  function Without<T(==,!new)>(s: seq<T>, x: T): (r: seq<T>)
    ensures x !in r
    ensures forall y :: y in r <==> y in s && y != x
  {
    if s == [] then []
    else (if s[0] == x then [] else [s[0]]) + Without(s[1..], x)
  }

  lemma {:induction false} WithoutConcat<T(!new)>(a: seq<T>, b: seq<T>, x: T)
    ensures Without(a + b, x) == Without(a, x) + Without(b, x)
  {
    if a == [] {
      assert a + b == b;
    } else {
      assert (a + b)[1..] == a[1..] + b;
      WithoutConcat(a[1..], b, x);
    }
  }

  /** Removing one occurrence of `x` does not disturb the other elements or their order. */
  lemma WithoutRemoveFirst<T(!new)>(s: seq<T>, x: T)
    requires x in s
    ensures Without(RemoveFirst(s, x), x) == Without(s, x)
  {
    var i := FirstIndex(s, x);
    assert s == s[..i] + ([x] + s[i + 1..]);
    WithoutConcat(s[..i], [x] + s[i + 1..], x);
    WithoutConcat([x], s[i + 1..], x);
    WithoutConcat(s[..i], s[i + 1..], x);
  }

  /** Appending `x` does not disturb the other elements or their order. */
  lemma WithoutAppend<T(!new)>(s: seq<T>, x: T)
    ensures Without(s + [x], x) == Without(s, x)
  {
    WithoutConcat(s, [x], x);
  }

  /** `list.remove(x)` drops exactly the occurrence after an `x`-free prefix. */
  lemma RemoveFirstSplit<T>(p: seq<T>, x: T, q: seq<T>)
    requires x !in p
    ensures x in p + [x] + q
    ensures RemoveFirst(p + [x] + q, x) == p + q
  {
    var s := p + [x] + q;
    assert s[|p|] == x;
    assert s[..|p|] == p;
    var i := FirstIndex(s, x);
    assert i == |p|;
    assert s[..i] == p && s[i + 1..] == q;
  }

  /** Removing a value that was just appended to a list without it restores the list. */
  lemma RemoveFirstAppended<T>(s: seq<T>, x: T)
    requires x !in s
    ensures RemoveFirst(s + [x], x) == s
  {
    assert (s + [x])[..|s|] == s;
    assert x !in (s + [x])[..|s|];
  }

  /** Removing an element of a duplicate-free list keeps it duplicate-free and
      leaves no copy of that element behind. */
  lemma NoDupRemoveFirst<T>(s: seq<T>, x: T)
    requires x in s
    ensures NoDup(s) ==> NoDup(RemoveFirst(s, x)) && x !in RemoveFirst(s, x)
  {
    if NoDup(s) {
      var i := FirstIndex(s, x);
      var r := RemoveFirst(s, x);
      forall a, b | 0 <= a < b < |r| ensures r[a] != r[b] {
        var a' := if a < i then a else a + 1;
        var b' := if b < i then b else b + 1;
        assert r[a] == s[a'] && r[b] == s[b'];
      }
      NoDupCount(s, x);
      assert multiset(r)[x] == 0;
    }
  }

  lemma NoDupAppend<T>(s: seq<T>, x: T)
    requires NoDup(s) && x !in s
    ensures NoDup(s + [x])
  {
  }
}

/**
 Python's string order and `list.sort()` on a list of strings. Strings compare
 character by character by code point, and a proper prefix comes first.
 (Dafny's own `<=` on sequences means "is a prefix of", which is only part of
 this order.)
 */
module LexOrder {

  /** `a <= b` on Python strings. */
  predicate LexLe(a: string, b: string): (r: bool)
    ensures a <= b ==> r
    ensures |a| > 0 && |b| > 0 && a[0] != b[0] ==> (r <==> a[0] < b[0])
    ensures |a| > 0 && |b| == 0 ==> !r
    decreases |a|
  {
    |a| == 0 || (|b| > 0 && (a[0] < b[0] || (a[0] == b[0] && LexLe(a[1..], b[1..]))))
  }

  /** `a` and `b` agree before index `k` and `a` has the smaller character at `k`. */
  predicate SmallerAt(a: string, b: string, k: nat) {
    k < |a| && k < |b| && a[..k] == b[..k] && a[k] < b[k]
  }

  /** The textbook definition: `a` is a prefix of `b`, or `a` is smaller at the first difference. */
  predicate LexLeByFirstDifference(a: string, b: string) {
    a <= b || exists k: nat | k < |a| :: SmallerAt(a, b, k)
  }

  /** `LexLe` is a total order: reflexive, antisymmetric, transitive and total. */
  lemma {:induction false} LexLeReflexive(a: string)
    ensures LexLe(a, a)
    decreases |a|
  {
    if |a| > 0 {
      LexLeReflexive(a[1..]);
    }
  }

  lemma {:induction false} LexLeAntisymmetric(a: string, b: string)
    requires LexLe(a, b) && LexLe(b, a)
    ensures a == b
    decreases |a|
  {
    if |a| > 0 {
      LexLeAntisymmetric(a[1..], b[1..]);
      assert a == [a[0]] + a[1..];
      assert b == [b[0]] + b[1..];
    }
  }

  lemma {:induction false} LexLeTransitive(a: string, b: string, c: string)
    requires LexLe(a, b) && LexLe(b, c)
    ensures LexLe(a, c)
    decreases |a|
  {
    if |a| > 0 && a[0] == b[0] && b[0] == c[0] {
      LexLeTransitive(a[1..], b[1..], c[1..]);
    }
  }

  lemma {:induction false} LexLeTotal(a: string, b: string)
    ensures LexLe(a, b) || LexLe(b, a)
    decreases |a|
  {
    if |a| > 0 && |b| > 0 && a[0] == b[0] {
      LexLeTotal(a[1..], b[1..]);
    }
  }

  /** The recursive order agrees with the first-difference definition, in both directions. */
  lemma {:induction false} LexLeMatchesFirstDifference(a: string, b: string)
    ensures LexLe(a, b) <==> LexLeByFirstDifference(a, b)
    decreases |a|
  {
    if |a| == 0 {
      assert a <= b;
    } else if |b| == 0 {
      assert !(a <= b);
      forall k: nat | k < |a| && SmallerAt(a, b, k)
        ensures false
      {
      }
    } else if a[0] < b[0] {
      assert SmallerAt(a, b, 0);
    } else if a[0] > b[0] {
      assert !(a <= b);
      forall k: nat | k < |a| && SmallerAt(a, b, k)
        ensures false
      {
      }
    } else {
      var a', b' := a[1..], b[1..];
      LexLeMatchesFirstDifference(a', b');
      assert a == [a[0]] + a' && b == [b[0]] + b';
      assert a <= b <==> a' <= b';
      if LexLe(a', b') && !(a' <= b') {
        var k: nat :| k < |a'| && SmallerAt(a', b', k);
        assert a[..k + 1] == [a[0]] + a'[..k];
        assert b[..k + 1] == [b[0]] + b'[..k];
        assert SmallerAt(a, b, k + 1);
      }
      if LexLeByFirstDifference(a, b) && !(a <= b) {
        var k: nat :| k < |a| && SmallerAt(a, b, k);
        assert k > 0;
        assert a[..k] == [a[0]] + a'[..k - 1];
        assert b[..k] == [b[0]] + b'[..k - 1];
        assert SmallerAt(a', b', k - 1);
      }
    }
  }

  /** Every pair of entries, not just neighbours, is in order. */
  predicate Sorted(s: seq<string>) {
    forall i, j :: 0 <= i < j < |s| ==> LexLe(s[i], s[j])
  }

  /** Each element of `s` is at least `x`. */
  predicate AllAtLeast(x: string, s: seq<string>) {
    forall j :: 0 <= j < |s| ==> LexLe(x, s[j])
  }

  /** A lower bound of every element of a multiset is a lower bound of any ordering of it. */
  lemma AtLeastByMultiset(x: string, s: seq<string>, t: seq<string>)
    requires forall e :: e in multiset(s) ==> LexLe(x, e)
    requires multiset(t) <= multiset(s)
    ensures AllAtLeast(x, t)
  {
  }

  /** Inserts `x` into a sorted list before the first element it does not exceed. */
  function Insert(x: string, s: seq<string>): (r: seq<string>)
    requires Sorted(s)
    ensures Sorted(r)
    ensures multiset(r) == multiset(s) + multiset{x}
  {
    if |s| == 0 then [x]
    else if LexLe(x, s[0]) then
      InsertFront(x, s);
      [x] + s
    else
      var rest := Insert(x, s[1..]);
      assert s == [s[0]] + s[1..];
      InsertBehind(x, s, rest);
      [s[0]] + rest
  }

  /** Putting `x` in front keeps the list sorted when `x` does not exceed its head. */
  lemma InsertFront(x: string, s: seq<string>)
    requires Sorted(s) && |s| > 0 && LexLe(x, s[0])
    ensures Sorted([x] + s)
  {
    forall j | 0 <= j < |s|
      ensures LexLe(x, s[j])
    {
      if j > 0 {
        LexLeTransitive(x, s[0], s[j]);
      }
    }
  }

  /** Keeping the head in front keeps the list sorted when `x` exceeds the head. */
  lemma InsertBehind(x: string, s: seq<string>, rest: seq<string>)
    requires Sorted(s) && |s| > 0 && !LexLe(x, s[0])
    requires Sorted(rest) && multiset(rest) == multiset(s[1..]) + multiset{x}
    ensures Sorted([s[0]] + rest)
  {
    LexLeTotal(x, s[0]);
    forall e | e in multiset(s[1..]) + multiset{x}
      ensures LexLe(s[0], e)
    {
      if e != x {
        var j :| 0 <= j < |s[1..]| && s[1..][j] == e;
        assert s[j + 1] == e;
      }
    }
    AtLeastByMultiset(s[0], s[1..] + [x], rest);
  }

  /** `list.sort()` on strings, written as insertion sort (see `SortedUnique`). */
  function Sort(s: seq<string>): (r: seq<string>)
    ensures Sorted(r)
    ensures multiset(r) == multiset(s)
    ensures |r| == |s|
  {
    if |s| == 0 then []
    else
      assert s == [s[0]] + s[1..];
      var r := Insert(s[0], Sort(s[1..]));
      assert |r| == |multiset(r)|;
      r
  }

  /**
   There is only one sorted arrangement of a multiset of strings, so any
   correct sorting algorithm (Python's included) returns what `Sort` returns.
   */
  lemma {:induction false} SortedUnique(a: seq<string>, b: seq<string>)
    requires Sorted(a) && Sorted(b)
    requires multiset(a) == multiset(b)
    ensures a == b
    decreases |a|
  {
    if |a| == 0 {
      assert |multiset(b)| == 0;
    } else {
      assert a[0] in multiset(b);
      var j :| 0 <= j < |b| && b[j] == a[0];
      assert b[0] in multiset(a);
      var i :| 0 <= i < |a| && a[i] == b[0];
      assert LexLe(b[0], a[0]) by {
        if j > 0 {
          assert LexLe(b[0], b[j]);
        } else {
          LexLeReflexive(b[0]);
        }
      }
      assert LexLe(a[0], b[0]) by {
        if i > 0 {
          assert LexLe(a[0], a[i]);
        } else {
          LexLeReflexive(a[0]);
        }
      }
      LexLeAntisymmetric(a[0], b[0]);
      assert a == [a[0]] + a[1..];
      assert b == [b[0]] + b[1..];
      assert multiset(a) == multiset{a[0]} + multiset(a[1..]);
      assert multiset(b) == multiset{b[0]} + multiset(b[1..]);
      assert multiset(a[1..]) == multiset(a) - multiset{a[0]};
      assert multiset(b[1..]) == multiset(b) - multiset{b[0]};
      SortedUnique(a[1..], b[1..]);
    }
  }

  /** Sorting a sorted list changes nothing, so sorting twice is sorting once. */
  lemma SortIdempotent(s: seq<string>)
    ensures Sort(Sort(s)) == Sort(s)
  {
    SortedUnique(Sort(Sort(s)), Sort(s));
  }

  /** The result of sorting depends only on which strings are listed, not on their order. */
  lemma SortIgnoresInputOrder(a: seq<string>, b: seq<string>)
    requires multiset(a) == multiset(b)
    ensures Sort(a) == Sort(b)
  {
    SortedUnique(Sort(a), Sort(b));
  }
}

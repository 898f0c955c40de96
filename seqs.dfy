/** Facts about ordered lists that stand for Python lists and for the key order of Python dicts. */
module Seqs {

  /** No element occurs twice. */
  ghost predicate NoDup<T>(s: seq<T>)
  {
    forall i, j :: 0 <= i < j < |s| ==> s[i] != s[j]
  }

  /** `order` lists the keys `keys` in some order, each exactly once: the key order of a Python dict. */
  ghost predicate OrderedKeys<K>(order: seq<K>, keys: set<K>)
  {
    NoDup(order) && (forall k :: k in order ==> k in keys) && (forall k :: k in keys ==> k in order)
  }

  /** Python's `list.remove(x)` when x is present, and a `del` on a dict's key order:
      the first occurrence of x goes, everything else keeps its place. */
  function RemoveFirst<T(==)>(s: seq<T>, x: T): (r: seq<T>)
    ensures x in s ==> |r| == |s| - 1
    ensures x !in s ==> r == s
  {
    if s == [] then []
    else if s[0] == x then s[1..]
    else [s[0]] + RemoveFirst(s[1..], x)
  }

  /** RemoveFirst takes away exactly one occurrence of x, when there is one, and nothing else. */
  lemma {:induction false} RemoveFirstMultiset<T>(s: seq<T>, x: T)
    ensures multiset(RemoveFirst(s, x)) == multiset(s) - multiset{x}
  {
    if s != [] {
      assert s == [s[0]] + s[1..];
      if s[0] != x {
        RemoveFirstMultiset(s[1..], x);
      }
    }
  }

  /** Appending x adds one occurrence of x and leaves every other count alone. */
  lemma AppendCount<T>(s: seq<T>, x: T)
    ensures forall y :: multiset(s + [x])[y] == multiset(s)[y] + (if y == x then 1 else 0)
  {
    assert multiset(s + [x]) == multiset(s) + multiset{x};
  }

  /** Removing a present x takes one occurrence of x and leaves every other count alone. */
  lemma RemoveFirstCount<T>(s: seq<T>, x: T)
    requires x in s
    ensures forall y :: multiset(RemoveFirst(s, x))[y] == multiset(s)[y] - (if y == x then 1 else 0)
  {
    RemoveFirstMultiset(s, x);
  }

  /** On a list without duplicates, removing the first occurrence removes the element entirely. */
  lemma {:induction false} RemoveFirstNoDup<T>(s: seq<T>, x: T)
    requires NoDup(s)
    ensures NoDup(RemoveFirst(s, x))
    ensures forall y :: y in RemoveFirst(s, x) <==> y in s && y != x
  {
    if s != [] && s[0] != x {
      var t := s[1..];
      assert NoDup(t) by {
        forall i, j | 0 <= i < j < |t| ensures t[i] != t[j] {
          assert t[i] == s[i + 1] && t[j] == s[j + 1];
        }
      }
      RemoveFirstNoDup(t, x);
      var r := RemoveFirst(s, x);
      assert r == [s[0]] + RemoveFirst(t, x);
      assert s[0] !in RemoveFirst(t, x);
    } else if s != [] {
      assert forall y :: y in s[1..] ==> y != x by {
        forall i | 0 <= i < |s[1..]| ensures s[1..][i] != x {
          assert s[1..][i] == s[i + 1];
        }
      }
      assert forall y :: y in s ==> y == s[0] || y in s[1..];
    }
  }

  /** Appending an absent element and removing it again gives back the original list. */
  lemma {:induction false} AppendThenRemove<T>(s: seq<T>, x: T)
    requires x !in s
    ensures RemoveFirst(s + [x], x) == s
  {
    if s != [] {
      assert (s + [x])[0] == s[0];
      assert (s + [x])[1..] == s[1..] + [x];
      AppendThenRemove(s[1..], x);
    }
  }

  /** A list without duplicates has as many elements as the set of its elements. */
  lemma {:induction false} NoDupCard<T>(s: seq<T>)
    requires NoDup(s)
    ensures |set x | x in s| == |s|
  {
    if s != [] {
      var t := s[..|s| - 1];
      var last := s[|s| - 1];
      assert NoDup(t);
      NoDupCard(t);
      assert last !in t;
      assert (set x | x in s) == (set x | x in t) + {last} by {
        assert s == t + [last];
      }
    }
  }

  /** A key order has as many entries as there are keys. */
  lemma OrderedKeysCard<K>(order: seq<K>, keys: set<K>)
    requires OrderedKeys(order, keys)
    ensures |order| == |keys|
  {
    NoDupCard(order);
    assert (set k | k in order) == keys;
  }

  /** The values of map m listed in the order of `order`: Python's `list(d.values())`. */
  function ValuesInOrder<K, V>(order: seq<K>, m: map<K, V>): (r: seq<V>)
    requires forall k :: k in order ==> k in m
    ensures |r| == |order|
    ensures forall i :: 0 <= i < |order| ==> r[i] == m[order[i]]
  {
    if order == [] then []
    else ValuesInOrder(order[..|order| - 1], m) + [m[order[|order| - 1]]]
  }

  /** r followed by the elements of s that are not yet present, each added at most once:
      the loop `for x in s: if x not in r: r.append(x)`. */
  function AppendNew<T(==)>(r: seq<T>, s: seq<T>): (u: seq<T>)
    ensures |r| <= |u| && u[..|r|] == r
    ensures forall x :: x in u ==> x in r || x in s
    ensures forall x :: x in r ==> x in u
    ensures forall x :: x in s ==> x in u
  {
    if s == [] then r
    else
      var u := AppendNew(r, s[..|s| - 1]);
      var x := s[|s| - 1];
      assert s == s[..|s| - 1] + [x];
      if x in u then u else u + [x]
  }

  /** One more round of the loop behind AppendNew. */
  lemma AppendNewStep<T>(r: seq<T>, s: seq<T>, i: int)
    requires 0 <= i < |s|
    ensures AppendNew(r, s[..i + 1]) ==
      var u := AppendNew(r, s[..i]); if s[i] in u then u else u + [s[i]]
  {
    assert s[..i + 1][..i] == s[..i];
  }

  /** AppendNew of a single element appends it unless it is already there. */
  lemma AppendNewOne<T>(r: seq<T>, x: T)
    ensures AppendNew(r, [x]) == if x in r then r else r + [x]
  {
    assert [x][..0] == [];
  }

  /** AppendNew keeps a duplicate-free list duplicate-free. */
  lemma {:induction false} AppendNewNoDup<T>(r: seq<T>, s: seq<T>)
    requires NoDup(r)
    ensures NoDup(AppendNew(r, s))
  {
    if s != [] {
      AppendNewNoDup(r, s[..|s| - 1]);
    }
  }

  /** In a list without duplicates an element occurs once if present and not at all otherwise. */
  lemma {:induction false} NoDupOccurrence<T>(s: seq<T>, x: T)
    requires NoDup(s)
    ensures multiset(s)[x] == if x in s then 1 else 0
  {
    if s != [] {
      var t := s[1..];
      assert s == [s[0]] + t;
      assert NoDup(t) by {
        forall i, j | 0 <= i < j < |t| ensures t[i] != t[j] {
          assert t[i] == s[i + 1] && t[j] == s[j + 1];
        }
      }
      assert s[0] !in t;
      NoDupOccurrence(t, x);
    }
  }
}

/** Sequence and set operations the UI code is written with: removing one
    index with `filter((_, i) => i !== k)`, `splice(start, 1)`, removing by
    key with `filter(x => x.id !== id)`, and the add-or-delete toggle on a
    copied Set. */
module Lists {

  /** `s.filter((_, i) => i !== k)`: every element whose index is not k, in
      order. Any k outside the index range keeps every element. */
  function RemoveIndex<T>(s: seq<T>, k: int): (r: seq<T>)
    ensures 0 <= k < |s| ==> r == s[..k] + s[k + 1..]
    ensures !(0 <= k < |s|) ==> r == s
    decreases |s|
  {
    if |s| == 0 then []
    else
      var pre := s[..|s| - 1];
      var rest := RemoveIndex(pre, k);
      if k == |s| - 1 then
        rest
      else
        assert 0 <= k < |pre| ==> rest + [s[|s| - 1]] == s[..k] + s[k + 1..] by {
          if 0 <= k < |pre| {
            assert s[k + 1..] == pre[k + 1..] + [s[|s| - 1]];
          }
        }
        rest + [s[|s| - 1]]
  }

  /** Removing a valid index drops exactly one element and shifts the later
      ones down by one place. */
  lemma RemoveIndexShifts<T>(s: seq<T>, k: int)
    requires 0 <= k < |s|
    ensures |RemoveIndex(s, k)| == |s| - 1
    ensures forall j :: 0 <= j < k ==> RemoveIndex(s, k)[j] == s[j]
    ensures forall j :: k <= j < |s| - 1 ==> RemoveIndex(s, k)[j] == s[j + 1]
  {
  }

  /** Appending an element and removing it again gives the sequence back. */
  lemma RemoveIndexLast<T>(s: seq<T>, x: T)
    ensures RemoveIndex(s + [x], |s|) == s
  {
    assert (s + [x])[..|s|] == s;
  }

  /** `s.map((x, i) => i === k ? g(x) : x)`: the element at index k replaced
      by its image under g. */
  function UpdateAt<T>(s: seq<T>, k: int, g: T -> T): (r: seq<T>)
    ensures |r| == |s|
  {
    seq(|s|, i requires 0 <= i < |s| => if i == k then g(s[i]) else s[i])
  }

  /** The map touches the element at k and nothing else; an index outside
      the sequence leaves it as it was. */
  lemma UpdateAtIndex<T>(s: seq<T>, k: int, g: T -> T)
    ensures 0 <= k < |s| ==> UpdateAt(s, k, g) == s[k := g(s[k])]
    ensures !(0 <= k < |s|) ==> UpdateAt(s, k, g) == s
  {
    if 0 <= k < |s| {
      assert forall i :: 0 <= i < |s| ==> UpdateAt(s, k, g)[i] == s[k := g(s[k])][i];
    } else {
      assert forall i :: 0 <= i < |s| ==> UpdateAt(s, k, g)[i] == s[i];
    }
  }

  /** The index `splice(start, 1)` removes at: a negative start counts from
      the end and is clamped to 0, a start past the end is clamped to the
      length (and then removes nothing). */
  function SpliceStart(n: nat, start: int): (k: nat)
    ensures k <= n
    ensures 0 <= start <= n ==> k == start
    ensures start > n ==> k == n
    ensures start < 0 && n + start >= 0 ==> k == n + start
    ensures n + start < 0 ==> k == 0
  {
    if start < 0 then (if n + start < 0 then 0 else n + start)
    else if start < n then start else n
  }

  /** `s.splice(start, 1)` applied to s: the array left behind. */
  function Splice1<T>(s: seq<T>, start: int): (r: seq<T>)
    ensures |r| == if SpliceStart(|s|, start) < |s| then |s| - 1 else |s|
  {
    RemoveIndex(s, SpliceStart(|s|, start))
  }

  /** The cases of splice with a delete count of one. */
  lemma SpliceCases<T>(s: seq<T>, start: int)
    ensures 0 <= start < |s| ==> Splice1(s, start) == s[..start] + s[start + 1..]
    ensures start >= |s| ==> Splice1(s, start) == s
    ensures -|s| <= start < 0 ==> Splice1(s, start) == s[..|s| + start] + s[|s| + start + 1..]
    ensures start < -|s| && |s| > 0 ==> Splice1(s, start) == s[1..]
  {
  }

  /** `s.filter(x => key(x) !== k)`: every element whose key differs, in order. */
  function RemoveKey<T(!new), K(==)>(s: seq<T>, key: T -> K, k: K): (r: seq<T>)
    ensures |r| <= |s|
    ensures forall x :: x in r <==> x in s && key(x) != k
    decreases |s|
  {
    if |s| == 0 then []
    else
      var rest := RemoveKey(s[..|s| - 1], key, k);
      assert s == s[..|s| - 1] + [s[|s| - 1]];
      if key(s[|s| - 1]) == k then rest else rest + [s[|s| - 1]]
  }

  /** `s.findIndex(x => key(x) === k)`: the first index whose element carries
      key k, or -1. */
  function FindKey<T, K(==)>(s: seq<T>, key: T -> K, k: K): (i: int)
    ensures -1 <= i < |s|
    ensures 0 <= i ==> key(s[i]) == k && forall j :: 0 <= j < i ==> key(s[j]) != k
    ensures i < 0 ==> forall j :: 0 <= j < |s| ==> key(s[j]) != k
    decreases |s|
  {
    if |s| == 0 then -1
    else if key(s[0]) == k then 0
    else
      var i := FindKey(s[1..], key, k);
      if i < 0 then -1 else i + 1
  }

  /** The search looks only at the keys: two lists with the same key at
      every index find a key at the same index. */
  lemma {:induction false} FindKeySameKeys<T, U, K>(s: seq<T>, key: T -> K, t: seq<U>, key': U -> K, k: K)
    requires |s| == |t| && forall i :: 0 <= i < |s| ==> key(s[i]) == key'(t[i])
    ensures FindKey(s, key, k) == FindKey(t, key', k)
    decreases |s|
  {
    if |s| > 0 {
      FindKeySameKeys(s[1..], key, t[1..], key', k);
    }
  }

  /** The number of elements carrying key k. */
  function CountKey<T, K(==)>(s: seq<T>, key: T -> K, k: K): nat
    decreases |s|
  {
    if |s| == 0 then 0
    else CountKey(s[..|s| - 1], key, k) + (if key(s[|s| - 1]) == k then 1 else 0)
  }

  /** The filter removes exactly the elements that carry the key and keeps the
      others in their order: if no element has the key nothing changes. */
  lemma {:induction false} RemoveKeyCount<T(!new), K>(s: seq<T>, key: T -> K, k: K)
    ensures |RemoveKey(s, key, k)| == |s| - CountKey(s, key, k)
    ensures CountKey(s, key, k) == 0 ==> RemoveKey(s, key, k) == s
    decreases |s|
  {
    if |s| > 0 {
      RemoveKeyCount(s[..|s| - 1], key, k);
      assert s == s[..|s| - 1] + [s[|s| - 1]];
    }
  }

  /** The filter works element by element and keeps the order: filtering a
      concatenation is filtering each part and concatenating the results. */
  lemma {:induction false} RemoveKeyConcat<T(!new), K>(s: seq<T>, t: seq<T>, key: T -> K, k: K)
    ensures RemoveKey(s + t, key, k) == RemoveKey(s, key, k) + RemoveKey(t, key, k)
    decreases |t|
  {
    if |t| == 0 {
      assert s + t == s;
    } else {
      var pre, last := t[..|t| - 1], t[|t| - 1];
      RemoveKeyConcat(s, pre, key, k);
      var tail := if key(last) == k then [] else [last];
      assert (s + t)[..|s + t| - 1] == s + pre && (s + t)[|s + t| - 1] == last;
      assert RemoveKey(s + t, key, k) == RemoveKey(s + pre, key, k) + tail;
      assert RemoveKey(t, key, k) == RemoveKey(pre, key, k) + tail;
    }
  }

  /** A list in which no element carries the key passes the filter whole. */
  lemma {:induction false} RemoveKeyNone<T(!new), K>(s: seq<T>, key: T -> K, k: K)
    requires forall i :: 0 <= i < |s| ==> key(s[i]) != k
    ensures RemoveKey(s, key, k) == s
    decreases |s|
  {
    if |s| > 0 {
      var pre := s[..|s| - 1];
      assert forall i :: 0 <= i < |pre| ==> pre[i] == s[i];
      RemoveKeyNone(pre, key, k);
    }
  }

  /** With distinct keys, filtering out a present key is removing the index
      where findIndex finds it: the other elements keep their order. */
  lemma {:induction false} RemoveKeyAt<T(!new), K>(s: seq<T>, key: T -> K, k: K)
    requires DistinctKeys(s, key) && FindKey(s, key, k) >= 0
    ensures RemoveKey(s, key, k) == RemoveIndex(s, FindKey(s, key, k))
    decreases |s|
  {
    var i := FindKey(s, key, k);
    var pre, last := s[..|s| - 1], s[|s| - 1];
    assert forall j :: 0 <= j < |pre| ==> pre[j] == s[j];
    if i == |s| - 1 {
      RemoveKeyNone(pre, key, k);
    } else {
      assert DistinctKeys(pre, key);
      assert FindKey(pre, key, k) == i;
      assert key(last) != k by {
        assert key(s[i]) != key(s[|s| - 1]);
      }
      RemoveKeyAt(pre, key, k);
    }
  }

  /** Keys in a sequence are pairwise distinct. */
  predicate DistinctKeys<T, K(==)>(s: seq<T>, key: T -> K) {
    forall i, j :: 0 <= i < j < |s| ==> key(s[i]) != key(s[j])
  }

  /** With distinct keys at most one element carries a given key. */
  lemma {:induction false} DistinctCountAtMostOne<T, K>(s: seq<T>, key: T -> K, k: K)
    requires DistinctKeys(s, key)
    ensures CountKey(s, key, k) <= 1
    ensures CountKey(s, key, k) == 0 <==> forall i :: 0 <= i < |s| ==> key(s[i]) != k
    decreases |s|
  {
    if |s| > 0 {
      var pre := s[..|s| - 1];
      assert DistinctKeys(pre, key) by {
        forall i, j | 0 <= i < j < |pre| ensures key(pre[i]) != key(pre[j]) {
          assert pre[i] == s[i] && pre[j] == s[j];
        }
      }
      DistinctCountAtMostOne(pre, key, k);
      if key(s[|s| - 1]) == k {
        forall i | 0 <= i < |pre| ensures key(pre[i]) != k {
          assert pre[i] == s[i];
        }
      }
      if CountKey(s, key, k) == 0 {
        forall i | 0 <= i < |s| ensures key(s[i]) != k {
          if i < |pre| { assert pre[i] == s[i]; }
        }
      }
      if CountKey(pre, key, k) > 0 {
        var i :| 0 <= i < |pre| && key(pre[i]) == k;
        assert s[i] == pre[i];
      }
    }
  }

  /** With distinct keys, looking up the key of an element finds that element. */
  lemma FindKeyOfMember<T, K>(s: seq<T>, key: T -> K, x: T)
    requires DistinctKeys(s, key) && x in s
    ensures 0 <= FindKey(s, key, key(x)) && s[FindKey(s, key, key(x))] == x
  {
    var j :| 0 <= j < |s| && s[j] == x;
    assert key(s[j]) == key(x);
  }

  /** With distinct keys the filter drops one element when the key is
      present and none otherwise. */
  lemma RemoveKeyLength<T(!new), K>(s: seq<T>, key: T -> K, k: K)
    requires DistinctKeys(s, key)
    ensures |RemoveKey(s, key, k)| == if FindKey(s, key, k) >= 0 then |s| - 1 else |s|
  {
    DistinctCountAtMostOne(s, key, k);
    RemoveKeyCount(s, key, k);
  }

  /** Filtering keeps keys distinct. */
  lemma {:induction false} RemoveKeyDistinct<T(!new), K>(s: seq<T>, key: T -> K, k: K)
    requires DistinctKeys(s, key)
    ensures DistinctKeys(RemoveKey(s, key, k), key)
    decreases |s|
  {
    if |s| > 0 {
      var pre := s[..|s| - 1];
      var last := s[|s| - 1];
      assert DistinctKeys(pre, key) by {
        forall i, j | 0 <= i < j < |pre| ensures key(pre[i]) != key(pre[j]) {
          assert pre[i] == s[i] && pre[j] == s[j];
        }
      }
      RemoveKeyDistinct(pre, key, k);
      var rest := RemoveKey(pre, key, k);
      if key(last) != k {
        forall x | x in rest ensures key(x) != key(last) {
          assert x in pre;
          var i :| 0 <= i < |pre| && pre[i] == x;
          assert s[i] == x;
        }
        var r := rest + [last];
        forall i, j | 0 <= i < j < |r| ensures key(r[i]) != key(r[j]) {
          if j == |rest| {
            assert r[i] in rest;
          } else {
            assert r[i] == rest[i] && r[j] == rest[j];
          }
        }
      }
    }
  }

  /** `copy = new Set(s); copy.has(x) ? copy.delete(x) : copy.add(x)`. */
  function Toggle<T(!new)>(s: set<T>, x: T): (r: set<T>)
    ensures x in r <==> x !in s
    ensures forall y :: y != x ==> (y in r <==> y in s)
  {
    if x in s then s - {x} else s + {x}
  }

  /** Toggling twice restores the set. */
  lemma ToggleTwice<T(!new)>(s: set<T>, x: T)
    ensures Toggle(Toggle(s, x), x) == s
  {
  }
}

/**
 * Sequence operations the course graph is built from: the JavaScript array
 * methods the code relies on (`filter`), the "keep the first element per key,
 * remember the keys in a Set" loop it writes twice, and the duplicate-free
 * lists behind the approved-course counter.
 */
module Lists {

  /** A value that may be missing (JavaScript `undefined` / `null`). */
  datatype Option<+T> = None | Some(value: T)

  /** `r` is obtained from `s` by deleting zero or more elements (order kept). */
  ghost predicate IsSubseq<T>(r: seq<T>, s: seq<T>)
    decreases |s|
  {
    if r == [] then true
    else if s == [] then false
    else (r[|r| - 1] == s[|s| - 1] && IsSubseq(r[..|r| - 1], s[..|s| - 1]))
         || IsSubseq(r, s[..|s| - 1])
  }

  lemma {:induction false} SubseqMember<T>(r: seq<T>, s: seq<T>, x: T)
    requires IsSubseq(r, s) && x in r
    ensures x in s
    decreases |s|
  {
    var s' := s[..|s| - 1];
    assert s == s' + [s[|s| - 1]];
    if r[|r| - 1] == s[|s| - 1] && IsSubseq(r[..|r| - 1], s') {
      assert r == r[..|r| - 1] + [r[|r| - 1]];
      if x != r[|r| - 1] {
        SubseqMember(r[..|r| - 1], s', x);
      }
    } else {
      SubseqMember(r, s', x);
    }
  }

  lemma {:induction false} SubseqLength<T>(r: seq<T>, s: seq<T>)
    requires IsSubseq(r, s)
    ensures |r| <= |s|
    decreases |s|
  {
    if r != [] {
      if r[|r| - 1] == s[|s| - 1] && IsSubseq(r[..|r| - 1], s[..|s| - 1]) {
        SubseqLength(r[..|r| - 1], s[..|s| - 1]);
      } else {
        SubseqLength(r, s[..|s| - 1]);
      }
    }
  }

  /** `Array.prototype.filter`: the elements of `s` satisfying `p`, in order. */
  function Filter<T(==,!new)>(s: seq<T>, p: T -> bool): (r: seq<T>)
    ensures IsSubseq(r, s)
    ensures forall x :: multiset(r)[x] == if p(x) then multiset(s)[x] else 0
    decreases |s|
  {
    if s == [] then []
    else
      var init := s[..|s| - 1];
      var last := s[|s| - 1];
      assert s == init + [last];
      var rest := Filter(init, p);
      if p(last) then
        assert (rest + [last])[..|rest|] == rest;
        rest + [last]
      else
        rest
  }

  lemma {:induction false} FilterKeepsAll<T(!new)>(s: seq<T>, p: T -> bool)
    requires forall x :: x in s ==> p(x)
    ensures Filter(s, p) == s
    decreases |s|
  {
    if s != [] {
      var init := s[..|s| - 1];
      assert s == init + [s[|s| - 1]];
      FilterKeepsAll(init, p);
    }
  }

  /** The keys of the elements of `s`: the contents of the Set the loop keeps. */
  function KeySet<T(==)>(s: seq<T>, key: T -> string): set<string>
  {
    set x | x in s :: key(x)
  }

  lemma KeySetSnoc<T>(s: seq<T>, x: T, key: T -> string)
    ensures KeySet(s + [x], key) == KeySet(s, key) + {key(x)}
  {
  }

  /** No two elements of `s` share a key. */
  ghost predicate KeysDistinct<T>(s: seq<T>, key: T -> string)
  {
    forall i, j :: 0 <= i < j < |s| ==> key(s[i]) != key(s[j])
  }

  /** `s[i]` is the first element of `s` with its key. */
  ghost predicate FirstWithKey<T>(s: seq<T>, i: int, key: T -> string)
    requires 0 <= i < |s|
  {
    forall k :: 0 <= k < i ==> key(s[k]) != key(s[i])
  }

  /**
   * The loop `forEach(x => { if (!seen.has(key(x))) { seen.add(key(x)); out.push(x) } })`:
   * keeps the first element for every key, in input order.
   */
  function FirstByKey<T(==)>(s: seq<T>, key: T -> string): (r: seq<T>)
    ensures IsSubseq(r, s)
    ensures KeySet(r, key) == KeySet(s, key)
    ensures KeysDistinct(r, key)
    decreases |s|
  {
    if s == [] then []
    else
      var init := s[..|s| - 1];
      var last := s[|s| - 1];
      assert s == init + [last];
      var kept := FirstByKey(init, key);
      KeySetSnoc(init, last, key);
      KeySetSnoc(kept, last, key);
      if key(last) in KeySet(kept, key) then
        kept
      else
        assert (kept + [last])[..|kept|] == kept;
        assert forall i :: 0 <= i < |kept| ==> key(kept[i]) in KeySet(kept, key);
        kept + [last]
  }

  /** One step of the loop: appending `x` to the input. */
  lemma FirstByKeySnoc<T>(s: seq<T>, x: T, key: T -> string)
    ensures FirstByKey(s + [x], key)
            == if key(x) in KeySet(FirstByKey(s, key), key) then FirstByKey(s, key)
               else FirstByKey(s, key) + [x]
  {
  }

  lemma FirstWithKeyExtend<T>(s: seq<T>, x: T, i: int, key: T -> string)
    requires 0 <= i < |s| && FirstWithKey(s, i, key)
    ensures FirstWithKey(s + [x], i, key)
  {
  }

  lemma FirstWithNewKey<T>(s: seq<T>, x: T, key: T -> string)
    requires key(x) !in KeySet(s, key)
    ensures FirstWithKey(s + [x], |s|, key)
  {
  }

  /** Every kept element is the first element of the input with its key. */
  lemma {:induction false} FirstByKeyKeepsFirst<T>(s: seq<T>, key: T -> string, j: int)
    requires 0 <= j < |FirstByKey(s, key)|
    ensures exists i :: 0 <= i < |s| && FirstByKey(s, key)[j] == s[i] && FirstWithKey(s, i, key)
    decreases |s|
  {
    var init := s[..|s| - 1];
    var last := s[|s| - 1];
    assert s == init + [last];
    var kept := FirstByKey(init, key);
    var r := FirstByKey(s, key);
    FirstByKeySnoc(init, last, key);
    if j < |kept| {
      FirstByKeyKeepsFirst(init, key, j);
      var i :| 0 <= i < |init| && kept[j] == init[i] && FirstWithKey(init, i, key);
      FirstWithKeyExtend(init, last, i, key);
      assert r[j] == kept[j] && s[i] == init[i];
    } else {
      assert key(last) !in KeySet(init, key);
      FirstWithNewKey(init, last, key);
      assert r[j] == s[|s| - 1];
    }
  }

  /** Every key of the input is the key of some kept element. */
  lemma FirstByKeyCoversKey<T>(s: seq<T>, key: T -> string, i: int)
    requires 0 <= i < |s|
    ensures exists j :: 0 <= j < |FirstByKey(s, key)| && key(FirstByKey(s, key)[j]) == key(s[i])
  {
    var r := FirstByKey(s, key);
    assert key(s[i]) in KeySet(s, key);
    assert key(s[i]) in KeySet(r, key);
    var y :| y in r && key(y) == key(s[i]);
    var j :| 0 <= j < |r| && r[j] == y;
  }

  /** Every value occurs at most once in `s`. */
  ghost predicate NoDup<T(!new)>(s: seq<T>)
  {
    forall x :: multiset(s)[x] <= 1
  }

  /** The values of `s` as a set. */
  function ToSet<T(==)>(s: seq<T>): set<T>
  {
    set x | x in s
  }

  /** A duplicate-free list is exactly as long as the set of its values. */
  lemma {:induction false} NoDupCard<T(!new)>(s: seq<T>)
    requires NoDup(s)
    ensures |ToSet(s)| == |s|
    decreases |s|
  {
    if s != [] {
      var init := s[..|s| - 1];
      var last := s[|s| - 1];
      assert s == init + [last];
      assert multiset(s) == multiset(init) + multiset{last};
      assert NoDup(init) by {
        forall x ensures multiset(init)[x] <= 1 {
          assert multiset(init)[x] <= multiset(s)[x];
        }
      }
      assert last !in init by {
        assert multiset(s)[last] == multiset(init)[last] + 1;
      }
      NoDupCard(init);
      assert ToSet(s) == ToSet(init) + {last};
    }
  }
}

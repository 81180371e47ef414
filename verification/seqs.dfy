/**
 * The three array methods the palette handlers are built from, written as
 * recursive functions and characterised element by element:
 * `Array.prototype.map`, `Array.prototype.filter` on elements, and
 * `filter((_, i) => i !== index)` on positions.
 */
module Seqs {

  /** `s.map(f)`: same length, each position transformed on its own. */
  function Map<A, B>(s: seq<A>, f: A -> B): (r: seq<B>)
    ensures |r| == |s|
    ensures forall k :: 0 <= k < |s| ==> r[k] == f(s[k])
  {
    if s == [] then [] else [f(s[0])] + Map(s[1..], f)
  }

  /** `s.filter(keep)`: exactly the kept elements survive, and if all are kept nothing changes. */
  function Filter<T>(s: seq<T>, keep: T -> bool): (r: seq<T>)
    ensures |r| <= |s|
    ensures forall k :: 0 <= k < |r| ==> r[k] in s && keep(r[k])
    ensures forall k :: 0 <= k < |s| && keep(s[k]) ==> s[k] in r
    ensures (forall k :: 0 <= k < |s| ==> keep(s[k])) ==> r == s
  {
    if s == [] then [] else (if keep(s[0]) then [s[0]] else []) + Filter(s[1..], keep)
  }

  /** Filtering distributes over concatenation: the survivors keep their relative order. */
  lemma {:induction false} FilterAppend<T>(a: seq<T>, b: seq<T>, keep: T -> bool)
    ensures Filter(a + b, keep) == Filter(a, keep) + Filter(b, keep)
  {
    if a == [] {
      assert a + b == b;
    } else {
      assert (a + b)[0] == a[0];
      assert (a + b)[1..] == a[1..] + b;
      FilterAppend(a[1..], b, keep);
    }
  }

  /** Filtering removes every occurrence of a dropped value and no occurrence of a kept one. */
  lemma {:induction false} FilterMultiset<T>(s: seq<T>, keep: T -> bool, x: T)
    ensures multiset(Filter(s, keep))[x] == if keep(x) then multiset(s)[x] else 0
  {
    if s != [] {
      assert s == [s[0]] + s[1..];
      FilterMultiset(s[1..], keep, x);
    }
  }

  /** No two elements of `s` have the same key. */
  ghost predicate KeysDistinct<T, K>(s: seq<T>, key: T -> K) {
    forall a, b :: 0 <= a < b < |s| ==> key(s[a]) != key(s[b])
  }

  /** Elements whose keys are pairwise distinct still are after filtering. */
  lemma {:induction false} FilterKeepsKeysDistinct<T, K>(s: seq<T>, keep: T -> bool, key: T -> K)
    requires KeysDistinct(s, key)
    ensures KeysDistinct(Filter(s, keep), key)
  {
    if s != [] {
      FilterKeepsKeysDistinct(s[1..], keep, key);
      var tail := Filter(s[1..], keep);
      forall b | 0 <= b < |tail|
        ensures key(tail[b]) != key(s[0])
      {
        var i :| 0 <= i < |s[1..]| && s[1..][i] == tail[b];
        assert s[i + 1] == tail[b];
      }
      var r := Filter(s, keep);
      if keep(s[0]) {
        assert r == [s[0]] + tail;
        forall a, b | 0 <= a < b < |r|
          ensures key(r[a]) != key(r[b])
        {
          assert r[b] == tail[b - 1];
          if a > 0 {
            assert r[a] == tail[a - 1];
            assert key(tail[a - 1]) != key(tail[b - 1]);
          }
        }
      } else {
        assert r == tail;
      }
    }
  }

  /**
   * `s.filter((_, i) => i !== drop)` where the first element of `s` sits at
   * position `at`: the element at position `drop`, if there is one, is cut out.
   */
  function FilterPositions<T>(s: seq<T>, drop: int, at: int): (r: seq<T>)
    ensures at <= drop < at + |s| ==> r == s[..drop - at] + s[drop - at + 1..]
    ensures !(at <= drop < at + |s|) ==> r == s
    decreases |s|
  {
    if s == [] then []
    else
      var rest := FilterPositions(s[1..], drop, at + 1);
      if at == drop then
        assert rest == s[1..];
        rest
      else
        assert at < drop < at + |s| ==> s[1..][..drop - at - 1] == s[1..drop - at];
        assert at < drop < at + |s| ==> s[1..][drop - at..] == s[drop - at + 1..];
        [s[0]] + rest
  }

  /** `s.filter((_, i) => i !== index)`. */
  function RemoveAt<T>(s: seq<T>, index: int): (r: seq<T>)
    ensures 0 <= index < |s| ==> |r| == |s| - 1 && r == s[..index] + s[index + 1..]
    ensures !(0 <= index < |s|) ==> r == s
  {
    FilterPositions(s, index, 0)
  }
}

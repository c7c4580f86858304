/**
 * The array edits the builder performs on copies of its field list:
 * `filter((_, i) => i !== index)`, `splice(i, 0, x)`, the two-splice move,
 * and the counting facts behind the key searches.
 */
module Sequences {

  /** `filter((_, k) => k !== i)`: drops the element at `i`; any other `i` removes nothing. */
  function RemoveAt<T>(s: seq<T>, i: int): (r: seq<T>)
    ensures 0 <= i < |s| ==> |r| == |s| - 1
    ensures 0 <= i < |s| ==> forall k :: 0 <= k < i ==> r[k] == s[k]
    ensures 0 <= i < |s| ==> forall k :: i <= k < |r| ==> r[k] == s[k + 1]
    ensures !(0 <= i < |s|) ==> r == s
  {
    if 0 <= i < |s| then s[..i] + s[i + 1..] else s
  }

  /** `splice(i, 0, x)` on a copy, for an index inside the array or just past its end. */
  function InsertAt<T>(s: seq<T>, i: int, x: T): (r: seq<T>)
    requires 0 <= i <= |s|
    ensures |r| == |s| + 1
    ensures r[i] == x
    ensures forall k :: 0 <= k < i ==> r[k] == s[k]
    ensures forall k :: i < k < |r| ==> r[k] == s[k - 1]
  {
    s[..i] + [x] + s[i..]
  }

  /**
   * `const [moved] = fields.splice(from, 1); fields.splice(to, 0, moved)`:
   * takes the element at `from` out and puts it back at `to`.
   */
  function Move<T>(s: seq<T>, from: int, to: int): (r: seq<T>)
    requires 0 <= from < |s| && 0 <= to < |s|
    ensures |r| == |s|
    ensures r[to] == s[from]
  {
    InsertAt(RemoveAt(s, from), to, s[from])
  }

  /** Removing what was just inserted gives the original back. */
  lemma RemoveInsert<T>(s: seq<T>, i: int, x: T)
    requires 0 <= i <= |s|
    ensures RemoveAt(InsertAt(s, i, x), i) == s
  {
    var r := RemoveAt(InsertAt(s, i, x), i);
    assert |r| == |s|;
    forall k | 0 <= k < |s| ensures r[k] == s[k] {
      if k >= i {
        assert r[k] == InsertAt(s, i, x)[k + 1];
      }
    }
  }

  /** Re-inserting a removed element where it was gives the original back. */
  lemma InsertRemove<T>(s: seq<T>, i: int)
    requires 0 <= i < |s|
    ensures InsertAt(RemoveAt(s, i), i, s[i]) == s
  {
    var r := InsertAt(RemoveAt(s, i), i, s[i]);
    assert |r| == |s|;
    forall k | 0 <= k < |s| ensures r[k] == s[k] {
      if k > i {
        assert r[k] == RemoveAt(s, i)[k - 1];
      }
    }
  }

  /** Replacing an element with what was there changes nothing. */
  lemma ReplaceSame<T>(s: seq<T>, i: int)
    requires 0 <= i < |s|
    ensures s[i := s[i]] == s
  {
  }

  /** The element at position `j` of `s` is found at this position after `Move(s, from, to)`. */
  function MovedIndex(from: int, to: int, j: int): int
  {
    if j == from then to
    else if from < j && to >= j then j - 1
    else if from > j && to <= j then j + 1
    else j
  }

  /** Different old positions are moved to different new ones. */
  lemma MovedIndexInjective(from: int, to: int, i: int, j: int)
    requires i != j
    ensures MovedIndex(from, to, i) != MovedIndex(from, to, j)
  {
  }

  /** `Move` sends each element to `MovedIndex` of its old position. */
  lemma MoveAt<T>(s: seq<T>, from: int, to: int, j: int)
    requires 0 <= from < |s| && 0 <= to < |s| && 0 <= j < |s|
    ensures 0 <= MovedIndex(from, to, j) < |s|
    ensures Move(s, from, to)[MovedIndex(from, to, j)] == s[j]
  {
    var rem := RemoveAt(s, from);
    var m := Move(s, from, to);
    var k := MovedIndex(from, to, j);
    if j != from {
      var jr := if j < from then j else j - 1;
      assert rem[jr] == s[j];
      if jr < to {
        assert k == jr;
        assert m[k] == rem[jr];
      } else {
        assert k == jr + 1;
        assert m[k] == rem[jr];
      }
    }
  }

  /** Moving back undoes a move. */
  lemma MoveBack<T>(s: seq<T>, from: int, to: int)
    requires 0 <= from < |s| && 0 <= to < |s|
    ensures Move(Move(s, from, to), to, from) == s
  {
    var m := Move(s, from, to);
    assert m[to] == s[from];
    RemoveInsert(RemoveAt(s, from), to, s[from]);
    assert RemoveAt(m, to) == RemoveAt(s, from);
    InsertRemove(s, from);
  }

  /** A move is a permutation. */
  lemma MovePermutes<T>(s: seq<T>, from: int, to: int)
    requires 0 <= from < |s| && 0 <= to < |s|
    ensures multiset(Move(s, from, to)) == multiset(s)
  {
    var rem := RemoveAt(s, from);
    assert s == s[..from] + [s[from]] + s[from + 1..];
    assert rem == s[..from] + s[from + 1..];
    assert multiset(rem) + multiset{s[from]} == multiset(s);
    assert InsertAt(rem, to, s[from]) == rem[..to] + [s[from]] + rem[to..];
    assert rem == rem[..to] + rem[to..];
  }

  /** Moving an element onto its own position leaves the sequence as it is. */
  lemma MoveInPlace<T>(s: seq<T>, i: int)
    requires 0 <= i < |s|
    ensures Move(s, i, i) == s
  {
    InsertRemove(s, i);
  }

  /** No value occurs twice in `s`. */
  predicate Distinct<T(==)>(s: seq<T>)
  {
    forall i, j :: 0 <= i < j < |s| ==> s[i] != s[j]
  }

  /** The set of elements of `s`. */
  function Elements<T>(s: seq<T>): set<T>
  {
    set x | x in s
  }

  lemma {:induction false} ElementsBound<T>(s: seq<T>)
    ensures |Elements(s)| <= |s|
    decreases |s|
  {
    if s != [] {
      var init := s[..|s| - 1];
      ElementsBound(init);
      assert Elements(s) == Elements(init) + {s[|s| - 1]} by {
        assert s == init + [s[|s| - 1]];
      }
    }
  }

  lemma {:induction false} ElementsOfDistinct<T>(s: seq<T>)
    requires Distinct(s)
    ensures |Elements(s)| == |s|
    decreases |s|
  {
    if s != [] {
      var init := s[..|s| - 1];
      var x := s[|s| - 1];
      assert Distinct(init);
      ElementsOfDistinct(init);
      assert s == init + [x];
      assert x !in init;
      assert Elements(s) == Elements(init) + {x};
    }
  }

  /** A sequence of distinct values that all occur in `keys` is no longer than `keys`. */
  lemma Pigeonhole<T>(cands: seq<T>, keys: seq<T>)
    requires Distinct(cands)
    requires forall i :: 0 <= i < |cands| ==> cands[i] in keys
    ensures |cands| <= |keys|
  {
    ElementsOfDistinct(cands);
    ElementsBound(keys);
    assert Elements(cands) <= Elements(keys);
    SubsetCard(Elements(cands), Elements(keys));
  }

  lemma SubsetCard<T>(a: set<T>, b: set<T>)
    requires a <= b
    ensures |a| <= |b|
  {
    assert b == a + (b - a);
  }

  /** `t` is `s` with some elements left out and the rest kept in order. */
  predicate IsSubsequence<T(==)>(t: seq<T>, s: seq<T>)
    decreases |s|
  {
    t == [] || (s != [] && ((s[0] == t[0] && IsSubsequence(t[1..], s[1..])) || IsSubsequence(t, s[1..])))
  }

  /** Leaving out the first element of a subsequence keeps it a subsequence. */
  lemma {:induction false} SubsequenceTail<T>(t: seq<T>, s: seq<T>)
    requires t != [] && IsSubsequence(t, s)
    ensures IsSubsequence(t[1..], s)
    decreases |s|
  {
    if s[0] == t[0] && IsSubsequence(t[1..], s[1..]) {
      if t[1..] != [] {
        assert IsSubsequence(t[1..], s[1..]);
      }
    } else {
      SubsequenceTail(t, s[1..]);
    }
  }

  /**
   * Matching the first element whenever it fits never loses a subsequence,
   * so a single left-to-right scan decides the relation.
   */
  lemma GreedyMatch<T>(t: seq<T>, s: seq<T>)
    requires t != [] && s != [] && s[0] == t[0]
    ensures IsSubsequence(t, s) <==> IsSubsequence(t[1..], s[1..])
  {
    if IsSubsequence(t, s) && !IsSubsequence(t[1..], s[1..]) {
      SubsequenceTail(t, s[1..]);
    }
  }

  /** A contiguous block of a sequence is a subsequence of it. */
  lemma {:induction false} SliceIsSubsequence<T>(s: seq<T>, lo: nat, hi: nat)
    requires lo <= hi <= |s|
    ensures IsSubsequence(s[lo..hi], s)
    decreases |s|
  {
    var t := s[lo..hi];
    if t != [] {
      if lo == 0 {
        SliceIsSubsequence(s[1..], 0, hi - 1);
        assert s[1..][0..hi - 1] == t[1..];
      } else {
        SliceIsSubsequence(s[1..], lo - 1, hi - 1);
        assert s[1..][lo - 1..hi - 1] == t;
      }
    }
  }

  /** `s.filter(p)`: the elements satisfying `p`, in their order. */
  function Filter<T(==,!new)>(s: seq<T>, p: T -> bool): (r: seq<T>)
    ensures |r| <= |s|
    ensures forall i :: 0 <= i < |r| ==> p(r[i])
    ensures forall i :: 0 <= i < |r| ==> r[i] in s
    ensures forall i :: 0 <= i < |s| && p(s[i]) ==> s[i] in r
    ensures IsSubsequence(r, s)
  {
    if s == [] then []
    else if p(s[0]) then
      var rest := Filter(s[1..], p);
      assert ([s[0]] + rest)[1..] == rest;
      [s[0]] + rest
    else Filter(s[1..], p)
  }

  /**
   * `filter` keeps every passing element as often as it occurs and drops the
   * others; with `IsSubsequence` this fixes the result completely.
   */
  lemma {:induction false} FilterCounts<T(!new)>(s: seq<T>, p: T -> bool)
    ensures forall x :: multiset(Filter(s, p))[x] == if p(x) then multiset(s)[x] else 0
    decreases |s|
  {
    if s != [] {
      assert s == [s[0]] + s[1..];
      FilterCounts(s[1..], p);
    }
  }

  /** Filtering a sequence with one more element at the end. */
  lemma {:induction false} FilterSnoc<T(!new)>(s: seq<T>, x: T, p: T -> bool)
    ensures Filter(s + [x], p) == Filter(s, p) + (if p(x) then [x] else [])
    decreases |s|
  {
    if s == [] {
      assert [] + [x] == [x];
      assert [x][1..] == [];
    } else {
      assert (s + [x])[0] == s[0] && (s + [x])[1..] == s[1..] + [x];
      FilterSnoc(s[1..], x, p);
    }
  }

  /** Filtering with a condition every element meets keeps everything. */
  lemma {:induction false} FilterKeepsAll<T(!new)>(s: seq<T>, p: T -> bool)
    requires forall i :: 0 <= i < |s| ==> p(s[i])
    ensures Filter(s, p) == s
    decreases |s|
  {
    if s != [] {
      assert p(s[0]);
      FilterKeepsAll(s[1..], p);
    }
  }

  /** Removing an element keeps a list of distinct elements distinct. */
  lemma RemoveAtKeepsDistinct<T>(s: seq<T>, index: int)
    requires Distinct(s)
    ensures Distinct(RemoveAt(s, index))
  {
    var r := RemoveAt(s, index);
    if 0 <= index < |s| {
      forall i, j | 0 <= i < j < |r| ensures r[i] != r[j] {
        var i0 := if i < index then i else i + 1;
        var j0 := if j < index then j else j + 1;
        assert r[i] == s[i0] && r[j] == s[j0];
      }
    }
  }
}

/**
 The stable sort of the Go library: insertion sort on short blocks, then rounds of in-place merges.

 The comparison need not be a strict weak order. It is enough that it agrees with a total preorder where the
 preorder decides; what it says of equivalent elements may be anything.
 */
module StableSort {
  import Sorting

  /** `less` never contradicts the total preorder `le`. */
  ghost predicate Agrees<T(!new)>(less: (T, T) -> bool, le: (T, T) -> bool) {
    && (forall a, b :: less(a, b) ==> le(a, b))
    && (forall a, b :: !less(a, b) ==> le(b, a))
    && (forall a, b, c :: le(a, b) && le(b, c) ==> le(a, c))
  }

  ghost predicate Ordered<T>(le: (T, T) -> bool, s: seq<T>) {
    forall i, j | 0 <= i < j < |s| :: le(s[i], s[j])
  }

  /** Nothing in `a` comes after anything in `b`. */
  ghost predicate AllBefore<T>(le: (T, T) -> bool, a: seq<T>, b: seq<T>) {
    forall i, j | 0 <= i < |a| && 0 <= j < |b| :: le(a[i], b[j])
  }

  /** The whole is ordered if the parts are and meet in order. */
  lemma Join<T(!new)>(less: (T, T) -> bool, le: (T, T) -> bool, a: seq<T>, b: seq<T>)
    requires Agrees(less, le) && Ordered(le, a) && Ordered(le, b)
    requires a != [] && b != [] ==> le(a[|a| - 1], b[0])
    ensures Ordered(le, a + b)
  {
    forall i, j | 0 <= i < |a| && 0 <= j < |b| ensures le(a[i], b[j]) {
      assert i < |a| - 1 ==> le(a[i], a[|a| - 1]);
      assert 0 < j ==> le(b[0], b[j]);
    }
  }

  lemma Slices<T>(le: (T, T) -> bool, s: seq<T>, i: nat)
    requires i <= |s| && Ordered(le, s)
    ensures Ordered(le, s[..i]) && Ordered(le, s[i..]) && AllBefore(le, s[..i], s[i..])
    ensures multiset(s) == multiset(s[..i]) + multiset(s[i..])
  {
    assert s == s[..i] + s[i..];
  }

  /** One element put between two slices. */
  lemma Between<T(!new)>(less: (T, T) -> bool, le: (T, T) -> bool, s: seq<T>, i: nat, x: T)
    requires Agrees(less, le) && i <= |s| && Ordered(le, s)
    requires (i > 0 ==> le(s[i - 1], x)) && (i < |s| ==> le(x, s[i]))
    ensures Ordered(le, s[..i] + [x] + s[i..]) && multiset(s[..i] + [x] + s[i..]) == multiset(s) + multiset{x}
  {
    Slices(le, s, i);
    Join(less, le, s[..i], [x]);
    Join(less, le, s[..i] + [x], s[i..]);
  }

  // ---------- Insertion sort ----------

  lemma {:induction false} InsertOrdered<T(!new)>(less: (T, T) -> bool, le: (T, T) -> bool, s: seq<T>, x: T)
    requires Agrees(less, le) && Ordered(le, s)
    ensures Ordered(le, Sorting.Insert(less, s, x))
    ensures multiset(Sorting.Insert(less, s, x)) == multiset(s) + multiset{x}
  {
    Sorting.InsertPermutes(less, s, x);
    if s == [] || !less(x, s[|s| - 1]) {
      Join(less, le, s, [x]);
    } else {
      var init, last := s[..|s| - 1], s[|s| - 1];
      Slices(le, s, |s| - 1);
      InsertOrdered(less, le, init, x);
      var ins := Sorting.Insert(less, init, x);
      assert le(ins[|ins| - 1], last) by {
        assert ins[|ins| - 1] in multiset(ins);
        if ins[|ins| - 1] != x {
          var i :| 0 <= i < |init| && init[i] == ins[|ins| - 1];
          assert le(s[i], s[|s| - 1]);
        }
      }
      Join(less, le, ins, [last]);
    }
  }

  lemma {:induction false} SortOrdered<T(!new)>(less: (T, T) -> bool, le: (T, T) -> bool, s: seq<T>)
    requires Agrees(less, le)
    ensures Ordered(le, Sorting.Sort(less, s)) && multiset(Sorting.Sort(less, s)) == multiset(s)
  {
    if s != [] {
      var init := s[..|s| - 1];
      assert s == init + [s[|s| - 1]];
      SortOrdered(less, le, init);
      InsertOrdered(less, le, Sorting.Sort(less, init), s[|s| - 1]);
    }
  }

  // ---------- Merging ----------

  /** A single element goes in front of the first one that is not before it. */
  method InsertLeft<T(!new)>(less: (T, T) -> bool, ghost le: (T, T) -> bool, x: T, y: seq<T>) returns (z: seq<T>)
    requires Agrees(less, le) && Ordered(le, y)
    ensures Ordered(le, z) && multiset(z) == multiset{x} + multiset(y)
  {
    hide Ordered;
    var i, j := 0, |y|;
    while i < j
      invariant 0 <= i <= j <= |y|
      invariant (i > 0 ==> less(y[i - 1], x)) && (j < |y| ==> !less(y[j], x))
    {
      var h := (i + j) / 2;
      if less(y[h], x) {
        i := h + 1;
      } else {
        j := h;
      }
    }
    Between(less, le, y, i, x);
    return y[..i] + [x] + y[i..];
  }

  /** A single element goes in front of the first one that it is before. */
  method InsertRight<T(!new)>(less: (T, T) -> bool, ghost le: (T, T) -> bool, x: seq<T>, y: T) returns (z: seq<T>)
    requires Agrees(less, le) && Ordered(le, x)
    ensures Ordered(le, z) && multiset(z) == multiset(x) + multiset{y}
  {
    hide Ordered;
    var i, j := 0, |x|;
    while i < j
      invariant 0 <= i <= j <= |x|
      invariant (i > 0 ==> !less(y, x[i - 1])) && (j < |x| ==> less(y, x[j]))
    {
      var h := (i + j) / 2;
      if !less(y, x[h]) {
        i := h + 1;
      } else {
        j := h;
      }
    }
    Between(less, le, x, i, y);
    return x[..i] + [y] + x[i..];
  }

  /** Where to cut two blocks so that the first parts make up the first half: nothing in a first part comes
      after anything in a second part. */
  method Cut<T(!new)>(less: (T, T) -> bool, ghost le: (T, T) -> bool, x: seq<T>, y: seq<T>)
    returns (start: nat, end: nat)
    requires Agrees(less, le) && |x| >= 2 && |y| >= 2
    ensures start <= |x| && end <= |y| && start + end == (|x| + |y|) / 2
    ensures 0 < start && end < |y| ==> le(x[start - 1], y[end])
    ensures 0 < end && start < |x| ==> le(y[end - 1], x[start])
  {
    var m, b := |x|, |x| + |y|;
    var mid := b / 2;
    var n := mid + m;
    var lo, r := 0, m;
    if m > mid {
      lo, r := n - b, mid;
    }
    var s, p := lo, n - 1;
    ghost var r0 := r;
    while s < r
      invariant lo <= s <= r <= r0
      invariant s > lo ==> !less(y[p - (s - 1) - m], x[s - 1])
      invariant r < r0 ==> less(y[p - r - m], x[r])
    {
      var c := (s + r) / 2;
      if !less(y[p - c - m], x[c]) {
        s := c + 1;
      } else {
        r := c;
      }
    }
    start, end := s, n - s - m;
  }

  lemma SlicesBefore<T(!new)>(less: (T, T) -> bool, le: (T, T) -> bool, x: seq<T>, i: nat, y: seq<T>, j: nat)
    requires Agrees(less, le) && Ordered(le, x) && Ordered(le, y) && i <= |x| && j <= |y|
    requires 0 < i && j < |y| ==> le(x[i - 1], y[j])
    ensures AllBefore(le, x[..i], y[j..])
  {
    forall k, l | 0 <= k < i && j <= l < |y| ensures le(x[k], y[l]) {
      assert k < i - 1 ==> le(x[k], x[i - 1]);
      assert j < l ==> le(y[j], y[l]);
    }
  }

  /** Two lists that hold the elements of ordered parts join in order. */
  lemma HalvesJoin<T(!new)>(less: (T, T) -> bool, le: (T, T) -> bool, a: seq<T>, b: seq<T>, c: seq<T>, d: seq<T>,
                            lo: seq<T>, hi: seq<T>)
    requires Agrees(less, le) && Ordered(le, lo) && Ordered(le, hi)
    requires multiset(lo) == multiset(a) + multiset(b) && multiset(hi) == multiset(c) + multiset(d)
    requires AllBefore(le, a, c) && AllBefore(le, a, d) && AllBefore(le, b, c) && AllBefore(le, b, d)
    ensures Ordered(le, lo + hi)
  {
    if lo != [] && hi != [] {
      var u, v := lo[|lo| - 1], hi[0];
      assert u in multiset(lo) && v in multiset(hi);
      assert u in a || u in b;
      assert v in c || v in d;
    }
    Join(less, le, lo, hi);
  }

  method SymMerge<T(!new)>(less: (T, T) -> bool, ghost le: (T, T) -> bool, x: seq<T>, y: seq<T>) returns (z: seq<T>)
    requires Agrees(less, le) && Ordered(le, x) && Ordered(le, y)
    ensures Ordered(le, z) && multiset(z) == multiset(x) + multiset(y)
    decreases |x| + |y|
  {
    hide Ordered, Agrees, AllBefore;
    if |x| == 0 || |y| == 0 {
      assert x + y == if x == [] then y else x;
      return x + y;
    }
    if |x| == 1 {
      assert x == [x[0]];
      z := InsertLeft(less, le, x[0], y);
      return;
    }
    if |y| == 1 {
      assert y == [y[0]];
      z := InsertRight(less, le, x, y[0]);
      return;
    }
    var start, end := Cut(less, le, x, y);
    Slices(le, x, start);
    Slices(le, y, end);
    var lo := SymMerge(less, le, x[..start], y[..end]);
    var hi := SymMerge(less, le, x[start..], y[end..]);
    SlicesBefore(less, le, x, start, y, end);
    SlicesBefore(less, le, y, end, x, start);
    HalvesJoin(less, le, x[..start], y[..end], x[start..], y[end..], lo, hi);
    return lo + hi;
  }

  // ---------- The sort ----------

  ghost predicate AllOrdered<T>(le: (T, T) -> bool, blocks: seq<seq<T>>) {
    forall i | 0 <= i < |blocks| :: Ordered(le, blocks[i])
  }

  ghost function Contents<T>(blocks: seq<seq<T>>): multiset<T> {
    if blocks == [] then multiset{} else Contents(blocks[..|blocks| - 1]) + multiset(blocks[|blocks| - 1])
  }

  lemma ContentsNone<T>()
    ensures Contents<T>([]) == multiset{}
  {
  }

  lemma ContentsStep<T>(blocks: seq<seq<T>>, b: seq<T>)
    ensures Contents(blocks + [b]) == Contents(blocks) + multiset(b)
  {
    assert (blocks + [b])[..|blocks|] == blocks;
  }

  /** Insertion sort on blocks of twenty elements, the last of which may be shorter. */
  method SortBlocks<T(!new)>(less: (T, T) -> bool, ghost le: (T, T) -> bool, s: seq<T>) returns (blocks: seq<seq<T>>)
    requires Agrees(less, le)
    ensures AllOrdered(le, blocks) && Contents(blocks) == multiset(s)
  {
    hide Ordered, Agrees, Contents, Sorting.Sort;
    ContentsNone<T>();
    blocks := [];
    var a := 0;
    while a < |s|
      invariant 0 <= a <= |s|
      invariant AllOrdered(le, blocks) && Contents(blocks) == multiset(s[..a])
    {
      var b := if a + 20 < |s| then a + 20 else |s|;
      var block := Sorting.Sort(less, s[a..b]);
      SortOrdered(less, le, s[a..b]);
      ContentsStep(blocks, block);
      assert s[..b] == s[..a] + s[a..b];
      blocks := blocks + [block];
      a := b;
    }
    assert s[..|s|] == s;
  }

  /** One round: neighbouring blocks are merged, and an odd last block stays. */
  method MergeRound<T(!new)>(less: (T, T) -> bool, ghost le: (T, T) -> bool, blocks: seq<seq<T>>)
    returns (merged: seq<seq<T>>)
    requires Agrees(less, le) && AllOrdered(le, blocks)
    ensures AllOrdered(le, merged) && Contents(merged) == Contents(blocks)
    ensures |merged| == (|blocks| + 1) / 2
  {
    hide Ordered, Agrees, Contents;
    ContentsNone<T>();
    merged := [];
    var i := 0;
    while i + 1 < |blocks|
      invariant 0 <= i <= |blocks| && i == 2 * |merged|
      invariant AllOrdered(le, merged) && Contents(merged) == Contents(blocks[..i])
    {
      var block := SymMerge(less, le, blocks[i], blocks[i + 1]);
      ContentsStep(merged, block);
      ContentsStep(blocks[..i], blocks[i]);
      ContentsStep(blocks[..i + 1], blocks[i + 1]);
      assert blocks[..i + 1] == blocks[..i] + [blocks[i]] && blocks[..i + 2] == blocks[..i + 1] + [blocks[i + 1]];
      merged := merged + [block];
      i := i + 2;
    }
    if i < |blocks| {
      ContentsStep(merged, blocks[i]);
      ContentsStep(blocks[..i], blocks[i]);
      assert blocks == blocks[..i] + [blocks[i]];
      merged := merged + [blocks[i]];
    } else {
      assert blocks[..i] == blocks;
    }
  }

  /** The sort permutes the list and orders it by every total preorder that the comparison agrees with. */
  method Stable<T(!new)>(less: (T, T) -> bool, ghost le: (T, T) -> bool, s: seq<T>) returns (sorted: seq<T>)
    requires Agrees(less, le)
    ensures Ordered(le, sorted) && multiset(sorted) == multiset(s)
  {
    var blocks := SortBlocks(less, le, s);
    while |blocks| > 1
      invariant AllOrdered(le, blocks) && Contents(blocks) == multiset(s)
    {
      blocks := MergeRound(less, le, blocks);
    }
    if |blocks| == 0 {
      return [];
    }
    assert blocks[..0] == [];
    return blocks[0];
  }
}

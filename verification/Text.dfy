/** Byte-wise ordering of strings and a few operations on them. */
module Text {

  /** `strings.Compare`: -1, 0 or 1. */
  function Compare(a: string, b: string): (r: int)
    ensures -1 <= r <= 1
  {
    if a == "" then (if b == "" then 0 else -1)
    else if b == "" then 1
    else if a[0] < b[0] then -1
    else if a[0] > b[0] then 1
    else Compare(a[1..], b[1..])
  }

  predicate Less(a: string, b: string) {
    Compare(a, b) < 0
  }

  lemma {:induction false} CompareEqual(a: string, b: string)
    ensures Compare(a, b) == 0 <==> a == b
  {
    if a != "" && b != "" && a[0] == b[0] {
      CompareEqual(a[1..], b[1..]);
      assert a == [a[0]] + a[1..] && b == [b[0]] + b[1..];
    }
  }

  lemma {:induction false} CompareFlip(a: string, b: string)
    ensures Compare(a, b) == -Compare(b, a)
  {
    if a != "" && b != "" && a[0] == b[0] {
      CompareFlip(a[1..], b[1..]);
    }
  }

  lemma {:induction false} CompareTransitive(a: string, b: string, c: string)
    requires Compare(a, b) <= 0 && Compare(b, c) <= 0
    ensures Compare(a, c) <= 0
    ensures Compare(a, b) < 0 || Compare(b, c) < 0 ==> Compare(a, c) < 0
  {
    if a != "" && b != "" && c != "" && a[0] == b[0] == c[0] {
      CompareTransitive(a[1..], b[1..], c[1..]);
    }
  }

  /** `Less` is a strict total order. */
  lemma LessIsTotal(a: string, b: string)
    ensures Less(a, b) || Less(b, a) || a == b
    ensures !(Less(a, b) && Less(b, a)) && !(Less(a, b) && a == b)
  {
    CompareFlip(a, b);
    CompareEqual(a, b);
  }

  /** At the first place where the strings differ, the first one has the smaller character or has ended. */
  ghost predicate SmallerAt(a: string, b: string, i: nat) {
    && i <= |a| && i < |b| && a[..i] == b[..i] && (i == |a| || a[i] < b[i])
  }

  /** `Less` is the lexicographic order. */
  lemma {:induction false} LessIs(a: string, b: string)
    ensures Less(a, b) <==> exists i :: SmallerAt(a, b, i)
  {
    if a == "" || b == "" || a[0] != b[0] {
      if Less(a, b) { assert SmallerAt(a, b, 0); }
      if i: nat :| SmallerAt(a, b, i) { assert i > 0 ==> a[..i][0] == b[..i][0]; }
    } else {
      LessIs(a[1..], b[1..]);
      if Less(a, b) {
        var i: nat :| SmallerAt(a[1..], b[1..], i);
        assert a[..i + 1] == [a[0]] + a[1..][..i] && b[..i + 1] == [b[0]] + b[1..][..i];
        assert SmallerAt(a, b, i + 1);
      }
      if i: nat :| SmallerAt(a, b, i) {
        assert i > 0;
        assert a[1..][..i - 1] == a[..i][1..] && b[1..][..i - 1] == b[..i][1..];
        assert SmallerAt(a[1..], b[1..], i - 1);
      }
    }
  }

  /** Index of the first `c`, or the length of `s` when there is none. */
  function IndexOf(s: string, c: char): (i: nat)
    ensures i <= |s|
  {
    if s == "" || s[0] == c then 0 else 1 + IndexOf(s[1..], c)
  }

  lemma {:induction false} IndexOfIs(s: string, c: char)
    ensures var i := IndexOf(s, c);
            c !in s[..i] && (i < |s| ==> s[i] == c)
  {
    if s != "" && s[0] != c {
      IndexOfIs(s[1..], c);
      assert s[..IndexOf(s, c)] == [s[0]] + s[1..][..IndexOf(s[1..], c)];
    }
  }

  lemma {:induction false} IndexOfFirst(a: string, c: char, b: string)
    requires c !in a
    ensures IndexOf(a, c) == |a| && IndexOf(a + ([c] + b), c) == |a|
  {
    if a == "" {
      assert a + ([c] + b) == [c] + b;
    } else {
      assert (a + ([c] + b))[1..] == a[1..] + ([c] + b);
      IndexOfFirst(a[1..], c, b);
    }
  }

  /** `strings.Contains` */
  ghost predicate Occurs(x: string, s: string) {
    exists i: nat | i <= |s| :: x <= s[i..]
  }

  lemma OccursWithin(a: string, x: string, b: string)
    ensures Occurs(x, a + (x + b))
  {
    assert (a + (x + b))[|a|..] == x + b;
  }

  lemma Around(x: string, s: string) returns (a: string, b: string)
    requires Occurs(x, s)
    ensures s == a + (x + b)
  {
    var i: nat :| i <= |s| && x <= s[i..];
    a, b := s[..i], s[i..][|x|..];
  }

  lemma FirstOccurs(x: string, s: string)
    requires x != ""
    ensures Occurs(x, s) ==> x[0] in s
  {
    if Occurs(x, s) {
      var i: nat :| i <= |s| && x <= s[i..];
      assert s[i..][0] == s[i];
    }
  }
}

/**
  String comparison and slicing as the blog uses them.

  Rust's `Ord` on `String` compares the UTF-8 bytes lexicographically, which
  orders strings exactly as comparing their Unicode scalar values one by one;
  MongoDB's default (binary) collation does the same. `LessEq` is that order
  on `seq<char>`.
 */
module Lex {

  /** `a` is a prefix of `b` (possibly all of it). */
  predicate IsPrefix(a: string, b: string) {
    |a| <= |b| && a == b[..|a|]
  }

  /** At the first position where `a` and `b` differ, `a` has the smaller character. */
  predicate FirstDifferenceLess(a: string, b: string) {
    exists k :: 0 <= k < |a| && k < |b| && a[..k] == b[..k] && a[k] < b[k]
  }

  /** `a <= b` in lexicographic order: a prefix comes first. */
  predicate LessEq(a: string, b: string)
    decreases |a|
  {
    |a| == 0 || (|b| > 0 && (a[0] < b[0] || (a[0] == b[0] && LessEq(a[1..], b[1..]))))
  }

  /**
    The recursive comparison is the textbook order: `a <= b` exactly when `a`
    is a prefix of `b` or the first differing character of `a` is smaller.
   */
  lemma {:induction false} LessEqFirstDifference(a: string, b: string)
    ensures LessEq(a, b) <==> IsPrefix(a, b) || FirstDifferenceLess(a, b)
    decreases |a|
  {
    if |a| > 0 && |b| > 0 {
      FirstCharacterDecides(a, b);
      LessEqFirstDifference(a[1..], b[1..]);
    }
  }

  /** Both halves of the characterisation of `LessEq` move one character down. */
  lemma FirstCharacterDecides(a: string, b: string)
    requires |a| > 0 && |b| > 0
    ensures IsPrefix(a, b) <==> a[0] == b[0] && IsPrefix(a[1..], b[1..])
    ensures FirstDifferenceLess(a, b) <==>
              a[0] < b[0] || (a[0] == b[0] && FirstDifferenceLess(a[1..], b[1..]))
  {
    if IsPrefix(a, b) {
      assert a[0] == b[..|a|][0];
      assert a[1..] == b[1..][..|a| - 1];
    }
    if a[0] == b[0] && IsPrefix(a[1..], b[1..]) {
      assert a == [a[0]] + a[1..] && b[..|a|] == [b[0]] + b[1..][..|a| - 1];
    }
    if FirstDifferenceLess(a, b) && a[0] >= b[0] {
      var k :| 0 <= k < |a| && k < |b| && a[..k] == b[..k] && a[k] < b[k];
      assert k > 0;
      assert a[0] == a[..k][0] == b[..k][0] == b[0];
      assert a[1..][..k - 1] == a[..k][1..] == b[..k][1..] == b[1..][..k - 1];
      assert a[1..][k - 1] < b[1..][k - 1];
    }
    if a[0] < b[0] {
      assert a[..0] == b[..0];
    }
    if a[0] == b[0] && FirstDifferenceLess(a[1..], b[1..]) {
      var k :| 0 <= k < |a[1..]| && k < |b[1..]| && a[1..][..k] == b[1..][..k] && a[1..][k] < b[1..][k];
      assert a[..k + 1] == [a[0]] + a[1..][..k] && b[..k + 1] == [b[0]] + b[1..][..k];
      assert a[k + 1] < b[k + 1];
    }
  }

  lemma {:induction false} LessEqReflexive(a: string)
    ensures LessEq(a, a)
    decreases |a|
  {
    if |a| > 0 {
      LessEqReflexive(a[1..]);
    }
  }

  lemma {:induction false} LessEqTotal(a: string, b: string)
    ensures LessEq(a, b) || LessEq(b, a)
    decreases |a|
  {
    if |a| > 0 && |b| > 0 && a[0] == b[0] {
      LessEqTotal(a[1..], b[1..]);
    }
  }

  lemma {:induction false} LessEqAntisymmetric(a: string, b: string)
    requires LessEq(a, b) && LessEq(b, a)
    ensures a == b
    decreases |a|
  {
    if |a| > 0 {
      LessEqAntisymmetric(a[1..], b[1..]);
      assert a == [a[0]] + a[1..] && b == [b[0]] + b[1..];
    }
  }

  lemma {:induction false} LessEqTransitive(a: string, b: string, c: string)
    requires LessEq(a, b) && LessEq(b, c)
    ensures LessEq(a, c)
    decreases |a|
  {
    if |a| > 0 && a[0] == b[0] && b[0] == c[0] {
      LessEqTransitive(a[1..], b[1..], c[1..]);
    }
  }

  /**
    `s.substring(start, end)` of the `substring` crate: the characters at
    positions `start` up to (not including) `end`, clipped to the string;
    empty when the range is empty or starts past the end.
   */
  function Substring(s: string, start: nat, end: nat): (r: string)
    ensures start < end && start < |s| ==> |r| == (if end < |s| then end else |s|) - start
    ensures !(start < end && start < |s|) ==> r == []
    ensures forall i :: 0 <= i < |r| ==> r[i] == s[start + i]
  {
    if end <= start || |s| <= start then []
    else if end < |s| then s[start..end]
    else s[start..]
  }

  /** Cutting two ordered strings to the same length keeps them ordered. */
  lemma {:induction false} SubstringMonotone(a: string, b: string, n: nat)
    requires LessEq(a, b)
    ensures LessEq(Substring(a, 0, n), Substring(b, 0, n))
    decreases n
  {
    if n > 0 && |a| > 0 && a[0] == b[0] {
      SubstringMonotone(a[1..], b[1..], n - 1);
      assert Substring(a, 0, n)[1..] == Substring(a[1..], 0, n - 1);
      assert Substring(b, 0, n)[1..] == Substring(b[1..], 0, n - 1);
    }
  }
}

/**
  Byte strings and the lexicographic order Go's `bytes.Compare` defines on
  them: strings are compared byte by byte, and a proper prefix sorts before
  every longer string that extends it.
 */
module ByteOrder {

  newtype byte = x: int | 0 <= x < 256

  /** `p` is a prefix of `s`. */
  predicate IsPrefix(p: seq<byte>, s: seq<byte>)
  {
    |p| <= |s| && s[..|p|] == p
  }

  /** The length of the longest common prefix of `a` and `b`. */
  function CommonPrefixLen(a: seq<byte>, b: seq<byte>): (k: nat)
    ensures k <= |a| && k <= |b|
    ensures a[..k] == b[..k]
    ensures k < |a| && k < |b| ==> a[k] != b[k]
    decreases |a|
  {
    if |a| == 0 || |b| == 0 || a[0] != b[0] then 0
    else
      var k' := CommonPrefixLen(a[1..], b[1..]);
      assert a[..k' + 1] == [a[0]] + a[1..][..k'];
      assert b[..k' + 1] == [b[0]] + b[1..][..k'];
      1 + k'
  }

  /** The three facts in the contract of CommonPrefixLen determine it. */
  lemma {:induction false} CommonPrefixLenIs(a: seq<byte>, b: seq<byte>, k: nat)
    requires k <= |a| && k <= |b|
    requires a[..k] == b[..k]
    requires k < |a| && k < |b| ==> a[k] != b[k]
    ensures CommonPrefixLen(a, b) == k
    decreases k
  {
    if k > 0 {
      assert a[0] == a[..k][0] == b[..k][0] == b[0];
      assert a[1..][..k - 1] == a[..k][1..] == b[..k][1..] == b[1..][..k - 1];
      CommonPrefixLenIs(a[1..], b[1..], k - 1);
    }
  }

  /** `a <= b` in the order of Go's `bytes.Compare(a, b) <= 0`. */
  predicate LexLe(a: seq<byte>, b: seq<byte>)
    decreases |a|
  {
    if |a| == 0 then true
    else if |b| == 0 then false
    else if a[0] != b[0] then a[0] < b[0]
    else LexLe(a[1..], b[1..])
  }

  /** `a` and `b` first differ at a position both have, and `a`'s byte there is the smaller. */
  predicate BelowAt(a: seq<byte>, b: seq<byte>)
  {
    var k := CommonPrefixLen(a, b);
    k < |a| && k < |b| && a[k] < b[k]
  }

  /** `a <= b` exactly when `a` is a prefix of `b` or sorts below it at their first difference. */
  lemma {:induction false} LexLeIff(a: seq<byte>, b: seq<byte>)
    ensures LexLe(a, b) <==> IsPrefix(a, b) || BelowAt(a, b)
    decreases |a|
  {
    if |a| == 0 {
      assert IsPrefix(a, b);
    } else if |b| == 0 {
      assert !IsPrefix(a, b);
    } else if a[0] != b[0] {
      assert CommonPrefixLen(a, b) == 0;
      if |a| <= |b| {
        assert b[..|a|][0] == b[0];
      }
    } else {
      var a', b' := a[1..], b[1..];
      LexLeIff(a', b');
      assert CommonPrefixLen(a, b) == 1 + CommonPrefixLen(a', b');
      if |a| <= |b| {
        assert b[..|a|] == [b[0]] + b'[..|a'|];
        assert a == [a[0]] + a';
      }
      assert IsPrefix(a, b) <==> IsPrefix(a', b');
    }
  }

  /**
    `a <= b` fails exactly when `b` sorts below `a` at their first difference,
    or `b` is a proper prefix of `a`.
   */
  lemma NotLexLeIff(a: seq<byte>, b: seq<byte>)
    ensures !LexLe(a, b) <==> BelowAt(b, a) || (|b| < |a| && IsPrefix(b, a))
  {
    var k := CommonPrefixLen(a, b);
    LexLeIff(a, b);
    CommonPrefixLenIs(b, a, k);
    if IsPrefix(a, b) {
      CommonPrefixLenIs(a, b, |a|);
    }
    if IsPrefix(b, a) {
      CommonPrefixLenIs(a, b, |b|);
    }
    if k == |a| {
      assert IsPrefix(a, b);
    }
    if k == |b| {
      assert IsPrefix(b, a);
    }
  }

  lemma {:induction false} LexLeReflexive(a: seq<byte>)
    ensures LexLe(a, a)
    decreases |a|
  {
    if |a| > 0 {
      LexLeReflexive(a[1..]);
    }
  }

  /** A prefix relation survives appending to the longer string. */
  lemma PrefixExtend(p: seq<byte>, s: seq<byte>, x: seq<byte>)
    requires IsPrefix(p, s)
    ensures IsPrefix(p, s + x)
  {
    assert (s + x)[..|p|] == s[..|p|];
  }

  lemma PrefixTransitive(a: seq<byte>, b: seq<byte>, c: seq<byte>)
    requires IsPrefix(a, b) && IsPrefix(b, c)
    ensures IsPrefix(a, c)
  {
    assert c[..|a|] == c[..|b|][..|a|];
  }

  /** Once `a` sorts below `b` at a differing byte, appending to `b` keeps that order. */
  lemma BelowAtExtendRight(a: seq<byte>, b: seq<byte>, x: seq<byte>)
    requires BelowAt(a, b)
    ensures BelowAt(a, b + x)
  {
    var k := CommonPrefixLen(a, b);
    assert (b + x)[..k] == b[..k];
    CommonPrefixLenIs(a, b + x, k);
  }

  /** Once `a` sorts below `b` at a differing byte, appending to `a` keeps that order. */
  lemma BelowAtExtendLeft(a: seq<byte>, b: seq<byte>, x: seq<byte>)
    requires BelowAt(a, b)
    ensures BelowAt(a + x, b)
  {
    var k := CommonPrefixLen(a, b);
    assert (a + x)[..k] == a[..k];
    CommonPrefixLenIs(a + x, b, k);
  }
}

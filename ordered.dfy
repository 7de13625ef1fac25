/** Byte strings, their lexicographic order and the ascending enumeration of a
    finite set of keys: the order in which an ordered key-value store's
    iterators visit keys. */
module Ordered {

  newtype byte = x: int | 0 <= x < 256

  type Bytes = seq<byte>

  /** `p` is a byte-prefix of `s`. */
  predicate HasPrefix(p: Bytes, s: Bytes) {
    |p| <= |s| && s[..|p|] == p
  }

  /** Strict lexicographic order on byte strings (a proper prefix sorts first). */
  predicate Less(a: Bytes, b: Bytes)
    decreases |a|
  {
    if |a| == 0 then |b| > 0
    else |b| > 0 && (a[0] < b[0] || (a[0] == b[0] && Less(a[1..], b[1..])))
  }

  lemma {:induction false} LessIrreflexive(a: Bytes)
    ensures !Less(a, a)
    decreases |a|
  {
    if |a| > 0 {
      LessIrreflexive(a[1..]);
    }
  }

  lemma {:induction false} LessTransitive(a: Bytes, b: Bytes, c: Bytes)
    requires Less(a, b) && Less(b, c)
    ensures Less(a, c)
    decreases |a|
  {
    if |a| > 0 && a[0] == b[0] && b[0] == c[0] {
      LessTransitive(a[1..], b[1..], c[1..]);
    }
  }

  lemma {:induction false} LessTotal(a: Bytes, b: Bytes)
    requires a != b
    ensures Less(a, b) || Less(b, a)
    decreases |a|
  {
    if |a| > 0 && |b| > 0 && a[0] == b[0] {
      assert a == [a[0]] + a[1..] && b == [b[0]] + b[1..];
      LessTotal(a[1..], b[1..]);
    }
  }

  lemma LessAsymmetric(a: Bytes, b: Bytes)
    requires Less(a, b)
    ensures !Less(b, a)
  {
    if Less(b, a) {
      LessTransitive(a, b, a);
      LessIrreflexive(a);
    }
  }

  /** A common prefix does not change the order of two keys. */
  lemma {:induction false} LessCommonPrefix(p: Bytes, a: Bytes, b: Bytes)
    ensures Less(p + a, p + b) <==> Less(a, b)
    decreases |p|
  {
    if |p| == 0 {
      assert p + a == a && p + b == b;
    } else {
      assert (p + a)[1..] == p[1..] + a;
      assert (p + b)[1..] == p[1..] + b;
      LessCommonPrefix(p[1..], a, b);
    }
  }

  /** A key under prefix `p` never sorts before `p` itself. */
  lemma {:induction false} PrefixNotBelow(p: Bytes, a: Bytes)
    requires HasPrefix(p, a)
    ensures !Less(a, p)
    decreases |p|
  {
    if |p| > 0 {
      assert a[1..][..|p| - 1] == p[1..];
      PrefixNotBelow(p[1..], a[1..]);
    }
  }

  /** Every key under prefix `p` sorts before every key that is at or after `p`
      but not under `p`: the keys under a prefix form one contiguous run. */
  lemma {:induction false} PrefixBeforeOutside(p: Bytes, a: Bytes, b: Bytes)
    requires HasPrefix(p, a) && !HasPrefix(p, b) && !Less(b, p)
    ensures Less(a, b)
    decreases |p|
  {
    assert |p| > 0 && |b| > 0;
    if b[0] == p[0] {
      assert a[1..][..|p| - 1] == p[1..];
      PrefixBeforeOutside(p[1..], a[1..], b[1..]);
    }
  }

  /** `k` is the least element of `s`. */
  predicate IsLeast(k: Bytes, s: set<Bytes>) {
    k in s && forall j :: j in s && j != k ==> Less(k, j)
  }

  lemma {:induction false} LeastExists(s: set<Bytes>)
    requires s != {}
    ensures exists k :: IsLeast(k, s)
    decreases |s|
  {
    var x :| x in s;
    if s == {x} {
      assert IsLeast(x, s);
    } else {
      LeastExists(s - {x});
      var y :| IsLeast(y, s - {x});
      LessTotal(x, y);
      if Less(x, y) {
        forall j | j in s && j != x
          ensures Less(x, j)
        {
          if j != y {
            LessTransitive(x, y, j);
          }
        }
        assert IsLeast(x, s);
      } else {
        assert IsLeast(y, s);
      }
    }
  }

  lemma LeastUnique(s: set<Bytes>, x: Bytes, y: Bytes)
    requires IsLeast(x, s) && IsLeast(y, s)
    ensures x == y
  {
    if x != y {
      LessAsymmetric(x, y);
    }
  }

  predicate StrictlyIncreasing(r: seq<Bytes>) {
    forall i, j :: 0 <= i < j < |r| ==> Less(r[i], r[j])
  }

  /** The keys of `s` in ascending order: what an iterator over `s` yields. */
  ghost function SortedKeys(s: set<Bytes>): (r: seq<Bytes>)
    ensures forall k :: k in r <==> k in s
    ensures StrictlyIncreasing(r)
    decreases |s|
  {
    if s == {} then []
    else
      LeastExists(s);
      var k :| IsLeast(k, s);
      [k] + SortedKeys(s - {k})
  }

  /** The head of a strictly increasing enumeration of `s` is the least key of
      `s`, and its tail enumerates the rest. */
  lemma EnumerationHead(s: set<Bytes>, r: seq<Bytes>)
    requires StrictlyIncreasing(r) && |r| > 0
    requires forall k :: k in r <==> k in s
    ensures IsLeast(r[0], s)
    ensures StrictlyIncreasing(r[1..])
    ensures forall k :: k in r[1..] <==> k in s - {r[0]}
  {
    forall j | j in s && j != r[0]
      ensures Less(r[0], j)
    {
      var i :| 0 <= i < |r| && r[i] == j;
    }
    forall k | k in r[1..]
      ensures k != r[0]
    {
      var i :| 1 <= i < |r| && r[i] == k;
      LessIrreflexive(k);
    }
    forall k | k in s - {r[0]}
      ensures k in r[1..]
    {
      var i :| 0 <= i < |r| && r[i] == k;
      assert r[1..][i - 1] == k;
    }
    forall i, j | 0 <= i < j < |r[1..]|
      ensures Less(r[1..][i], r[1..][j])
    {
      assert r[1..][i] == r[i + 1] && r[1..][j] == r[j + 1];
    }
  }

  /** A strictly increasing enumeration of a set is unique. */
  lemma {:induction false} SortedKeysUnique(s: set<Bytes>, r: seq<Bytes>)
    requires StrictlyIncreasing(r)
    requires forall k :: k in r <==> k in s
    ensures r == SortedKeys(s)
    decreases |s|
  {
    var t := SortedKeys(s);
    if |r| == 0 {
      assert forall k :: k !in s;
      assert s == {};
    } else {
      assert r[0] in s && r[0] in t;
      EnumerationHead(s, r);
      EnumerationHead(s, t);
      LeastUnique(s, r[0], t[0]);
      SortedKeysUnique(s - {r[0]}, r[1..]);
      SortedKeysUnique(s - {t[0]}, t[1..]);
      assert r == [r[0]] + r[1..] && t == [t[0]] + t[1..];
    }
  }

  /** Removing the least key peels off the head of the enumeration. */
  lemma SortedKeysCons(s: set<Bytes>, k: Bytes)
    requires IsLeast(k, s)
    ensures SortedKeys(s) == [k] + SortedKeys(s - {k})
  {
    var r := [k] + SortedKeys(s - {k});
    forall i, j | 0 <= i < j < |r|
      ensures Less(r[i], r[j])
    {
      if i == 0 {
        assert r[j] in SortedKeys(s - {k});
      } else {
        assert r[i] == SortedKeys(s - {k})[i - 1] && r[j] == SortedKeys(s - {k})[j - 1];
      }
    }
    forall x
      ensures x in r <==> x in s
    {
      if x in s && x != k {
        assert x in SortedKeys(s - {k});
      }
    }
    SortedKeysUnique(s, r);
  }

  /** When every key of `a` sorts before every key of `b`, enumerating `a + b`
      enumerates `a` and then `b`. */
  lemma SortedKeysAppend(a: set<Bytes>, b: set<Bytes>)
    requires forall x, y :: x in a && y in b ==> Less(x, y)
    ensures SortedKeys(a + b) == SortedKeys(a) + SortedKeys(b)
  {
    var ra, rb := SortedKeys(a), SortedKeys(b);
    var r := ra + rb;
    forall i, j | 0 <= i < j < |r|
      ensures Less(r[i], r[j])
    {
      if j < |ra| {
      } else if i >= |ra| {
        assert r[i] == rb[i - |ra|] && r[j] == rb[j - |ra|];
      } else {
        assert r[i] in a && r[j] == rb[j - |ra|] && r[j] in b;
      }
    }
    forall x
      ensures x in r <==> x in a + b
    {
      if x in b {
        assert x in rb;
      }
    }
    SortedKeysUnique(a + b, r);
  }
}

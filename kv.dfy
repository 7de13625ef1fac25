/** The ordered byte-keyed store under both the queue engine and the bucket
    adapter (levigo's and goleveldb's `DB`), modelled as a finite map whose
    iterators visit keys in ascending byte order and whose batches are
    applied record by record in one write. */
module KV {
  import opened Ordered

  datatype Option<T> = None | Some(value: T)

  /** Errors the store and its callers can report. `ErrIO` stands for any
      failure of the storage engine itself, `ErrCallback` for an error that a
      `ForEach` callback or a batch function returns. */
  datatype Error = ErrNotFound | ErrIO | ErrCallback(code: nat)

  datatype Result<T> = Ok(value: T) | Err(error: Error)

  /** One record of a write batch. */
  datatype Op = Put(key: Bytes, value: Bytes) | Delete(key: Bytes)

  /** The map after a batch: its records are applied in order, so the last
      record on a key wins. */
  function Apply(m: map<Bytes, Bytes>, ops: seq<Op>): map<Bytes, Bytes>
    decreases |ops|
  {
    if ops == [] then m
    else
      var before := Apply(m, ops[..|ops| - 1]);
      match ops[|ops| - 1]
      case Put(k, v) => before[k := v]
      case Delete(k) => before - {k}
  }

  /** A batch whose records never name `k` leaves `k` as it was. */
  lemma {:induction false} ApplyUntouched(m: map<Bytes, Bytes>, ops: seq<Op>, k: Bytes)
    requires forall i :: 0 <= i < |ops| ==> ops[i].key != k
    ensures k in Apply(m, ops) <==> k in m
    ensures k in m ==> Apply(m, ops)[k] == m[k]
    decreases |ops|
  {
    if ops != [] {
      ApplyUntouched(m, ops[..|ops| - 1], k);
    }
  }

  /** Applying two batches one after the other is applying their concatenation. */
  lemma {:induction false} ApplyAppend(m: map<Bytes, Bytes>, a: seq<Op>, b: seq<Op>)
    ensures Apply(m, a + b) == Apply(Apply(m, a), b)
    decreases |b|
  {
    if b == [] {
      assert a + b == a;
    } else {
      assert (a + b)[..|a + b| - 1] == a + b[..|b| - 1];
      ApplyAppend(m, a, b[..|b| - 1]);
    }
  }

  /** One delete record per key, in the order given. */
  function Deletes(ks: seq<Bytes>): (ops: seq<Op>)
    ensures |ops| == |ks|
    ensures forall i :: 0 <= i < |ks| ==> ops[i] == Delete(ks[i])
  {
    seq(|ks|, i requires 0 <= i < |ks| => Delete(ks[i]))
  }

  /** A batch of deletes removes exactly the keys it names. */
  lemma {:induction false} ApplyDeletes(m: map<Bytes, Bytes>, ks: seq<Bytes>)
    ensures Apply(m, Deletes(ks)) == m - (set k | k in ks)
    decreases |ks|
  {
    if ks != [] {
      var init := ks[..|ks| - 1];
      assert Deletes(ks)[..|ks| - 1] == Deletes(init);
      ApplyDeletes(m, init);
      assert (set k | k in ks) == (set k | k in init) + {ks[|ks| - 1]} by {
        assert ks == init + [ks[|ks| - 1]];
      }
    }
  }

  /** The keys an iterator positioned by `Seek(lo)` visits. */
  function KeysFrom(m: map<Bytes, Bytes>, lo: Bytes): set<Bytes> {
    set k | k in m && !Less(k, lo)
  }

  /** The keys of the range `BytesPrefix(p)`: the keys having prefix `p`. */
  function KeysUnder(m: map<Bytes, Bytes>, p: Bytes): set<Bytes> {
    set k | k in m && HasPrefix(p, k)
  }

  /** A scan that seeks to `p` meets every key under `p` first, in order, and
      the first key after them (if any) is not under `p`. */
  lemma SeekReachesPrefixFirst(m: map<Bytes, Bytes>, p: Bytes)
    ensures var keys, under := SortedKeys(KeysFrom(m, p)), SortedKeys(KeysUnder(m, p));
      |under| <= |keys| && keys[..|under|] == under &&
      forall i :: |under| <= i < |keys| ==> !HasPrefix(p, keys[i])
  {
    var u := KeysUnder(m, p);
    var o := set k | k in m && !Less(k, p) && !HasPrefix(p, k);
    forall k | k in u
      ensures !Less(k, p)
    {
      PrefixNotBelow(p, k);
    }
    assert KeysFrom(m, p) == u + o;
    forall x, y | x in u && y in o
      ensures Less(x, y)
    {
      PrefixBeforeOutside(p, x, y);
    }
    SortedKeysAppend(u, o);
    var keys, under := SortedKeys(KeysFrom(m, p)), SortedKeys(u);
    assert keys == under + SortedKeys(o);
    forall i | |under| <= i < |keys|
      ensures !HasPrefix(p, keys[i])
    {
      assert keys[i] == SortedKeys(o)[i - |under|];
      assert keys[i] in o;
    }
  }

  /** The least key of a non-empty set. */
  method PickLeast(s: set<Bytes>) returns (k: Bytes)
    requires s != {}
    ensures IsLeast(k, s)
  {
    LeastExists(s);
    k :| IsLeast(k, s);
  }

  lemma EnumerateStep(keys: seq<Bytes>, rest: set<Bytes>, k: Bytes)
    requires IsLeast(k, rest)
    ensures keys + SortedKeys(rest) == (keys + [k]) + SortedKeys(rest - {k})
    ensures |rest - {k}| < |rest|
  {
    SortedKeysCons(rest, k);
  }

  /** Enumerates a finite key set in ascending order, one least key at a time,
      as a store iterator's `Next` does. */
  method Enumerate(s: set<Bytes>) returns (keys: seq<Bytes>)
    ensures keys == SortedKeys(s)
  {
    keys := [];
    var rest := s;
    while rest != {}
      invariant SortedKeys(s) == keys + SortedKeys(rest)
      decreases |rest|
    {
      var k := PickLeast(rest);
      EnumerateStep(keys, rest, k);
      keys := keys + [k];
      rest := rest - {k};
    }
  }

  /** The value at `k`, or nil (empty) when `k` is missing. */
  function ValueOrNil(m: map<Bytes, Bytes>, k: Bytes): Bytes {
    if k in m then m[k] else []
  }

  class Store {
    var m: map<Bytes, Bytes>

    constructor (contents: map<Bytes, Bytes>)
      ensures m == contents
    {
      m := contents;
    }

    /** goleveldb's `Get`: a missing key is `ErrNotFound`. */
    function Get(k: Bytes): Result<Bytes>
      reads this
    {
      if k in m then Ok(m[k]) else Err(ErrNotFound)
    }

    /** levigo's `Get` when it does not fail: a missing key reads as a nil
        (empty) value and no error. */
    function GetOrNil(k: Bytes): Bytes
      reads this
    {
      ValueOrNil(m, k)
    }

    /** Writes a batch atomically. */
    method Write(ops: seq<Op>)
      modifies this
      ensures m == Apply(old(m), ops)
    {
      m := Apply(m, ops);
    }

    /** A snapshot iterator positioned by `Seek(lo)` (`SeekToFirst` is `Seek([])`). */
    method Seek(lo: Bytes) returns (keys: seq<Bytes>)
      ensures keys == SortedKeys(KeysFrom(m, lo))
    {
      keys := Enumerate(KeysFrom(m, lo));
    }

    /** A snapshot iterator over the range `BytesPrefix(p)`. */
    method PrefixRange(p: Bytes) returns (keys: seq<Bytes>)
      ensures keys == SortedKeys(KeysUnder(m, p))
    {
      keys := Enumerate(KeysUnder(m, p));
    }
  }
}

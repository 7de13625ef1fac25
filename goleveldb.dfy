/** The goleveldb backend adapter: a `Bucket` scopes one ordered store to a
    namespace by putting the namespace in front of every key, and a `Batch`
    stages puts and deletes that reach the store in one write. */
module GoLevelDB {
  import opened Ordered
  import opened KV

  /** A call that a batch function makes on the batch handle it is given. */
  datatype BatchCall = CallPut(k: Bytes, v: Bytes) | CallDelete(k: Bytes) | CallClear

  /** The records staged on a handle over namespace `ns` after `calls`: puts and
      deletes append one record on `ns + k`; a clear drops everything staged. */
  function Staged(ns: Bytes, calls: seq<BatchCall>): seq<Op>
    decreases |calls|
  {
    if calls == [] then []
    else
      var before := Staged(ns, calls[..|calls| - 1]);
      match calls[|calls| - 1]
      case CallPut(k, v) => before + [Op.Put(ns + k, v)]
      case CallDelete(k) => before + [Op.Delete(ns + k)]
      case CallClear => []
  }

  /** Every staged record names a key under the bucket's namespace. */
  lemma {:induction false} StagedInNamespace(ns: Bytes, calls: seq<BatchCall>)
    ensures forall i :: 0 <= i < |Staged(ns, calls)| ==> HasPrefix(ns, Staged(ns, calls)[i].key)
    decreases |calls|
  {
    if calls != [] {
      var init := calls[..|calls| - 1];
      StagedInNamespace(ns, init);
      match calls[|calls| - 1]
      case CallPut(k, v) =>
        assert (ns + k)[..|ns|] == ns;
      case CallDelete(k) =>
        assert (ns + k)[..|ns|] == ns;
      case CallClear =>
    }
  }

  /** Namespace isolation: a batch built through a bucket leaves every key
      outside the bucket's namespace as it was. */
  lemma BatchIsolation(m: map<Bytes, Bytes>, ns: Bytes, calls: seq<BatchCall>, kk: Bytes)
    requires !HasPrefix(ns, kk)
    ensures kk in Apply(m, Staged(ns, calls)) <==> kk in m
    ensures kk in m ==> Apply(m, Staged(ns, calls))[kk] == m[kk]
  {
    StagedInNamespace(ns, calls);
    ApplyUntouched(m, Staged(ns, calls), kk);
  }

  /** Calls with no clear among them only append records. */
  lemma {:induction false} StagedAppend(ns: Bytes, a: seq<BatchCall>, b: seq<BatchCall>)
    requires forall i :: 0 <= i < |b| ==> !b[i].CallClear?
    ensures Staged(ns, a + b) == Staged(ns, a) + Staged(ns, b)
    decreases |b|
  {
    if b == [] {
      assert a + b == a;
    } else {
      assert (a + b)[..|a + b| - 1] == a + b[..|b| - 1];
      StagedAppend(ns, a, b[..|b| - 1]);
    }
  }

  /** Calls that never name `k` stage no record on `ns + k`. */
  lemma {:induction false} StagedAvoids(ns: Bytes, calls: seq<BatchCall>, k: Bytes)
    requires forall i :: 0 <= i < |calls| ==> !calls[i].CallClear? && calls[i].k != k
    ensures forall i :: 0 <= i < |Staged(ns, calls)| ==> Staged(ns, calls)[i].key != ns + k
    decreases |calls|
  {
    if calls != [] {
      StagedAvoids(ns, calls[..|calls| - 1], k);
      var last := calls[|calls| - 1];
      assert ns + last.k != ns + k by {
        assert (ns + last.k)[|ns|..] == last.k && (ns + k)[|ns|..] == k;
      }
    }
  }

  /** Round trip: after a successful batch whose function puts `(k, v)` and
      afterwards neither clears the handle nor touches `k` again, the bucket's
      `Get(k)` yields `v`. */
  lemma GetAfterBatchPut(m: map<Bytes, Bytes>, ns: Bytes, pre: seq<BatchCall>, k: Bytes, v: Bytes, post: seq<BatchCall>)
    requires forall i :: 0 <= i < |post| ==> !post[i].CallClear? && post[i].k != k
    ensures var m' := Apply(m, Staged(ns, pre + [CallPut(k, v)] + post));
      ns + k in m' && m'[ns + k] == v
  {
    var a := pre + [CallPut(k, v)];
    StagedAppend(ns, a, post);
    ApplyAppend(m, Staged(ns, a), Staged(ns, post));
    assert a[..|a| - 1] == pre;
    StagedAvoids(ns, post, k);
    ApplyUntouched(Apply(m, Staged(ns, a)), Staged(ns, post), ns + k);
  }

  /** The calls made by `ForEach` on entries `es` with callback `fn`, and the
      error it returns. */
  function Visit(fn: (Bytes, Bytes) -> Option<Error>, es: seq<(Bytes, Bytes)>): (seq<(Bytes, Bytes)>, Option<Error>)
    decreases |es|
  {
    if es == [] then ([], None)
    else
      match fn(es[0].0, es[0].1)
      case Some(e) => ([es[0]], Some(e))
      case None =>
        var rest := Visit(fn, es[1..]);
        ([es[0]] + rest.0, rest.1)
  }

  /** `Visit` calls the callback on a prefix of the entries, in order, up to and
      including the first entry whose callback fails, and returns that failure;
      when no callback fails it visits every entry and returns no error. */
  lemma {:induction false} VisitStopsAtFirstError(fn: (Bytes, Bytes) -> Option<Error>, es: seq<(Bytes, Bytes)>)
    ensures var (calls, err) := Visit(fn, es);
      |calls| <= |es| && calls == es[..|calls|] &&
      (err.None? <==> forall i :: 0 <= i < |es| ==> fn(es[i].0, es[i].1).None?) &&
      (err.None? ==> calls == es) &&
      (err.Some? ==> |calls| > 0 && fn(calls[|calls| - 1].0, calls[|calls| - 1].1) == err) &&
      (forall i :: 0 <= i < |calls| - 1 ==> fn(calls[i].0, calls[i].1).None?)
    decreases |es|
  {
    if es != [] && fn(es[0].0, es[0].1).None? {
      VisitStopsAtFirstError(fn, es[1..]);
      var rest := Visit(fn, es[1..]);
      assert es == [es[0]] + es[1..];
      forall i | 0 <= i < |es| && rest.1.None?
        ensures fn(es[i].0, es[i].1).None?
      {
        if i > 0 {
          assert es[i] == es[1..][i - 1];
        }
      }
      if rest.1.Some? {
        var i :| 0 <= i < |es[1..]| && fn(es[1..][i].0, es[1..][i].1).Some?;
        assert es[i + 1] == es[1..][i];
      }
      forall i | 0 <= i < |rest.0|
        ensures ([es[0]] + rest.0)[i + 1] == rest.0[i]
      {
      }
    }
  }

  /** The next three lemmas are proof steps for the loop of `VisitRange`, with
      no source counterpart of their own: each unfolds `Visit` once.
      A step at position `i` whose callback fails, seen from a visit that has
      made the calls `visited` so far. */
  lemma VisitFails(fn: (Bytes, Bytes) -> Option<Error>, es: seq<(Bytes, Bytes)>, i: nat, visited: seq<(Bytes, Bytes)>)
    requires i < |es| && fn(es[i].0, es[i].1).Some?
    ensures (visited + Visit(fn, es[i..]).0, Visit(fn, es[i..]).1) == (visited + [es[i]], fn(es[i].0, es[i].1))
  {
    assert es[i..][0] == es[i];
  }

  /** Proof step for `VisitRange`: a callback at position `i` that succeeds. */
  lemma VisitAdvances(fn: (Bytes, Bytes) -> Option<Error>, es: seq<(Bytes, Bytes)>, i: nat, visited: seq<(Bytes, Bytes)>)
    requires i < |es| && fn(es[i].0, es[i].1).None?
    ensures (visited + Visit(fn, es[i..]).0, Visit(fn, es[i..]).1)
      == ((visited + [es[i]]) + Visit(fn, es[i + 1..]).0, Visit(fn, es[i + 1..]).1)
  {
    assert es[i..][0] == es[i] && es[i..][1..] == es[i + 1..];
    assert visited + ([es[i]] + Visit(fn, es[i + 1..]).0) == (visited + [es[i]]) + Visit(fn, es[i + 1..]).0;
  }

  /** Proof step for `VisitRange`: `Visit` at the end of the entries. */
  lemma VisitEnd(fn: (Bytes, Bytes) -> Option<Error>, es: seq<(Bytes, Bytes)>, i: nat, visited: seq<(Bytes, Bytes)>)
    requires i == |es|
    ensures (visited + Visit(fn, es[i..]).0, Visit(fn, es[i..]).1) == (visited, None)
  {
    assert es[i..] == [] && visited + [] == visited;
  }

  /** The entries at `keys` with the namespace stripped from each key. */
  ghost function EntriesOf(m: map<Bytes, Bytes>, ns: Bytes, keys: seq<Bytes>): (es: seq<(Bytes, Bytes)>)
    requires forall i :: 0 <= i < |keys| ==> keys[i] in m && HasPrefix(ns, keys[i])
    ensures |es| == |keys|
    ensures forall i :: 0 <= i < |keys| ==>
      keys[i] in m && HasPrefix(ns, keys[i]) && es[i] == (keys[i][|ns|..], m[keys[i]])
  {
    seq(|keys|, i requires 0 <= i < |keys| && keys[i] in m && HasPrefix(ns, keys[i]) =>
      (keys[i][|ns|..], m[keys[i]]))
  }

  /** What `ForEach` may visit on a bucket over `ns`: its range, in order. */
  ghost function BucketEntries(m: map<Bytes, Bytes>, ns: Bytes): seq<(Bytes, Bytes)> {
    var keys := SortedKeys(KeysUnder(m, ns));
    assert forall i :: 0 <= i < |keys| ==> keys[i] in keys;
    EntriesOf(m, ns, keys)
  }

  /** The bucket's entries are exactly the store's keys having prefix `ns`,
      with `ns` stripped, in ascending order, each with its value. */
  lemma BucketEntriesExact(m: map<Bytes, Bytes>, ns: Bytes)
    ensures var es := BucketEntries(m, ns);
      (forall i :: 0 <= i < |es| ==> ns + es[i].0 in m && m[ns + es[i].0] == es[i].1) &&
      (forall i, j :: 0 <= i < j < |es| ==> Less(es[i].0, es[j].0)) &&
      (forall kk :: kk in m && HasPrefix(ns, kk) ==> exists i :: 0 <= i < |es| && ns + es[i].0 == kk)
  {
    var keys := SortedKeys(KeysUnder(m, ns));
    var es := BucketEntries(m, ns);
    forall i | 0 <= i < |es|
      ensures ns + es[i].0 == keys[i] && es[i].1 == m[keys[i]]
    {
      assert keys[i] in keys;
      assert keys[i] == keys[i][..|ns|] + keys[i][|ns|..];
    }
    forall i, j | 0 <= i < j < |es|
      ensures Less(es[i].0, es[j].0)
    {
      LessCommonPrefix(ns, es[i].0, es[j].0);
    }
    forall kk | kk in m && HasPrefix(ns, kk)
      ensures exists i :: 0 <= i < |es| && ns + es[i].0 == kk
    {
      assert kk in keys;
      var i :| 0 <= i < |keys| && keys[i] == kk;
      assert ns + es[i].0 == kk;
    }
  }

  /** What the loop at lines 115-119 of the adapter removes: the bucket's keys
      with the namespace stripped, not the keys themselves. */
  function ClearedAsWritten(m: map<Bytes, Bytes>, ns: Bytes): map<Bytes, Bytes> {
    m - (set kk | kk in m && HasPrefix(ns, kk) :: kk[|ns|..])
  }

  /** As written, `Clear` keeps `kk` exactly when `ns + kk` is not also a
      stored key: a namespace's own keys survive, and a key elsewhere is
      deleted whenever it equals the suffix of a key in the namespace. */
  lemma ClearAsWrittenKeeps(m: map<Bytes, Bytes>, ns: Bytes, kk: Bytes)
    ensures kk in ClearedAsWritten(m, ns) <==> kk in m && ns + kk !in m
  {
    var stripped := set k | k in m && HasPrefix(ns, k) :: k[|ns|..];
    if ns + kk in m {
      assert (ns + kk)[..|ns|] == ns && (ns + kk)[|ns|..] == kk;
      assert kk in stripped;
    }
    if kk in stripped {
      var k :| k in m && HasPrefix(ns, k) && k[|ns|..] == kk;
      assert k == ns + kk by {
        assert k == k[..|ns|] + k[|ns|..];
      }
    }
  }

  /** The suffixes the loop collects are exactly the range's stripped keys. */
  lemma StrippedRange(m: map<Bytes, Bytes>, ns: Bytes, keys: seq<Bytes>, stripped: seq<Bytes>)
    requires keys == SortedKeys(KeysUnder(m, ns)) && |stripped| == |keys|
    requires forall j :: 0 <= j < |keys| ==> HasPrefix(ns, keys[j]) && stripped[j] == keys[j][|ns|..]
    ensures (set k | k in stripped) == (set kk | kk in m && HasPrefix(ns, kk) :: kk[|ns|..])
  {
    forall kk | kk in m && HasPrefix(ns, kk)
      ensures kk[|ns|..] in stripped
    {
      assert kk in keys;
      var j :| 0 <= j < |keys| && keys[j] == kk;
      assert stripped[j] == kk[|ns|..];
    }
    forall k | k in stripped
      ensures exists kk :: kk in m && HasPrefix(ns, kk) && k == kk[|ns|..]
    {
      var j :| 0 <= j < |stripped| && stripped[j] == k;
      assert keys[j] in keys;
    }
  }

  /** A concrete store on which `Clear` over namespace `[1]` leaves the
      namespace's key `[1, 2]` in place and deletes the key `[2]`, which is
      not in the namespace. */
  lemma ClearAsWrittenMisses()
    ensures var m := map[[1, 2] := [7], [2] := [8]];
      ClearedAsWritten(m, [1]) == map[[1, 2] := [7]]
  {
    var m: map<Bytes, Bytes> := map[[1, 2] := [7], [2] := [8]];
    var r := ClearedAsWritten(m, [1]);
    ClearAsWrittenKeeps(m, [1], [1, 2]);
    ClearAsWrittenKeeps(m, [1], [2]);
    assert [1] + [1, 2] == [1, 1, 2] && [1] + [2] == [1, 2];
    assert r.Keys == {[1, 2]};
  }

  /** A longest key of a finite, non-empty set of keys. */
  lemma {:induction false} LongestKey(s: set<Bytes>) returns (k: Bytes)
    requires s != {}
    ensures k in s && forall j :: j in s ==> |j| <= |k|
    decreases |s|
  {
    var x :| x in s;
    if s == {x} {
      k := x;
    } else {
      var longest := LongestKey(s - {x});
      k := if |x| <= |longest| then longest else x;
    }
  }

  /** The converse of `ClearAsWrittenEmptyNamespace`: as written, `Clear` over
      a non-empty namespace that holds keys always leaves one of them, since a
      longest key `k` under `ns` survives (`ns + k` is longer still, so it is
      not stored). */
  lemma ClearAsWrittenKeepsSome(m: map<Bytes, Bytes>, ns: Bytes)
    requires ns != [] && KeysUnder(m, ns) != {}
    ensures KeysUnder(ClearedAsWritten(m, ns), ns) != {}
  {
    var k := LongestKey(KeysUnder(m, ns));
    assert ns + k !in KeysUnder(m, ns);
    assert HasPrefix(ns, ns + k) by {
      assert (ns + k)[..|ns|] == ns;
    }
    ClearAsWrittenKeeps(m, ns, k);
    assert k in KeysUnder(ClearedAsWritten(m, ns), ns);
  }

  /** With the empty namespace the stripped keys are the keys themselves, so
      `Clear` as written empties the store. */
  lemma ClearAsWrittenEmptyNamespace(m: map<Bytes, Bytes>)
    ensures ClearedAsWritten(m, []) == map[]
  {
    forall kk | kk in m
      ensures kk !in ClearedAsWritten(m, [])
    {
      ClearAsWrittenKeeps(m, [], kk);
      assert [] + kk == kk;
    }
  }

  /** The loop of `ForEach` over the iterator's keys `keys`: each key is handed
      to the callback without the namespace, with its value, until a callback
      fails. */
  method VisitRange(fn: (Bytes, Bytes) -> Option<Error>, m: map<Bytes, Bytes>, ns: Bytes, keys: seq<Bytes>)
    returns (err: Option<Error>, visited: seq<(Bytes, Bytes)>)
    requires forall i :: 0 <= i < |keys| ==> keys[i] in m && HasPrefix(ns, keys[i])
    ensures (visited, err) == Visit(fn, EntriesOf(m, ns, keys))
  {
    ghost var es := EntriesOf(m, ns, keys);
    visited := [];
    var i := 0;
    assert es[i..] == es && visited + Visit(fn, es).0 == Visit(fn, es).0;
    while i < |keys|
      invariant 0 <= i <= |keys| == |es|
      invariant Visit(fn, es) == (visited + Visit(fn, es[i..]).0, Visit(fn, es[i..]).1)
    {
      var kk := keys[i];
      var v := m[kk];
      var k := kk[|ns|..];
      assert es[i] == (k, v);
      var e := fn(k, v);
      if e.Some? {
        VisitFails(fn, es, i, visited);
        visited := visited + [(k, v)];
        return e, visited;
      }
      VisitAdvances(fn, es, i, visited);
      visited := visited + [(k, v)];
      i := i + 1;
    }
    VisitEnd(fn, es, i, visited);
    err := None;
  }

  /** A staging handle: the records of `levelBatch` reach `levelDB` only on `Write`. */
  class Batch {
    const levelDB: Store
    const ns: Bytes
    var levelBatch: seq<Op>

    constructor (levelDB: Store, ns: Bytes)
      ensures this.levelDB == levelDB && this.ns == ns && levelBatch == []
    {
      this.levelDB := levelDB;
      this.ns := ns;
      levelBatch := [];
    }

    /** Stages a put on `ns + k`; the store is not touched. */
    method Put(k: Bytes, v: Bytes) returns (err: Option<Error>)
      modifies this
      ensures levelBatch == old(levelBatch) + [Op.Put(ns + k, v)]
      ensures err == None
    {
      levelBatch := levelBatch + [Op.Put(ns + k, v)];
      err := None;
    }

    /** Stages a delete on `ns + k`; the store is not touched. */
    method Delete(k: Bytes) returns (err: Option<Error>)
      modifies this
      ensures levelBatch == old(levelBatch) + [Op.Delete(ns + k)]
      ensures err == None
    {
      levelBatch := levelBatch + [Op.Delete(ns + k)];
      err := None;
    }

    /** Applies every staged record in one write. */
    method Write() returns (err: Option<Error>)
      modifies levelDB
      ensures levelDB.m == Apply(old(levelDB.m), levelBatch)
      ensures err == None
    {
      levelDB.Write(levelBatch);
      err := None;
    }

    method Clear()
      modifies this
      ensures levelBatch == []
    {
      levelBatch := [];
    }

    method Close()
      modifies this
      ensures levelBatch == []
    {
      levelBatch := [];
    }
  }

  /** A namespace of one store. */
  class Bucket {
    const db: Store
    const ns: Bytes

    /** `DB.Bucket(name)`: the namespace is the name's bytes. */
    constructor (db: Store, name: Bytes)
      ensures this.db == db && ns == name
    {
      this.db := db;
      ns := name;
    }

    /** Visits the range `BytesPrefix(ns)` in ascending key order, handing the
        callback each key without the namespace and its value, and stops at the
        first callback error, which it returns. `visited` lists the calls made. */
    method ForEach(fn: (Bytes, Bytes) -> Option<Error>) returns (err: Option<Error>, visited: seq<(Bytes, Bytes)>)
      ensures (visited, err) == Visit(fn, BucketEntries(db.m, ns))
    {
      var keys := db.PrefixRange(ns);
      assert forall i :: 0 <= i < |keys| ==> keys[i] in keys;
      err, visited := VisitRange(fn, db.m, ns, keys);
    }

    /** Runs a batch function: `calls` are its calls on the handle, `fnErr` what
        it returns. On an error nothing is written and that error is returned;
        otherwise every staged record is applied in one write. */
    method Batch(calls: seq<BatchCall>, fnErr: Option<Error>) returns (err: Option<Error>)
      modifies db
      ensures fnErr.Some? ==> err == fnErr && db.m == old(db.m)
      ensures fnErr.None? ==> err == None && db.m == Apply(old(db.m), Staged(ns, calls))
    {
      var batch := new Batch(db, ns);
      var i := 0;
      while i < |calls|
        invariant 0 <= i <= |calls|
        invariant fresh(batch) && batch.levelDB == db && batch.ns == ns
        invariant batch.levelBatch == Staged(ns, calls[..i])
        invariant db.m == old(db.m)
      {
        assert calls[..i + 1][..i] == calls[..i];
        match calls[i] {
          case CallPut(k, v) =>
            var _ := batch.Put(k, v);
          case CallDelete(k) =>
            var _ := batch.Delete(k);
          case CallClear =>
            batch.Clear();
        }
        i := i + 1;
      }
      assert calls[..i] == calls;
      if fnErr.Some? {
        batch.Close();
        return fnErr;
      }
      err := batch.Write();
      batch.Close();
    }

    /** Reads the store at `ns + k`. */
    function Get(k: Bytes): (r: Result<Bytes>)
      reads db
      ensures r.Ok? <==> ns + k in db.m
      ensures r.Ok? ==> r.value == db.m[ns + k]
      ensures r.Err? ==> r.error == ErrNotFound
    {
      db.Get(ns + k)
    }

    /** As written: one batch deleting every key of the range with the
        namespace stripped. */
    method Clear() returns (err: Option<Error>)
      modifies db
      ensures err == None
      ensures db.m == ClearedAsWritten(old(db.m), ns)
    {
      var keys := db.PrefixRange(ns);
      ghost var under := KeysUnder(db.m, ns);
      ghost var stripped: seq<Bytes> := [];
      var b: seq<Op> := [];
      for i := 0 to |keys|
        invariant |stripped| == i
        invariant forall j :: 0 <= j < i ==> HasPrefix(ns, keys[j]) && stripped[j] == keys[j][|ns|..]
        invariant b == Deletes(stripped)
      {
        assert keys[i] in keys;
        var k := keys[i][|ns|..];
        b := b + [Op.Delete(k)];
        stripped := stripped + [k];
      }
      ghost var m := db.m;
      db.Write(b);
      ApplyDeletes(m, stripped);
      StrippedRange(m, ns, keys, stripped);
      err := None;
    }

    /** `Clear` deleting the full keys of the range, as its comment intends:
        the namespace ends up empty and every other key is untouched. */
    method ClearCorrected() returns (err: Option<Error>)
      modifies db
      ensures err == None
      ensures db.m == old(db.m) - KeysUnder(old(db.m), ns)
    {
      var keys := db.PrefixRange(ns);
      var b: seq<Op> := [];
      for i := 0 to |keys|
        invariant b == Deletes(keys[..i])
      {
        assert keys[..i + 1] == keys[..i] + [keys[i]];
        b := b + [Op.Delete(keys[i])];
      }
      assert keys[..|keys|] == keys;
      ghost var m := db.m;
      db.Write(b);
      ApplyDeletes(m, keys);
      err := None;
    }
  }
}

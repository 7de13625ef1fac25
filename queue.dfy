/** The queue engine of package leviq: one namespace of an ordered store, a
    heap of the IDs waiting to be taken, and an availability channel holding
    one token per waiting ID (here a counter). The parts of package internal
    the engine calls (`KeyToID`, `ID.Key`) are given as a `Codec`; the heap
    `IDHeap` promises only that a pop returns some waiting ID and removes it. */
module Leviq {
  import opened Ordered
  import opened KV

  /** internal.ID: a sequence number. */
  type ID = nat

  /** `internal.KeyToID` and `ID.Key`, which this model does not define.
      `KeyToID` returns an ID together with its error; `idOnError` is the ID it
      returns for a key it fails to convert. */
  datatype Codec = Codec(keyToID: Bytes -> Result<ID>, idKey: ID -> Bytes, idOnError: Bytes -> ID)

  /** What the engine may rely on when it needs to: decoding the key of an ID
      gives back that ID. */
  ghost predicate RoundTrips(c: Codec) {
    forall id: ID :: c.keyToID(c.idKey(id)) == Ok(id)
  }

  /** joinKey: the store key of key `k` in namespace `ns`. */
  function JoinKey(ns: Bytes, k: Bytes): (kk: Bytes)
    ensures HasPrefix(ns, kk) && kk[|ns|..] == k
  {
    ns + k
  }

  /** splitKey: the key within namespace `ns` of store key `kk`, or `None` when
      `kk` is outside the namespace. */
  function SplitKey(ns: Bytes, kk: Bytes): (k: Option<Bytes>)
    ensures k.Some? <==> HasPrefix(ns, kk)
    ensures k.Some? ==> JoinKey(ns, k.value) == kk
  {
    if HasPrefix(ns, kk) then
      assert kk == kk[..|ns|] + kk[|ns|..];
      Some(kk[|ns|..])
    else None
  }

  /** The IDs a recovery scan pushed and the error it stopped with. */
  datatype Recovery = Recovery(pushed: seq<ID>, err: Option<Error>)

  /** What the loop of `init` does over the keys from the seek position on: it
      stops at the first key outside the namespace, returns the first decoding
      error, and otherwise pushes the decoded ID of every key. */
  function InitScan(c: Codec, ns: Bytes, keys: seq<Bytes>): Recovery
    decreases |keys|
  {
    if keys == [] then Recovery([], None)
    else
      match SplitKey(ns, keys[0])
      case None => Recovery([], None)
      case Some(k) =>
        match c.keyToID(k)
        case Err(e) => Recovery([], Some(e))
        case Ok(id) =>
          var rest := InitScan(c, ns, keys[1..]);
          Recovery([id] + rest.pushed, rest.err)
  }

  /** Keys after the namespace's run are never decoded: once the first key
      outside the namespace is reached, nothing that follows matters. */
  lemma {:induction false} InitScanStopsAtNamespaceEnd(c: Codec, ns: Bytes, under: seq<Bytes>, beyond: seq<Bytes>)
    requires forall i :: 0 <= i < |under| ==> HasPrefix(ns, under[i])
    requires beyond != [] ==> !HasPrefix(ns, beyond[0])
    ensures InitScan(c, ns, under + beyond) == InitScan(c, ns, under)
    decreases |under|
  {
    if under == [] {
      assert under + beyond == beyond;
    } else {
      assert (under + beyond)[1..] == under[1..] + beyond;
      InitScanStopsAtNamespaceEnd(c, ns, under[1..], beyond);
    }
  }

  /** Over the keys of the namespace, recovery pushes the decoded ID of each key
      in order; it either decodes them all, or stops at the first key that does
      not decode, returning that key's error, with nothing after it pushed. */
  lemma {:induction false} InitScanDecodes(c: Codec, ns: Bytes, under: seq<Bytes>)
    requires forall i :: 0 <= i < |under| ==> |ns| <= |under[i]| && under[i][..|ns|] == ns
    ensures var r := InitScan(c, ns, under);
      |r.pushed| <= |under| &&
      (forall i :: 0 <= i < |r.pushed| ==> c.keyToID(under[i][|ns|..]) == Ok(r.pushed[i])) &&
      (r.err.None? ==> |r.pushed| == |under|) &&
      (r.err.Some? ==> |r.pushed| < |under| && c.keyToID(under[|r.pushed|][|ns|..]) == Err(r.err.value))
    decreases |under|
  {
    if under != [] {
      InitScanDecodes(c, ns, under[1..]);
      var r, rest := InitScan(c, ns, under), InitScan(c, ns, under[1..]);
      if c.keyToID(under[0][|ns|..]).Ok? {
        forall i | 0 <= i < |r.pushed|
          ensures c.keyToID(under[i][|ns|..]) == Ok(r.pushed[i])
        {
          if i > 0 {
            assert under[i] == under[1..][i - 1] && r.pushed[i] == rest.pushed[i - 1];
          }
        }
        if r.err.Some? {
          assert under[|r.pushed|] == under[1..][|rest.pushed|];
        }
      }
    }
  }

  /** Recovery from a store: seeking to the namespace and scanning until the
      first key outside it sees exactly the namespace's keys, in order. */
  lemma RecoveryScansNamespace(c: Codec, m: map<Bytes, Bytes>, ns: Bytes)
    ensures InitScan(c, ns, SortedKeys(KeysFrom(m, ns))) == InitScan(c, ns, SortedKeys(KeysUnder(m, ns)))
  {
    var keys, under := SortedKeys(KeysFrom(m, ns)), SortedKeys(KeysUnder(m, ns));
    SeekReachesPrefixFirst(m, ns);
    assert keys == under + keys[|under|..];
    forall i | 0 <= i < |under|
      ensures HasPrefix(ns, under[i])
    {
      assert under[i] in KeysUnder(m, ns);
    }
    InitScanStopsAtNamespaceEnd(c, ns, under, keys[|under|..]);
  }

  /** The next four lemmas are proof steps for the loop of `Recover`, with no
      source counterpart of their own: each unfolds `InitScan` once.
      A step at position `i` that meets a key outside the namespace, seen from
      a scan that has pushed `pushed` so far. */
  lemma InitScanPastNamespace(c: Codec, ns: Bytes, keys: seq<Bytes>, i: nat, pushed: seq<ID>)
    requires i < |keys| && SplitKey(ns, keys[i]).None?
    ensures Recovery(pushed + InitScan(c, ns, keys[i..]).pushed, InitScan(c, ns, keys[i..]).err) == Recovery(pushed, None)
  {
    assert keys[i..][0] == keys[i];
    assert pushed + [] == pushed;
  }

  /** Proof step for `Recover`: a key at position `i` that does not decode. */
  lemma InitScanDecodeFails(c: Codec, ns: Bytes, keys: seq<Bytes>, i: nat, k: Bytes, e: Error, pushed: seq<ID>)
    requires i < |keys| && SplitKey(ns, keys[i]) == Some(k) && c.keyToID(k) == Err(e)
    ensures Recovery(pushed + InitScan(c, ns, keys[i..]).pushed, InitScan(c, ns, keys[i..]).err) == Recovery(pushed, Some(e))
  {
    assert keys[i..][0] == keys[i];
    assert pushed + [] == pushed;
  }

  /** Proof step for `Recover`: a key at position `i` that decodes to `id`. */
  lemma InitScanPushes(c: Codec, ns: Bytes, keys: seq<Bytes>, i: nat, k: Bytes, id: ID, pushed: seq<ID>)
    requires i < |keys| && SplitKey(ns, keys[i]) == Some(k) && c.keyToID(k) == Ok(id)
    ensures Recovery(pushed + InitScan(c, ns, keys[i..]).pushed, InitScan(c, ns, keys[i..]).err)
      == Recovery((pushed + [id]) + InitScan(c, ns, keys[i + 1..]).pushed, InitScan(c, ns, keys[i + 1..]).err)
  {
    assert keys[i..][0] == keys[i] && keys[i..][1..] == keys[i + 1..];
  }

  /** Proof step for `Recover`: `InitScan` at the end of the keys. */
  lemma InitScanEnd(c: Codec, ns: Bytes, keys: seq<Bytes>, i: nat, pushed: seq<ID>)
    requires i == |keys|
    ensures Recovery(pushed + InitScan(c, ns, keys[i..]).pushed, InitScan(c, ns, keys[i..]).err) == Recovery(pushed, None)
  {
    assert keys[i..] == [] && pushed + [] == pushed;
  }

  /** The store keys of a sequence of IDs, as `ID.Key` gives them. */
  function KeysOf(c: Codec, popped: seq<ID>): (keys: seq<Bytes>)
    ensures |keys| == |popped|
    ensures forall i :: 0 <= i < |popped| ==> keys[i] == c.idKey(popped[i])
  {
    seq(|popped|, i requires 0 <= i < |popped| => c.idKey(popped[i]))
  }

  /** The ID `KeyToID` returns for `k`, whether or not it also fails. */
  function ConvertedID(c: Codec, k: Bytes): ID {
    match c.keyToID(k)
    case Ok(id) => id
    case Err(_) => c.idOnError(k)
  }

  /** The IDs `take` converts the taken keys to, one per key. */
  function DecodedIDs(c: Codec, keys: seq<Bytes>): (ids: seq<ID>)
    ensures |ids| == |keys|
    ensures forall i :: 0 <= i < |keys| ==> ids[i] == ConvertedID(c, keys[i])
    decreases |keys|
  {
    if keys == [] then []
    else DecodedIDs(c, keys[..|keys| - 1]) + [ConvertedID(c, keys[|keys| - 1])]
  }

  /** The error `take` is left with after converting `keys`: each conversion
      overwrites the previous one, so only the last key's failure survives. */
  function LastDecodeError(c: Codec, keys: seq<Bytes>): Option<Error> {
    if keys == [] then None else DecodeError(c, keys[|keys| - 1])
  }

  /** The error `KeyToID` returns for `k`, if any. */
  function DecodeError(c: Codec, k: Bytes): Option<Error> {
    match c.keyToID(k)
    case Ok(_) => None
    case Err(e) => Some(e)
  }

  /** When the codec round-trips, `take` converts the keys of the popped IDs back
      into exactly those IDs, with no error. */
  lemma {:induction false} TakeDecodesPopped(c: Codec, popped: seq<ID>)
    requires RoundTrips(c)
    ensures DecodedIDs(c, KeysOf(c, popped)) == popped
    ensures LastDecodeError(c, KeysOf(c, popped)) == None
    decreases |popped|
  {
    if popped != [] {
      var init := popped[..|popped| - 1];
      assert KeysOf(c, popped)[..|popped| - 1] == KeysOf(c, init);
      TakeDecodesPopped(c, init);
      assert popped == init + [popped[|popped| - 1]];
    }
  }

  /** The one key of a batch of one, or nil. */
  function OnlyKey(b: seq<Bytes>): (key: Option<Bytes>)
    ensures key.Some? <==> |b| == 1
    ensures key.Some? ==> key.value == b[0]
  {
    if |b| == 1 then Some(b[0]) else None
  }

  /** Some popped key's value cannot be read. */
  predicate ReadFails(ns: Bytes, keys: seq<Bytes>, faulty: set<Bytes>) {
    exists i :: 0 <= i < |keys| && JoinKey(ns, keys[i]) in faulty
  }

  /** The loop of `Clear` (lines 83-89 of queue.go) as written, run for at most
      `fuel` iterations on an iterator whose keys from its position on are
      `keys`; `batch` is what has been staged so far. The body never calls
      `it.Next()`, so the position never moves. `None` means the loop has not
      exited within `fuel` iterations; otherwise the batch it would write. */
  function ClearLoopAsWritten(ns: Bytes, keys: seq<Bytes>, batch: seq<Op>, fuel: nat): (r: Option<seq<Op>>)
    ensures r.Some? ==> r.value == batch
    decreases fuel
  {
    if keys == [] || SplitKey(ns, keys[0]).None? then Some(batch)
    else if fuel == 0 then None
    else ClearLoopAsWritten(ns, keys, batch + [Op.Delete(keys[0])], fuel - 1)
  }

  /** As written, `Clear` never exits once the iterator stands on a key of the
      namespace, however many iterations it is given. */
  lemma {:induction false} ClearLoopNeverExits(ns: Bytes, keys: seq<Bytes>, batch: seq<Op>, fuel: nat)
    requires keys != [] && HasPrefix(ns, keys[0])
    ensures ClearLoopAsWritten(ns, keys, batch, fuel) == None
    decreases fuel
  {
    if fuel > 0 {
      ClearLoopNeverExits(ns, keys, batch + [Op.Delete(keys[0])], fuel - 1);
    }
  }

  /** As written, `Clear` on a store holding any key of the namespace never
      reaches its write, however many iterations it is given. */
  lemma ClearAsWrittenDiverges(m: map<Bytes, Bytes>, ns: Bytes, fuel: nat)
    requires KeysUnder(m, ns) != {}
    ensures ClearLoopAsWritten(ns, SortedKeys(KeysFrom(m, ns)), [], fuel) == None
  {
    SeekReachesPrefixFirst(m, ns);
    var keys, under := SortedKeys(KeysFrom(m, ns)), SortedKeys(KeysUnder(m, ns));
    var x :| x in KeysUnder(m, ns);
    assert x in under;
    assert keys[0] == under[0] && under[0] in under;
    ClearLoopNeverExits(ns, keys, [], fuel);
  }

  /** As written, `Clear` on an empty namespace exits at once and writes an
      empty batch, so the store is unchanged. */
  lemma ClearLoopEmptyNamespace(m: map<Bytes, Bytes>, ns: Bytes)
    requires KeysUnder(m, ns) == {}
    ensures ClearLoopAsWritten(ns, SortedKeys(KeysFrom(m, ns)), [], 0) == Some([])
  {
    SeekReachesPrefixFirst(m, ns);
  }

  /** The loop of `Clear`, advancing the iterator over `keys`, whose first `run`
      keys are the namespace's: one delete for each of them. */
  method StageDeletes(ns: Bytes, keys: seq<Bytes>, ghost run: nat) returns (b: seq<Op>, count: nat)
    requires run <= |keys|
    requires forall j :: 0 <= j < run ==> HasPrefix(ns, keys[j])
    requires forall j :: run <= j < |keys| ==> !HasPrefix(ns, keys[j])
    ensures count == run && b == Deletes(keys[..count])
  {
    b, count := [], 0;
    while count < |keys|
      invariant count <= run && b == Deletes(keys[..count])
    {
      if SplitKey(ns, keys[count]).None? {
        break;
      }
      assert keys[..count + 1] == keys[..count] + [keys[count]];
      b := b + [Op.Delete(keys[count])];
      count := count + 1;
    }
  }

  /** internal.IDHeap, known only through what a pop promises. */
  class IDHeap {
    var items: multiset<ID>

    constructor ()
      ensures items == multiset{}
    {
      items := multiset{};
    }

    method PushID(id: ID)
      modifies this
      ensures items == old(items) + multiset{id}
    {
      items := items + multiset{id};
    }

    /** Removes and returns some waiting ID (the heap's order is not modelled). */
    method PopID() returns (id: ID)
      requires |items| > 0
      modifies this
      ensures id in old(items) && items == old(items) - multiset{id}
    {
      id :| id in items;
      items := items - multiset{id};
    }
  }

  /** A transaction on a queue: the IDs it will put and the IDs it has taken. */
  class Txn {
    const queue: Queue
    const puts: IDHeap
    const takes: IDHeap

    constructor (queue: Queue)
      ensures this.queue == queue && fresh(puts) && fresh(takes) && puts != takes
      ensures puts.items == multiset{} && takes.items == multiset{}
    {
      this.queue := queue;
      puts := new IDHeap();
      takes := new IDHeap();
    }
  }

  class Queue {
    /** The namespace (key prefix). */
    const ns: Bytes
    const db: Store
    /** The IDs waiting to be taken. */
    const ids: IDHeap
    const codec: Codec
    /** Whether commits sync the store to disk; no effect in this model. */
    var sync: bool
    /** The tokens buffered in the availability channel `c`. */
    var tokens: nat

    /** One token per waiting ID. */
    ghost predicate Valid()
      reads this, ids
    {
      tokens == |ids.items|
    }

    constructor (ns: Bytes, db: Store, codec: Codec)
      ensures Valid() && fresh(ids) && ids.items == multiset{}
      ensures this.ns == ns && this.db == db && this.codec == codec && !sync
    {
      this.ns := ns;
      this.db := db;
      this.codec := codec;
      ids := new IDHeap();
      sync := false;
      tokens := 0;
    }

    /** init: seeks to the namespace (`SeekToFirst` for the empty one is the
        same position) and pushes, with one token each, the ID of every key up
        to the first key outside the namespace, or returns the first decoding
        error with the IDs before it already pushed. */
    method Init() returns (err: Option<Error>)
      requires Valid()
      modifies this`tokens, ids
      ensures Valid()
      ensures var r := InitScan(codec, ns, SortedKeys(KeysUnder(db.m, ns)));
        ids.items == old(ids.items) + multiset(r.pushed) && err == r.err
    {
      var keys := db.Seek(ns);
      RecoveryScansNamespace(codec, db.m, ns);
      err := Recover(keys);
    }

    /** The loop of `init` over the keys an iterator yields from its position. */
    method Recover(keys: seq<Bytes>) returns (err: Option<Error>)
      requires tokens == |ids.items|
      modifies this`tokens, ids
      ensures tokens == |ids.items|
      ensures ids.items == old(ids.items) + multiset(InitScan(codec, ns, keys).pushed)
      ensures err == InitScan(codec, ns, keys).err
    {
      ghost var scan := InitScan(codec, ns, keys);
      ghost var pushed: seq<ID> := [];
      ghost var items0 := ids.items;
      var i := 0;
      assert keys[i..] == keys;
      while i < |keys|
        invariant 0 <= i <= |keys|
        invariant tokens == |ids.items| && ids.items == items0 + multiset(pushed)
        invariant scan == Recovery(pushed + InitScan(codec, ns, keys[i..]).pushed, InitScan(codec, ns, keys[i..]).err)
      {
        var k := SplitKey(ns, keys[i]);
        if k.None? {
          // the key is past the namespace
          InitScanPastNamespace(codec, ns, keys, i, pushed);
          break;
        }
        var id := codec.keyToID(k.value);
        if id.Err? {
          InitScanDecodeFails(codec, ns, keys, i, k.value, id.error, pushed);
          return Some(id.error);
        }
        InitScanPushes(codec, ns, keys, i, k.value, id.value, pushed);
        ids.PushID(id.value);
        tokens := tokens + 1;
        pushed := pushed + [id.value];
        i := i + 1;
      }
      if i == |keys| {
        InitScanEnd(codec, ns, keys, i, pushed);
      }
      err := None;
    }

    method SetSync(sync: bool)
      modifies this`sync
      ensures this.sync == sync
    {
      this.sync := sync;
    }

    /** Clear, with the iterator advanced on every iteration as its comment
        intends: one batch deletes every key of the namespace. The heap and the
        tokens are left alone (it must not run while transactions are open). */
    method ClearCorrected() returns (err: Option<Error>)
      modifies db
      ensures err == None
      ensures db.m == old(db.m) - KeysUnder(old(db.m), ns)
    {
      var keys := db.Seek(ns);
      SeekReachesPrefixFirst(db.m, ns);
      ghost var under := SortedKeys(KeysUnder(db.m, ns));
      forall j | 0 <= j < |under|
        ensures HasPrefix(ns, keys[j])
      {
        assert keys[j] == under[j] && under[j] in under;
      }
      var b, count := StageDeletes(ns, keys, |under|);
      assert keys[..count] == under;
      ghost var m := db.m;
      db.Write(b);
      ApplyDeletes(m, under);
      err := None;
    }

    /** A new transaction on this queue with no puts and no takes. */
    method Transaction() returns (t: Txn)
      ensures fresh(t) && fresh(t.puts) && fresh(t.takes) && t.puts != t.takes
      ensures t.queue == this && t.puts.items == multiset{} && t.takes.items == multiset{}
    {
      t := new Txn(this);
    }

    /** putKey: pushes every ID with one token each. */
    method PutKey(newIds: seq<ID>)
      requires Valid()
      modifies this`tokens, ids
      ensures Valid()
      ensures ids.items == old(ids.items) + multiset(newIds)
      ensures tokens == old(tokens) + |newIds|
    {
      for i := 0 to |newIds|
        invariant Valid()
        invariant ids.items == old(ids.items) + multiset(newIds[..i])
      {
        assert newIds[..i + 1] == newIds[..i] + [newIds[i]];
        ids.PushID(newIds[i]);
        tokens := tokens + 1;
      }
      assert newIds[..|newIds|] == newIds;
    }

    /** awaitKeys: takes tokens and pops one ID per token, until it has `n` keys
        (checked after each pop), the channel is empty, or the timer fires;
        `cutoff` is how many tokens the loop receives before the timer fires.
        `popped` are the IDs removed from the heap. */
    method AwaitKeys(n: int, cutoff: nat) returns (keys: seq<Bytes>, ghost popped: seq<ID>)
      requires Valid()
      modifies this`tokens, ids
      ensures Valid()
      ensures old(ids.items) == ids.items + multiset(popped)
      ensures keys == KeysOf(codec, popped)
      ensures |keys| <= old(tokens) && |keys| <= cutoff && (n >= 1 ==> |keys| <= n)
      ensures |keys| == old(tokens) || |keys| == cutoff || (n >= 1 && |keys| == n)
    {
      keys, popped := [], [];
      while tokens > 0 && |keys| < cutoff
        invariant Valid()
        invariant old(ids.items) == ids.items + multiset(popped)
        invariant keys == KeysOf(codec, popped)
        invariant |keys| + tokens == old(tokens) && |keys| <= cutoff
        invariant n >= 1 ==> |keys| < n
        decreases tokens
      {
        tokens := tokens - 1;
        var id := ids.PopID();
        keys := keys + [codec.idKey(id)];
        popped := popped + [id];
        if |keys| == n {
          return;
        }
      }
    }

    /** awaitKey: with a token available, pops exactly one ID and returns its
        key; otherwise, for `t == 0`, returns nil at once, and for any other `t`
        waits through `awaitKeys(1, t)`, which finds nothing to take in this
        model (no other caller puts meanwhile). */
    method AwaitKey(t: int, cutoff: nat) returns (key: Option<Bytes>, ghost popped: seq<ID>)
      requires Valid()
      modifies this`tokens, ids
      ensures Valid()
      ensures old(ids.items) == ids.items + multiset(popped)
      ensures old(tokens) > 0 ==> |popped| == 1 && key == Some(codec.idKey(popped[0]))
      ensures old(tokens) == 0 ==> popped == [] && key.None?
    {
      if tokens > 0 {
        tokens := tokens - 1;
        var id := ids.PopID();
        return Some(codec.idKey(id)), [id];
      }
      if t == 0 {
        return None, [];
      }
      var b, p := AwaitKeys(1, cutoff);
      return OnlyKey(b), p;
    }

    /** take: awaits up to `n` keys, then reads each key's value (a missing
        key reads as nil) and converts the key to its ID. A read of a key in
        `faulty` fails: then nothing is returned but the error, and the popped
        IDs stay out of the heap. */
    method Take(n: int, cutoff: nat, faulty: set<Bytes>)
      returns (taken: seq<ID>, keys: seq<Bytes>, values: seq<Bytes>, err: Option<Error>, ghost popped: seq<ID>)
      requires Valid()
      modifies this`tokens, ids
      ensures Valid()
      ensures old(ids.items) == ids.items + multiset(popped)
      ensures |popped| <= old(tokens) && |popped| <= cutoff && (n >= 1 ==> |popped| <= n)
      ensures |popped| == old(tokens) || |popped| == cutoff || (n >= 1 && |popped| == n)
      ensures ReadFails(ns, KeysOf(codec, popped), faulty) ==>
        taken == [] && keys == [] && values == [] && err == Some(ErrIO)
      ensures !ReadFails(ns, KeysOf(codec, popped), faulty) ==>
        keys == KeysOf(codec, popped) && |values| == |keys| &&
        (forall i :: 0 <= i < |keys| ==> values[i] == db.GetOrNil(JoinKey(ns, keys[i]))) &&
        taken == DecodedIDs(codec, keys) && err == LastDecodeError(codec, keys)
    {
      var ks;
      ks, popped := AwaitKeys(n, cutoff);
      taken, keys, values, err := ReadTaken(ks, faulty);
    }

    /** The loop of `take` over the awaited keys `ks`: the values and IDs of
        all of them, or only the read error. */
    method ReadTaken(ks: seq<Bytes>, faulty: set<Bytes>)
      returns (taken: seq<ID>, keys: seq<Bytes>, values: seq<Bytes>, err: Option<Error>)
      ensures ReadFails(ns, ks, faulty) ==>
        taken == [] && keys == [] && values == [] && err == Some(ErrIO)
      ensures !ReadFails(ns, ks, faulty) ==>
        keys == ks && |values| == |ks| &&
        (forall i :: 0 <= i < |ks| ==> values[i] == db.GetOrNil(JoinKey(ns, ks[i]))) &&
        taken == DecodedIDs(codec, ks) && err == LastDecodeError(codec, ks)
    {
      ghost var m := db.m;
      var count := |ks|;
      var idArr := new ID[count];
      var valArr := new Bytes[count];
      err := None;
      var i := 0;
      while i < count
        invariant 0 <= i <= count
        invariant forall j :: 0 <= j < i ==> ns + ks[j] !in faulty
        invariant forall j :: 0 <= j < i ==> idArr[j] == ConvertedID(codec, ks[j])
        invariant forall j :: 0 <= j < i ==> valArr[j] == ValueOrNil(m, ns + ks[j])
        invariant err == (if i == 0 then None else DecodeError(codec, ks[i - 1]))
      {
        var dbk := JoinKey(ns, ks[i]);
        if dbk in faulty {
          return [], [], [], Some(ErrIO);
        }
        valArr[i] := db.GetOrNil(dbk);
        match codec.keyToID(ks[i]) {
          case Ok(id) =>
            idArr[i] := id;
            err := None;
          case Err(e) =>
            idArr[i] := codec.idOnError(ks[i]);
            err := Some(e);
        }
        i := i + 1;
      }
      assert idArr[..] == DecodedIDs(codec, ks);
      taken, keys, values := idArr[..], ks, valArr[..];
    }
  }
}

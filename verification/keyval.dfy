/** The key-value store of keyval.go. The reader/writer lock is dropped: every
    operation here is one atomic step of a sequential model. Keys are compared
    by content, which is what indexing the Go map by `string(key)` achieves. */
module KeyVal {

  import opened Bytes
  import opened Options

  datatype KV = KV(data: map<Bytes, Bytes>)

  /** `KV.Get`: the stored value, or `None` for the Go result `ok == false`. */
  function Get(kv: KV, key: Bytes): (r: Option<Bytes>)
    ensures r.None? <==> key !in kv.data
    ensures r.Some? ==> r.value == kv.data[key]
  {
    if key in kv.data then Some(kv.data[key]) else None
  }

  /** `NewKV`: a store in which no key is bound. */
  function NewKV(): (kv: KV)
    ensures forall k :: Get(kv, k) == None
  {
    KV(map[])
  }

  /** `KV.Set`: binds `key` to `val` and leaves every other binding alone. The
      Go method also returns an error, which is always nil; it is dropped here. */
  function Set(kv: KV, key: Bytes, val: Bytes): (r: KV)
    ensures Get(r, key) == Some(val)
    ensures forall k :: k != key ==> Get(r, k) == Get(kv, k)
  {
    KV(kv.data[key := val])
  }

  /** The outcome of `Del`: the new store and whether the key had been bound. */
  datatype Removal = Removal(kv: KV, removed: bool)

  /** `KV.Del`, which server.go calls but keyval.go does not define. Assumed
      here: remove the key if present and report whether it was present. */
  function Del(kv: KV, key: Bytes): (r: Removal)
    ensures r.removed <==> Get(kv, key).Some?
    ensures Get(r.kv, key) == None
    ensures forall k :: k != key ==> Get(r.kv, k) == Get(kv, k)
    ensures !r.removed ==> r.kv == kv
  {
    if key in kv.data then Removal(KV(kv.data - {key}), true) else Removal(kv, false)
  }

  /** Two stores that answer every lookup alike are the same store. */
  lemma {:induction false} SameLookups(a: KV, b: KV)
    requires forall k :: Get(a, k) == Get(b, k)
    ensures a == b
  {
    assert forall k :: k in a.data <==> k in b.data by {
      forall k ensures k in a.data <==> k in b.data {
        assert Get(a, k).Some? <==> Get(b, k).Some?;
      }
    }
    assert forall k :: k in a.data ==> a.data[k] == b.data[k] by {
      forall k | k in a.data ensures a.data[k] == b.data[k] {
        assert Get(a, k) == Get(b, k);
      }
    }
  }

  /** The last of two writes to one key is the one that remains. */
  lemma LastWriterWins(kv: KV, key: Bytes, v1: Bytes, v2: Bytes)
    ensures Set(Set(kv, key, v1), key, v2) == Set(kv, key, v2)
    ensures Get(Set(Set(kv, key, v1), key, v2), key) == Some(v2)
  {
  }

  /** Writing the same binding twice is the same as writing it once. */
  lemma SetIdempotent(kv: KV, key: Bytes, val: Bytes)
    ensures Set(Set(kv, key, val), key, val) == Set(kv, key, val)
  {
  }

  /** Deleting a key just written reports it removed and leaves it unbound;
      deleting it again reports it absent and changes nothing. */
  lemma DelAfterSet(kv: KV, key: Bytes, val: Bytes)
    ensures Del(Set(kv, key, val), key).removed
    ensures Get(Del(Set(kv, key, val), key).kv, key) == None
    ensures !Del(Del(Set(kv, key, val), key).kv, key).removed
  {
  }

  /** The store reached from an empty one by a sequence of writes. */
  function ApplySets(writes: seq<(Bytes, Bytes)>): KV
  {
    if writes == [] then NewKV()
    else Set(ApplySets(writes[..|writes| - 1]), writes[|writes| - 1].0, writes[|writes| - 1].1)
  }

  /** The value of the last write to `key` in `writes`, if any: an independent
      reference for what a lookup must return. */
  function LastWrite(writes: seq<(Bytes, Bytes)>, key: Bytes): Option<Bytes>
  {
    if writes == [] then None
    else if writes[|writes| - 1].0 == key then Some(writes[|writes| - 1].1)
    else LastWrite(writes[..|writes| - 1], key)
  }

  /** `Set`'s contract leaves no choice: a store that reads back the new
      binding and answers every other key as before is `Set`'s result. */
  lemma SetDetermined(kv: KV, key: Bytes, val: Bytes, r: KV)
    requires Get(r, key) == Some(val)
    requires forall k :: k != key ==> Get(r, k) == Get(kv, k)
    ensures r == Set(kv, key, val)
  {
    SameLookups(r, Set(kv, key, val));
  }

  /** Likewise for `Del`: a store with the key unbound and every other key
      as before is the store `Del` leaves. */
  lemma DelDetermined(kv: KV, key: Bytes, r: KV)
    requires Get(r, key) == None
    requires forall k :: k != key ==> Get(r, k) == Get(kv, k)
    ensures r == Del(kv, key).kv
  {
    SameLookups(r, Del(kv, key).kv);
  }

  /** After any sequence of writes from an empty store, `Get` returns the last
      value written to the key, and reports a never-written key absent. */
  lemma {:induction false} GetAfterWrites(writes: seq<(Bytes, Bytes)>, key: Bytes)
    ensures Get(ApplySets(writes), key) == LastWrite(writes, key)
    ensures (forall i :: 0 <= i < |writes| ==> writes[i].0 != key) ==> Get(ApplySets(writes), key) == None
  {
    if writes != [] {
      var init := writes[..|writes| - 1];
      GetAfterWrites(init, key);
      assert forall i :: 0 <= i < |init| ==> init[i] == writes[i];
    }
  }
}

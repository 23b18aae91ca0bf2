/** hashmap.c: the slot array is probed, written and rehashed in place. Keys are compared
    by content; the hash function is any function, and `limit` is the largest table for
    which the allocation of a new slot array succeeds. */
module HashMap {
  import opened Basics
  import opened HashTable

  const INITIAL_SIZE: nat := 256

  datatype Status = Ok | OutOfMemory

  class HashMap<K(==), V> {
    const hash: K -> nat
    const limit: nat
    var data: array<Slot<K, V>>
    var size: int
    ghost var m: map<K, V>

    ghost predicate Sized()
      reads this
    {
      MAX_CHAIN <= data.Length <= limit
    }

    ghost predicate Valid()
      reads this, data
    {
      Sized() && Represents(hash, data[..], m)
    }

    /** hashmap_new */
    constructor (hash: K -> nat, limit: nat)
      requires INITIAL_SIZE <= limit
      ensures Valid() && m == map[] && Dense(hash, data[..]) && size == 0 && fresh(data)
      ensures data.Length == INITIAL_SIZE && forall j :: 0 <= j < INITIAL_SIZE ==> data[j].Empty?
      ensures this.hash == hash && this.limit == limit
    {
      this.hash, this.limit := hash, limit;
      data := new Slot<K, V>[INITIAL_SIZE](_ => Empty);
      size := 0;
      m := map[];
    }

    /** The table counts as full for `key`: half its slots are counted as used, or the whole probe
        is taken by other keys. */
    ghost predicate Full(key: K)
      requires Sized()
      reads this, data
    {
      size >= data.Length / 2 || ProbeTaken(hash, data[..], key)
    }

    /** hashmap_hash: the place for a key, or none if the table is full for it */
    method Place(key: K) returns (r: Option<nat>, ghost i: nat)
      requires Sized()
      ensures r == None <==> Full(key)
      ensures r.Some? ==> Found(hash, data[..], key, i) && r.value == At(hash(key), i, data.Length)
    {
      if size >= data.Length / 2 {
        return None, 0;
      }
      r, i := FindPlace(key);
    }

    /** The probe of hashmap_hash */
    method FindPlace(key: K) returns (r: Option<nat>, ghost i: nat)
      requires Sized()
      ensures r == None <==> ProbeTaken(hash, data[..], key)
      ensures r.Some? ==> Found(hash, data[..], key, i) && r.value == At(hash(key), i, data.Length)
    {
      var curr := hash(key) % data.Length;
      var x := 0;
      while x < MAX_CHAIN
        invariant 0 <= x <= MAX_CHAIN && curr == At(hash(key), x, data.Length)
        invariant forall y :: 0 <= y < x ==> Taken(hash, data[..], key, y)
      {
        assert data[..][curr] == data[curr];
        if data[curr].Empty? || data[curr].key == key {
          assert !Taken(hash, data[..], key, x);
          return Some(curr), x;
        }
        NextAt(hash(key), x, data.Length);
        curr := (curr + 1) % data.Length;
        x := x + 1;
      }
      return None, 0;
    }

    /** hashmap_put. A table that counts as full for the key is rehashed first. */
    method Put(key: K, value: V) returns (r: Status)
      requires Sized()
      modifies this`data, this`size, this`m, data
      ensures Sized() && (data == old(data) || fresh(data)) && data.Length >= old(data.Length)
      ensures !old(Full(key)) ==>
                && r == Ok && data == old(data) && size == old(size) + 1
                && Stored(hash, old(data[..]), data[..], key, value)
      ensures r == Ok && old(Valid()) && (old(Full(key)) || old(Settled(hash, data[..], key))) ==>
                Valid() && m == old(m)[key := value]
      ensures r == Ok && old(Valid()) ==> size == (if old(Full(key)) then |old(m)| else old(size)) + 1
      ensures r == Ok && old(Valid()) && (old(Full(key)) || old(size) == |old(m)|) ==>
                (size == |old(m)[key := value]| <==> key !in old(m))
      ensures r == Ok && old(Dense(hash, data[..])) ==> Dense(hash, data[..])
      ensures r == Ok ==> size <= data.Length / 2
      ensures r == OutOfMemory ==> 2 * data.Length > limit
      ensures r == OutOfMemory && old(Valid()) ==> Valid() && Submap(m, old(m))
      ensures r == OutOfMemory && 2 * old(data.Length) > limit ==>
                data == old(data) && data[..] == old(data[..]) && m == old(m) && size == old(size)
      ensures 2 * old(data.Length) > limit ==> (r == OutOfMemory <==> old(Full(key)))
      ensures old(Full(key)) ==> Loses(old(data[..]), r)
      decreases limit - data.Length, 2
    {
      var index;
      ghost var i;
      r, index, i := MakeRoom(key);
      if r == Ok {
        if fresh(data) { DenseSettled(hash, data[..], key); }
        Insert(key, value, index, i);
      }
    }

    /** The loop of hashmap_put that rehashes until there is a place for the key */
    method MakeRoom(key: K) returns (r: Status, index: nat, ghost i: nat)
      requires Sized()
      modifies this`data, this`size, this`m
      ensures Sized() && data.Length >= old(data.Length)
      ensures r == Ok ==> Found(hash, data[..], key, i) && index == At(hash(key), i, data.Length)
      ensures r == Ok ==> size < data.Length / 2
      ensures !old(Full(key)) ==> r == Ok && data == old(data) && m == old(m) && size == old(size)
      ensures r == Ok && old(Full(key)) ==> fresh(data) && Rehashed(old(Valid()), old(m))
      ensures r == OutOfMemory ==> 2 * data.Length > limit && (data == old(data) || fresh(data))
      ensures r == OutOfMemory && old(Valid()) ==> Valid() && Submap(m, old(m))
      ensures r == OutOfMemory && 2 * old(data.Length) > limit ==> data == old(data) && m == old(m) && size == old(size)
      ensures 2 * old(data.Length) > limit ==> (r == OutOfMemory <==> old(Full(key)))
      ensures old(Full(key)) ==> Loses(old(data[..]), r)
      decreases limit - data.Length, 1
    {
      var place;
      place, i := Place(key);
      while place == None
        invariant Sized() && data.Length >= old(data.Length)
        invariant place == None ==> old(Full(key))
        invariant if data == old(data) then (m == old(m) && size == old(size) && (old(Full(key)) ==> place == None))
                  else fresh(data) && Rehashed(old(Valid()), old(m)) && 2 * old(data.Length) <= limit && old(Full(key))
        invariant place.Some? ==> Found(hash, data[..], key, i) && place.value == At(hash(key), i, data.Length)
        invariant data != old(data) ==> !CanLose(old(data[..]))
        invariant place.Some? ==> size < data.Length / 2
        decreases limit - data.Length
      {
        var status := Rehash();
        if status == OutOfMemory {
          return OutOfMemory, 0, 0;
        }
        place, i := Place(key);
      }
      return Ok, place.value, i;
    }

    /** The array `t` can be doubled once, and then one of its entries finds no place. */
    ghost predicate CanLose(t: seq<Slot<K, V>>) {
      && |t| > 0 && 2 * |t| <= limit < 4 * |t|
      && exists i: nat :: FirstHomeless(hash, Blank(2 * |t|), t, i)
    }

    /** In that case memory runs out, and what is left are the entries before it. */
    ghost predicate Loses(t: seq<Slot<K, V>>, r: Status)
      reads this
    {
      |t| > 0 && 2 * |t| <= limit < 4 * |t| ==> LosesFrom(Blank(2 * |t|), t, r)
    }

    ghost predicate LosesFrom(t0: seq<Slot<K, V>>, t: seq<Slot<K, V>>, r: Status)
      requires |t0| > 0
      reads this
    {
      forall i: nat {:trigger FirstHomeless(hash, t0, t, i)} ::
        FirstHomeless(hash, t0, t, i) ==> r == OutOfMemory && m == Collected(t, i)
    }

    /** The table is one that a rehash left: it represents a map, has no holes, and if it was right
        before, the map is `n` and the count its size. */
    ghost predicate Rehashed(valid: bool, n: map<K, V>)
      reads this, data
    {
      Valid() && Dense(hash, data[..]) && (valid ==> m == n && size == |n|)
    }

    /** The write of hashmap_put at the place found */
    method Insert(key: K, value: V, index: nat, ghost i: nat)
      requires Sized() && Found(hash, data[..], key, i) && index == At(hash(key), i, data.Length)
      modifies this`size, this`m, data
      ensures size == old(size) + 1 && m == old(m)[key := value] && data[..] == old(data[..])[index := Used(key, value)]
      ensures old(Valid()) && old(Settled(hash, data[..], key)) ==> Valid()
      ensures old(Dense(hash, data[..])) ==> Dense(hash, data[..])
      ensures old(Valid()) && old(Dense(hash, data[..])) ==> Valid()
    {
      ghost var t := data[..];
      if Valid() { PutAtFound(hash, t, m, key, value, i); }
      if Dense(hash, t) {
        DensePut(hash, t, key, value, i);
        DenseSettled(hash, t, key);
      }
      data[index] := Used(key, value);
      size := size + 1;
      m := m[key := value];
    }

    /** hashmap_rehash. Whatever the table was, the new one represents a map; the map is kept if it
        represented one. When memory runs out during the reinsertion, entries are lost. */
    method Rehash() returns (r: Status)
      requires Sized()
      modifies this`data, this`size, this`m
      ensures Sized() && data.Length >= old(data.Length)
      ensures r == Ok ==> fresh(data) && data.Length >= 2 * old(data.Length) && Rehashed(old(Valid()), old(m))
      ensures r == OutOfMemory ==> 2 * data.Length > limit
      ensures r == OutOfMemory ==>
                if 2 * old(data.Length) > limit then data == old(data) && m == old(m) && size == old(size)
                else fresh(data)
      ensures r == OutOfMemory && old(Valid()) ==>
                Valid() && Submap(m, old(m)) && (m == old(m) <==> 2 * old(data.Length) > limit)
      ensures 2 * old(data.Length) > limit ==> r == OutOfMemory
      ensures Loses(old(data[..]), r)
      decreases limit - data.Length, 0
    {
      if 2 * data.Length > limit {
        return OutOfMemory;
      }
      var curr := data;
      ghost var valid, n := Valid(), m;
      data := new Slot<K, V>[2 * curr.Length](_ => Empty);
      size := 0;
      m := map[];
      if valid { CollectedAll(hash, curr[..], n); }
      assert data[..] == Blank(2 * curr.Length);
      r := Reinsert(curr);
    }

    /** The loop of hashmap_rehash over the old slots */
    method Reinsert(curr: array<Slot<K, V>>) returns (r: Status)
      requires Valid() && m == map[] && size == 0 && Dense(hash, data[..]) && curr != data
      modifies this`data, this`size, this`m, data
      ensures Sized() && data.Length >= old(data.Length) && (data == old(data) || fresh(data)) && Valid()
      ensures curr[..] == old(curr[..])
      ensures r == Ok ==>
                Dense(hash, data[..]) && m == Collected(curr[..], curr.Length) && (NoDupKeys(curr[..]) ==> size == |m|)
      ensures r == OutOfMemory ==> 2 * data.Length > limit
      ensures r == OutOfMemory && NoDupKeys(curr[..]) ==> PartOf(curr[..])
      ensures Once(old(data[..]), curr[..]) ==> LosesFrom(old(data[..]), curr[..], r)
      decreases limit - data.Length, 4
    {
      ghost var t, t0 := curr[..], data[..];
      var i := 0;
      while i < curr.Length
        invariant 0 <= i <= curr.Length && curr[..] == t && curr != data
        invariant data.Length >= old(data.Length) && (data == old(data) || fresh(data))
        invariant Filling(t0, t, i)
      {
        r := PutBack(curr[i], t0, t, i);
        if r != Ok {
          return;
        }
        i := i + 1;
      }
      if Once(t0, t) { NoneHomeless(t0, t); }
      r := Ok;
    }

    /** The table after the first `i` slots of `t`; `t0` is the one it started as. */
    ghost predicate Filling(t0: seq<Slot<K, V>>, t: seq<Slot<K, V>>, i: nat)
      reads this, data
    {
      && i <= |t| && Valid() && Dense(hash, data[..]) && m == Collected(t, i) && (NoDupKeys(t) ==> size == |m|)
      && (Once(t0, t) ==> data.Length == |t0| && SoFar(hash, t0, t, i, data[..]) && size <= i)
    }

    lemma NoneHomeless(t0: seq<Slot<K, V>>, t: seq<Slot<K, V>>)
      requires Filling(t0, t, |t|) && Once(t0, t)
      ensures LosesFrom(t0, t, Ok)
    {
      forall k: nat ensures !FirstHomeless(hash, t0, t, k) { AllHomed(hash, t0, t, data[..], k); }
    }

    /** Table `t0` cannot be doubled and has room for twice the entries of `t`. */
    ghost predicate Once(t0: seq<Slot<K, V>>, t: seq<Slot<K, V>>) { |t| <= |t0| / 2 && limit < 2 * |t0| }

    /** Some of the entries of `t` are there, not all. */
    ghost predicate PartOf(t: seq<Slot<K, V>>)
      reads this
    {
      Submap(m, Collected(t, |t|)) && m != Collected(t, |t|)
    }

    /** One turn of that loop */
    method PutBack(s: Slot<K, V>, ghost t0: seq<Slot<K, V>>, ghost t: seq<Slot<K, V>>, ghost i: nat) returns (r: Status)
      requires i < |t| && s == t[i] && Filling(t0, t, i)
      modifies this`data, this`size, this`m, data
      ensures Valid() && data.Length >= old(data.Length) && (data == old(data) || fresh(data))
      ensures r == Ok ==> Filling(t0, t, i + 1)
      ensures r == OutOfMemory ==> 2 * data.Length > limit && (NoDupKeys(t) ==> PartOf(t))
      ensures r == OutOfMemory && Once(t0, t) ==> LosesFrom(t0, t, r)
      decreases limit - data.Length, 3
    {
      ghost var u := data[..];
      if s.Empty? {
        if Once(t0, t) { SoFarSkipped(hash, t0, t, i, u); }
        return Ok;
      }
      DenseSettled(hash, u, s.key);
      if NoDupKeys(t) { CollectedSub(t, i); }
      ghost var full := Full(s.key);
      r := Put(s.key, s.val);
      if Once(t0, t) {
        if full {
          forall k: nat | FirstHomeless(hash, t0, t, k) ensures k == i { OneFirst(hash, t0, t, i, u, k); }
        } else {
          ghost var x: nat :| Found(hash, u, s.key, x) && data[..] == u[At(hash(s.key), x, |u|) := Used(s.key, s.val)];
          SoFarStored(hash, t0, t, i, u, x);
        }
      }
    }

    /** The probe shared by hashmap_get and hashmap_remove; it does not stop at an empty slot. */
    method Find(key: K) returns (r: Option<nat>)
      requires Sized()
      ensures r == Lookup(hash, data[..], key)
      ensures Valid() ==> (r.Some? <==> key in m)
      ensures Valid() && r.Some? ==> data[r.value] == Used(key, m[key])
    {
      var curr := hash(key) % data.Length;
      var x := 0;
      while x < MAX_CHAIN
        invariant 0 <= x <= MAX_CHAIN && curr == At(hash(key), x, data.Length)
        invariant Probe(hash, data[..], key, x) == Probe(hash, data[..], key, 0)
      {
        assert data[..][curr] == data[curr];
        if data[curr].Used? && data[curr].key == key {
          if Valid() { ProbeFinds(hash, data[..], m, key); }
          return Some(curr);
        }
        NextAt(hash(key), x, data.Length);
        curr := (curr + 1) % data.Length;
        x := x + 1;
      }
      if Valid() { ProbeFinds(hash, data[..], m, key); }
      return None;
    }

    /** hashmap_get */
    method Get(key: K) returns (r: Option<V>)
      requires Sized()
      ensures var j := Lookup(hash, data[..], key); r == if j.Some? then Some(data[j.value].val) else None
      ensures Valid() ==> r == if key in m then Some(m[key]) else None
    {
      var j := Find(key);
      return if j.Some? then Some(data[j.value].val) else None;
    }

    /** hashmap_remove; the stored key is returned for the caller to release */
    method Remove(key: K) returns (r: Option<K>)
      requires Sized()
      modifies this`size, this`m, data
      ensures var j := old(Lookup(hash, data[..], key));
              && r == (if j.Some? then Some(key) else None) && size == old(size) - (if j.Some? then 1 else 0)
              && data[..] == if j.Some? then old(data[..])[j.value := Empty] else old(data[..])
      ensures m == old(m) - {key}
      ensures old(Valid()) ==> Valid() && r == if key in old(m) then Some(key) else None
    {
      var j := Find(key);
      if j == None {
        m := m - {key};
        return None;
      }
      if Valid() { RemoveSlot(hash, data[..], m, j.value); }
      r := Some(data[j.value].key);
      data[j.value] := Empty;
      size := size - 1;
      m := m - {key};
    }
  }

  /** The slot that a probe for `k` ends at, if any. */
  function Lookup<K(==), V>(hash: K -> nat, t: seq<Slot<K, V>>, k: K): (r: Option<nat>)
    requires |t| > 0
    ensures r.Some? ==> r.value < |t| && t[r.value].Used? && t[r.value].key == k
  {
    var i := Probe(hash, t, k, 0);
    if i < MAX_CHAIN then Some(At(hash(k), i, |t|)) else None
  }

  /** From `t` to `t'` the first slot of the probe that is empty or holds `k` got `k` and `v`. */
  ghost predicate Stored<K, V>(hash: K -> nat, t: seq<Slot<K, V>>, t': seq<Slot<K, V>>, k: K, v: V) {
    exists i: nat :: Found(hash, t, k, i) && t' == t[At(hash(k), i, |t|) := Used(k, v)]
  }

  lemma NextAt(h: nat, i: nat, n: nat)
    requires i < n
    ensures (At(h, i, n) + 1) % n == At(h, i + 1, n)
  {
    var x := h % n + i;
    if x < n {
      ModBelow(x, n);
    } else {
      ModOnce(x, n);
      if x + 1 < 2 * n { ModOnce(x + 1, n); ModBelow(x + 1 - n, n); }
    }
  }

  // ------------------------------------------------------------------ runs

  datatype Op<K, V> = DoPut(key: K, val: V) | DoGet(key: K) | DoRemove(key: K)

  /** What a finite map does on a call: its contents after it, and what a get answers. */
  function NextMap<K, V>(m: map<K, V>, op: Op<K, V>): map<K, V> {
    match op
    case DoPut(k, v) => m[k := v]
    case DoGet(_) => m
    case DoRemove(k) => m - {k}
  }

  function AnswerOf<K, V>(m: map<K, V>, op: Op<K, V>): seq<Option<V>> {
    if op.DoGet? then [if op.key in m then Some(m[op.key]) else None] else []
  }

  /** The same over a run of calls. */
  function After<K, V>(m: map<K, V>, ops: seq<Op<K, V>>): map<K, V> {
    if ops == [] then m else NextMap(After(m, ops[..|ops| - 1]), ops[|ops| - 1])
  }

  function Answers<K, V>(m: map<K, V>, ops: seq<Op<K, V>>): seq<Option<V>> {
    if ops == [] then [] else Answers(m, ops[..|ops| - 1]) + AnswerOf(After(m, ops[..|ops| - 1]), ops[|ops| - 1])
  }

  ghost predicate NoRemoves<K, V>(ops: seq<Op<K, V>>) {
    forall i :: 0 <= i < |ops| ==> !ops[i].DoRemove?
  }

  /** Every put is of a key that is absent at the time. */
  ghost predicate FreshPuts<K, V>(m: map<K, V>, ops: seq<Op<K, V>>) {
    forall i :: 0 <= i < |ops| && ops[i].DoPut? ==> ops[i].key !in After(m, ops[..i])
  }

  /** One call that finds its key settled does what a finite map does. */
  method Call<K(==), V>(h: HashMap<K, V>, op: Op<K, V>) returns (ok: bool, answer: seq<Option<V>>)
    requires h.Valid() && (op.DoPut? ==> Settled(h.hash, h.data[..], op.key))
    modifies h, h.data
    ensures h.Sized() && (h.data == old(h.data) || fresh(h.data)) && (!ok ==> 2 * h.data.Length > h.limit)
    ensures ok ==> h.Valid() && h.m == NextMap(old(h.m), op) && answer == AnswerOf(old(h.m), op)
    ensures ok && old(Dense(h.hash, h.data[..])) && !op.DoRemove? ==> Dense(h.hash, h.data[..])
    ensures ok && old(h.size) == |old(h.m)| && (op.DoPut? ==> op.key !in old(h.m)) ==> h.size == |h.m|
  {
    ok, answer := true, [];
    match op
    case DoPut(k, v) =>
      var s := h.Put(k, v);
      ok := s == Ok;
    case DoGet(k) =>
      var r := h.Get(k);
      answer := [r];
    case DoRemove(k) =>
      var r := h.Remove(k);
  }

  /** Any run from a new table whose puts succeed answers like a finite map, if it removes
      nothing or puts only absent keys. In the latter case the count is the number of keys. */
  method Replay<K(==), V>(hash: K -> nat, limit: nat, ops: seq<Op<K, V>>)
    returns (ok: bool, answers: seq<Option<V>>, h: HashMap<K, V>)
    requires INITIAL_SIZE <= limit && (NoRemoves(ops) || FreshPuts(map[], ops))
    ensures ok ==> answers == Answers(map[], ops)
    ensures fresh(h) && (ok ==> h.Valid() && h.m == After(map[], ops)) && (!ok ==> 2 * h.data.Length > limit)
    ensures ok && FreshPuts(map[], ops) ==> h.size == |After(map[], ops)|
  {
    h := new HashMap(hash, limit);
    answers := [];
    var i := 0;
    while i < |ops|
      invariant 0 <= i <= |ops| && fresh(h) && fresh(h.data) && h.hash == hash && h.limit == limit && h.Valid()
      invariant h.m == After(map[], ops[..i]) && answers == Answers(map[], ops[..i])
      invariant NoRemoves(ops) ==> Dense(hash, h.data[..])
      invariant FreshPuts(map[], ops) ==> h.size == |h.m|
    {
      assert ops[..i + 1][..i] == ops[..i];
      if ops[i].DoPut? {
        if NoRemoves(ops) {
          DenseSettled(hash, h.data[..], ops[i].key);
        } else {
          AbsentSettled(hash, h.data[..], h.m, ops[i].key);
        }
      }
      var answer;
      ok, answer := Call(h, ops[i]);
      if !ok {
        return;
      }
      answers := answers + answer;
      i := i + 1;
    }
    assert ops[..i] == ops;
    ok := true;
  }

  /** Overwriting a key counts it again, whatever the hash function. */
  method CountsTwice<K(==), V>(hash: K -> nat, limit: nat, k: K, v: V, w: V) returns (h: HashMap<K, V>)
    requires INITIAL_SIZE <= limit
    ensures fresh(h) && h.Valid() && h.m == map[k := w] && |h.m| == 1 && h.size == 2
  {
    h := new HashMap(hash, limit);
    assert h.data[..][At(hash(k), 0, INITIAL_SIZE)].Empty?;
    AbsentSettled(hash, h.data[..], h.m, k);
    PutAt(h, k, v, 0);
    DenseSettled(hash, h.data[..], k);
    PutAt(h, k, w, 0);
    assert h.m == map[k := w];
  }

  lemma FoundOnce<K, V>(hash: K -> nat, t: seq<Slot<K, V>>, k: K, i: nat, x: nat)
    requires Found(hash, t, k, i) && Found(hash, t, k, x)
    ensures i >= x
  {
  }

  /** A put into a table that is not half full, with the place known. */
  method PutAt<K(==), V>(h: HashMap<K, V>, k: K, v: V, ghost x: nat)
    requires h.Sized() && h.size < h.data.Length / 2 && Found(h.hash, h.data[..], k, x)
    modifies h, h.data
    ensures h.Sized() && h.data == old(h.data) && h.size == old(h.size) + 1
    ensures h.data[..] == old(h.data[..])[At(h.hash(k), x, |old(h.data[..])|) := Used(k, v)]
    ensures old(h.Valid()) && old(Settled(h.hash, h.data[..], k)) ==> h.Valid() && h.m == old(h.m)[k := v]
    ensures old(Dense(h.hash, h.data[..])) ==> Dense(h.hash, h.data[..])
  {
    ghost var t := h.data[..];
    assert !Taken(h.hash, t, k, x);
    var s := h.Put(k, v);
    ghost var i: nat :| Found(h.hash, t, k, i) && h.data[..] == t[At(h.hash(k), i, |t|) := Used(k, v)];
    FoundOnce(h.hash, t, k, i, x);
    FoundOnce(h.hash, t, k, x, i);
  }

  /** The second slot of a probe is not the first. */
  lemma NextSlot(h: nat, n: nat)
    requires n > 1
    ensures At(h, 0, n) != At(h, 1, n)
  {
    OffsetAt(h, 0, n);
    OffsetAt(h, 1, n);
  }

  lemma HitFirst<K, V>(hash: K -> nat, t: seq<Slot<K, V>>, k: K)
    requires |t| >= MAX_CHAIN && Hit(hash, t, k, 0)
    ensures Lookup(hash, t, k) == Some(At(hash(k), 0, |t|))
  {
  }

  lemma HitSecond<K, V>(hash: K -> nat, t: seq<Slot<K, V>>, k: K)
    requires |t| >= MAX_CHAIN && !Hit(hash, t, k, 0) && Hit(hash, t, k, 1)
    ensures Lookup(hash, t, k) == Some(At(hash(k), 1, |t|))
  {
    assert Probe(hash, t, k, 1) == 1;
  }

  /** A put after a removal can store a second copy of a key, and once the first is removed the old
      value comes back: for any two colliding keys the last get answers `v`, a finite map none. */
  method StaleCopy<K(==), V>(hash: K -> nat, limit: nat, a: K, b: K, u: V, v: V, w: V) returns (r: Option<V>)
    requires INITIAL_SIZE <= limit && a != b && hash(a) % INITIAL_SIZE == hash(b) % INITIAL_SIZE
    ensures r == Some(v) && Answers(map[], StaleRun(a, b, u, v, w)) == [None]
  {
    var h := new HashMap(hash, limit);
    assert forall j :: 0 <= j < INITIAL_SIZE ==> h.data[..][j].Empty?;
    TwoInARow(h, a, b, u, v);
    r := LoseAndFind(h, a, b, v, w);
    StaleAnswers(a, b, u, v, w);
  }

  /** The first two puts. */
  method TwoInARow<K(==), V>(h: HashMap<K, V>, a: K, b: K, u: V, v: V)
    requires h.Sized() && h.data.Length == INITIAL_SIZE && h.size == 0 && a != b
    requires h.hash(a) % INITIAL_SIZE == h.hash(b) % INITIAL_SIZE
    requires forall j :: 0 <= j < INITIAL_SIZE ==> h.data[..][j].Empty?
    modifies h, h.data
    ensures h.Sized() && h.data == old(h.data) && h.size == 2
    ensures h.data[At(h.hash(b), 0, INITIAL_SIZE)] == Used(a, u) && h.data[At(h.hash(b), 1, INITIAL_SIZE)] == Used(b, v)
  {
    NextSlot(h.hash(b), INITIAL_SIZE);
    PutAt(h, a, u, 0);
    assert Found(h.hash, h.data[..], b, 1);
    PutAt(h, b, v, 1);
  }

  /** The removal, the second put of `b`, its removal and the get. */
  method LoseAndFind<K(==), V>(h: HashMap<K, V>, a: K, b: K, ghost v: V, w: V) returns (r: Option<V>)
    requires h.Sized() && h.data.Length == INITIAL_SIZE && h.size == 2 && a != b
    requires h.hash(a) % INITIAL_SIZE == h.hash(b) % INITIAL_SIZE
    requires h.data[At(h.hash(b), 0, INITIAL_SIZE)].Used? && h.data[At(h.hash(b), 0, INITIAL_SIZE)].key == a
    requires h.data[At(h.hash(b), 1, INITIAL_SIZE)] == Used(b, v)
    modifies h, h.data
    ensures r == Some(v)
  {
    NextSlot(h.hash(b), INITIAL_SIZE);
    HitFirst(h.hash, h.data[..], a);
    var k := h.Remove(a);
    assert Found(h.hash, h.data[..], b, 0);
    PutAt(h, b, w, 0);
    HitFirst(h.hash, h.data[..], b);
    k := h.Remove(b);
    HitSecond(h.hash, h.data[..], b);
    r := h.Get(b);
  }

  function StaleRun<K, V>(a: K, b: K, u: V, v: V, w: V): seq<Op<K, V>> {
    [DoPut(a, u), DoPut(b, v), DoRemove(a), DoPut(b, w), DoRemove(b), DoGet(b)]
  }

  lemma AnswersNext<K, V>(m: map<K, V>, ops: seq<Op<K, V>>, n: nat)
    requires n < |ops|
    ensures After(m, ops[..n + 1]) == NextMap(After(m, ops[..n]), ops[n])
    ensures Answers(m, ops[..n + 1]) == Answers(m, ops[..n]) + AnswerOf(After(m, ops[..n]), ops[n])
  {
    assert ops[..n + 1][..n] == ops[..n];
  }

  lemma StaleAnswers<K, V>(a: K, b: K, u: V, v: V, w: V)
    ensures Answers(map[], StaleRun(a, b, u, v, w)) == [None]
  {
    var ops, m: map<K, V> := StaleRun(a, b, u, v, w), map[];
    for n := 0 to 5
      invariant Answers(m, ops[..n]) == []
    {
      AnswersNext(m, ops, n);
    }
    AnswersNext(m, ops, 4);
    AnswersNext(m, ops, 5);
    assert ops[..6] == ops;
  }

  // ------------------------------------------------------- a lost entry

  /** Ten keys: key 8 hashes to 256, the others to 255. */
  ghost predicate Crowd<K>(hash: K -> nat, ks: seq<K>) {
    && |ks| == 10 && (forall i, j :: 0 <= i < j < 10 ==> ks[i] != ks[j])
    && forall i :: 0 <= i < 10 ==> hash(ks[i]) == if i == 8 then 256 else 255
  }

  /** The slot of key `i` in a table of 256 */
  function Seat(i: nat): nat { if i == 0 then 255 else i - 1 }

  /** The first `n` keys sit in their slots, and nothing else does. */
  ghost predicate Seated<K, V>(t: seq<Slot<K, V>>, ks: seq<K>, v: V, n: nat)
    requires n <= |ks|
  {
    && |t| == 256 && (forall i :: 0 <= i < n && Seat(i) < 256 ==> t[Seat(i)] == Used(ks[i], v))
    && forall j :: 0 <= j < 256 && j >= n - 1 && (j < 255 || n == 0) ==> t[j] == Empty
  }

  /** The keys up to 8 find their slots, */
  lemma SeatFound<K, V>(hash: K -> nat, t: seq<Slot<K, V>>, ks: seq<K>, v: V, n: nat)
    requires Crowd(hash, ks) && n <= 8 && Seated(t, ks, v, n)
    ensures var x := if n == 8 then 7 else n; Found(hash, t, ks[n], x) && At(hash(ks[n]), x, 256) == Seat(n)
  {
    var x, o := if n == 8 then 7 else n, if n == 8 then 1 else 0;
    forall y | 0 <= y < x ensures Taken(hash, t, ks[n], y) {
      assert At(hash(ks[n]), y, 256) == Seat(y + o) && t[Seat(y + o)] == Used(ks[y + o], v);
    }
  }

  /** and key 9 finds none. */
  lemma NoSeat<K, V>(hash: K -> nat, t: seq<Slot<K, V>>, ks: seq<K>, v: V)
    requires Crowd(hash, ks) && Seated(t, ks, v, 9)
    ensures ProbeTaken(hash, t, ks[9])
  {
    forall y | 0 <= y < MAX_CHAIN ensures Taken(hash, t, ks[9], y) {
      assert At(hash(ks[9]), y, 256) == Seat(y) && t[Seat(y)] == Used(ks[y], v);
    }
  }

  /** In a table of 512 the first `n` slots of the old one follow each other from 255 on. */
  ghost predicate Moved<K, V>(u: seq<Slot<K, V>>, ks: seq<K>, v: V, n: nat)
    requires n < |ks| < 200
  {
    |u| == 512 && forall j :: 0 <= j < 512 ==> u[j] == if 255 <= j < 255 + n then Used(ks[j - 254], v) else Empty
  }

  lemma MovedFound<K, V>(hash: K -> nat, u: seq<Slot<K, V>>, ks: seq<K>, v: V, n: nat)
    requires Crowd(hash, ks) && n < 8 && Moved(u, ks, v, n)
    ensures var x := if n == 7 then 6 else n; Found(hash, u, ks[n + 1], x) && At(hash(ks[n + 1]), x, 512) == 255 + n
  {
    var x, o, k := if n == 7 then 6 else n, if n == 7 then 1 else 0, ks[n + 1];
    forall y | 0 <= y < x ensures Taken(hash, u, k, y) { assert At(hash(k), y, 512) == 255 + y + o; }
  }

  lemma {:induction false} MovedSoFar<K, V>(hash: K -> nat, t: seq<Slot<K, V>>, ks: seq<K>, v: V, n: nat)
    returns (u: seq<Slot<K, V>>)
    requires Crowd(hash, ks) && Seated(t, ks, v, 9) && n <= 8
    ensures SoFar(hash, Blank(512), t, n, u) && Moved(u, ks, v, n)
  {
    if n == 0 {
      u := Blank(512);
    } else {
      var u0 := MovedSoFar(hash, t, ks, v, n - 1);
      var x := if n == 8 then 6 else n - 1;
      assert t[Seat(n)] == Used(ks[n], v);
      MovedFound(hash, u0, ks, v, n - 1);
      SoFarStored(hash, Blank(512), t, n - 1, u0, x);
      u := u0[254 + n := t[n - 1]];
    }
  }

  lemma {:induction false} SkippedSoFar<K, V>(hash: K -> nat, t0: seq<Slot<K, V>>, t: seq<Slot<K, V>>, i: nat, n: nat,
          u: seq<Slot<K, V>>)
    requires SoFar(hash, t0, t, i, u) && i <= n <= |t| && forall j :: i <= j < n ==> t[j] == Empty
    ensures SoFar(hash, t0, t, n, u)
    decreases n - i
  {
    if i < n {
      SoFarSkipped(hash, t0, t, i, u);
      SkippedSoFar(hash, t0, t, i + 1, n, u);
    }
  }

  /** In the larger table keys 1 to 8 take the whole probe of key 0, whose turn comes last. */
  lemma LastIsHomeless<K, V>(hash: K -> nat, t: seq<Slot<K, V>>, ks: seq<K>, v: V)
    requires Crowd(hash, ks) && Seated(t, ks, v, 9)
    ensures FirstHomeless(hash, Blank(512), t, 255) && ks[0] !in Collected(t, 255)
  {
    var u := MovedSoFar(hash, t, ks, v, 8);
    SkippedSoFar(hash, Blank(512), t, 8, 255, u);
    assert t[Seat(0)] == Used(ks[0], v);
    forall y | 0 <= y < MAX_CHAIN ensures Taken(hash, u, ks[0], y) {
      assert At(hash(ks[0]), y, 512) == 255 + y;
    }
    CollectedKeys(t, 255, ks[0]);
    forall j | 0 <= j < 255 && t[j].Used? ensures t[j].key != ks[0] { assert t[Seat(j + 1)] == Used(ks[j + 1], v); }
  }

  /** Memory for one doubling only: the put of the tenth key fails, and the first key is gone. */
  method LosesEntry<K(==), V>(hash: K -> nat, limit: nat, ks: seq<K>, v: V) returns (h: HashMap<K, V>, r: Status)
    requires 2 * INITIAL_SIZE <= limit < 4 * INITIAL_SIZE && Crowd(hash, ks)
    ensures fresh(h) && h.Valid() && r == OutOfMemory && ks[0] !in h.m
  {
    h := new HashMap(hash, limit);
    var i := 0;
    while i < 9
      invariant 0 <= i <= 9 && h.Valid() && Dense(hash, h.data[..]) && fresh(h) && fresh(h.data)
      invariant h.hash == hash && h.limit == limit && h.size == i && Seated(h.data[..], ks, v, i)
    {
      SeatFound(hash, h.data[..], ks, v, i);
      DenseSettled(hash, h.data[..], ks[i]);
      PutAt(h, ks[i], v, if i == 8 then 7 else i);
      i := i + 1;
    }
    ghost var t := h.data[..];
    NoSeat(hash, t, ks, v);
    LastIsHomeless(hash, t, ks, v);
    r := h.Put(ks[9], v);
  }
}

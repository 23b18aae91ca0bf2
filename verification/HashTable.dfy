/** The slots of hashmap.c as a value: open addressing with a probe of bounded length. */
module HashTable {

  const MAX_CHAIN: nat := 8

  datatype Slot<K, V> = Empty | Used(key: K, val: V)

  /** Slot number `i` of the probe sequence of a hash value. */
  function At(h: nat, i: nat, n: nat): (j: nat)
    requires n > 0
    ensures j < n
  {
    (h % n + i) % n
  }

  /** How far along its probe sequence slot `j` comes. */
  function Offset(h: nat, j: nat, n: nat): (i: nat)
    requires j < n
    ensures i < n
  {
    if j >= h % n then j - h % n else j + n - h % n
  }

  lemma OffsetAt(h: nat, i: nat, n: nat)
    requires i < n
    ensures Offset(h, At(h, i, n), n) == i
  {
    if h % n + i >= n { ModOnce(h % n + i, n); } else { ModBelow(h % n + i, n); }
  }

  lemma AtOffset(h: nat, j: nat, n: nat)
    requires j < n
    ensures At(h, Offset(h, j, n), n) == j
  {
    if j >= h % n { ModBelow(j, n); } else { ModOnce(j + n, n); }
  }

  lemma ModBelow(x: nat, n: nat)
    requires x < n
    ensures x % n == x
  {
  }

  lemma ModOnce(x: nat, n: nat)
    requires n <= x < 2 * n
    ensures x % n == x - n
  {
  }

  ghost predicate Shape<K, V>(t: seq<Slot<K, V>>) {
    |t| >= MAX_CHAIN
  }

  /** Every key sits within reach of its probe, at one place, and `m` is what they hold. */
  ghost predicate Represents<K, V>(hash: K -> nat, t: seq<Slot<K, V>>, m: map<K, V>) {
    && Shape(t)
    && (forall j :: 0 <= j < |t| && t[j].Used? ==>
          t[j].key in m && m[t[j].key] == t[j].val && Offset(hash(t[j].key), j, |t|) < MAX_CHAIN)
    && (forall i, j :: 0 <= i < j < |t| && t[i].Used? && t[j].Used? ==> t[i].key != t[j].key)
    && (forall k :: k in m ==> HasKey(t, k))
  }

  ghost predicate HasKey<K, V>(t: seq<Slot<K, V>>, k: K) {
    exists j :: 0 <= j < |t| && t[j].Used? && t[j].key == k
  }

  /** No probe sequence passes an empty slot before the key it leads to. */
  ghost predicate Dense<K, V>(hash: K -> nat, t: seq<Slot<K, V>>) {
    forall j, i :: 0 <= j < |t| && t[j].Used? && 0 <= i < Offset(hash(t[j].key), j, |t|) ==>
      t[At(hash(t[j].key), i, |t|)].Used?
  }

  /** No empty slot comes before key `k` on its probe sequence; true of an absent key. */
  ghost predicate Settled<K, V>(hash: K -> nat, t: seq<Slot<K, V>>, k: K) {
    forall j, i :: 0 <= j < |t| && t[j].Used? && t[j].key == k && 0 <= i < Offset(hash(k), j, |t|) ==>
      t[At(hash(k), i, |t|)].Used?
  }

  /** The first slot of the probe that is empty or holds the key, at offset `i`. */
  ghost predicate Found<K, V>(hash: K -> nat, t: seq<Slot<K, V>>, k: K, i: nat) {
    Shape(t) && i < MAX_CHAIN && !Taken(hash, t, k, i) && forall x :: 0 <= x < i ==> Taken(hash, t, k, x)
  }

  /** Slot `x` of the probe holds another key. */
  ghost predicate Taken<K, V>(hash: K -> nat, t: seq<Slot<K, V>>, k: K, x: nat)
    requires |t| > 0
  {
    var s := t[At(hash(k), x, |t|)];
    s.Used? && s.key != k
  }

  ghost predicate ProbeTaken<K, V>(hash: K -> nat, t: seq<Slot<K, V>>, k: K)
    requires |t| > 0
  {
    forall x :: 0 <= x < MAX_CHAIN ==> Taken(hash, t, k, x)
  }

  /** Writing at the place found keeps one place per key exactly when no empty slot comes
      before the key, and then it is the map update. */
  lemma PutAtFound<K, V>(hash: K -> nat, t: seq<Slot<K, V>>, m: map<K, V>, k: K, v: V, i: nat)
    requires Represents(hash, t, m) && Found(hash, t, k, i)
    ensures var t' := t[At(hash(k), i, |t|) := Used(k, v)];
            && ((exists m' :: Represents(hash, t', m')) <==> Settled(hash, t, k))
            && (Settled(hash, t, k) ==> Represents(hash, t', m[k := v]))
            && (Dense(hash, t) ==> Dense(hash, t'))
  {
    var j := At(hash(k), i, |t|);
    var t' := t[j := Used(k, v)];
    OffsetAt(hash(k), i, |t|);
    assert t'[j].Used? && t'[j].key == k;
    SettledIffFound(hash, t, m, k, i);
    if Settled(hash, t, k) {
      forall k' | k' in m[k := v] ensures HasKey(t', k') {
        if k' != k {
          var x :| 0 <= x < |t| && t[x].Used? && t[x].key == k';
          assert t'[x] == t[x];
        }
      }
      assert Represents(hash, t', m[k := v]);
    } else {
      var x :| 0 <= x < |t| && t[x].Used? && t[x].key == k;
      assert t'[x] == t[x] && x != j;
      forall m' ensures !Represents(hash, t', m') {}
    }
    if Dense(hash, t) {
      DensePut(hash, t, k, v, i);
    }
  }

  lemma DensePut<K, V>(hash: K -> nat, t: seq<Slot<K, V>>, k: K, v: V, i: nat)
    requires Dense(hash, t) && Found(hash, t, k, i)
    ensures Dense(hash, t[At(hash(k), i, |t|) := Used(k, v)])
  {
    var j := At(hash(k), i, |t|);
    var t' := t[j := Used(k, v)];
    OffsetAt(hash(k), i, |t|);
    forall x, y | 0 <= x < |t'| && t'[x].Used? && 0 <= y < Offset(hash(t'[x].key), x, |t|)
      ensures t'[At(hash(t'[x].key), y, |t|)].Used?
    {
      if x == j { assert Taken(hash, t, k, y); }
    }
  }

  /** A key is settled exactly when it is absent or the place found is its own. */
  lemma SettledIffFound<K, V>(hash: K -> nat, t: seq<Slot<K, V>>, m: map<K, V>, k: K, i: nat)
    requires Represents(hash, t, m) && Found(hash, t, k, i)
    ensures Settled(hash, t, k) <==> k !in m || t[At(hash(k), i, |t|)].Used?
  {
    if k in m {
      var x :| 0 <= x < |t| && t[x].Used? && t[x].key == k;
      var off := Offset(hash(k), x, |t|);
      AtOffset(hash(k), x, |t|);
      assert !Taken(hash, t, k, off);
      OffsetAt(hash(k), i, |t|);
      if t[At(hash(k), i, |t|)].Used? {
        assert At(hash(k), i, |t|) == x;
        forall j, y | 0 <= j < |t| && t[j].Used? && t[j].key == k && 0 <= y < Offset(hash(k), j, |t|)
          ensures t[At(hash(k), y, |t|)].Used?
        {
          assert j == x && Taken(hash, t, k, y);
        }
      }
    } else {
      AbsentSettled(hash, t, m, k);
    }
  }

  lemma AbsentSettled<K, V>(hash: K -> nat, t: seq<Slot<K, V>>, m: map<K, V>, k: K)
    requires Represents(hash, t, m) && k !in m
    ensures Settled(hash, t, k)
  {
  }

  /** The contents of the first `n` slots. */
  ghost function Collected<K, V>(t: seq<Slot<K, V>>, n: nat): map<K, V>
    requires n <= |t|
  {
    if n == 0 then map[]
    else if t[n - 1].Used? then Collected(t, n - 1)[t[n - 1].key := t[n - 1].val]
    else Collected(t, n - 1)
  }

  lemma {:induction false} CollectedKeys<K, V>(t: seq<Slot<K, V>>, n: nat, k: K)
    requires n <= |t|
    ensures k in Collected(t, n) <==> exists j :: 0 <= j < n && t[j].Used? && t[j].key == k
  {
    if n > 0 { CollectedKeys(t, n - 1, k); }
  }

  /** Collecting a whole table gives the map it represents. */
  lemma CollectedAll<K, V>(hash: K -> nat, t: seq<Slot<K, V>>, m: map<K, V>)
    requires Represents(hash, t, m)
    ensures Collected(t, |t|) == m
  {
    CollectedValues(hash, t, m, |t|);
    forall k ensures k in Collected(t, |t|) <==> k in m { CollectedKeys(t, |t|, k); }
  }

  lemma {:induction false} CollectedValues<K, V>(hash: K -> nat, t: seq<Slot<K, V>>, m: map<K, V>, n: nat)
    requires Represents(hash, t, m) && n <= |t|
    ensures forall k :: k in Collected(t, n) ==> k in m && Collected(t, n)[k] == m[k]
  {
    if n > 0 { CollectedValues(hash, t, m, n - 1); }
  }

  /** Offset of the first slot, from offset `i` of the probe on, that holds the key. */
  function Probe<K(==), V>(hash: K -> nat, t: seq<Slot<K, V>>, k: K, i: nat): (r: nat)
    requires |t| > 0 && i <= MAX_CHAIN
    ensures i <= r <= MAX_CHAIN
    ensures r < MAX_CHAIN ==> var s := t[At(hash(k), r, |t|)]; s.Used? && s.key == k
    ensures forall x :: i <= x < r ==> !Hit(hash, t, k, x)
    decreases MAX_CHAIN - i
  {
    if i == MAX_CHAIN || Hit(hash, t, k, i) then i else Probe(hash, t, k, i + 1)
  }

  predicate Hit<K(==), V>(hash: K -> nat, t: seq<Slot<K, V>>, k: K, x: nat)
    requires |t| > 0
  {
    var s := t[At(hash(k), x, |t|)];
    s.Used? && s.key == k
  }

  /** In a table that represents a map the probe finds exactly the keys of the map. */
  lemma ProbeFinds<K, V>(hash: K -> nat, t: seq<Slot<K, V>>, m: map<K, V>, k: K)
    requires Represents(hash, t, m)
    ensures Probe(hash, t, k, 0) < MAX_CHAIN <==> k in m
    ensures k in m ==> t[At(hash(k), Probe(hash, t, k, 0), |t|)] == Used(k, m[k])
  {
    if k in m {
      var x :| 0 <= x < |t| && t[x].Used? && t[x].key == k;
      AtOffset(hash(k), x, |t|);
      assert Hit(hash, t, k, Offset(hash(k), x, |t|));
    }
  }

  /** Emptying the slot of a key removes the key. */
  lemma RemoveSlot<K, V>(hash: K -> nat, t: seq<Slot<K, V>>, m: map<K, V>, j: nat)
    requires Represents(hash, t, m) && j < |t| && t[j].Used?
    ensures Represents(hash, t[j := Empty], m - {t[j].key})
  {
    var t', m' := t[j := Empty], m - {t[j].key};
    forall k | k in m' ensures HasKey(t', k) {
      var x :| 0 <= x < |t| && t[x].Used? && t[x].key == k;
      assert t'[x] == t[x];
    }
  }

  ghost predicate NoDupKeys<K, V>(t: seq<Slot<K, V>>) {
    forall i, j :: 0 <= i < j < |t| && t[i].Used? && t[j].Used? ==> t[i].key != t[j].key
  }

  /** In a dense table every key is settled. */
  lemma DenseSettled<K, V>(hash: K -> nat, t: seq<Slot<K, V>>, k: K)
    requires Dense(hash, t)
    ensures Settled(hash, t, k)
  {
  }

  ghost predicate Submap<K, V>(m: map<K, V>, n: map<K, V>) {
    forall k :: k in m ==> k in n && m[k] == n[k]
  }

  lemma CollectedSub<K, V>(t: seq<Slot<K, V>>, i: nat)
    requires NoDupKeys(t) && i < |t| && t[i].Used?
    ensures t[i].key !in Collected(t, i) && t[i].key in Collected(t, |t|) && Submap(Collected(t, i), Collected(t, |t|))
  {
    CollectedKeys(t, i, t[i].key);
    CollectedKeys(t, |t|, t[i].key);
    CollectedGrows(t, i, |t|);
  }

  lemma {:induction false} CollectedGrows<K, V>(t: seq<Slot<K, V>>, i: nat, n: nat)
    requires NoDupKeys(t) && i <= n <= |t|
    ensures Submap(Collected(t, i), Collected(t, n))
    decreases n
  {
    if i < n {
      CollectedGrows(t, i, n - 1);
      if t[n - 1].Used? { CollectedKeys(t, n - 1, t[n - 1].key); }
    }
  }

  // ------------------------------------------- filling a table from another

  /** A table of empty slots */
  function Blank<K, V>(n: nat): (t: seq<Slot<K, V>>)
    ensures |t| == n && forall j :: 0 <= j < n ==> t[j] == Empty
  {
    seq(n, _ => Empty)
  }

  /** Offset of the first slot of the probe, from offset `i` on, that is empty or holds the key. */
  ghost function Spot<K, V>(hash: K -> nat, t: seq<Slot<K, V>>, k: K, i: nat): (r: nat)
    requires |t| > 0 && i <= MAX_CHAIN
    ensures i <= r <= MAX_CHAIN && (r < MAX_CHAIN ==> !Taken(hash, t, k, r))
    ensures forall x :: i <= x < r ==> Taken(hash, t, k, x)
    decreases MAX_CHAIN - i
  {
    if i == MAX_CHAIN || !Taken(hash, t, k, i) then i else Spot(hash, t, k, i + 1)
  }

  lemma SpotIs<K, V>(hash: K -> nat, t: seq<Slot<K, V>>, k: K, i: nat)
    requires Found(hash, t, k, i)
    ensures Spot(hash, t, k, 0) == i
  {
  }

  /** The entry `s` goes to its place, if it has one. */
  ghost function Housed<K, V>(hash: K -> nat, t: seq<Slot<K, V>>, s: Slot<K, V>): (r: seq<Slot<K, V>>)
    requires |t| > 0
    ensures |r| == |t|
  {
    if s.Empty? || Spot(hash, t, s.key, 0) == MAX_CHAIN then t
    else t[At(hash(s.key), Spot(hash, t, s.key, 0), |t|) := s]
  }

  /** Table `t` after the first `n` slots of `src` have been put into it in order */
  ghost function Filled<K, V>(hash: K -> nat, t: seq<Slot<K, V>>, src: seq<Slot<K, V>>, n: nat): (r: seq<Slot<K, V>>)
    requires |t| > 0 && n <= |src|
    ensures |r| == |t|
  {
    if n == 0 then t else Housed(hash, Filled(hash, t, src, n - 1), src[n - 1])
  }

  /** Entry `i` of `src` finds its whole probe taken when its turn comes. */
  ghost predicate Homeless<K, V>(hash: K -> nat, t: seq<Slot<K, V>>, src: seq<Slot<K, V>>, i: nat)
    requires |t| > 0
  {
    i < |src| && src[i].Used? && ProbeTaken(hash, Filled(hash, t, src, i), src[i].key)
  }

  ghost predicate FirstHomeless<K, V>(hash: K -> nat, t: seq<Slot<K, V>>, src: seq<Slot<K, V>>, i: nat)
    requires |t| > 0
  {
    Homeless(hash, t, src, i) && forall j: nat :: j < i ==> !Homeless(hash, t, src, j)
  }

  /** Table `u` is the one after the first `i` slots of `t`, and each of their entries found a place. */
  ghost predicate SoFar<K, V>(hash: K -> nat, t0: seq<Slot<K, V>>, t: seq<Slot<K, V>>, i: nat, u: seq<Slot<K, V>>) {
    && |t0| > 0 && i <= |t| && u == Filled(hash, t0, t, i)
    && forall j: nat {:trigger Homeless(hash, t0, t, j)} :: j < i ==> !Homeless(hash, t0, t, j)
  }

  lemma SoFarStored<K, V>(hash: K -> nat, t0: seq<Slot<K, V>>, t: seq<Slot<K, V>>, i: nat, u: seq<Slot<K, V>>, x: nat)
    requires SoFar(hash, t0, t, i, u) && i < |t| && t[i].Used? && Found(hash, u, t[i].key, x)
    ensures SoFar(hash, t0, t, i + 1, u[At(hash(t[i].key), x, |u|) := t[i]])
  {
    SpotIs(hash, u, t[i].key, x);
    assert !Taken(hash, u, t[i].key, x);
    assert Filled(hash, t0, t, i + 1) == Housed(hash, u, t[i]);
  }

  lemma SoFarSkipped<K, V>(hash: K -> nat, t0: seq<Slot<K, V>>, t: seq<Slot<K, V>>, i: nat, u: seq<Slot<K, V>>)
    requires SoFar(hash, t0, t, i, u) && i < |t| && t[i].Empty?
    ensures SoFar(hash, t0, t, i + 1, u)
  {
    assert Filled(hash, t0, t, i + 1) == Housed(hash, u, t[i]);
  }

  lemma AllHomed<K, V>(hash: K -> nat, t0: seq<Slot<K, V>>, t: seq<Slot<K, V>>, u: seq<Slot<K, V>>, k: nat)
    requires SoFar(hash, t0, t, |t|, u)
    ensures !FirstHomeless(hash, t0, t, k)
  {
  }

  lemma OneFirst<K, V>(hash: K -> nat, t0: seq<Slot<K, V>>, t: seq<Slot<K, V>>, i: nat, u: seq<Slot<K, V>>, k: nat)
    requires SoFar(hash, t0, t, i, u) && FirstHomeless(hash, t0, t, k)
    ensures k >= i && (Homeless(hash, t0, t, i) ==> k == i)
  {
  }
}

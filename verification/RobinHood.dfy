/** Robin Hood hash table of gumbo-parser/src/hashmap.c: open addressing,
    displacement on insertion, backward shift on deletion, growing and shrinking
    by rehashing. The bucket array is proved to refine a finite map. */
module RobinHood {
  import opened Masks

  datatype Option<+T> = None | Some(value: T)

  // The 16-bit distance field of a bucket; 0 marks an empty bucket.
  newtype Dib = d: int | 0 <= d < 0x1_0000

  // dib += 1, in 16 bits
  function Inc(d: Dib): (r: Dib)
  {
    if d == 65535 then 0 else d + 1
  }

  // A stored item is split into what `compare` looks at (the key) and the rest.
  datatype Bucket<K, V> =
    | Empty
    | Full(hash: nat, dib: Dib, key: K, val: V)

  type Table<K, V> = seq<Bucket<K, V>>

  // What reads back after an entry has been copied into a bucket: with a
  // distance of 0 the bucket counts as empty.
  function Stored<K, V>(e: Bucket<K, V>): (b: Bucket<K, V>)
  {
    if D(e) == 0 then Empty else e
  }

  function ClipHash(h: nat): (r: nat)
  {
    h % 0x1_0000_0000_0000
  }

  function D<K, V>(b: Bucket<K, V>): (d: int)
  {
    if b.Empty? then 0 else b.dib as int
  }

  // (i + 1) & mask
  function Next(i: nat, n: nat): (j: nat)
    requires i < n
    ensures j < n
  {
    if i + 1 == n then 0 else i + 1
  }

  // Number of probe steps that lead from position `from` to position `to`.
  function Dist(from: nat, to: nat, n: nat): (d: nat)
    requires from < n && to < n
    ensures d < n
  {
    if from <= to then to - from else to + n - from
  }

  // Every occupied bucket sits `dib - 1` probe steps after its home position.
  ghost predicate AtHome<K, V>(t: Table<K, V>)
  {
    forall i :: 0 <= i < |t| && t[i].Full? ==> t[i].dib as int == Dist(Mod(t[i].hash, |t|), i, |t|) + 1
  }

  // The Robin Hood ordering: the distance grows by at most one per step.
  ghost predicate Ordered<K, V>(t: Table<K, V>)
  {
    forall i :: 0 <= i < |t| ==> D(t[Next(i, |t|)]) <= D(t[i]) + 1
  }

  ghost predicate Hashed<K(!new), V>(t: Table<K, V>, hash: K -> nat)
  {
    forall i :: 0 <= i < |t| && t[i].Full? ==> t[i].hash == ClipHash(hash(t[i].key))
  }

  ghost predicate Distinct<K, V>(t: Table<K, V>)
  {
    forall i, j :: 0 <= i < j < |t| && t[i].Full? && t[j].Full? ==> t[i].key != t[j].key
  }

  ghost predicate At<K, V>(t: Table<K, V>, i: int, k: K)
  {
    0 <= i < |t| && t[i].Full? && t[i].key == k
  }

  // The occupied buckets are exactly the entries of the map.
  ghost predicate Holds<K(!new), V>(t: Table<K, V>, m: map<K, V>)
  {
    && (forall i :: 0 <= i < |t| && t[i].Full? ==> t[i].key in m && m[t[i].key] == t[i].val)
    && (forall k :: k in m ==> exists i :: At(t, i, k))
    && Distinct(t)
  }

  ghost predicate Good<K(!new), V>(t: Table<K, V>, hash: K -> nat)
  {
    |t| > 1 && AtHome(t) && Ordered(t) && Hashed(t, hash)
  }

  // The positions passed on the way from `from` to `to` are occupied by
  // buckets at least as far from home as the probe that passes them.
  ghost predicate Passed<K, V>(t: Table<K, V>, from: nat, to: nat)
    requires from < |t| && to < |t|
  {
    forall q :: 0 <= q < |t| && Dist(from, q, |t|) < Dist(from, to, |t|)
      ==> D(t[q]) >= Dist(from, q, |t|) + 1
  }

  lemma NextDist(from: nat, i: nat, to: nat, n: nat)
    requires from < n && to < n && i < n && i != to
    ensures Dist(i, to, n) == Dist(Next(i, n), to, n) + 1
    ensures Dist(from, i, n) <= Dist(from, to, n)
            ==> Dist(from, Next(i, n), n) == Dist(from, i, n) + 1 <= Dist(from, to, n)
  {
  }

  lemma DistInjective(from: nat, i: nat, j: nat, n: nat)
    requires from < n && i < n && j < n && Dist(from, i, n) == Dist(from, j, n)
    ensures i == j
  {
  }

  // Behind a bucket that is at least as far from home as a probe starting at
  // `h` there is no gap, and the distances fall no faster than the probe's.
  lemma {:induction false} NoGap<K, V>(t: Table<K, V>, h: nat, p: nat, q: nat)
    requires Ordered(t) && h < |t| && p < |t| && q < |t|
    requires D(t[p]) >= Dist(h, p, |t|) + 1 && Dist(h, q, |t|) <= Dist(h, p, |t|)
    ensures D(t[q]) >= Dist(h, q, |t|) + 1
    decreases Dist(h, p, |t|) - Dist(h, q, |t|)
  {
    if Dist(h, q, |t|) == Dist(h, p, |t|) {
      DistInjective(h, p, q, |t|);
    } else {
      NextDist(h, q, p, |t|);
      NoGap(t, h, p, Next(q, |t|));
      assert D(t[Next(q, |t|)]) <= D(t[q]) + 1;
    }
  }

  // A probe for `key` that has passed only other keys and stands at an empty
  // bucket proves that the key is absent.
  lemma ProbeMiss<K(!new), V>(t: Table<K, V>, m: map<K, V>, hash: K -> nat, key: K, i: nat)
    requires Good(t, hash) && Holds(t, m)
    requires i < |t| && t[i].Empty?
    requires var h := Mod(ClipHash(hash(key)), |t|);
             forall q :: 0 <= q < |t| && Dist(h, q, |t|) < Dist(h, i, |t|) ==> !At(t, q, key)
    ensures key !in m
  {
    if key in m {
      var p :| At(t, p, key);
      var h := Mod(ClipHash(hash(key)), |t|);
      if Dist(h, i, |t|) <= Dist(h, p, |t|) {
        NoGap(t, h, p, i);
      }
    }
  }

  // The number of occupied buckets.
  ghost function Fulls<K, V>(t: Table<K, V>): (n: nat)
    ensures n <= |t|
  {
    if t == [] then 0 else Fulls(t[..|t| - 1]) + if t[|t| - 1].Full? then 1 else 0
  }

  lemma {:induction false} FullsPut<K, V>(t: Table<K, V>, i: nat, b: Bucket<K, V>)
    requires i < |t|
    ensures Fulls(t[i := b]) == Fulls(t) - (if t[i].Full? then 1 else 0) + if b.Full? then 1 else 0
  {
    var n := |t| - 1;
    if i < n {
      FullsPut(t[..n], i, b);
      assert t[i := b][..n] == t[..n][i := b];
    } else {
      assert t[i := b][..n] == t[..n];
    }
  }

  lemma {:induction false} FullsJoin<K, V>(s: Table<K, V>, t: Table<K, V>)
    ensures Fulls(s + t) == Fulls(s) + Fulls(t)
  {
    if t == [] {
      assert s + t == s;
    } else {
      FullsJoin(s, t[..|t| - 1]);
      assert (s + t)[..|s + t| - 1] == s + t[..|t| - 1];
    }
  }

  lemma {:induction false} FullsNone<K, V>(t: Table<K, V>)
    ensures Fulls(t) == 0 <==> forall i :: 0 <= i < |t| ==> t[i].Empty?
  {
    if t != [] {
      var n := |t| - 1;
      FullsNone(t[..n]);
      assert (forall i :: 0 <= i < |t| ==> t[i].Empty?) <==> t[n].Empty? && forall i :: 0 <= i < n ==> t[..n][i].Empty?;
    }
  }

  lemma {:induction false} FullsAll<K, V>(t: Table<K, V>)
    requires Fulls(t) == |t|
    ensures forall i :: 0 <= i < |t| ==> t[i].Full?
  {
    if t != [] {
      var n := |t| - 1;
      FullsAll(t[..n]);
      forall i | 0 <= i < |t| ensures t[i].Full? {
        if i < n { assert t[..n][i].Full?; }
      }
    }
  }

  lemma {:induction false} SomeEmpty<K, V>(t: Table<K, V>) returns (z: nat)
    requires Fulls(t) < |t|
    ensures z < |t| && t[z].Empty?
  {
    z := |t| - 1;
    if t[z].Full? { z := SomeEmpty(t[..z]); }
  }

  // Distinct keys: there are as many occupied buckets as entries.
  lemma {:induction false} KeySet<K(!new), V>(t: Table<K, V>) returns (s: set<K>)
    requires Distinct(t)
    ensures |s| == Fulls(t) && forall k :: k in s <==> exists i :: At(t, i, k)
  {
    if t == [] {
      s := {};
    } else {
      var n := |t| - 1;
      var s' := KeySet(t[..n]);
      s := if t[n].Full? then s' + {t[n].key} else s';
      forall k ensures k in s <==> exists i :: At(t, i, k) {
        if exists i :: At(t, i, k) {
          var i :| At(t, i, k);
          if i < n { assert At(t[..n], i, k); }
        }
        if k in s' {
          var i :| At(t[..n], i, k);
          assert At(t, i, k);
        } else if k in s {
          assert At(t, n, k);
        }
      }
    }
  }

  lemma HoldsFulls<K(!new), V>(t: Table<K, V>, m: map<K, V>)
    requires Holds(t, m)
    ensures Fulls(t) == |m|
  {
    var s := KeySet(t);
    forall k ensures k in s <==> k in m.Keys {
      if k in s { var i :| At(t, i, k); }
    }
    assert s == m.Keys;
  }

  lemma {:induction false} SubsetSize<T>(a: set<T>, b: set<T>)
    requires a <= b
    ensures |a| <= |b|
  {
    if a != {} {
      var x :| x in a;
      SubsetSize(a - {x}, b - {x});
    }
  }

  // Every distance is at most the number of entries, so the 16-bit field does
  // not wrap while fewer than 65535 entries are stored.
  lemma {:induction false} PassedKeys<K(!new), V>(t: Table<K, V>, h: nat, i: nat) returns (s: set<K>)
    requires h < |t| && i < |t| && Distinct(t) && Passed(t, h, i)
    ensures |s| == Dist(h, i, |t|)
    ensures forall k :: k in s ==> exists q :: 0 <= q < |t| && Dist(h, q, |t|) < Dist(h, i, |t|) && At(t, q, k)
    decreases Dist(h, i, |t|)
  {
    if h == i {
      s := {};
    } else {
      var j := if i == 0 then |t| - 1 else i - 1;
      assert Dist(h, j, |t|) == Dist(h, i, |t|) - 1;
      var s' := PassedKeys(t, h, j);
      assert D(t[j]) >= 1;
      assert At(t, j, t[j].key);
      assert t[j].key !in s';
      s := s' + {t[j].key};
    }
  }

  lemma PassedBound<K(!new), V>(t: Table<K, V>, m: map<K, V>, h: nat, i: nat)
    requires Holds(t, m) && h < |t| && i < |t| && t[i].Full? && Passed(t, h, i)
    ensures Dist(h, i, |t|) + 1 <= |m|
  {
    var s := PassedKeys(t, h, i);
    assert t[i].key !in s;
    assert At(t, i, t[i].key);
    SubsetSize(s + {t[i].key}, m.Keys);
  }

  lemma PassedBelow<K, V>(t: Table<K, V>, h: nat, i: nat)
    requires Ordered(t) && h < |t| && i < |t| && D(t[i]) >= Dist(h, i, |t|) + 1
    ensures Passed(t, h, i)
  {
    forall q | 0 <= q < |t| && Dist(h, q, |t|) < Dist(h, i, |t|)
      ensures D(t[q]) >= Dist(h, q, |t|) + 1
    {
      NoGap(t, h, i, q);
    }
  }

  lemma DibBound<K(!new), V>(t: Table<K, V>, m: map<K, V>, hash: K -> nat, i: nat)
    requires Good(t, hash) && Holds(t, m) && i < |t|
    ensures D(t[i]) <= |m|
  {
    hide Holds, Passed;
    if t[i].Full? {
      var h := Mod(t[i].hash, |t|);
      PassedBelow(t, h, i);
      PassedBound(t, m, h, i);
    }
  }

  // An entry on its way through the table, about to be tried at position i.
  ghost predicate InFlight<K(!new), V>(t: Table<K, V>, hash: K -> nat, i: nat, e: Bucket<K, V>)
    requires i < |t|
  {
    && e.Full?
    && e.hash == ClipHash(hash(e.key))
    && e.dib as int == Dist(Mod(e.hash, |t|), i, |t|) + 1
    && (e.dib > 1 ==> D(t[Prev(i, |t|)]) >= e.dib as int - 1)
  }

  ghost function Prev(i: nat, n: nat): (j: nat)
    requires i < n
    ensures j < n && Next(j, n) == i
  {
    if i == 0 then n - 1 else i - 1
  }

  // Storing an entry in place of a bucket nearer to its home keeps the order.
  lemma Put<K(!new), V>(t: Table<K, V>, hash: K -> nat, i: nat, e: Bucket<K, V>)
    requires Good(t, hash) && i < |t| && InFlight(t, hash, i, e) && D(t[i]) < D(e)
    ensures Good(t[i := e], hash)
  {
    var t' := t[i := e];
    forall j | 0 <= j < |t'| ensures D(t'[Next(j, |t'|)]) <= D(t'[j]) + 1 {
      assert D(t[Next(j, |t|)]) <= D(t[j]) + 1;
      if Next(j, |t|) == i { assert j == Prev(i, |t|); }
    }
  }

  // The bucket an entry displaced, moved on by one step, is in flight again.
  lemma Displaced<K(!new), V>(t: Table<K, V>, hash: K -> nat, i: nat, e: Bucket<K, V>, b: Bucket<K, V>, z: nat)
    requires Good(t, hash) && i < |t| && z < |t| && t[z].Empty?
    requires InFlight(t, hash, i, b) && t[i].Full? && D(t[i]) >= D(b)
    requires e.Full? && e.hash == b.hash && e.key == b.key && e.dib as int == b.dib as int + 1
    ensures InFlight(t, hash, Next(i, |t|), e)
  {
    var h := Mod(b.hash, |t|);
    assert i != z;
    if Dist(h, z, |t|) < Dist(h, i, |t|) {
      NoGap(t, h, i, z);
    }
    NextDist(h, i, z, |t|);
    assert Prev(Next(i, |t|), |t|) == i;
  }

  // Contents after storing entry e at i, where e's key was missing from the table.
  lemma PutContents<K(!new), V>(t: Table<K, V>, m: map<K, V>, i: nat, e: Bucket<K, V>)
    requires i < |t| && e.Full? && e.key in m && m[e.key] == e.val
    requires Holds(t, m - {e.key})
    ensures t[i].Empty? ==> Holds(t[i := e], m)
    ensures t[i].Full? ==> t[i].key in m && t[i].key != e.key && Holds(t[i := e], m - {t[i].key})
  {
    var t' := t[i := e];
    var m' := if t[i].Empty? then m else m - {t[i].key};
    forall k | k in m' ensures exists j :: At(t', j, k) {
      if k == e.key {
        assert At(t', i, k);
      } else {
        assert k in m - {e.key};
        var j :| At(t, j, k);
        assert At(t', j, k);
      }
    }
  }

  // The probe distance an entry in flight would get at the next position is
  // bounded by the number of stored entries.
  lemma StepBound<K(!new), V>(t: Table<K, V>, m: map<K, V>, hash: K -> nat, i: nat, e: Bucket<K, V>)
    requires Good(t, hash) && Holds(t, m)
    requires i < |t| && InFlight(t, hash, i, e) && t[i].Full? && D(t[i]) >= D(e)
    ensures D(e) <= |m|
  {
    hide Holds, Passed;
    var h := Mod(e.hash, |t|);
    PassedBelow(t, h, i);
    PassedBound(t, m, h, i);
  }

  lemma RemoveSize<K, V>(m: map<K, V>, k: K)
    ensures k in m ==> |m - {k}| == |m| - 1
  {
    assert (m - {k}).Keys == m.Keys - {k};
  }

  lemma AddSize<K, V>(m: map<K, V>, k: K, v: V)
    ensures |m[k := v]| == if k in m then |m| else |m| + 1
  {
    assert m[k := v].Keys == m.Keys + {k};
  }

  // An insertion loop at work: the table together with the entry in flight
  // holds m1, and the empty bucket at z still lies ahead.
  ghost predicate Inserting<K(!new), V>(t: Table<K, V>, hash: K -> nat, m1: map<K, V>, j: nat, e: Bucket<K, V>, z: nat)
  {
    && Good(t, hash) && j < |t| && z < |t| && t[z].Empty?
    && InFlight(t, hash, j, e)
    && e.key in m1 && m1[e.key] == e.val && Holds(t, m1 - {e.key})
  }

  lemma StartInsert<K(!new), V>(t: Table<K, V>, m: map<K, V>, hash: K -> nat, e: Bucket<K, V>) returns (z: nat)
    requires Good(t, hash) && Holds(t, m) && |m| < |t|
    requires e.Full? && e.dib == 1 && e.hash == ClipHash(hash(e.key)) && e.key !in m
    ensures Inserting(t, hash, m[e.key := e.val], Mod(e.hash, |t|), e, z)
  {
    HoldsFulls(t, m);
    z := SomeEmpty(t);
    AddSize(m, e.key, e.val);
    assert m[e.key := e.val] - {e.key} == m;
  }

  // What happens at an occupied bucket: the entry nearer to its home gives way.
  ghost function Turn<K, V>(t: Table<K, V>, i: nat, e: Bucket<K, V>): (r: (Table<K, V>, Bucket<K, V>))
    requires i < |t| && t[i].Full? && e.Full?
    ensures |r.0| == |t| && r.1.Full?
  {
    if t[i].dib < e.dib then (t[i := e], t[i]) else (t, e)
  }

  // The table that the insertion loop leaves behind, and whether the distance
  // field stayed within its 16 bits on the way.
  ghost function Landed<K, V>(t: Table<K, V>, i: nat, e: Bucket<K, V>, turns: nat): (r: Table<K, V>)
    requires i < |t| && e.Full?
    ensures |r| == |t|
    decreases turns
  {
    if t[i].Empty? || turns == 0 then t[i := Stored(e)]
    else
      var (t', e') := Turn(t, i, e);
      Landed(t', Next(i, |t|), e'.(dib := Inc(e'.dib)), turns - 1)
  }

  ghost predicate NoWrap<K, V>(t: Table<K, V>, i: nat, e: Bucket<K, V>, turns: nat)
    requires i < |t| && e.Full?
    decreases turns
  {
    t[i].Full? && turns > 0 ==>
      var (t', e') := Turn(t, i, e);
      e'.dib < 65535 && NoWrap(t', Next(i, |t|), e'.(dib := Inc(e'.dib)), turns - 1)
  }

  // A turn keeps the table in order, and the loser is in flight at its place.
  lemma TurnKeeps<K(!new), V>(t: Table<K, V>, hash: K -> nat, m1: map<K, V>, j: nat, e: Bucket<K, V>, z: nat)
    requires Inserting(t, hash, m1, j, e, z) && t[j].Full?
    ensures var (t', e') := Turn(t, j, e);
            && Good(t', hash) && Holds(t', m1 - {e'.key}) && t'[z].Empty?
            && InFlight(t', hash, j, e') && t'[j].Full? && D(t'[j]) >= D(e')
            && e'.key in m1 && m1[e'.key] == e'.val && |m1 - {e'.key}| == |m1| - 1
  {
    PutContents(t, m1, j, e);
    RemoveSize(m1, Turn(t, j, e).1.key);
    hide Holds;
    if D(t[j]) < D(e) {
      Put(t, hash, j, e);
    }
  }

  // One turn of the loop: either the entry is stored for good, or the loop goes
  // on one position further with whichever of the two entries lost.
  lemma InsertStep<K(!new), V>(t: Table<K, V>, hash: K -> nat, m1: map<K, V>, j: nat, e: Bucket<K, V>, z: nat)
    requires Inserting(t, hash, m1, j, e, z)
    ensures t[j].Empty? ==> Good(t[j := e], hash) && Holds(t[j := e], m1)
    ensures t[j].Full? ==>
              var (t', e') := Turn(t, j, e);
              && (|m1| <= 65535 ==> e'.dib < 65535)
              && (e'.dib < 65535 ==> Inserting(t', hash, m1, Next(j, |t|), e'.(dib := Inc(e'.dib)), z))
              && Dist(Next(j, |t|), z, |t|) < Dist(j, z, |t|)
  {
    hide Good, Holds;
    if t[j].Empty? {
      PutContents(t, m1, j, e);
      Put(t, hash, j, e);
    } else {
      var (t', e') := Turn(t, j, e);
      TurnKeeps(t, hash, m1, j, e, z);
      StepBound(t', m1 - {e'.key}, hash, j, e');
      if e'.dib < 65535 {
        Displaced(t', hash, j, e'.(dib := Inc(e'.dib)), e', z);
      }
      NextDist(j, j, z, |t|);
    }
  }

  // While no distance wraps, insertion adds the entry and keeps the invariants;
  // it cannot wrap with up to 65535 entries, the new one included.
  lemma {:induction false} LandedGood<K(!new), V>(t: Table<K, V>, hash: K -> nat, m1: map<K, V>, j: nat,
      e: Bucket<K, V>, z: nat, turns: nat)
    requires Inserting(t, hash, m1, j, e, z) && turns >= Dist(j, z, |t|)
    ensures |m1| <= 65535 ==> NoWrap(t, j, e, turns)
    ensures NoWrap(t, j, e, turns) ==> Good(Landed(t, j, e, turns), hash) && Holds(Landed(t, j, e, turns), m1)
    decreases turns
  {
    hide Good, Holds;
    InsertStep(t, hash, m1, j, e, z);
    if t[j].Full? {
      var (t', e') := Turn(t, j, e);
      if e'.dib < 65535 {
        LandedGood(t', hash, m1, Next(j, |t|), e'.(dib := Inc(e'.dib)), z, turns - 1);
      }
    }
  }

  // The loop leaves alone what lies behind its empty bucket.
  lemma {:induction false} LandedAhead<K, V>(t: Table<K, V>, i: nat, e: Bucket<K, V>, z: nat, turns: nat, q: nat)
    requires i < |t| && z < |t| && q < |t| && e.Full? && t[z].Empty? && turns >= Dist(i, z, |t|)
    requires Dist(i, q, |t|) > Dist(i, z, |t|)
    ensures Landed(t, i, e, turns)[q] == t[q]
    decreases turns
  {
    if t[i].Full? && turns > 0 {
      var (t', e') := Turn(t, i, e);
      NextDist(i, i, z, |t|);
      NextDist(i, i, q, |t|);
      LandedAhead(t', Next(i, |t|), e'.(dib := Inc(e'.dib)), z, turns - 1, q);
    }
  }

  // An entry more than 65535 steps from its home is lost, or ends in a bucket
  // whose distance field is wrong.
  lemma {:induction false} Astray<K, V>(t: Table<K, V>, i: nat, e: Bucket<K, V>, z: nat, turns: nat)
    requires i < |t| && z < |t| && e.Full? && t[z].Empty? && turns >= Dist(i, z, |t|)
    requires forall q :: !At(t, q, e.key)
    requires var h := Mod(e.hash, |t|); 65535 <= Dist(h, i, |t|) <= Dist(h, z, |t|)
    ensures var r := Landed(t, i, e, turns); !AtHome(r) || forall q :: !At(r, q, e.key)
    decreases turns
  {
    var r := Landed(t, i, e, turns);
    if t[i].Full? && turns > 0 {
      var (t', e') := Turn(t, i, e);
      var next := e'.(dib := Inc(e'.dib));
      NextDist(i, i, z, |t|);
      if t[i].dib < e.dib {
        assert Next(i, |t|) != i && Dist(Next(i, |t|), i, |t|) == |t| - 1;
        if Dist(Next(i, |t|), z, |t|) < |t| - 1 {
          LandedAhead(t', Next(i, |t|), next, z, turns - 1, i);
        }
        assert r[i] == e;
      } else {
        NextDist(Mod(e.hash, |t|), i, z, |t|);
        Astray(t, Next(i, |t|), next, z, turns - 1);
      }
    } else if D(e) != 0 {
      assert r[i] == e && e.dib as int != Dist(Mod(e.hash, |t|), i, |t|) + 1;
    } else {
      forall q ensures !At(r, q, e.key) {
        assert !At(t, q, e.key);
      }
    }
  }

  lemma Missing<K(!new), V>(t: Table<K, V>, hash: K -> nat, m1: map<K, V>, i: nat, e: Bucket<K, V>, z: nat, turns: nat)
    requires i < |t| && z < |t| && e.Full? && t[z].Empty? && turns >= Dist(i, z, |t|)
    requires e.key in m1 && forall q :: !At(t, q, e.key)
    requires var h := Mod(e.hash, |t|); 65535 <= Dist(h, i, |t|) <= Dist(h, z, |t|)
    ensures !(Good(Landed(t, i, e, turns), hash) && Holds(Landed(t, i, e, turns), m1))
  {
    Astray(t, i, e, z, turns);
  }

  // Conversely a distance that wraps breaks the table.
  lemma {:induction false} WrapBreaks<K(!new), V>(t: Table<K, V>, hash: K -> nat, m1: map<K, V>, j: nat,
      e: Bucket<K, V>, z: nat, turns: nat)
    requires Inserting(t, hash, m1, j, e, z) && turns >= Dist(j, z, |t|) && !NoWrap(t, j, e, turns)
    ensures !(Good(Landed(t, j, e, turns), hash) && Holds(Landed(t, j, e, turns), m1))
    decreases turns
  {
    hide Good, Holds;
    InsertStep(t, hash, m1, j, e, z);
    var (t', e') := Turn(t, j, e);
    if e'.dib < 65535 {
      WrapBreaks(t', hash, m1, Next(j, |t|), e'.(dib := Inc(e'.dib)), z, turns - 1);
    } else {
      Loser(t, hash, m1, j, e, z);
      Missing(t', hash, m1, Next(j, |t|), e'.(dib := 0), z, turns - 1);
    }
  }

  // The entry that goes on from position j has the distance it should have.
  lemma Loser<K(!new), V>(t: Table<K, V>, hash: K -> nat, m1: map<K, V>, j: nat, e: Bucket<K, V>, z: nat)
    requires Inserting(t, hash, m1, j, e, z) && t[j].Full?
    ensures var (t', e') := Turn(t, j, e);
            var h := Mod(e'.hash, |t|);
            && e'.key in m1 && t'[z].Empty? && (forall q :: !At(t', q, e'.key))
            && e'.dib as int == Dist(h, Next(j, |t|), |t|) <= Dist(h, z, |t|)
            && Dist(Next(j, |t|), z, |t|) + 1 == Dist(j, z, |t|)
  {
    var (t', e') := Turn(t, j, e);
    TurnKeeps(t, hash, m1, j, e, z);
    assert forall q :: !At(t', q, e'.key);
    hide Holds;
    var h := Mod(e'.hash, |t|);
    if Dist(h, z, |t|) < Dist(h, j, |t|) {
      NoGap(t', h, j, z);
    }
    NextDist(h, j, z, |t|);
    NextDist(j, j, z, |t|);
  }

  lemma Replace<K(!new), V>(t: Table<K, V>, hash: K -> nat, m: map<K, V>, j: nat, v: V)
    requires Good(t, hash) && Holds(t, m) && j < |t| && t[j].Full?
    ensures Good(t[j := t[j].(val := v)], hash)
    ensures Holds(t[j := t[j].(val := v)], m[t[j].key := v])
  {
    var b := t[j].(val := v);
    var t', m' := t[j := b], m[b.key := v];
    forall k | k in m' ensures exists i :: At(t', i, k) {
      if k == b.key {
        assert At(t', j, k);
      } else {
        var i :| At(t, i, k);
        assert At(t', i, k);
      }
    }
  }

  // The insertion loop of hashmap_set_with_hash: as Landed, but it stops at a
  // bucket with the same key. The table it leaves and the item it returns.
  ghost function Placed<K, V>(t: Table<K, V>, i: nat, e: Bucket<K, V>, turns: nat): (r: (Table<K, V>, Option<V>))
    requires i < |t| && e.Full?
    ensures |r.0| == |t|
    decreases turns
  {
    if t[i].Empty? || turns == 0 then (t[i := Stored(e)], None)
    else if e.hash == t[i].hash && e.key == t[i].key then (t[i := t[i].(val := e.val)], Some(t[i].val))
    else
      var (t', e') := Turn(t, i, e);
      Placed(t', Next(i, |t|), e'.(dib := Inc(e'.dib)), turns - 1)
  }

  lemma TurnDistinct<K, V>(t: Table<K, V>, i: nat, e: Bucket<K, V>)
    requires i < |t| && t[i].Full? && e.Full? && Distinct(t) && forall q :: !At(t, q, e.key)
    ensures Distinct(Turn(t, i, e).0) && forall q :: !At(Turn(t, i, e).0, q, Turn(t, i, e).1.key)
  {
    assert forall q :: 0 <= q < |t| && t[q].Full? ==> At(t, q, t[q].key);
  }

  lemma {:induction false} PlacedNew<K, V>(t: Table<K, V>, i: nat, e: Bucket<K, V>, turns: nat)
    requires i < |t| && e.Full? && Distinct(t) && forall q :: !At(t, q, e.key)
    ensures Placed(t, i, e, turns) == (Landed(t, i, e, turns), None)
    decreases turns
  {
    if t[i].Full? && turns > 0 {
      assert !At(t, i, e.key);
      var (t', e') := Turn(t, i, e);
      TurnDistinct(t, i, e);
      PlacedNew(t', Next(i, |t|), e'.(dib := Inc(e'.dib)), turns - 1);
    }
  }

  // The loop while the key is stored at p: nothing is displaced before p.
  ghost predicate Seeking<K(!new), V>(t: Table<K, V>, hash: K -> nat, m: map<K, V>, j: nat, e: Bucket<K, V>, p: nat)
  {
    && Good(t, hash) && Holds(t, m) && j < |t|
    && e.Full? && At(t, p, e.key) && e.hash == ClipHash(hash(e.key))
    && var h := Mod(e.hash, |t|);
    && e.dib as int == Dist(h, j, |t|) + 1 && Dist(h, j, |t|) <= Dist(h, p, |t|)
  }

  lemma SeekStep<K(!new), V>(t: Table<K, V>, hash: K -> nat, m: map<K, V>, j: nat, e: Bucket<K, V>, p: nat)
    requires Seeking(t, hash, m, j, e, p)
    ensures t[j].Full? && t[j].dib >= e.dib && e.key in m
    ensures At(t, j, e.key) ==> t[j].hash == e.hash && m[e.key] == t[j].val
    ensures !At(t, j, e.key) ==>
              && e.dib < 65535
              && Seeking(t, hash, m, Next(j, |t|), e.(dib := Inc(e.dib)), p)
              && Dist(Next(j, |t|), p, |t|) < Dist(j, p, |t|)
  {
    hide Distinct, Ordered;
    NoGap(t, Mod(e.hash, |t|), p, j);
    if !At(t, j, e.key) {
      NextDist(Mod(e.hash, |t|), j, p, |t|);
    }
  }

  lemma {:induction false} PlacedOld<K(!new), V>(t: Table<K, V>, hash: K -> nat, m: map<K, V>, j: nat,
      e: Bucket<K, V>, p: nat, turns: nat)
    requires Seeking(t, hash, m, j, e, p) && turns > Dist(j, p, |t|)
    ensures e.key in m
    ensures var r := Placed(t, j, e, turns);
            r.1 == Some(m[e.key]) && Good(r.0, hash) && Holds(r.0, m[e.key := e.val])
    decreases turns
  {
    hide Good, Holds;
    SeekStep(t, hash, m, j, e, p);
    if At(t, j, e.key) {
      Replace(t, hash, m, j, e.val);
    } else {
      PlacedOld(t, hash, m, Next(j, |t|), e.(dib := Inc(e.dib)), p, turns - 1);
    }
  }

  // The entry that hashmap_set puts together, and the bucket it starts from.
  ghost function Entry<K, V>(hash: K -> nat, key: K, val: V): (e: Bucket<K, V>)
    ensures e.Full?
  {
    Full(ClipHash(hash(key)), 1, key, val)
  }

  ghost function Home<K, V>(t: Table<K, V>, e: Bucket<K, V>): (i: nat)
    requires |t| > 0 && e.Full?
    ensures i < |t|
  {
    Mod(e.hash, |t|)
  }

  // What setting a key makes of a table and what it returns.
  ghost function Setting<K, V>(t: Table<K, V>, hash: K -> nat, key: K, val: V): (r: (Table<K, V>, Option<V>))
    requires |t| > 0
    ensures |r.0| == |t|
  {
    var e := Entry(hash, key, val);
    Placed(t, Home(t, e), e, |t|)
  }

  // No distance leaves the 16 bits of its field when this new key is set.
  ghost predicate Fits<K, V>(t: Table<K, V>, hash: K -> nat, key: K, val: V)
    requires |t| > 0
  {
    var e := Entry(hash, key, val);
    NoWrap(t, Home(t, e), e, |t|)
  }

  // Setting a stored key always works; setting a new one works if and only if
  // no distance wraps, which up to 65535 entries it cannot.
  lemma SettingWorks<K(!new), V>(t: Table<K, V>, hash: K -> nat, m: map<K, V>, key: K, val: V)
    requires Good(t, hash) && Holds(t, m) && |m| < |t|
    ensures Setting(t, hash, key, val).1 == Lookup(m, key)
    ensures var r := Setting(t, hash, key, val).0;
            Good(r, hash) && Holds(r, m[key := val]) <==> key in m || Fits(t, hash, key, val)
    ensures key !in m && |m| < 65535 ==> Fits(t, hash, key, val)
  {
    hide Good, NoWrap, Landed, Placed;
    var e := Entry(hash, key, val);
    if key in m {
      var p :| At(t, p, key);
      hide Holds;
      PlacedOld(t, hash, m, Home(t, e), e, p, |t|);
    } else {
      assert forall q :: !At(t, q, key);
      assert Distinct(t);
      hide Holds;
      var z := StartInsert(t, m, hash, e);
      AddSize(m, key, val);
      PlacedNew(t, Home(t, e), e, |t|);
      LandedGood(t, hash, m[key := val], Home(t, e), e, z, |t|);
      if !Fits(t, hash, key, val) {
        WrapBreaks(t, hash, m[key := val], Home(t, e), e, z, |t|);
      }
    }
  }

  lemma SettingFulls<K, V>(t: Table<K, V>, hash: K -> nat, key: K, val: V)
    requires |t| > 0
    ensures var r := Setting(t, hash, key, val);
            Fulls(r.0) <= Fulls(t) + if r.1 == None then 1 else 0
  {
    var e := Entry(hash, key, val);
    PlacedFulls(t, Home(t, e), e, |t|);
  }

  lemma {:induction false} PlacedFulls<K, V>(t: Table<K, V>, i: nat, e: Bucket<K, V>, turns: nat)
    requires i < |t| && e.Full?
    ensures var r := Placed(t, i, e, turns);
            Fulls(r.0) <= Fulls(t) + if r.1 == None then 1 else 0
    decreases turns
  {
    if t[i].Empty? || turns == 0 {
      FullsPut(t, i, Stored(e));
    } else if e.hash == t[i].hash && e.key == t[i].key {
      FullsPut(t, i, t[i].(val := e.val));
    } else {
      var (t', e') := Turn(t, i, e);
      FullsPut(t, i, e);
      PlacedFulls(t', Next(i, |t|), e'.(dib := Inc(e'.dib)), turns - 1);
    }
  }

  function Lookup<K, V>(m: map<K, V>, k: K): (r: Option<V>)
  {
    if k in m then Some(m[k]) else None
  }

  // The backward shift at work: apart from the hole the table is in order and
  // holds m, and the bucket after the hole may follow two steps behind.
  ghost predicate Shifting<K(!new), V>(t: Table<K, V>, hash: K -> nat, m: map<K, V>, hole: nat, z: nat)
  {
    && |t| > 1 && AtHome(t) && Hashed(t, hash) && Holds(t, m)
    && hole < |t| && z < |t| && t[hole].Empty? && t[z].Empty? && hole != z
    && (forall i :: 0 <= i < |t| && i != hole ==> D(t[Next(i, |t|)]) <= D(t[i]) + 1)
    && D(t[Next(hole, |t|)]) <= D(t[Prev(hole, |t|)]) + 2
  }

  lemma Emptied<K(!new), V>(t: Table<K, V>, m: map<K, V>, j: nat)
    requires Holds(t, m) && j < |t| && t[j].Full?
    ensures Holds(t[j := Empty], m - {t[j].key})
  {
    var t' := t[j := Empty];
    forall k | k in m - {t[j].key} ensures exists i :: At(t', i, k) {
      var i :| At(t, i, k);
      assert At(t', i, k);
    }
  }

  lemma EmptiedOrder<K, V>(t: Table<K, V>, j: nat)
    requires Ordered(t) && j < |t|
    ensures var t' := t[j := Empty];
            && (forall i :: 0 <= i < |t| && i != j ==> D(t'[Next(i, |t|)]) <= D(t'[i]) + 1)
            && D(t'[Next(j, |t|)]) <= D(t'[Prev(j, |t|)]) + 2
  {
    var t' := t[j := Empty];
    forall i | 0 <= i < |t| && i != j ensures D(t'[Next(i, |t|)]) <= D(t'[i]) + 1 {
      assert D(t[Next(i, |t|)]) <= D(t[i]) + 1;
    }
    assert D(t[Next(j, |t|)]) <= D(t[j]) + 1;
    var p := Prev(j, |t|);
    assert D(t[Next(p, |t|)]) <= D(t[p]) + 1;
    if p == j { assert |t| == 1; }
  }

  lemma StartShift<K(!new), V>(t: Table<K, V>, hash: K -> nat, m: map<K, V>, j: nat) returns (z: nat)
    requires Good(t, hash) && Holds(t, m) && |m| < |t| && j < |t| && t[j].Full?
    ensures z < |t| && Shifting(t[j := Empty], hash, m - {t[j].key}, j, z)
  {
    hide Holds, Ordered;
    HoldsFulls(t, m);
    z := SomeEmpty(t);
    Emptied(t, m, j);
    EmptiedOrder(t, j);
  }

  // The bucket after the hole, moved into the hole.
  ghost function Shifted<K, V>(t: Table<K, V>, hole: nat): Table<K, V>
    requires hole < |t| && t[Next(hole, |t|)].Full? && t[Next(hole, |t|)].dib > 1
  {
    var i := Next(hole, |t|);
    t[hole := t[i].(dib := t[i].dib - 1)][i := Empty]
  }

  lemma ShiftContents<K(!new), V>(t: Table<K, V>, m: map<K, V>, hole: nat)
    requires Holds(t, m) && hole < |t| && t[hole].Empty?
    requires t[Next(hole, |t|)].Full? && t[Next(hole, |t|)].dib > 1
    ensures Holds(Shifted(t, hole), m)
  {
    var i := Next(hole, |t|);
    var t' := Shifted(t, hole);
    forall k | k in m ensures exists q :: At(t', q, k) {
      var q :| At(t, q, k);
      assert if q == i then At(t', hole, k) else At(t', q, k);
    }
  }

  lemma ShiftHome<K(!new), V>(t: Table<K, V>, hash: K -> nat, hole: nat)
    requires AtHome(t) && Hashed(t, hash) && hole < |t| && t[hole].Empty?
    requires t[Next(hole, |t|)].Full? && t[Next(hole, |t|)].dib > 1
    ensures AtHome(Shifted(t, hole)) && Hashed(Shifted(t, hole), hash)
  {
    var i := Next(hole, |t|);
    var h := Mod(t[i].hash, |t|);
    assert Dist(h, i, |t|) == Dist(h, hole, |t|) + 1;
  }

  lemma ShiftOrder<K(!new), V>(t: Table<K, V>, hash: K -> nat, m: map<K, V>, hole: nat, z: nat)
    requires Shifting(t, hash, m, hole, z)
    requires t[Next(hole, |t|)].Full? && t[Next(hole, |t|)].dib > 1
    ensures var t', i := Shifted(t, hole), Next(hole, |t|);
            && (forall q :: 0 <= q < |t| && q != i ==> D(t'[Next(q, |t|)]) <= D(t'[q]) + 1)
            && D(t'[Next(i, |t|)]) <= D(t'[Prev(i, |t|)]) + 2
  {
    var t', i := Shifted(t, hole), Next(hole, |t|);
    forall q | 0 <= q < |t| && q != i ensures D(t'[Next(q, |t|)]) <= D(t'[q]) + 1 {
      if q != hole {
        assert D(t[Next(q, |t|)]) <= D(t[q]) + 1;
        if Next(q, |t|) == hole { assert q == Prev(hole, |t|); }
      }
    }
    assert D(t[Next(i, |t|)]) <= D(t[i]) + 1;
    assert Prev(i, |t|) == hole;
  }

  lemma ShiftStep<K(!new), V>(t: Table<K, V>, hash: K -> nat, m: map<K, V>, hole: nat, z: nat)
    requires Shifting(t, hash, m, hole, z)
    ensures Next(hole, |t|) != hole && t[hole].Empty?
    ensures var i := Next(hole, |t|);
            if D(t[i]) <= 1 then Good(t, hash) && Holds(t, m)
            else Shifting(Shifted(t, hole), hash, m, i, z) && Dist(i, z, |t|) < Dist(hole, z, |t|)
  {
    hide Holds, Hashed, AtHome;
    if D(t[Next(hole, |t|)]) > 1 {
      ShiftContents(t, m, hole);
      ShiftHome(t, hash, hole);
      ShiftOrder(t, hash, m, hole, z);
      NextDist(hole, hole, z, |t|);
    } else {
      ShiftEnds(t, hash, m, hole, z);
    }
  }

  lemma ShiftEnds<K(!new), V>(t: Table<K, V>, hash: K -> nat, m: map<K, V>, hole: nat, z: nat)
    requires Shifting(t, hash, m, hole, z) && D(t[Next(hole, |t|)]) <= 1
    ensures Good(t, hash)
  {
  }

  // A lookup at work: no bucket passed since the home position holds the key,
  // and the empty bucket at z still lies ahead.
  ghost predicate Probing<K(!new), V>(t: Table<K, V>, hash: K -> nat, key: K, i: nat, z: nat)
  {
    && i < |t| && z < |t| && t[z].Empty?
    && var h := Mod(ClipHash(hash(key)), |t|);
    && Dist(h, i, |t|) <= Dist(h, z, |t|)
    && forall q :: 0 <= q < |t| && Dist(h, q, |t|) < Dist(h, i, |t|) ==> !At(t, q, key)
  }

  lemma ProbeStep<K(!new), V>(t: Table<K, V>, m: map<K, V>, hash: K -> nat, key: K, i: nat, z: nat)
    requires Good(t, hash) && Holds(t, m) && Probing(t, hash, key, i, z)
    ensures i < |t|
    ensures t[i].Empty? ==> key !in m
    ensures At(t, i, key) ==> t[i].hash == ClipHash(hash(key)) && key in m && m[key] == t[i].val
    ensures t[i].Full? && !At(t, i, key)
            ==> Probing(t, hash, key, Next(i, |t|), z) && Dist(Next(i, |t|), z, |t|) < Dist(i, z, |t|)
  {
    if t[i].Empty? {
      ProbeMiss(t, m, hash, key, i);
    } else if !At(t, i, key) {
      var h := Mod(ClipHash(hash(key)), |t|);
      NextDist(h, i, z, |t|);
      forall q | 0 <= q < |t| && Dist(h, q, |t|) < Dist(h, Next(i, |t|), |t|) ensures !At(t, q, key) {
        if Dist(h, q, |t|) == Dist(h, i, |t|) { DistInjective(h, q, i, |t|); }
      }
    }
  }

  lemma EntryHash<K(!new), V>(t: Table<K, V>, hash: K -> nat, i: nat)
    requires Good(t, hash) && i < |t| && t[i].Full?
    ensures t[i].hash == ClipHash(hash(t[i].key))
  {
  }

  lemma NoEntries<K(!new), V>(t: Table<K, V>, hash: K -> nat)
    requires |t| > 1 && forall i :: 0 <= i < |t| ==> t[i].Empty?
    ensures Good(t, hash) && Holds(t, map[])
  {
  }

  lemma CopyDone<K(!new), V>(t: Table<K, V>, m: map<K, V>, all: map<K, V>)
    requires Holds(t, all) && Copied(t, |t|, m, all)
    ensures m == all
  {
    forall k | k in all ensures k in m {
      var i :| At(t, i, k);
    }
  }

  // The insertion loop adds at most one occupied bucket.
  lemma {:induction false} LandedFulls<K, V>(t: Table<K, V>, i: nat, e: Bucket<K, V>, turns: nat)
    requires i < |t| && e.Full?
    ensures Fulls(Landed(t, i, e, turns)) <= Fulls(t) + 1
    decreases turns
  {
    if t[i].Empty? || turns == 0 {
      FullsPut(t, i, Stored(e));
    } else {
      var (t', e') := Turn(t, i, e);
      FullsPut(t, i, e);
      LandedFulls(t', Next(i, |t|), e'.(dib := Inc(e'.dib)), turns - 1);
    }
  }

  ghost function Blank<K, V>(n: nat): (t: Table<K, V>)
    ensures |t| == n && forall i :: 0 <= i < n ==> t[i].Empty?
  {
    seq(n, _ => Empty)
  }

  // The loop of resize0: the first i buckets of t landed in a blank table of n.
  ghost function Rehashed<K, V>(t: Table<K, V>, i: nat, n: nat): (r: Table<K, V>)
    requires i <= |t| && n > 0
    ensures |r| == n
  {
    if i == 0 then Blank(n)
    else
      var r := Rehashed(t, i - 1, n);
      if t[i - 1].Empty? then r
      else
        var e := t[i - 1].(dib := 1);
        Landed(r, Home(r, e), e, n)
  }

  ghost predicate RehashFits<K, V>(t: Table<K, V>, i: nat, n: nat)
    requires i <= |t| && n > 0
  {
    i > 0 ==>
      && RehashFits(t, i - 1, n)
      && (t[i - 1].Full? ==>
            var r, e := Rehashed(t, i - 1, n), t[i - 1].(dib := 1);
            NoWrap(r, Home(r, e), e, n))
  }

  lemma {:induction false} RehashedFulls<K, V>(t: Table<K, V>, i: nat, n: nat)
    requires i <= |t| && n > 0
    ensures Fulls(Rehashed(t, i, n)) <= Fulls(t[..i])
  {
    if i == 0 {
      FullsNone<K, V>(Blank(n));
    } else {
      RehashedFulls(t, i - 1, n);
      assert t[..i][..i - 1] == t[..i - 1];
      if t[i - 1].Full? {
        var r, e := Rehashed(t, i - 1, n), t[i - 1].(dib := 1);
        LandedFulls(r, Home(r, e), e, n);
      }
    }
  }

  // m holds the entries of the first i buckets of t.
  ghost predicate Copied<K(!new), V>(t: Table<K, V>, i: nat, m: map<K, V>, all: map<K, V>)
  {
    && (forall k :: k in m ==> k in all && m[k] == all[k])
    && (forall k :: k in m ==> exists q :: q < i && At(t, q, k))
    && (forall q :: 0 <= q < i && q < |t| && t[q].Full? ==> t[q].key in m)
  }

  lemma CopyStep<K(!new), V>(t: Table<K, V>, i: nat, m: map<K, V>, all: map<K, V>)
    requires Holds(t, all) && i < |t| && Copied(t, i, m, all)
    ensures t[i].Full? ==> t[i].key !in m && Copied(t, i + 1, m[t[i].key := t[i].val], all)
    ensures t[i].Empty? ==> Copied(t, i + 1, m, all)
  {
    if t[i].Full? {
      assert At(t, i, t[i].key);
      forall q | q < i ensures !At(t, q, t[i].key) {}
    }
  }

  lemma CopySize<K(!new), V>(t: Table<K, V>, i: nat, m: map<K, V>, all: map<K, V>)
    requires Copied(t, i, m, all)
    ensures |m| <= |all|
  {
    SubsetSize(m.Keys, all.Keys);
  }

  // Rehashing keeps the map while no distance wraps, as with up to 65535 entries.
  lemma {:induction false} RehashCopies<K(!new), V>(t: Table<K, V>, hash: K -> nat, all: map<K, V>, i: nat, n: nat)
    returns (m: map<K, V>)
    requires Good(t, hash) && Holds(t, all) && i <= |t| && 1 < n && |all| < n
    ensures |all| <= 65535 ==> RehashFits(t, i, n)
    ensures Copied(t, i, m, all)
    ensures RehashFits(t, i, n) ==> Good(Rehashed(t, i, n), hash) && Holds(Rehashed(t, i, n), m)
  {
    hide Good, Holds, Copied, NoWrap, Landed;
    if i == 0 {
      m := map[];
      NoCopies(t, all);
      NoEntries<K, V>(Blank(n), hash);
    } else {
      m := RehashCopies(t, hash, all, i - 1, n);
      CopyStep(t, i - 1, m, all);
      if t[i - 1].Full? {
        var r, e := Rehashed(t, i - 1, n), t[i - 1].(dib := 1);
        EntryHash(t, hash, i - 1);
        AddSize(m, e.key, e.val);
        CopySize(t, i, m[e.key := e.val], all);
        if RehashFits(t, i - 1, n) {
          var z := StartInsert(r, m, hash, e);
          LandedGood(r, hash, m[e.key := e.val], Home(r, e), e, z, n);
        }
        m := m[e.key := e.val];
      }
    }
  }

  lemma NoCopies<K(!new), V>(t: Table<K, V>, all: map<K, V>)
    ensures Copied(t, 0, map[], all)
  {
  }

  // Rehashing all of a good table into n buckets.
  lemma RehashWorks<K(!new), V>(t: Table<K, V>, hash: K -> nat, m: map<K, V>, n: nat)
    requires Good(t, hash) && Holds(t, m) && 1 < n && |m| < n
    ensures Fulls(Rehashed(t, |t|, n)) <= |m|
    ensures |m| <= 65535 ==> RehashFits(t, |t|, n)
    ensures RehashFits(t, |t|, n) ==> Good(Rehashed(t, |t|, n), hash) && Holds(Rehashed(t, |t|, n), m)
  {
    hide Good, Holds, Copied;
    var m' := RehashCopies(t, hash, m, |t|, n);
    CopyDone(t, m', m);
    RehashedFulls(t, |t|, n);
    assert t[..|t|] == t;
    HoldsFulls(t, m);
  }

  // The bucket a lookup ends at: the first on its way with this key, or empty.
  ghost function Seek<K, V>(t: Table<K, V>, i: nat, h: nat, key: K, turns: nat): (p: nat)
    requires i < |t|
    ensures p < |t|
    decreases turns
  {
    if turns == 0 || t[i].Empty? || (t[i].hash == h && t[i].key == key) then i
    else Seek(t, Next(i, |t|), h, key, turns - 1)
  }

  lemma {:induction false} SeekOn<K(!new), V>(t: Table<K, V>, m: map<K, V>, hash: K -> nat, key: K, i: nat, z: nat,
      turns: nat)
    requires Good(t, hash) && Holds(t, m) && Probing(t, hash, key, i, z) && turns >= Dist(i, z, |t|)
    ensures var p := Seek(t, i, ClipHash(hash(key)), key, turns);
            if key in m then At(t, p, key) && t[p].val == m[key] else t[p].Empty?
    decreases turns
  {
    hide Good, Holds;
    ProbeStep(t, m, hash, key, i, z);
    if t[i].Full? && !At(t, i, key) {
      SeekOn(t, m, hash, key, Next(i, |t|), z, turns - 1);
    }
  }

  // A lookup finds the key exactly when it is there.
  lemma SeekFinds<K(!new), V>(t: Table<K, V>, m: map<K, V>, hash: K -> nat, key: K)
    requires Good(t, hash) && Holds(t, m) && |m| < |t|
    ensures var h := ClipHash(hash(key));
            var p := Seek(t, Mod(h, |t|), h, key, |t|);
            if key in m then At(t, p, key) && t[p].val == m[key] else t[p].Empty?
  {
    hide Good, Holds;
    HoldsFulls(t, m);
    var z := SomeEmpty(t);
    SeekOn(t, m, hash, key, Mod(ClipHash(hash(key)), |t|), z, |t|);
  }

  // (i + 1) & mask
  method Advance(i: nat, mask: nat) returns (j: nat)
    requires IsPow2(mask + 1) && i <= mask
    ensures j == Next(i, mask + 1)
  {
    j := Masked(i + 1, mask);
    assert i == mask ==> Mod(i + 1, mask + 1) == Mod(0, mask + 1);
  }

  // nbuckets * (loadfactor / 100.0), rounded down
  function LoadLimit(n: nat, percent: nat): (g: nat)
    ensures n > 0 && percent < 100 ==> g < n
  {
    LoadBelow(n, percent);
    n * percent / 100
  }

  lemma LoadBelow(n: nat, percent: nat)
    ensures n > 0 && percent < 100 ==> n * percent / 100 < n
  {
    if n > 0 && percent < 100 {
      assert n * percent <= n * 99;
    }
  }

  // The entries in bucket order.
  function Items<K, V>(t: Table<K, V>): (items: seq<(K, V)>)
  {
    if t == [] then []
    else
      var b := t[|t| - 1];
      Items(t[..|t| - 1]) + if b.Full? then [(b.key, b.val)] else []
  }

  ghost predicate Lists<K, V>(items: seq<(K, V)>, k: K)
  {
    exists j :: 0 <= j < |items| && items[j].0 == k
  }

  lemma {:induction false} ItemsAre<K(!new), V>(t: Table<K, V>)
    requires Distinct(t)
    ensures forall i :: 0 <= i < |t| && t[i].Full? ==> Lists(Items(t), t[i].key)
    ensures forall j :: 0 <= j < |Items(t)| ==> exists i :: At(t, i, Items(t)[j].0) && t[i].val == Items(t)[j].1
    ensures forall i, j :: 0 <= i < j < |Items(t)| ==> Items(t)[i].0 != Items(t)[j].0
  {
    if t != [] {
      var n := |t| - 1;
      var t', b := t[..n], t[n];
      ItemsAre(t');
      var items := Items(t);
      forall j | 0 <= j < |items| ensures exists i :: At(t, i, items[j].0) && t[i].val == items[j].1 {
        if j < |Items(t')| {
          var i :| At(t', i, Items(t')[j].0) && t'[i].val == Items(t')[j].1;
          assert At(t, i, items[j].0);
        } else {
          assert At(t, n, items[j].0);
        }
      }
      forall i | 0 <= i < |t| && t[i].Full? ensures Lists(items, t[i].key) {
        if i < n {
          assert Lists(Items(t'), t'[i].key);
          var j :| 0 <= j < |Items(t')| && Items(t')[j].0 == t[i].key;
          assert items[j].0 == t[i].key;
        } else {
          assert items[|items| - 1].0 == t[i].key;
        }
      }
      forall i, j | 0 <= i < j < |items| ensures items[i].0 != items[j].0 {
        if j == |Items(t')| {
          var q :| At(t', q, Items(t')[i].0);
          assert t[q].key != t[n].key;
        }
      }
    }
  }

  lemma ItemsHold<K(!new), V>(t: Table<K, V>, m: map<K, V>)
    requires Holds(t, m)
    ensures forall k :: k in m <==> Lists(Items(t), k)
    ensures forall j :: 0 <= j < |Items(t)| ==> Items(t)[j].0 in m && m[Items(t)[j].0] == Items(t)[j].1
    ensures forall i, j :: 0 <= i < j < |Items(t)| ==> Items(t)[i].0 != Items(t)[j].0
  {
    ItemsAre(t);
    forall k | k in m ensures Lists(Items(t), k) {
      var i :| At(t, i, k);
    }
  }

  // The insertion loop of resize0: no key comparison, the key is known absent.
  method Reinsert<K, V>(bs: array<Bucket<K, V>>, mask: nat, e: Bucket<K, V>)
    requires IsPow2(bs.Length) && mask == bs.Length - 1
    requires Fulls(bs[..]) < bs.Length && e.Full?
    modifies bs
    ensures var entry := e.(dib := 1);
            bs[..] == Landed(old(bs[..]), Mod(e.hash, bs.Length), entry, bs.Length)
  {
    hide IsPow2, Fulls;
    var n := bs.Length;
    ghost var z := SomeEmpty(bs[..]);
    var entry := e.(dib := 1);
    var j := Masked(e.hash, mask);
    ghost var turns := n;
    ghost var end := Landed(bs[..], j, entry, turns);
    while true
      invariant 0 <= j < n && entry.Full? && bs[z].Empty? && Dist(j, z, n) <= turns
      invariant Landed(bs[..], j, entry, turns) == end
      decreases turns
    {
      var bucket := bs[j];
      ghost var t := bs[..];
      assert t[j] == bucket;
      if bucket.Empty? {
        bs[j] := Stored(entry);
        assert bs[..] == t[j := Stored(entry)];
        return;
      }
      NextDist(j, j, z, n);
      if bucket.dib < entry.dib {
        bs[j] := entry;
        assert bs[..] == t[j := entry];
        entry := bucket;
      }
      j := Advance(j, mask);
      entry := entry.(dib := Inc(entry.dib));
      turns := turns - 1;
    }
  }

  // The rehashing loop of resize0: reads the first n buckets of src into dst.
  method Rehash<K, V>(src: array<Bucket<K, V>>, n: nat, dst: array<Bucket<K, V>>, mask2: nat)
    requires src != dst && n <= src.Length && IsPow2(dst.Length) && mask2 == dst.Length - 1
    requires Fulls(src[..n]) < dst.Length && dst[..] == Blank(dst.Length)
    modifies dst
    ensures dst[..] == Rehashed(src[..n], n, dst.Length)
  {
    ghost var t := src[..n];
    var i := 0;
    while i < n
      invariant 0 <= i <= n && dst[..] == Rehashed(t, i, dst.Length)
    {
      var entry := src[i];
      assert entry == t[i];
      if entry.Full? {
        RehashedFulls(t, i, dst.Length);
        FullsPrefix(t, i);
        Reinsert(dst, mask2, entry);
      }
      i := i + 1;
    }
  }

  lemma FullsPrefix<K, V>(t: Table<K, V>, i: nat)
    requires i <= |t|
    ensures Fulls(t[..i]) <= Fulls(t)
  {
    hide Fulls;
    FullsJoin(t[..i], t[i..]);
    assert t == t[..i] + t[i..];
  }

  method Listed<K, V>(bs: array<Bucket<K, V>>, n: nat) returns (items: seq<(K, V)>)
    requires n <= bs.Length
    ensures items == Items(bs[..n])
  {
    items := [];
    var i := 0;
    while i < n
      invariant 0 <= i <= n && items == Items(bs[..i])
    {
      assert bs[..i + 1][..i] == bs[..i];
      if bs[i].Full? {
        items := items + [(bs[i].key, bs[i].val)];
      }
      i := i + 1;
    }
  }

  // memset(buckets, 0, ...)
  method EraseAll<K, V>(bs: array<Bucket<K, V>>, n: nat)
    requires n <= bs.Length
    modifies bs
    ensures forall j :: 0 <= j < n ==> bs[j].Empty?
  {
    var i := 0;
    while i < n
      invariant 0 <= i <= n && forall j :: 0 <= j < i ==> bs[j].Empty?
    {
      bs[i] := Empty;
      i := i + 1;
    }
  }

  // The probe loop shared by hashmap_get_with_hash and hashmap_delete_with_hash:
  // the bucket of the key, or the first empty one from its home position on.
  method Probe<K(==), V>(bs: array<Bucket<K, V>>, n: nat, mask: nat, h: nat, key: K) returns (i: nat)
    requires n <= bs.Length && IsPow2(n) && mask == n - 1 && Fulls(bs[..n]) < n
    ensures i == Seek(bs[..n], Mod(h, n), h, key, n)
    ensures bs[i].Full? ==> bs[i].key == key
  {
    hide IsPow2, Fulls;
    i := Masked(h, mask);
    ghost var t := bs[..n];
    ghost var z := SomeEmpty(t);
    ghost var turns := n;
    while true
      invariant 0 <= i < n && Dist(i, z, n) <= turns && Seek(t, i, h, key, turns) == Seek(t, Mod(h, n), h, key, n)
      decreases turns
    {
      var bucket := bs[i];
      assert bucket == t[i];
      if bucket.Empty? || (bucket.hash == h && bucket.key == key) {
        return;
      }
      NextDist(i, i, z, n);
      i := Advance(i, mask);
      turns := turns - 1;
    }
  }

  // The probe loop of hashmap_set_with_hash.
  method InsertLoop<K(==), V>(bs: array<Bucket<K, V>>, n: nat, mask: nat, e: Bucket<K, V>) returns (r: Option<V>)
    requires n <= bs.Length && IsPow2(n) && mask == n - 1 && e.Full? && Fulls(bs[..n]) < n
    modifies bs
    ensures (bs[..n], r) == Placed(old(bs[..n]), Mod(e.hash, n), e, n)
  {
    hide IsPow2, Fulls;
    ghost var z := SomeEmpty(bs[..n]);
    var entry := e;
    var i := Masked(entry.hash, mask);
    ghost var turns := n;
    ghost var end := Placed(bs[..n], i, entry, turns);
    while true
      invariant 0 <= i < n && entry.Full? && bs[z].Empty? && Dist(i, z, n) <= turns
      invariant Placed(bs[..n], i, entry, turns) == end
      decreases turns
    {
      var bucket := bs[i];
      ghost var t := bs[..n];
      assert t[i] == bucket;
      if bucket.Empty? {
        bs[i] := Stored(entry);
        assert bs[..n] == t[i := Stored(entry)];
        return None;
      }
      if entry.hash == bucket.hash && entry.key == bucket.key {
        bs[i] := bucket.(val := entry.val);
        assert bs[..n] == t[i := bucket.(val := entry.val)];
        return Some(bucket.val);
      }
      NextDist(i, i, z, n);
      if bucket.dib < entry.dib {
        bs[i] := entry;
        assert bs[..n] == t[i := entry];
        entry := bucket;
      }
      i := Advance(i, mask);
      entry := entry.(dib := Inc(entry.dib));
      turns := turns - 1;
    }
  }

  // The backward shift of hashmap_delete_with_hash: empties bucket `start` and
  // moves its successors back by one until one of them is at home or empty.
  method ShiftBack<K(==, !new), V>(hash: K -> nat, bs: array<Bucket<K, V>>, n: nat, mask: nat,
      start: nat, ghost all: map<K, V>)
    requires n <= bs.Length && IsPow2(n) && mask == n - 1 && start < n && bs[start].Full?
    requires Good(bs[..n], hash) && Holds(bs[..n], all) && |all| < n
    modifies bs
    ensures Good(bs[..n], hash) && Holds(bs[..n], all - {old(bs[start].key)})
  {
    hide Good, Holds, IsPow2, Shifting;
    ghost var t := bs[..n];
    ghost var m := all - {t[start].key};
    var i := start;
    ghost var z := StartShift(t, hash, all, i);
    bs[i] := Empty;
    assert bs[..n] == t[i := Empty];
    ghost var u := t[i := Empty];
    while true
      invariant 0 <= i < n && z < n && |u| == n && Shifting(u, hash, m, i, z)
      invariant forall j :: 0 <= j < n && j != i ==> bs[j] == u[j]
      decreases Dist(i, z, n)
    {
      ShiftStep(u, hash, m, i, z);
      var prev := i;
      i := Advance(i, mask);
      var bucket := bs[i];
      if bucket.Empty? || bucket.dib <= 1 {
        bs[prev] := Empty;
        assert bs[..n] == u;
        return;
      }
      bs[prev] := bucket.(dib := bucket.dib - 1);
      u := Shifted(u, prev);
    }
  }
}

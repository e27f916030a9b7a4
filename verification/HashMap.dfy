/** The hash map of gumbo-parser/src/hashmap.c, refined to a finite map over every
    run of calls. */
module HashMaps {
  import opened Masks
  import opened RobinHood

  // One call on the map, as a caller sees it.
  datatype Call<K, V> =
    | CallSet(key: K, val: V, allocOk: bool)
    | CallGet(key: K)
    | CallDelete(key: K, allocOk: bool)
    | CallClear(updateCap: bool, allocOk: bool)

  datatype Reply<V> = Reply(item: Option<V>, oom: bool)

  // What a finite map would answer; only a set may fail, and only for memory.
  ghost predicate Answers<K(!new), V>(m: map<K, V>, c: Call<K, V>, r: Reply<V>, m': map<K, V>)
  {
    match c
    case CallSet(k, v, allocOk) =>
      if r.oom then !allocOk && r.item == None && m' == m
      else r.item == Lookup(m, k) && m' == m[k := v]
    case CallGet(k) => r == Reply(Lookup(m, k), false) && m' == m
    case CallDelete(k, _) => r == Reply(Lookup(m, k), false) && m' == m - {k}
    case CallClear(_, _) => r == Reply(None, false) && m' == map[]
  }

  ghost predicate Follows<K(!new), V(!new)>(m: map<K, V>, calls: seq<Call<K, V>>, replies: seq<Reply<V>>, m': map<K, V>)
    requires |calls| == |replies|
  {
    if calls == [] then m' == m
    else
      var n := |calls| - 1;
      exists mid :: Follows(m, calls[..n], replies[..n], mid) && Answers(mid, calls[n], replies[n], m')
  }

  // The keys a map has after a call that did not run out of memory.
  ghost function KeysAfter<K, V>(keys: set<K>, c: Call<K, V>): (r: set<K>)
  {
    match c
    case CallSet(k, _, _) => keys + {k}
    case CallGet(_) => keys
    case CallDelete(k, _) => keys - {k}
    case CallClear(_, _) => {}
  }

  // No call that may move entries leaves more than 65535 of them.
  ghost predicate Within<K, V>(keys: set<K>, calls: seq<Call<K, V>>)
    decreases |calls|
  {
    calls != [] ==>
      && (calls[0].CallSet? || calls[0].CallDelete? ==> |KeysAfter(keys, calls[0])| <= 65535)
      && Within(KeysAfter(keys, calls[0]), calls[1..])
  }

  lemma Roomier<K, V>(keys: set<K>, more: set<K>, c: Call<K, V>)
    requires keys <= more
    ensures |KeysAfter(keys, c)| <= |KeysAfter(more, c)|
  {
    SubsetSize(KeysAfter(keys, c), KeysAfter(more, c));
  }

  lemma WithinStep<K(!new), V(!new)>(m: map<K, V>, keys: set<K>, c: Call<K, V>, r: Reply<V>, m': map<K, V>)
    requires m.Keys <= keys && Answers(m, c, r, m')
    ensures m'.Keys <= KeysAfter(keys, c)
  {
  }

  lemma {:induction false} Pow2Exact(n: nat, c: nat)
    requires IsPow2(n) && IsPow2(c) && c <= n && (n < 2 * c || n == c)
    ensures n == c
    decreases n
  {
    if c > 1 {
      Pow2Exact(n / 2, c / 2);
    }
  }
  // The smallest power of two from 16 up that holds the capacity asked for.
  method SizeFor(initialCap: nat) returns (ncap: nat)
    ensures IsPow2(ncap) && 16 <= ncap && initialCap <= ncap && (ncap == 16 || ncap < 2 * initialCap)
  {
    ncap := 16;
    assert IsPow2(16) by { assert IsPow2(8) by { assert IsPow2(4); } }
    while ncap < initialCap
      invariant IsPow2(ncap) && ncap >= 16
      invariant ncap == 16 || ncap < 2 * initialCap
    {
      ncap := ncap * 2;
    }
  }

  class HashMap<K(==, !new), V(!new)> {
    const hash: K -> nat
    var buckets: array<Bucket<K, V>>
    var nbuckets: nat
    var count: nat
    var mask: nat
    var cap: nat
    var growat: nat
    var shrinkat: nat
    var loadfactor: nat   // in percent
    var growpower: nat
    var oom: bool
    ghost var M: map<K, V>

    ghost function Slots(): (t: Table<K, V>)
      reads this, buckets
      requires nbuckets <= buckets.Length
    {
      buckets[..nbuckets]
    }

    ghost predicate Sizes()
      reads this, buckets
    {
      && IsPow2(nbuckets) && IsPow2(cap) && 16 <= cap <= nbuckets <= buckets.Length
      && mask == nbuckets - 1
      && growat < nbuckets && shrinkat == nbuckets / 10
      && 50 <= loadfactor <= 95 && 1 <= growpower <= 16
    }

    ghost predicate Valid()
      reads this, buckets
    {
      && Sizes()
      && count == |M| < nbuckets
      && Good(Slots(), hash) && Holds(Slots(), M)
    }

    // The table that hashmap_set works on, grown first at the threshold.
    ghost function Grown(): (t: Table<K, V>)
      reads this, buckets
      requires 0 < nbuckets <= buckets.Length
      ensures |t| > 0
    {
      if count >= growat then Rehashed(Slots(), nbuckets, nbuckets * Pow2(growpower)) else Slots()
    }

    ghost predicate GrowFits()
      reads this, buckets
      requires 0 < nbuckets <= buckets.Length
    {
      count >= growat ==> RehashFits(Slots(), nbuckets, nbuckets * Pow2(growpower))
    }

    constructor (hash: K -> nat, initialCap: nat)
      ensures Valid() && fresh(buckets) && this.hash == hash
      ensures M == map[] && !oom && cap == nbuckets == buckets.Length && nbuckets >= initialCap
      ensures nbuckets == 16 || nbuckets < 2 * initialCap
      ensures Slots() == Blank(nbuckets)
      ensures loadfactor == 60 && growpower == 1 && growat == LoadLimit(nbuckets, 60)
    {
      hide Good, Holds, LoadLimit, IsPow2;
      var ncap := SizeFor(initialCap);
      this.hash := hash;
      cap := ncap;
      nbuckets := ncap;
      mask := ncap - 1;
      buckets := new Bucket<K, V>[ncap](_ => Empty);
      count := 0;
      growpower := 1;
      loadfactor := 60;
      growat := LoadLimit(ncap, 60);
      shrinkat := ncap / 10;
      oom := false;
      M := map[];
      new;
      assert Slots() == Blank(nbuckets);
      NoEntries(Slots(), hash);
    }

    // Rehashes every entry into a fresh table; on allocation failure nothing
    // changes. The growth threshold restarts from the default load factor.
    method Resize0(newCap: nat, allocOk: bool) returns (ok: bool)
      requires Valid()
      requires IsPow2(newCap) && newCap >= cap && count < newCap
      modifies this
      ensures Sizes() && Fulls(Slots()) <= count && ok == allocOk && M == old(M) && count == old(count)
      ensures if ok then nbuckets == newCap && growat == LoadLimit(newCap, 60) && fresh(buckets)
              else nbuckets == old(nbuckets) && buckets == old(buckets) && growat == old(growat)
      ensures Slots() == if ok then Rehashed(old(Slots()), old(nbuckets), newCap) else old(Slots())
      ensures !ok || count <= 65535 || RehashFits(old(Slots()), old(nbuckets), newCap) ==> Valid()
      ensures cap == old(cap) && loadfactor == old(loadfactor) && growpower == old(growpower) && oom == old(oom)
    {
      hide Good, Holds, LoadLimit, IsPow2, Fulls, Rehashed, RehashFits;
      HoldsFulls(Slots(), M);
      if !allocOk { return false; }
      var map2 := new HashMap(hash, newCap);
      Pow2Exact(map2.nbuckets, newCap);
      var dst := map2.buckets;
      assert dst[..] == map2.Slots();
      ghost var t := Slots();
      Rehash(buckets, nbuckets, dst, map2.mask);
      RehashWorks(t, hash, M, newCap);
      buckets := dst;
      nbuckets := map2.nbuckets;
      mask := map2.mask;
      growat := map2.growat;
      shrinkat := map2.shrinkat;
      assert Slots() == dst[..];
      return true;
    }

    // hashmap_set: grows when the threshold is reached, then replaces the value
    // of a stored key or inserts the entry, displacing entries nearer to home.
    // The table is good afterwards if and only if no distance has wrapped.
    method Set(key: K, val: V, allocOk: bool) returns (r: Option<V>)
      requires Valid()
      modifies this, buckets
      ensures Sizes() && Fulls(Slots()) < nbuckets && (buckets == old(buckets) || fresh(buckets))
      ensures oom == (old(count) >= old(growat) && !allocOk)
      ensures oom ==> Valid() && r == None && M == old(M) && Slots() == old(Slots())
      ensures !oom ==> (Slots(), r) == Setting(old(Grown()), hash, key, val) && M == old(M)[key := val]
      ensures !oom ==> count == old(count) + if r == None then 1 else 0
      ensures !oom && old(GrowFits()) ==> r == Lookup(old(M), key)
      ensures !oom && old(GrowFits()) ==> (Valid() <==> key in old(M) || Fits(old(Grown()), hash, key, val))
      ensures |old(M).Keys + {key}| <= 65535 ==> Valid() && (oom || r == Lookup(old(M), key))
      ensures old(count) < old(growat) ==> growat == old(growat) && nbuckets == old(nbuckets)
      ensures cap == old(cap) && loadfactor == old(loadfactor) && growpower == old(growpower)
    {
      hide Good, Holds, IsPow2, Fulls, Setting, Fits, Rehashed, RehashFits, LoadLimit;
      oom := false;
      HoldsFulls(Slots(), M);
      SubsetSize(M.Keys, M.Keys + {key});
      ghost var m, t, fits := M, Grown(), GrowFits();
      if count >= growat {
        Pow2Times(nbuckets, growpower);
        var ok := Resize0(nbuckets * Pow2(growpower), allocOk);
        if !ok {
          oom := true;
          return None;
        }
      }
      AddSize(m, key, val);
      r := Insert(key, val);
    }

    method Insert(key: K, val: V) returns (r: Option<V>)
      requires Sizes() && Fulls(Slots()) <= count && count + 1 < nbuckets
      modifies this`count, this`M, buckets
      ensures Sizes() && Fulls(Slots()) < nbuckets && M == old(M)[key := val]
      ensures (Slots(), r) == Setting(old(Slots()), hash, key, val)
      ensures count == old(count) + if r == None then 1 else 0
      ensures old(Valid()) ==> r == Lookup(old(M), key)
      ensures old(Valid()) ==> (Valid() <==> key in old(M) || Fits(old(Slots()), hash, key, val))
      ensures old(Valid()) && |old(M)| < 65535 ==> Valid()
    {
      hide Good, Holds, IsPow2, Fulls, Fits;
      ghost var t := Slots();
      AddSize(M, key, val);
      if Valid() {
        SettingWorks(t, hash, M, key, val);
      }
      r := InsertLoop(buckets, nbuckets, mask, Full(ClipHash(hash(key)), 1, key, val));
      SettingFulls(t, hash, key, val);
      if r == None { count := count + 1; }
      M := M[key := val];
    }

    // hashmap_delete: empties the key's bucket, shifts its successors back
    // until one is at home, and halves the table when it has become sparse.
    method Delete(key: K, allocOk: bool) returns (r: Option<V>)
      requires Valid()
      modifies this, buckets
      ensures Sizes() && (buckets == old(buckets) || fresh(buckets)) && !oom
      ensures |old(M).Keys - {key}| <= 65535 ==> Valid()
      ensures !Valid() ==> allocOk && key in old(M) && count <= old(nbuckets) / 10
      ensures r == Lookup(old(M), key) && M == old(M) - {key}
      ensures cap == old(cap) && loadfactor == old(loadfactor) && growpower == old(growpower)
    {
      hide Good, Holds, IsPow2, Fulls, LoadLimit;
      oom := false;
      r := Remove(key);
      if r.Some? && nbuckets > cap && count <= shrinkat {
        Pow2Halves(nbuckets, cap);
        assert M.Keys == old(M).Keys - {key};
        var _ := Resize0(nbuckets / 2, allocOk);
      }
    }

    // The probe and shift loops of hashmap_delete_with_hash.
    method Remove(key: K) returns (r: Option<V>)
      requires Valid()
      modifies this`count, this`M, buckets
      ensures Valid() && M == old(M) - {key} && count <= old(count) && (r.Some? ==> count < old(count))
      ensures r == Lookup(old(M), key)
    {
      hide Good, Holds, IsPow2, Fulls;
      HoldsFulls(Slots(), M);
      SeekFinds(Slots(), M, hash, key);
      var i := Probe(buckets, nbuckets, mask, ClipHash(hash(key)), key);
      RemoveSize(M, key);
      if buckets[i].Empty? {
        assert M == M - {key};
        return None;
      }
      r := Some(buckets[i].val);
      ShiftBack(hash, buckets, nbuckets, mask, i, M);
      count := count - 1;
      M := M - {key};
    }

    method ResetBuckets(allocOk: bool)
      requires cap <= nbuckets <= buckets.Length
      modifies this`buckets, this`nbuckets
      ensures nbuckets == cap <= buckets.Length
      ensures buckets == old(buckets) || (fresh(buckets) && allocOk)
    {
      if allocOk {
        buckets := new Bucket<K, V>[cap](_ => Empty);
      }
      nbuckets := cap;
    }

    lemma SizeFacts()
      requires Sizes()
      ensures IsPow2(nbuckets) && IsPow2(cap) && 16 <= cap <= nbuckets <= buckets.Length
      ensures 50 <= loadfactor <= 95 && 1 <= growpower <= 16
    {
    }

    // hashmap_clear: drops every entry. When the reset capacity cannot be
    // allocated the old, larger bucket array stays in use for it.
    method Clear(updateCap: bool, allocOk: bool)
      requires Valid()
      modifies this, buckets
      ensures Valid() && M == map[] && oom == old(oom)
      ensures nbuckets == if updateCap then old(nbuckets) else old(cap)
      ensures cap == nbuckets && growat == LoadLimit(nbuckets, loadfactor)
      ensures buckets == old(buckets) || (fresh(buckets) && allocOk)
      ensures loadfactor == old(loadfactor) && growpower == old(growpower)
    {
      hide LoadLimit, IsPow2, Good, Holds, Sizes;
      SizeFacts();
      count := 0;
      M := map[];
      if updateCap {
        cap := nbuckets;
      } else if nbuckets != cap {
        ResetBuckets(allocOk);
      }
      EraseAll(buckets, nbuckets);
      Restart();
    }

    // The mask and the two thresholds of an emptied table.
    method Restart()
      requires IsPow2(nbuckets) && 16 <= nbuckets <= buckets.Length && cap == nbuckets
      requires 50 <= loadfactor <= 95 && 1 <= growpower <= 16 && count == 0 && M == map[]
      requires forall i :: 0 <= i < nbuckets ==> buckets[i].Empty?
      modifies this`mask, this`growat, this`shrinkat
      ensures Valid() && growat == LoadLimit(nbuckets, loadfactor)
    {
      hide LoadLimit, IsPow2, Good, Holds;
      NoEntries(Slots(), hash);
      mask := nbuckets - 1;
      growat := LoadLimit(nbuckets, loadfactor);
      shrinkat := nbuckets / 10;
    }

    // hashmap_set_load_factor: the product of the factor and 100, truncated, or
    // missing for a NaN; it is clamped to 50..95. For a NaN the stored percentage
    // makes a round trip through a division by 100, which takes one off 57 and 58.
    method SetLoadFactor(percent: Option<int>)
      requires Valid()
      modifies this`loadfactor, this`growat
      ensures Valid()
      ensures loadfactor == match percent
                            case None => if old(loadfactor) in {57, 58} then old(loadfactor) - 1 else old(loadfactor)
                            case Some(p) => if p < 50 then 50 else if p > 95 then 95 else p
      ensures growat == LoadLimit(nbuckets, loadfactor)
    {
      hide LoadLimit, Good, Holds, IsPow2;
      loadfactor := match percent
        case None => if loadfactor == 57 || loadfactor == 58 then loadfactor - 1 else loadfactor
        case Some(p) => if p < 50 then 50 else if p > 95 then 95 else p;
      growat := LoadLimit(nbuckets, loadfactor);
    }

    method SetGrowByPower(power: nat)
      requires Valid()
      modifies this`growpower
      ensures Valid() && growpower == if power < 1 then 1 else if power > 16 then 16 else power
    {
      growpower := if power < 1 then 1 else if power > 16 then 16 else power;
    }

    // hashmap_scan with an iterator that never stops: every entry once.
    method Scan() returns (items: seq<(K, V)>)
      requires Valid()
      ensures forall j :: 0 <= j < |items| ==> items[j].0 in M && M[items[j].0] == items[j].1
      ensures forall i, j :: 0 <= i < j < |items| ==> items[i].0 != items[j].0
      ensures forall k :: k in M <==> Lists(items, k)
    {
      items := Listed(buckets, nbuckets);
      ItemsHold(Slots(), M);
    }

    // Any sequence of calls is answered as a finite map would answer it, as long
    // as no call that moves entries leaves more than 65535 of them.
    method Run(calls: seq<Call<K, V>>) returns (replies: seq<Reply<V>>)
      requires Valid() && Within(M.Keys, calls)
      modifies this, buckets
      ensures Valid() && (buckets == old(buckets) || fresh(buckets))
      ensures |replies| == |calls| && Follows(old(M), calls, replies, M)
    {
      hide Good, Holds, IsPow2;
      replies := [];
      var i := 0;
      ghost var keys := M.Keys;
      while i < |calls|
        invariant 0 <= i <= |calls| && |replies| == i
        invariant Valid() && (buckets == old(buckets) || fresh(buckets))
        invariant M.Keys <= keys && Within(keys, calls[i..])
        invariant Follows(old(M), calls[..i], replies, M)
      {
        ghost var before := M;
        assert calls[i..][0] == calls[i] && calls[i..][1..] == calls[i + 1..];
        Roomier(M.Keys, keys, calls[i]);
        var reply := Answer(calls[i]);
        WithinStep(before, keys, calls[i], reply, M);
        keys := KeysAfter(keys, calls[i]);
        assert calls[..i + 1][..i] == calls[..i] && (replies + [reply])[..i] == replies;
        replies := replies + [reply];
        i := i + 1;
        assert Follows(old(M), calls[..i][..i - 1], replies[..i - 1], before);
        assert Answers(before, calls[..i][i - 1], replies[i - 1], M);
      }
      assert calls[..i] == calls;
    }

    method Answer(c: Call<K, V>) returns (r: Reply<V>)
      requires Valid() && (c.CallSet? || c.CallDelete? ==> |KeysAfter(M.Keys, c)| <= 65535)
      modifies this, buckets
      ensures Valid() && (buckets == old(buckets) || fresh(buckets))
      ensures Answers(old(M), c, r, M)
    {
      hide Good, Holds, IsPow2, Fulls, Setting, Fits;
      match c {
        case CallSet(k, v, allocOk) =>
          var item := Set(k, v, allocOk);
          r := Reply(item, oom);
        case CallGet(k) =>
          HoldsFulls(Slots(), M);
          var item := Get(k);
          r := Reply(item, false);
        case CallDelete(k, allocOk) =>
          var item := Delete(k, allocOk);
          r := Reply(item, false);
        case CallClear(updateCap, allocOk) =>
          Clear(updateCap, allocOk);
          r := Reply(None, false);
      }
    }

    // hashmap_get: probes from the home position until the key or a gap.
    method Get(key: K) returns (r: Option<V>)
      requires Sizes() && Fulls(Slots()) < nbuckets
      ensures var h := ClipHash(hash(key));
              var b := Slots()[Seek(Slots(), Mod(h, nbuckets), h, key, nbuckets)];
              r == if b.Empty? then None else Some(b.val)
      ensures Valid() ==> r == Lookup(M, key)
    {
      hide Good, Holds, IsPow2, Fulls;
      if Valid() {
        SeekFinds(Slots(), M, hash, key);
      }
      var i := Probe(buckets, nbuckets, mask, ClipHash(hash(key)), key);
      r := if buckets[i].Empty? then None else Some(buckets[i].val);
    }
  }
}

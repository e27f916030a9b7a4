/** How many entries the 16-bit distance field of the hash table bears: 65535 in
    every table, and no more than that in some. */
module HashLimits {
  import opened Masks
  import opened RobinHood
  import opened HashMaps

  // In every good table of n entries, whatever the hash function, there is room
  // for one more key.
  ghost predicate AlwaysRoom(n: nat)
  {
    forall t: Table<nat, nat>, hash: nat -> nat, m: map<nat, nat>, key: nat ::
      Good(t, hash) && Holds(t, m) && |m| == n < |t| && key !in m ==> Fits(t, hash, key, 0)
  }

  // The keys up to 65535 share the home 0, and every other key has its own.
  function Crowd(k: nat): (h: nat)
  {
    if k <= 65535 then 0 else k
  }

  // A table that holds only keys up to n, and not 65535.
  ghost predicate Crowded(t: Table<nat, nat>, m: map<nat, nat>, n: nat)
  {
    && Good(t, Crowd) && Holds(t, m) && 65535 <= n && n + 1 < 0x1_0000_0000_0000 && n + 1 < |t|
    && forall k :: k in m ==> k <= n && k != 65535
  }

  // The home of a bucket in such a table.
  lemma CrowdHome(t: Table<nat, nat>, m: map<nat, nat>, n: nat, p: nat)
    requires Crowded(t, m, n) && p < |t| && t[p].Full?
    ensures t[p].key in m && Mod(t[p].hash, |t|) == Crowd(t[p].key)
    ensures t[p].dib as int == Dist(Crowd(t[p].key), p, |t|) + 1
  {
    var k := t[p].key;
    assert k in m;
    assert t[p].hash == ClipHash(Crowd(k)) == Crowd(k);
  }

  // Nobody can stand at 65535: that is one step too far for the crowd.
  lemma Brink(t: Table<nat, nat>, m: map<nat, nat>, n: nat)
    requires Crowded(t, m, n)
    ensures t[65535].Empty?
  {
    if t[65535].Full? {
      CrowdHome(t, m, n, 65535);
    }
  }

  // Behind that position every key stands at home.
  lemma {:induction false} Loners(t: Table<nat, nat>, m: map<nat, nat>, n: nat, p: nat)
    requires Crowded(t, m, n) && 65535 <= p < |t|
    ensures D(t[p]) <= 1 && (t[p].Full? ==> t[p].key == p && p in m)
  {
    if p == 65535 {
      Brink(t, m, n);
    } else {
      Loners(t, m, n, p - 1);
      assert D(t[Next(p - 1, |t|)]) <= D(t[p - 1]) + 1;
      if t[p].Full? {
        CrowdHome(t, m, n, p);
      }
    }
  }

  // Before that position nobody is further away than the crowd's home.
  lemma {:induction false} CrowdSlope(t: Table<nat, nat>, m: map<nat, nat>, n: nat, p: nat)
    requires Crowded(t, m, n) && p < 65535
    ensures D(t[p]) <= p + 1
  {
    if p == 0 {
      var last := |t| - 1;
      Loners(t, m, n, last);
      assert D(t[Next(last, |t|)]) <= D(t[last]) + 1;
    } else {
      CrowdSlope(t, m, n, p - 1);
      assert D(t[Next(p - 1, |t|)]) <= D(t[p - 1]) + 1;
    }
  }

  // A key outside of the crowd finds its home empty.
  lemma LonerFits(t: Table<nat, nat>, m: map<nat, nat>, n: nat, key: nat, val: nat)
    requires Crowded(t, m, n) && 65535 < key <= n && key !in m
    ensures Fits(t, Crowd, key, val)
  {
    Loners(t, m, n, key);
    assert ClipHash(Crowd(key)) == key;
    assert t[key].Empty?;
  }

  // The keys up to n without one of them.
  ghost function Keys(n: nat, gap: nat): (s: set<nat>)
  {
    (if n == 0 then {} else Keys(n - 1, gap)) + if n == gap then {} else {n}
  }

  lemma {:induction false} KeysAre(n: nat, gap: nat)
    ensures |Keys(n, gap)| == if n < gap then n + 1 else n
    ensures forall k :: k in Keys(n, gap) <==> 0 <= k <= n && k != gap
  {
    if n == 0 {
      assert Keys(n, gap) == if n == gap then {} else {n};
    } else {
      KeysAre(n - 1, gap);
      KeysStep(n, gap);
    }
  }

  lemma KeysStep(n: nat, gap: nat)
    requires n > 0
    ensures Keys(n, gap) == if n == gap then Keys(n - 1, gap) else Keys(n - 1, gap) + {n}
  {
  }

  lemma CrowdedBy(t: Table<nat, nat>, m: map<nat, nat>, n: nat, k: nat)
    requires Good(t, Crowd) && Holds(t, m) && 65535 <= n && n + 1 < 0x1_0000_0000_0000 && n + 1 < |t|
    requires 0 < k <= n + 1 && m.Keys == Keys(k - 1, 65535)
    ensures Crowded(t, m, n)
  {
    hide Good, Holds;
    KeysAre(k - 1, 65535);
    assert forall i :: i in m <==> i in m.Keys;
  }

  // Behind 65535 there are only the keys that have a home there.
  lemma {:induction false} LonersCount(t: Table<nat, nat>, m: map<nat, nat>, n: nat, p: nat)
    requires Crowded(t, m, n) && 65535 < p <= |t|
    ensures Fulls(t[65535..p]) <= if p <= n then p - 65536 else n - 65535
  {
    Loners(t, m, n, p - 1);
    assert t[65535..p][..p - 65536] == t[65535..p - 1];
    if p == 65536 {
      Brink(t, m, n);
      assert t[65535..65535] == [];
    } else {
      LonersCount(t, m, n, p - 1);
    }
  }

  lemma CrowdCount(t: Table<nat, nat>, m: map<nat, nat>, n: nat)
    requires Crowded(t, m, n) && m.Keys == Keys(n, 65535)
    ensures |t| > 65536 && Fulls(t[..65535]) == 65535
  {
    hide Keys, Fulls, Good;
    KeysAre(n, 65535);
    HoldsFulls(t, m);
    LonersCount(t, m, n, |t|);
    assert t == t[..65535] + t[65535..|t|];
    FullsJoin(t[..65535], t[65535..|t|]);
    assert |m| == |m.Keys|;
  }

  // With all keys up to n the crowd fills the first 65535 buckets.
  lemma CrowdFills(t: Table<nat, nat>, m: map<nat, nat>, n: nat)
    requires Crowded(t, m, n) && m.Keys == Keys(n, 65535)
    ensures forall p :: 0 <= p < 65535 ==> t[p].Full? && D(t[p]) == p + 1
    ensures t[65535].Empty?
  {
    hide Keys, Fulls, Crowded;
    CrowdCount(t, m, n);
    FullsAll(t[..65535]);
    forall p | 0 <= p < 65535 ensures t[p].Full? && D(t[p]) == p + 1 {
      assert t[..65535][p].Full?;
      CrowdHome(t, m, n, p);
      CrowdSlope(t, m, n, p);
    }
    Brink(t, m, n);
  }

  // One more key of the crowd passes all of them; its distance wraps to 0 on the
  // last step, and the bucket it is copied into reads as empty.
  lemma {:induction false} Lost(t: Table<nat, nat>, p: nat, e: Bucket<nat, nat>, turns: nat)
    requires |t| > 65536 && p <= 65535 && turns >= 65535 - p && t[65535].Empty?
    requires forall q :: 0 <= q < 65535 ==> t[q].Full? && D(t[q]) == q + 1
    requires e.Full? && e.dib as int == (p + 1) % 0x1_0000
    ensures Landed(t, p, e, turns) == t
    ensures p < 65535 ==> !NoWrap(t, p, e, turns)
    decreases turns
  {
    if p < 65535 {
      assert Turn(t, p, e) == (t, e);
      Lost(t, p + 1, e.(dib := Inc(e.dib)), turns - 1);
    }
  }

  lemma CrowdNew(t: Table<nat, nat>, m: map<nat, nat>, n: nat)
    requires Crowded(t, m, n) && m.Keys == Keys(n, 65535)
    ensures |m| == n && 65535 !in m && 65536 < |t| && Distinct(t) && forall q :: !At(t, q, 65535)
  {
    hide Keys;
    KeysAre(n, 65535);
    assert |m| == |m.Keys|;
  }

  lemma CrowdLoses(t: Table<nat, nat>, m: map<nat, nat>, n: nat, val: nat)
    requires Crowded(t, m, n) && m.Keys == Keys(n, 65535)
    ensures |m| == n < |t| && 65535 !in m
    ensures !Fits(t, Crowd, 65535, val) && Setting(t, Crowd, 65535, val) == (t, None)
  {
    hide Keys, Fulls, Landed, NoWrap, Placed;
    CrowdNew(t, m, n);
    CrowdFills(t, m, n);
    var e := Entry(Crowd, 65535, val);
    assert e.hash == 0 && Home(t, e) == 0;
    Lost(t, 0, e, |t|);
    PlacedNew(t, 0, e, |t|);
  }

  // Such a table, with n + 2 buckets.
  ghost function CrowdTable(n: nat): (t: Table<nat, nat>)
    ensures |t| == n + 2
  {
    seq(n + 2, i requires 0 <= i < n + 2 =>
      if i < 65535 then Full(0, (i + 1) as Dib, i, 0) else if i == 65535 || i > n then Empty else Full(i, 1, i, 0))
  }

  lemma CrowdHolds(n: nat, m: map<nat, nat>)
    requires 65535 <= n && forall k :: k in m <==> 0 <= k <= n && k != 65535
    requires forall k :: k in m ==> m[k] == 0
    ensures Holds(CrowdTable(n), m)
  {
    var t := CrowdTable(n);
    forall k | k in m ensures exists i :: At(t, i, k) {
      assert At(t, k, k);
    }
  }

  lemma CrowdGood(n: nat)
    requires 65535 <= n && n + 1 < 0x1_0000_0000_0000
    ensures Good(CrowdTable(n), Crowd)
  {
    var t := CrowdTable(n);
    assert Ordered(t) by {
      forall i | 0 <= i < |t| ensures D(t[Next(i, |t|)]) <= D(t[i]) + 1 {}
    }
    assert Hashed(t, Crowd) by {
      forall i | 0 <= i < |t| && t[i].Full? ensures t[i].hash == ClipHash(Crowd(t[i].key)) {}
    }
    assert AtHome(t) by {
      forall i | 0 <= i < |t| && t[i].Full? ensures t[i].dib as int == Dist(Mod(t[i].hash, |t|), i, |t|) + 1 {}
    }
  }

  // The limit is exact. (Hash values have 48 bits.)
  lemma Limit(n: nat)
    requires n + 1 < 0x1_0000_0000_0000
    ensures AlwaysRoom(n) <==> n < 65535
  {
    if n < 65535 {
      hide Good, Holds, Fits;
      forall t: Table<nat, nat>, hash: nat -> nat, m: map<nat, nat>, key: nat
        | Good(t, hash) && Holds(t, m) && |m| == n < |t| && key !in m
        ensures Fits(t, hash, key, 0)
      {
        SettingWorks(t, hash, m, key, 0);
      }
    } else {
      NoRoom(n);
    }
  }

  lemma NoRoom(n: nat)
    requires 65535 <= n && n + 1 < 0x1_0000_0000_0000
    ensures !AlwaysRoom(n)
  {
    hide Good, Holds, Fits, Keys, CrowdTable;
    KeysAre(n, 65535);
    var t: Table<nat, nat>, m: map<nat, nat> := CrowdTable(n), map k | k in Keys(n, 65535) :: 0;
    CrowdHolds(n, m);
    CrowdGood(n);
    assert m.Keys == Keys(n, 65535);
    CrowdedBy(t, m, n, n + 1);
    CrowdLoses(t, m, n, 0);
  }

  lemma AmpleSpace(nbuckets: nat, n: nat)
    requires nbuckets >= 2 * n + 2
    ensures LoadLimit(nbuckets, 60) > n
  {
    assert nbuckets * 60 >= (n + 1) * 100;
  }

  // One more key of a table that has bucket room for all of them.
  method AddKey(table: HashMap<nat, nat>, n: nat, k: nat)
    requires 65535 <= n && n + 1 < 0x1_0000_0000_0000 && k <= n && k != 65535
    requires table.Valid() && table.hash == Crowd && table.growat > n && table.nbuckets > n + 1
    requires table.M.Keys == if k == 0 then {} else Keys(k - 1, 65535)
    modifies table, table.buckets
    ensures table.Valid() && table.growat > n && table.nbuckets > n + 1
    ensures table.M.Keys == Keys(k, 65535)
    ensures table.buckets == old(table.buckets) || fresh(table.buckets)
  {
    hide Good, Holds, IsPow2, Fulls, Setting, Fits, LoadLimit, Crowded, Rehashed;
    KeysAre(k, 65535);
    if k > 65535 {
      KeysAre(k - 1, 65535);
      CrowdedBy(table.Slots(), table.M, n, k);
      LonerFits(table.Slots(), table.M, n, k, k);
    }
    assert Keys(k, 65535) == table.M.Keys + {k};
    hide Keys;
    var _ := table.Set(k, k, true);
    assert table.M.Keys == old(table.M.Keys) + {k};
  }

  // A run that shows it: after n sets, each of them right, one more set returns
  // as if it had stored its key, but the key is not found.
  method LoseKey(n: nat) returns (table: HashMap<nat, nat>, r: Option<nat>)
    requires 65535 <= n && n + 1 < 0x1_0000_0000_0000
    ensures fresh(table) && !table.oom && table.count == n + 1
    ensures 65535 in table.M && r == None
  {
    hide Good, Holds, IsPow2, Fulls, Setting, Fits, LoadLimit, Crowded, Keys, Rehashed;
    table := new HashMap(Crowd, 2 * n + 2);
    AmpleSpace(table.nbuckets, n);
    var k := 0;
    while k <= n
      invariant k <= n + 1 && fresh(table) && fresh(table.buckets) && table.Valid()
      invariant table.M.Keys == if k == 0 then {} else Keys(k - 1, 65535)
      invariant table.growat > n && table.nbuckets > n + 1
    {
      if k != 65535 {
        AddKey(table, n, k);
      } else {
        KeysStep(k, 65535);
      }
      k := k + 1;
    }
    r := LoseLast(table, n);
  }

  method LoseLast(table: HashMap<nat, nat>, n: nat) returns (r: Option<nat>)
    requires 65535 <= n && n + 1 < 0x1_0000_0000_0000
    requires table.Valid() && table.hash == Crowd && table.growat > n && table.nbuckets > n + 1
    requires table.M.Keys == Keys(n, 65535)
    modifies table, table.buckets
    ensures !table.oom && table.count == n + 1
    ensures 65535 in table.M && r == None
  {
    hide Good, Holds, IsPow2, Fulls, Setting, Fits, LoadLimit, Crowded, Keys, Rehashed;
    ghost var t, m := table.Slots(), table.M;
    CrowdedBy(t, m, n, n + 1);
    CrowdLoses(t, m, n, 0);
    var _ := table.Set(65535, 0, true);
    SeekFinds(t, m, Crowd, 65535);
    r := table.Get(65535);
  }
}

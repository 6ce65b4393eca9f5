/** Restart: what loading the lease files rebuilds, and that it re-establishes lease safety. */
module Recovery {
  import opened Words
  import opened Pools
  import opened Leases
  import opened Protocol
  import opened LeaseSafety

  /** The records that have not expired, in order. */
  function Live(f: seq<Lease>, now: uint32): seq<Lease> {
    if f == [] then []
    else (if f[0].expire > now then [f[0]] else []) + Live(f[1..], now)
  }

  function Addresses(f: seq<Lease>): set<uint32> {
    set k | 0 <= k < |f| :: f[k].address
  }

  /** What a lease file must satisfy for its pool: addresses unique and inside the pool. */
  ghost predicate Loadable(p: Pool, f: seq<Lease>) {
    && Unique(f)
    && forall k :: 0 <= k < |f| ==> p.Contains(f[k].address)
  }

  ghost predicate Recoverable(st: Store) {
    && ValidPools(st.pools)
    && forall i :: 0 <= i < |st.pools| ==> Loadable(st.pools[i], File(st.files, st.pools[i].name))
  }

  lemma {:induction false} LiveMembers(f: seq<Lease>, now: uint32)
    ensures forall l :: l in Live(f, now) <==> l in f && l.expire > now
  {
    if f != [] {
      LiveMembers(f[1..], now);
      assert f == [f[0]] + f[1..];
    }
  }

  lemma {:induction false} LiveUnique(f: seq<Lease>, now: uint32)
    requires Unique(f)
    ensures Unique(Live(f, now))
  {
    if f != [] {
      var rest, g := f[1..], Live(f[1..], now);
      assert forall k :: 0 <= k < |rest| ==> rest[k] == f[k + 1];
      LiveUnique(rest, now);
      LiveMembers(rest, now);
      forall k | 0 <= k < |g| ensures g[k].address != f[0].address {
        assert g[k] in rest;
      }
    }
  }

  lemma LiveIsSubsequence(f: seq<Lease>, now: uint32)
    ensures forall k :: 0 <= k < |Live(f, now)| ==> Live(f, now)[k] in f
    ensures Unique(f) ==> Unique(Live(f, now))
  {
    LiveMembers(f, now);
    if Unique(f) {
      LiveUnique(f, now);
    }
  }

  /** Removing the record behind a prefix of records with other addresses. */
  lemma RemoveBehind(p: Pool, kept: seq<Lease>, l: Lease, rest: seq<Lease>)
    requires Loadable(p, kept + [l] + rest)
    ensures RemoveLease(kept + [l] + rest, l.address) == kept + rest
    ensures Loadable(p, kept + rest)
  {
    var f, g := kept + [l] + rest, kept + rest;
    assert f[|kept|] == l;
    assert FindLease(f, l.address) == |kept|;
    assert f[..|kept|] == kept && f[|kept| + 1..] == rest;
    assert forall k :: 0 <= k < |g| ==> g[k] == f[if k < |kept| then k else k + 1];
  }

  lemma AddressesCons(l: Lease, f: seq<Lease>)
    ensures Addresses([l] + f) == {l.address} + Addresses(f)
  {
    var g := [l] + f;
    assert g[0] == l;
    assert forall k :: 0 <= k < |f| ==> g[k + 1] == f[k];
  }

  lemma LoadLive(p: Pool, kept: seq<Lease>, l: Lease, g: seq<Lease>)
    ensures p.used + {l.address} + Addresses(g) == p.used + Addresses([l] + g)
    ensures kept + [l] + g == kept + ([l] + g)
  {
    AddressesCons(l, g);
  }

  /** The walk over the records, with the records already passed and kept in front. */
  lemma {:induction false} LoadRecordsEffect(p: Pool, kept: seq<Lease>, records: seq<Lease>, now: uint32)
    requires Loadable(p, kept + records)
    ensures LoadRecords(p, kept + records, records, now) ==
            (p.(used := p.used + Addresses(Live(records, now))), kept + Live(records, now))
    decreases records
  {
    if records == [] {
      assert p.used + Addresses([]) == p.used;
    } else {
      var l, rest := records[0], records[1..];
      assert kept + records == kept + [l] + rest;
      if l.expire <= now {
        assert LoadRecords(p, kept + records, records, now) == LoadRecords(p, kept + rest, rest, now)
               && Loadable(p, kept + rest) by {
          RemoveBehind(p, kept, l, rest);
        }
        LoadRecordsEffect(p, kept, rest, now);
        assert Live(records, now) == Live(rest, now);
      } else {
        var p' := p.(used := p.used + {l.address});
        assert (kept + records)[|kept|] == l;
        LoadRecordsEffect(p', kept + [l], rest, now);
        LoadLive(p, kept, l, Live(rest, now));
      }
    }
  }

  /** Pool `i` of the reloaded store: bitmap and file hold exactly the live records. */
  ghost predicate Reloaded(st: Store, st': Store, i: nat, now: uint32)
    requires i < |st.pools| == |st'.pools|
  {
    var f := File(st.files, st.pools[i].name);
    && st'.pools[i] == st.pools[i].(used := Addresses(Live(f, now)))
    && File(st'.files, st.pools[i].name) == Live(f, now)
  }

  lemma TouchKeepsRecoverable(st: Store, st': Store, i: nat)
    requires Recoverable(st) && Touches(st, st', i)
    requires Loadable(st'.pools[i], File(st'.files, st.pools[i].name))
    ensures Recoverable(st')
  {
    TouchEffect(st, st', i);
    forall j | 0 <= j < |st'.pools| ensures Loadable(st'.pools[j], File(st'.files, st'.pools[j].name)) {
      assert Loadable(st.pools[j], File(st.files, st.pools[j].name));
    }
  }

  lemma LoadPoolEffect(st: Store, i: nat, now: uint32)
    requires Recoverable(st) && i < |st.pools| && st.pools[i].used == {}
    ensures var st' := LoadPool(st, i, now);
            Recoverable(st') && Touches(st, st', i) && Reloaded(st, st', i, now)
  {
    var p := st.pools[i];
    var f := File(st.files, p.name);
    var g := Live(f, now);
    assert Loadable(p, f);
    LiveIsSubsequence(f, now);
    assert LoadPool(st, i, now) == Put(st, i, Addresses(g), g) by {
      assert [] + f == f && [] + g == g && {} + Addresses(g) == Addresses(g);
      LoadRecordsEffect(p, [], f, now);
    }
    PutTouches(st, i, Addresses(g), g);
    TouchKeepsRecoverable(st, Put(st, i, Addresses(g), g), i);
  }

  lemma {:induction false} LoadPoolsEffect(st: Store, i: nat, now: uint32)
    requires Recoverable(st) && i <= |st.pools|
    requires forall j :: i <= j < |st.pools| ==> st.pools[j].used == {}
    ensures var st' := LoadPools(st, i, now);
            && |st'.pools| == |st.pools|
            && (forall j :: 0 <= j < i ==>
                  st'.pools[j] == st.pools[j] && File(st'.files, st.pools[j].name) == File(st.files, st.pools[j].name))
            && (forall j :: i <= j < |st.pools| ==> Reloaded(st, st', j, now))
    decreases |st.pools| - i
  {
    if i < |st.pools| {
      var st1, st' := LoadPool(st, i, now), LoadPools(st, i, now);
      assert st' == LoadPools(st1, i + 1, now);
      LoadPoolEffect(st, i, now);
      LoadPoolsEffect(st1, i + 1, now);
      forall j | i <= j < |st.pools| ensures Reloaded(st, st', j, now) {
        assert j > i ==> Reloaded(st1, st', j, now);
      }
    }
  }

  /** Restart keeps exactly the unexpired records, in order, and marks exactly their addresses. */
  lemma RestartRecovers(s: State, now: uint32)
    requires Recoverable(s.store)
    ensures var st, st' := s.store, Restart(s, now).store;
            |st'.pools| == |st.pools| && forall i :: 0 <= i < |st.pools| ==> Reloaded(st, st', i, now)
  {
    var st := Store(EmptyPools(s.store.pools), s.store.files);
    assert forall i :: 0 <= i < |st.pools| ==> st.pools[i] == s.store.pools[i].(used := {});
    assert ValidPools(st.pools);
    forall i | 0 <= i < |st.pools| ensures Loadable(st.pools[i], File(st.files, st.pools[i].name)) {
      assert Loadable(s.store.pools[i], File(s.store.files, s.store.pools[i].name));
    }
    LoadPoolsEffect(st, 0, now);
    forall i | 0 <= i < |st.pools| ensures Reloaded(s.store, Restart(s, now).store, i, now) {
      assert Reloaded(st, Restart(s, now).store, i, now);
    }
  }

  /** Whatever the bitmaps and the cache were, a restart over loadable files is safe. */
  lemma RestartEstablishesInv(s: State, now: uint32)
    requires Recoverable(s.store)
    ensures Inv(Restart(s, now))
  {
    RestartRecovers(s, now);
    var st, s' := s.store, Restart(s, now);
    forall i | 0 <= i < |st.pools|
      ensures s'.store.pools[i] == st.pools[i].(used := s'.store.pools[i].used)
      ensures s'.store.pools[i].Valid() && FileSafe(s'.store.pools[i], File(s'.store.files, s'.store.pools[i].name))
    {
      assert Reloaded(st, s'.store, i, now) && Loadable(st.pools[i], File(st.files, st.pools[i].name));
      LiveIsSubsequence(File(st.files, st.pools[i].name), now);
    }
  }

  /** A safe store can always be restarted from. */
  lemma SafeIsRecoverable(st: Store)
    requires ValidPools(st.pools) && LeaseSafe(st)
    ensures Recoverable(st)
  {
    forall i | 0 <= i < |st.pools| ensures Loadable(st.pools[i], File(st.files, st.pools[i].name)) {
      assert FileSafe(st.pools[i], File(st.files, st.pools[i].name)) && st.pools[i].Valid();
    }
  }
}

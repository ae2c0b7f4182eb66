/** What the tracecon probes report, as a function of the history of firings alone.

    Nothing in the definitions below mentions a map: they speak about positions in the trace. */
module TraceconHistory {
  import opened BpfMap
  import opened Options
  import opened Tracecon

  predicate LookupProbe(cfg: Config, f: Firing, t: Tid) {
    Observed(cfg, f) && f.task.tid == t && (f.probe.LookupEnter? || f.probe.LookupExit?)
  }

  predicate ConnectProbe(cfg: Config, f: Firing, t: Tid) {
    Observed(cfg, f) && f.task.tid == t && (f.probe.ConnectEnter? || f.probe.ConnectExit?)
  }

  /** Following `p` gives `ip`: the address there, or zero if it cannot be read. */
  predicate LeadsTo(memory: map<Pointer, Ip>, p: Pointer, ip: Ip) {
    if p in memory then memory[p] == ip else ip == 0
  }

  /** Before position `i`, the latest getaddrinfo probe of thread `t` is the enter at `j`. */
  predicate PendingLookup(cfg: Config, tr: seq<Firing>, i: nat, j: int, t: Tid)
    requires i <= |tr|
  {
    && 0 <= j < i && LookupProbe(cfg, tr[j], t) && tr[j].probe.LookupEnter?
    && forall k | j < k < i :: !LookupProbe(cfg, tr[k], t)
  }

  /** Before position `i`, the latest tcp_v4_connect probe of thread `t` is the enter at `j`. */
  predicate PendingConnect(cfg: Config, tr: seq<Firing>, i: nat, j: int, t: Tid)
    requires i <= |tr|
  {
    && 0 <= j < i && ConnectProbe(cfg, tr[j], t) && tr[j].probe.ConnectEnter?
    && forall k | j < k < i :: !ConnectProbe(cfg, tr[k], t)
  }

  /** Position `k` is a successful lookup that stores address `ip` for the name entered at `j`. */
  predicate Stores(cfg: Config, tr: seq<Firing>, k: int, j: int, ip: Ip)
    requires 0 <= k < |tr|
  {
    && Observed(cfg, tr[k]) && tr[k].probe.LookupExit? && tr[k].probe.lookupRet == 0
    && PendingLookup(cfg, tr, k, j, tr[k].task.tid)
    && LeadsTo(tr[k].probe.memory, tr[j].probe.res, ip)
  }

  /** Position `k` is a successful connect to `ip` that was entered at `j`: it reports. */
  predicate Reports(cfg: Config, tr: seq<Firing>, k: int, j: int, ip: Ip)
    requires 0 <= k < |tr|
  {
    && Observed(cfg, tr[k]) && tr[k].probe.ConnectExit? && tr[k].probe.connectRet == 0
    && PendingConnect(cfg, tr, k, j, tr[k].task.tid)
    && LeadsTo(tr[k].probe.daddr, tr[j].probe.sk, ip)
  }

  /** Position `k` is an operation on address `ip`. */
  ghost predicate OperatesOn(cfg: Config, tr: seq<Firing>, k: int, ip: Ip)
    requires 0 <= k < |tr|
  {
    exists j :: Stores(cfg, tr, k, j, ip) || Reports(cfg, tr, k, j, ip)
  }

  /** The latest operation on `ip` before `i` is the lookup stored at `k` and entered at `j`. */
  ghost predicate LatestIsLookup(cfg: Config, tr: seq<Firing>, i: nat, k: int, j: int, ip: Ip)
    requires i <= |tr|
  {
    && 0 <= k < i && Stores(cfg, tr, k, j, ip)
    && forall m | k < m < i :: !OperatesOn(cfg, tr, m, ip)
  }

  ghost predicate SomeLookupPending(cfg: Config, tr: seq<Firing>, i: nat, t: Tid)
    requires i <= |tr|
  {
    exists j :: PendingLookup(cfg, tr, i, j, t)
  }

  ghost predicate SomeConnectPending(cfg: Config, tr: seq<Firing>, i: nat, t: Tid)
    requires i <= |tr|
  {
    exists j :: PendingConnect(cfg, tr, i, j, t)
  }

  ghost predicate ResolvedTo(cfg: Config, tr: seq<Firing>, i: nat, ip: Ip, name: string)
    requires i <= |tr|
  {
    exists k, j :: LatestIsLookup(cfg, tr, i, k, j, ip) && name == StoredName(tr[j].probe.hostname)
  }

  // ------------------------------------------------------------ the three maps

  function At(cfg: Config, tr: seq<Firing>, i: nat): State
    requires i <= |tr|
  {
    Run(cfg, EMPTY, tr[..i])
  }

  lemma PendingPersists(cfg: Config, tr: seq<Firing>, i: nat, p: nat, t: Tid)
    requires i == p + 1 <= |tr|
    ensures !LookupProbe(cfg, tr[p], t) ==>
              forall j :: PendingLookup(cfg, tr, i, j, t) <==> PendingLookup(cfg, tr, p, j, t)
    ensures !ConnectProbe(cfg, tr[p], t) ==>
              forall j :: PendingConnect(cfg, tr, i, j, t) <==> PendingConnect(cfg, tr, p, j, t)
  {
  }

  lemma {:induction false} LookupsAreHistory(cfg: Config, tr: seq<Firing>, i: nat, t: Tid)
    requires cfg.capacity.Unbounded? && i <= |tr|
    ensures t in At(cfg, tr, i).lookups <==> SomeLookupPending(cfg, tr, i, t)
    ensures forall j | PendingLookup(cfg, tr, i, j, t) ::
              t in At(cfg, tr, i).lookups &&
              At(cfg, tr, i).lookups[t] == Lookup(StoredName(tr[j].probe.hostname), tr[j].probe.res)
  {
    if i > 0 {
      var p := i - 1;
      LookupsAreHistory(cfg, tr, p, t);
      RunPrefix(cfg, EMPTY, tr, p);
      if LookupProbe(cfg, tr[p], t) {
        if tr[p].probe.LookupEnter? {
          assert PendingLookup(cfg, tr, i, p, t);
        }
      } else {
        PendingPersists(cfg, tr, i, p, t);
      }
    }
  }

  lemma {:induction false} SocketsAreHistory(cfg: Config, tr: seq<Firing>, i: nat, t: Tid)
    requires cfg.capacity.Unbounded? && i <= |tr|
    ensures t in At(cfg, tr, i).sockets <==> SomeConnectPending(cfg, tr, i, t)
    ensures forall j | PendingConnect(cfg, tr, i, j, t) ::
              t in At(cfg, tr, i).sockets && At(cfg, tr, i).sockets[t] == tr[j].probe.sk
  {
    if i > 0 {
      var p := i - 1;
      SocketsAreHistory(cfg, tr, p, t);
      RunPrefix(cfg, EMPTY, tr, p);
      if ConnectProbe(cfg, tr[p], t) {
        if tr[p].probe.ConnectEnter? {
          assert PendingConnect(cfg, tr, i, p, t);
        }
      } else {
        PendingPersists(cfg, tr, i, p, t);
      }
    }
  }

  /** One step changes `hostnames` at `ip` exactly when the history says it operates there. */
  lemma StepOnHostnames(cfg: Config, tr: seq<Firing>, p: nat, ip: Ip)
    requires cfg.capacity.Unbounded? && p < |tr|
    ensures var before, after := At(cfg, tr, p).hostnames, At(cfg, tr, p + 1).hostnames;
            && (forall j | Stores(cfg, tr, p, j, ip) ::
                  ip in after && after[ip] == Lookup(StoredName(tr[j].probe.hostname), tr[j].probe.res))
            && (forall j | Reports(cfg, tr, p, j, ip) :: ip !in after)
            && (!OperatesOn(cfg, tr, p, ip) ==>
                  (ip in before <==> ip in after) && (ip in before ==> before[ip] == after[ip]))
  {
    RunPrefix(cfg, EMPTY, tr, p);
    var s, f := At(cfg, tr, p), tr[p];
    var t := f.task.tid;
    LookupsAreHistory(cfg, tr, p, t);
    SocketsAreHistory(cfg, tr, p, t);
    if Observed(cfg, f) && f.probe.LookupExit? && f.probe.lookupRet == 0 && t in s.lookups {
      var j :| PendingLookup(cfg, tr, p, j, t);
      assert Stores(cfg, tr, p, j, ReadAddr(f.probe.memory, tr[j].probe.res));
    }
    if Observed(cfg, f) && f.probe.ConnectExit? && f.probe.connectRet == 0 && t in s.sockets {
      var j :| PendingConnect(cfg, tr, p, j, t);
      assert Reports(cfg, tr, p, j, ReadAddr(f.probe.daddr, tr[j].probe.sk));
    }
  }

  lemma LatestPersists(cfg: Config, tr: seq<Firing>, p: nat, ip: Ip)
    requires p < |tr| && !OperatesOn(cfg, tr, p, ip)
    ensures forall k, j :: LatestIsLookup(cfg, tr, p + 1, k, j, ip) <==> LatestIsLookup(cfg, tr, p, k, j, ip)
  {
    forall k, j
      ensures LatestIsLookup(cfg, tr, p + 1, k, j, ip) <==> LatestIsLookup(cfg, tr, p, k, j, ip)
    {
      if LatestIsLookup(cfg, tr, p + 1, k, j, ip) {
        assert k != p;
      }
    }
  }

  lemma LatestIsHere(cfg: Config, tr: seq<Firing>, i: nat, p: nat, ip: Ip)
    requires i == p + 1 <= |tr| && OperatesOn(cfg, tr, p, ip)
    ensures forall k, j | LatestIsLookup(cfg, tr, i, k, j, ip) :: k == p && Stores(cfg, tr, p, j, ip)
    ensures forall j | Stores(cfg, tr, p, j, ip) :: LatestIsLookup(cfg, tr, i, p, j, ip)
  {
  }

  lemma {:induction false} HostnamesAreHistory(cfg: Config, tr: seq<Firing>, i: nat, ip: Ip)
    requires cfg.capacity.Unbounded? && i <= |tr|
    ensures ip in At(cfg, tr, i).hostnames <==> exists k, j :: LatestIsLookup(cfg, tr, i, k, j, ip)
    ensures forall k, j | LatestIsLookup(cfg, tr, i, k, j, ip) ::
              ip in At(cfg, tr, i).hostnames &&
              At(cfg, tr, i).hostnames[ip] == Lookup(StoredName(tr[j].probe.hostname), tr[j].probe.res)
  {
    if i > 0 {
      var p := i - 1;
      HostnamesAreHistory(cfg, tr, p, ip);
      StepOnHostnames(cfg, tr, p, ip);
      if OperatesOn(cfg, tr, p, ip) {
        LatestIsHere(cfg, tr, i, p, ip);
        if ip in At(cfg, tr, i).hostnames {
          var j :| Stores(cfg, tr, p, j, ip) || Reports(cfg, tr, p, j, ip);
          assert LatestIsLookup(cfg, tr, i, p, j, ip);
        }
      } else {
        LatestPersists(cfg, tr, p, ip);
        forall k, j | LatestIsLookup(cfg, tr, i, k, j, ip)
          ensures ip in At(cfg, tr, i).hostnames
          ensures At(cfg, tr, i).hostnames[ip] == Lookup(StoredName(tr[j].probe.hostname), tr[j].probe.res)
        {
          assert LatestIsLookup(cfg, tr, p, k, j, ip);
        }
      }
    }
  }

  // ------------------------------------------------------------ the output

  /** With unbounded maps, a reporting connect names the host of the latest operation on its
      address when that is a lookup, and reports the bare address otherwise. */
  lemma ReportIsHistory(cfg: Config, tr: seq<Firing>, i: nat, c: int, ip: Ip)
    requires cfg.capacity.Unbounded? && i < |tr| && Reports(cfg, tr, i, c, ip)
    ensures EventAt(cfg, EMPTY, tr, i).Some?
    ensures forall h :: EventAt(cfg, EMPTY, tr, i) == Some(HostnameEvent(h)) <==> ResolvedTo(cfg, tr, i, ip, h)
    ensures EventAt(cfg, EMPTY, tr, i) == Some(IpEvent(ip)) <==> !exists h :: ResolvedTo(cfg, tr, i, ip, h)
  {
    SocketsAreHistory(cfg, tr, i, tr[i].task.tid);
    HostnamesAreHistory(cfg, tr, i, ip);
    var s := At(cfg, tr, i);
    if ip in s.hostnames {
      var k, j :| LatestIsLookup(cfg, tr, i, k, j, ip);
      assert ResolvedTo(cfg, tr, i, ip, StoredName(tr[j].probe.hostname));
    }
  }

  lemma OnlyReportsEmit(cfg: Config, tr: seq<Firing>, i: nat)
    requires cfg.capacity.Unbounded? && i < |tr|
    ensures EventAt(cfg, EMPTY, tr, i).Some? <==> exists c, ip :: Reports(cfg, tr, i, c, ip)
  {
    var t := tr[i].task.tid;
    SocketsAreHistory(cfg, tr, i, t);
    if EventAt(cfg, EMPTY, tr, i).Some? {
      var c :| PendingConnect(cfg, tr, i, c, t);
      assert Reports(cfg, tr, i, c, ReadAddr(tr[i].probe.daddr, tr[c].probe.sk));
    }
  }

  /** The whole output, for the maps as declared, in runs where no insert is refused. */
  lemma HistoryRefinement(cfg: Config, tr: seq<Firing>, i: nat)
    requires NoOverflow(cfg, EMPTY, tr) && i < |tr|
    ensures EventAt(cfg, EMPTY, tr, i).None? <==> !exists c, ip :: Reports(cfg, tr, i, c, ip)
    ensures forall c, ip | Reports(cfg, tr, i, c, ip) ::
              && (forall h :: EventAt(cfg, EMPTY, tr, i) == Some(HostnameEvent(h)) <==> ResolvedTo(cfg, tr, i, ip, h))
              && (EventAt(cfg, EMPTY, tr, i) == Some(IpEvent(ip)) <==> !exists h :: ResolvedTo(cfg, tr, i, ip, h))
  {
    NoOverflowIsUnlimited(cfg, EMPTY, tr);
    var u := Unlimited(cfg);
    SameHistory(cfg, u, tr, i);
    OnlyReportsEmit(u, tr, i);
    forall c, ip | Reports(cfg, tr, i, c, ip)
      ensures forall h :: EventAt(cfg, EMPTY, tr, i) == Some(HostnameEvent(h)) <==> ResolvedTo(cfg, tr, i, ip, h)
      ensures EventAt(cfg, EMPTY, tr, i) == Some(IpEvent(ip)) <==> !exists h :: ResolvedTo(cfg, tr, i, ip, h)
    {
      ReportIsHistory(u, tr, i, c, ip);
    }
  }

  /** The history predicates read only the target pid of the configuration. */
  lemma SameHistory(cfg: Config, u: Config, tr: seq<Firing>, i: nat)
    requires cfg.targetPid == u.targetPid && i < |tr|
    ensures forall c, ip :: Reports(cfg, tr, i, c, ip) <==> Reports(u, tr, i, c, ip)
    ensures forall ip, h :: ResolvedTo(cfg, tr, i, ip, h) <==> ResolvedTo(u, tr, i, ip, h)
  {
    assert forall k, j, ip | 0 <= k < |tr| :: Stores(cfg, tr, k, j, ip) <==> Stores(u, tr, k, j, ip);
    assert forall k, j, ip | 0 <= k < |tr| :: Reports(cfg, tr, k, j, ip) <==> Reports(u, tr, k, j, ip);
    forall k, ip | 0 <= k < |tr|
      ensures OperatesOn(cfg, tr, k, ip) <==> OperatesOn(u, tr, k, ip)
    {
    }
    assert forall k, j, ip :: LatestIsLookup(cfg, tr, i, k, j, ip) <==> LatestIsLookup(u, tr, i, k, j, ip);
  }
}

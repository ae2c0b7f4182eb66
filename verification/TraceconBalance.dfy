/** What the tracecon maps hold at any time: threads in flight, and host names not yet reported. */
module TraceconBalance {
  import opened BpfMap
  import opened Options
  import opened Tracecon

  // ------------------------------------------------------------ in-flight entries

  /** The two probed calls. */
  datatype Call = Resolve | Connect

  function InFlight(call: Call, s: State): set<Tid> {
    if call.Resolve? then s.lookups.Keys else s.sockets.Keys
  }

  predicate Enters(cfg: Config, call: Call, f: Firing, t: Tid) {
    Observed(cfg, f) && f.task.tid == t && if call.Resolve? then f.probe.LookupEnter? else f.probe.ConnectEnter?
  }

  predicate Exits(cfg: Config, call: Call, f: Firing, t: Tid) {
    Observed(cfg, f) && f.task.tid == t && if call.Resolve? then f.probe.LookupExit? else f.probe.ConnectExit?
  }

  /** How deep thread `t` is inside the call after the trace: enters minus exits. */
  function Depth(cfg: Config, call: Call, tr: seq<Firing>, t: Tid): int {
    if tr == [] then 0
    else
      var f := tr[|tr| - 1];
      Depth(cfg, call, tr[..|tr| - 1], t)
      + (if Enters(cfg, call, f, t) then 1 else 0) - (if Exits(cfg, call, f, t) then 1 else 0)
  }

  /** Thread `t` never exits a call it did not enter, and never enters it twice. */
  ghost predicate Alternates(cfg: Config, call: Call, tr: seq<Firing>, t: Tid) {
    forall i | 0 <= i <= |tr| :: 0 <= Depth(cfg, call, tr[..i], t) <= 1
  }

  lemma {:induction false} NoOverflowAt(cfg: Config, s: State, tr: seq<Firing>, i: nat)
    requires NoOverflow(cfg, s, tr) && i < |tr|
    ensures !Overflows(cfg, Run(cfg, s, tr[..i]), tr[i])
    decreases |tr|
  {
    if i > 0 {
      NoOverflowAt(cfg, Step(cfg, s, tr[0]).state, tr[1..], i - 1);
      assert tr[..i][1..] == tr[1..][..i - 1];
    }
  }

  /** One firing, as the in-flight set of one call sees it. */
  lemma StepInFlight(cfg: Config, call: Call, s: State, f: Firing, t: Tid)
    ensures var here, there := t in InFlight(call, s), t in InFlight(call, Step(cfg, s, f).state);
            && (Exits(cfg, call, f, t) ==> !there)
            && (Enters(cfg, call, f, t) && !Overflows(cfg, s, f) ==> there)
            && (!Enters(cfg, call, f, t) && !Exits(cfg, call, f, t) ==> (here <==> there))
  {
    var s' := Step(cfg, s, f).state;
    assert t in s.lookups <==> Find(s.lookups, t).Some?;
    assert t in s.sockets <==> Find(s.sockets, t).Some?;
    assert t in s'.lookups <==> Find(s'.lookups, t).Some?;
    assert t in s'.sockets <==> Find(s'.sockets, t).Some?;
  }

  /** Entries of an alternating thread exist only while it is inside the call; if no insert was
      refused they exist exactly then. */
  lemma {:induction false} InFlightIsInside(cfg: Config, call: Call, tr: seq<Firing>, i: nat, t: Tid)
    requires i <= |tr| && Alternates(cfg, call, tr, t)
    ensures t in InFlight(call, Run(cfg, EMPTY, tr[..i])) ==> Depth(cfg, call, tr[..i], t) == 1
    ensures NoOverflow(cfg, EMPTY, tr) && Depth(cfg, call, tr[..i], t) == 1 ==>
              t in InFlight(call, Run(cfg, EMPTY, tr[..i]))
  {
    if i > 0 {
      var p := i - 1;
      InFlightIsInside(cfg, call, tr, p, t);
      RunPrefix(cfg, EMPTY, tr, p);
      StepInFlight(cfg, call, Run(cfg, EMPTY, tr[..p]), tr[p], t);
      assert tr[..i][..p] == tr[..p] && tr[..i][p] == tr[p];
      assert 0 <= Depth(cfg, call, tr[..p], t) <= 1 && 0 <= Depth(cfg, call, tr[..i], t) <= 1;
      if NoOverflow(cfg, EMPTY, tr) {
        NoOverflowAt(cfg, EMPTY, tr, p);
      }
    }
  }

  /** Once every thread is out of both calls, both per-thread maps are empty, whatever inserts
      were refused on the way. */
  lemma QuiescentIsEmpty(cfg: Config, tr: seq<Firing>)
    requires forall call, t :: Alternates(cfg, call, tr, t)
    requires forall call, t :: Depth(cfg, call, tr, t) == 0
    ensures Run(cfg, EMPTY, tr).lookups == map[] && Run(cfg, EMPTY, tr).sockets == map[]
  {
    assert tr[..|tr|] == tr;
    var s := Run(cfg, EMPTY, tr);
    forall t, call
      ensures t !in InFlight(call, s)
    {
      assert Alternates(cfg, call, tr, t);
      InFlightIsInside(cfg, call, tr, |tr|, t);
      assert Depth(cfg, call, tr, t) == 0;
    }
    assert InFlight(Resolve, s) == {} && InFlight(Connect, s) == {};
  }

  // ------------------------------------------------------------ conservation of host names

  /** The firing stores (or tries to store) a resolved name: a successful lookup. */
  predicate Resolves(cfg: Config, s: State, f: Firing) {
    Observed(cfg, f) && f.probe.LookupExit? && f.probe.lookupRet == 0 && f.task.tid in s.lookups
  }

  /** The resolved name replaces one not yet reported, or finds the map full. */
  predicate Displaces(cfg: Config, s: State, f: Firing) {
    Resolves(cfg, s, f) &&
    var ip := ReadAddr(f.probe.memory, s.lookups[f.task.tid].results);
    ip in s.hostnames || Refuses(cfg.capacity, s.hostnames, ip)
  }

  predicate EmitsHostname(cfg: Config, s: State, f: Firing) {
    var event := Step(cfg, s, f).event;
    event.Some? && event.value.HostnameEvent?
  }

  function Count(cfg: Config, s: State, tr: seq<Firing>, what: (Config, State, Firing) -> bool): nat
    decreases |tr|
  {
    if tr == [] then 0
    else (if what(cfg, s, tr[0]) then 1 else 0) + Count(cfg, Step(cfg, s, tr[0]).state, tr[1..], what)
  }

  lemma StepConserves(cfg: Config, s: State, f: Firing)
    ensures |Step(cfg, s, f).state.hostnames| + (if EmitsHostname(cfg, s, f) then 1 else 0)
              + (if Displaces(cfg, s, f) then 1 else 0)
            == |s.hostnames| + (if Resolves(cfg, s, f) then 1 else 0)
  {
    if Observed(cfg, f) && f.probe.ConnectExit? && f.probe.connectRet == 0 && f.task.tid in s.sockets {
      var ip := ReadAddr(f.probe.daddr, s.sockets[f.task.tid]);
      if ip in s.hostnames {
        assert s.hostnames == (s.hostnames - {ip})[ip := s.hostnames[ip]];
      }
    }
  }

  /** Every successful lookup is accounted for: still in `hostnames`, reported as a HOSTNAME
      event, or displaced by a later lookup or a full map. */
  lemma {:induction false} HostnamesConserved(cfg: Config, s: State, tr: seq<Firing>)
    ensures |Run(cfg, s, tr).hostnames| + Count(cfg, s, tr, EmitsHostname) + Count(cfg, s, tr, Displaces)
            == |s.hostnames| + Count(cfg, s, tr, Resolves)
    decreases |tr|
  {
    if tr != [] {
      StepConserves(cfg, s, tr[0]);
      HostnamesConserved(cfg, Step(cfg, s, tr[0]).state, tr[1..]);
    }
  }

  /** From empty maps: pending plus reported names never exceed the successful lookups. */
  lemma ReportsBoundedByLookups(cfg: Config, tr: seq<Firing>)
    ensures |Run(cfg, EMPTY, tr).hostnames| + Count(cfg, EMPTY, tr, EmitsHostname) <= Count(cfg, EMPTY, tr, Resolves)
  {
    HostnamesConserved(cfg, EMPTY, tr);
  }

  // ------------------------------------------------------------ when nothing is refused

  lemma {:induction false} NoOverflowFrom(cfg: Config, s: State, tr: seq<Firing>)
    requires forall i | 0 <= i < |tr| :: !Overflows(cfg, Run(cfg, s, tr[..i]), tr[i])
    ensures NoOverflow(cfg, s, tr)
    decreases |tr|
  {
    if tr != [] {
      assert tr[..0] == [];
      assert !Overflows(cfg, Run(cfg, s, tr[..0]), tr[0]);
      var s' := Step(cfg, s, tr[0]).state;
      forall i | 0 <= i < |tr| - 1
        ensures !Overflows(cfg, Run(cfg, s', tr[1..][..i]), tr[1..][i])
      {
        assert tr[..i + 1][1..] == tr[1..][..i];
        assert !Overflows(cfg, Run(cfg, s, tr[..i + 1]), tr[i + 1]);
      }
      NoOverflowFrom(cfg, s', tr[1..]);
    }
  }

  function Threads(tr: seq<Firing>): set<Tid> {
    set f | f in tr :: f.task.tid
  }

  /** The returns of getaddrinfo that report success. */
  function Successes(tr: seq<Firing>): nat {
    if tr == [] then 0
    else
      var f := tr[|tr| - 1];
      Successes(tr[..|tr| - 1]) + if f.probe.LookupExit? && f.probe.lookupRet == 0 then 1 else 0
  }

  lemma {:induction false} SuccessesGrow(tr: seq<Firing>, i: nat)
    requires i <= |tr|
    ensures Successes(tr[..i]) <= Successes(tr)
    decreases |tr|
  {
    if i == |tr| {
      assert tr[..i] == tr;
    } else {
      assert tr[..|tr| - 1][..i] == tr[..i];
      SuccessesGrow(tr[..|tr| - 1], i);
    }
  }

  /** What one firing adds to the sizes of the maps. */
  lemma StepGrowth(cfg: Config, s: State, f: Firing)
    ensures var s' := Step(cfg, s, f).state;
            && s'.lookups.Keys <= s.lookups.Keys + {f.task.tid}
            && s'.sockets.Keys <= s.sockets.Keys + {f.task.tid}
            && |s'.hostnames| <= |s.hostnames| + if f.probe.LookupExit? && f.probe.lookupRet == 0 then 1 else 0
  {
    StepConserves(cfg, s, f);
    var s' := Step(cfg, s, f).state;
    forall t | t != f.task.tid
      ensures t in s'.lookups.Keys ==> t in s.lookups.Keys
      ensures t in s'.sockets.Keys ==> t in s.sockets.Keys
    {
      StepInFlight(cfg, Resolve, s, f, t);
      StepInFlight(cfg, Connect, s, f, t);
    }
  }

  lemma {:induction false} SizesBounded(cfg: Config, tr: seq<Firing>, i: nat)
    requires i <= |tr|
    ensures var s := Run(cfg, EMPTY, tr[..i]);
            s.lookups.Keys <= Threads(tr) && s.sockets.Keys <= Threads(tr) && |s.hostnames| <= Successes(tr[..i])
  {
    if i > 0 {
      var p := i - 1;
      SizesBounded(cfg, tr, p);
      RunPrefix(cfg, EMPTY, tr, p);
      StepGrowth(cfg, Run(cfg, EMPTY, tr[..p]), tr[p]);
      assert tr[..i][..p] == tr[..p];
      assert tr[p].task.tid in Threads(tr);
    }
  }

  lemma ProperSubset(part: set<Tid>, whole: set<Tid>, t: Tid)
    requires part <= whole && t in whole && t !in part
    ensures |part| < |whole|
  {
    assert whole == part + (whole - part);
    assert t in whole - part;
  }

  /** A run of no more threads than the maps have entries, with no more successful lookups than that,
      has every insert accepted: something to check on the trace alone. */
  lemma FewThreadsNeverOverflow(cfg: Config, tr: seq<Firing>)
    requires cfg.capacity.Bounded? ==>
               |Threads(tr)| <= cfg.capacity.entries && Successes(tr) <= cfg.capacity.entries
    ensures NoOverflow(cfg, EMPTY, tr)
  {
    forall i | 0 <= i < |tr|
      ensures !Overflows(cfg, Run(cfg, EMPTY, tr[..i]), tr[i])
    {
      var s, f := Run(cfg, EMPTY, tr[..i]), tr[i];
      SizesBounded(cfg, tr, i);
      assert f.task.tid in Threads(tr);
      SuccessesGrow(tr, i + 1);
      assert tr[..i + 1][..i] == tr[..i];
      if f.task.tid !in s.lookups {
        ProperSubset(s.lookups.Keys, Threads(tr), f.task.tid);
      }
      if f.task.tid !in s.sockets {
        ProperSubset(s.sockets.Keys, Threads(tr), f.task.tid);
      }
    }
    NoOverflowFrom(cfg, EMPTY, tr);
  }
}

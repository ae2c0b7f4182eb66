/** Interleavings of the tracecon probes.

    Two firings of different threads commute unless both operate on `hostnames` at one
    address.  Hence the maps, and what every thread emits, depend only on the order within
    each thread and on the order of `hostnames` operations at each address. */
module TraceconInterleaving {
  import opened BpfMap
  import opened Options
  import opened Tracecon

  /** The address at which the firing would operate on `hostnames`, if any. */
  function Touch(cfg: Config, s: State, f: Firing): Option<Ip> {
    var tid := f.task.tid;
    if !Observed(cfg, f) then None
    else match f.probe
      case LookupExit(ret, memory) =>
        if ret == 0 && tid in s.lookups then Some(ReadAddr(memory, s.lookups[tid].results)) else None
      case ConnectExit(ret, daddr) =>
        if ret == 0 && tid in s.sockets then Some(ReadAddr(daddr, s.sockets[tid])) else None
      case _ => None
  }

  /** Different threads, and not both on `hostnames` at the same address. */
  predicate Independent(cfg: Config, s: State, f: Firing, g: Firing) {
    f.task.tid != g.task.tid && Apart(Touch(cfg, s, f), Touch(cfg, s, g))
  }

  predicate Apart(p: Option<Ip>, q: Option<Ip>) {
    p.Some? && q.Some? ==> p.value != q.value
  }

  /** The firings of thread `t`, in order. */
  function ThreadOf(tr: seq<Firing>, t: Tid): seq<Firing> {
    if tr == [] then [] else (if tr[0].task.tid == t then [tr[0]] else []) + ThreadOf(tr[1..], t)
  }

  /** What a single firing contributes to the operations at `ip`. */
  function Touched(cfg: Config, s: State, f: Firing, ip: Ip): seq<Firing> {
    if Touch(cfg, s, f) == Some(ip) then [f] else []
  }

  /** The firings that operate on `hostnames` at `ip`, in order. */
  function TouchesOf(cfg: Config, s: State, tr: seq<Firing>, ip: Ip): seq<Firing>
    decreases |tr|
  {
    if tr == [] then []
    else Touched(cfg, s, tr[0], ip) + TouchesOf(cfg, Step(cfg, s, tr[0]).state, tr[1..], ip)
  }

  /** What a single firing contributes to the output of thread `t`. */
  function Emitted(cfg: Config, s: State, f: Firing, t: Tid): seq<Event> {
    var event := Step(cfg, s, f).event;
    if f.task.tid == t && event.Some? then [event.value] else []
  }

  /** The events thread `t` emits, in order. */
  function EventsOf(cfg: Config, s: State, tr: seq<Firing>, t: Tid): seq<Event>
    decreases |tr|
  {
    if tr == [] then [] else Emitted(cfg, s, tr[0], t) + EventsOf(cfg, Step(cfg, s, tr[0]).state, tr[1..], t)
  }

  /** Same order within each thread and same order of `hostnames` operations at each address. */
  ghost predicate SameOrders(cfg: Config, s: State, a: seq<Firing>, b: seq<Firing>) {
    (forall t :: ThreadOf(a, t) == ThreadOf(b, t)) &&
    (forall ip :: TouchesOf(cfg, s, a, ip) == TouchesOf(cfg, s, b, ip))
  }

  /** Same maps at the end, same output of every thread. */
  ghost predicate SameEffect(cfg: Config, s: State, a: seq<Firing>, b: seq<Firing>) {
    Run(cfg, s, a) == Run(cfg, s, b) &&
    (forall t :: EventsOf(cfg, s, a, t) == EventsOf(cfg, s, b, t))
  }

  // ------------------------------------------------------------ one swap

  /** The two states agree on the entries of thread `t` and on address `ip`. */
  predicate SameAt(r: State, s: State, t: Tid, ip: Option<Ip>) {
    && Find(r.lookups, t) == Find(s.lookups, t)
    && Find(r.sockets, t) == Find(s.sockets, t)
    && (ip.Some? ==> Find(r.hostnames, ip.value) == Find(s.hostnames, ip.value))
  }

  /** The two states agree on everything else. */
  ghost predicate SameElsewhere(r: State, s: State, t: Tid, ip: Option<Ip>) {
    && (forall u | u != t :: Find(r.lookups, u) == Find(s.lookups, u))
    && (forall u | u != t :: Find(r.sockets, u) == Find(s.sockets, u))
    && (forall q | !(ip.Some? && ip.value == q) :: Find(r.hostnames, q) == Find(s.hostnames, q))
  }

  /** A step changes `lookups` and `sockets` only for its own thread, and `hostnames` only at
      the address it touches. */
  lemma StepFrame(cfg: Config, s: State, f: Firing)
    ensures SameElsewhere(s, Step(cfg, s, f).state, f.task.tid, Touch(cfg, s, f))
  {
  }

  /** What a step emits and does to its own entries is decided by those entries alone. */
  lemma StepLocal(cfg: Config, f: Firing, r: State, s: State)
    requires cfg.capacity.Unbounded? && SameAt(r, s, f.task.tid, Touch(cfg, r, f))
    ensures Touch(cfg, r, f) == Touch(cfg, s, f)
    ensures Step(cfg, r, f).event == Step(cfg, s, f).event
    ensures SameAt(Step(cfg, r, f).state, Step(cfg, s, f).state, f.task.tid, Touch(cfg, r, f))
  {
    SameTouch(cfg, f, r, s);
    SameThreadEntries(cfg, f, r, s);
    SameAddressEntry(cfg, f, r, s);
  }

  /** The thread's entry in `lookups` after a firing, from its entry before. */
  function LookupAfter(cfg: Config, f: Firing, before: Option<Lookup>): Option<Lookup> {
    if !Observed(cfg, f) then before
    else match f.probe
      case LookupEnter(hostname, res) => Some(Lookup(StoredName(hostname), res))
      case LookupExit(_, _) => None
      case _ => before
  }

  /** The thread's entry in `sockets` after a firing, from its entry before. */
  function SocketAfter(cfg: Config, f: Firing, before: Option<Pointer>): Option<Pointer> {
    if !Observed(cfg, f) then before
    else match f.probe
      case ConnectEnter(sk) => Some(sk)
      case ConnectExit(_, _) => None
      case _ => before
  }

  lemma ThreadEntriesAfter(cfg: Config, s: State, f: Firing)
    requires cfg.capacity.Unbounded?
    ensures var s', t := Step(cfg, s, f).state, f.task.tid;
            && Find(s'.lookups, t) == LookupAfter(cfg, f, Find(s.lookups, t))
            && Find(s'.sockets, t) == SocketAfter(cfg, f, Find(s.sockets, t))
  {
  }

  lemma SameThreadEntries(cfg: Config, f: Firing, r: State, s: State)
    requires cfg.capacity.Unbounded? && SameAt(r, s, f.task.tid, None)
    ensures SameAt(Step(cfg, r, f).state, Step(cfg, s, f).state, f.task.tid, None)
  {
    ThreadEntriesAfter(cfg, r, f);
    ThreadEntriesAfter(cfg, s, f);
  }

  /** What a firing that touches `ip` emits, from the entry it finds there. */
  function EventFrom(f: Firing, ip: Option<Ip>, entry: Option<Lookup>): Option<Event> {
    if ip.None? || !f.probe.ConnectExit? then None
    else if entry.Some? then Some(HostnameEvent(entry.value.c))
    else Some(IpEvent(ip.value))
  }

  lemma AddressEntryAfter(cfg: Config, s: State, f: Firing)
    requires cfg.capacity.Unbounded?
    ensures var ip := Touch(cfg, s, f);
            && Step(cfg, s, f).event == EventFrom(f, ip, if ip.Some? then Find(s.hostnames, ip.value) else None)
            && (ip.Some? ==>
                  Find(Step(cfg, s, f).state.hostnames, ip.value)
                  == if f.probe.LookupExit? then Find(s.lookups, f.task.tid) else None)
  {
  }

  lemma SameAddressEntry(cfg: Config, f: Firing, r: State, s: State)
    requires cfg.capacity.Unbounded? && SameAt(r, s, f.task.tid, Touch(cfg, r, f))
    requires Touch(cfg, r, f) == Touch(cfg, s, f)
    ensures Step(cfg, r, f).event == Step(cfg, s, f).event
    ensures var ip := Touch(cfg, r, f);
            ip.Some? ==>
              Find(Step(cfg, r, f).state.hostnames, ip.value) == Find(Step(cfg, s, f).state.hostnames, ip.value)
  {
    AddressEntryAfter(cfg, r, f);
    AddressEntryAfter(cfg, s, f);
  }

  lemma SameTouch(cfg: Config, f: Firing, r: State, s: State)
    requires SameAt(r, s, f.task.tid, None)
    ensures Touch(cfg, r, f) == Touch(cfg, s, f)
  {
  }

  /** Changes by different threads, made in either order, close the square on the per-thread maps,
      wherever they meet in `hostnames`. */
  lemma ThreadSquare(s: State, sf: State, sg: State, fg: State, gf: State, t: Tid, u: Tid, p: Option<Ip>, q: Option<Ip>)
    requires t != u
    requires SameElsewhere(s, sf, t, p) && SameElsewhere(sg, gf, t, p) && SameAt(sf, gf, t, None)
    requires SameElsewhere(s, sg, u, q) && SameElsewhere(sf, fg, u, q) && SameAt(sg, fg, u, None)
    ensures fg.lookups == gf.lookups && fg.sockets == gf.sockets
  {
    forall k
      ensures Find(fg.lookups, k) == Find(gf.lookups, k)
      ensures Find(fg.sockets, k) == Find(gf.sockets, k)
    {
      if k == t {
        assert Find(fg.lookups, k) == Find(sf.lookups, k) && Find(fg.sockets, k) == Find(sf.sockets, k);
      } else if k != u {
        assert Find(fg.lookups, k) == Find(sf.lookups, k) == Find(s.lookups, k) == Find(sg.lookups, k);
        assert Find(fg.sockets, k) == Find(sf.sockets, k) == Find(s.sockets, k) == Find(sg.sockets, k);
      }
    }
    Extensional(fg.lookups, gf.lookups);
    Extensional(fg.sockets, gf.sockets);
  }

  /** And on `hostnames` if they agree at the addresses touched. */
  lemma AddressSquare(s: State, sf: State, sg: State, fg: State, gf: State, t: Tid, u: Tid, p: Option<Ip>, q: Option<Ip>)
    requires SameElsewhere(s, sf, t, p) && SameElsewhere(sg, gf, t, p)
    requires SameElsewhere(s, sg, u, q) && SameElsewhere(sf, fg, u, q)
    requires p.Some? ==> Find(fg.hostnames, p.value) == Find(gf.hostnames, p.value)
    requires q.Some? ==> Find(fg.hostnames, q.value) == Find(gf.hostnames, q.value)
    ensures fg.hostnames == gf.hostnames
  {
    forall k
      ensures Find(fg.hostnames, k) == Find(gf.hostnames, k)
    {
      if p != Some(k) && q != Some(k) {
        assert Find(fg.hostnames, k) == Find(sf.hostnames, k) == Find(s.hostnames, k) == Find(sg.hostnames, k);
      }
    }
    Extensional(fg.hostnames, gf.hostnames);
  }

  lemma Diamond(s: State, sf: State, sg: State, fg: State, gf: State, t: Tid, u: Tid, p: Option<Ip>, q: Option<Ip>)
    requires t != u && Apart(p, q)
    requires SameElsewhere(s, sf, t, p) && SameElsewhere(sg, gf, t, p) && SameAt(sf, gf, t, p)
    requires SameElsewhere(s, sg, u, q) && SameElsewhere(sf, fg, u, q) && SameAt(sg, fg, u, q)
    ensures fg == gf
  {
    ThreadSquare(s, sf, sg, fg, gf, t, u, p, q);
    if p.Some? {
      assert Find(fg.hostnames, p.value) == Find(sf.hostnames, p.value);
    }
    if q.Some? {
      assert Find(gf.hostnames, q.value) == Find(sg.hostnames, q.value);
    }
    AddressSquare(s, sf, sg, fg, gf, t, u, p, q);
  }

  /** Adjacent independent firings commute: same maps, and each emits what it would have
      emitted in the other order. */
  lemma Commute(cfg: Config, s: State, f: Firing, g: Firing)
    requires cfg.capacity.Unbounded? && Independent(cfg, s, f, g)
    ensures var sf, sg := Step(cfg, s, f), Step(cfg, s, g);
            && Step(cfg, sf.state, g).state == Step(cfg, sg.state, f).state
            && Step(cfg, sf.state, g).event == sg.event
            && Step(cfg, sg.state, f).event == sf.event
            && Touch(cfg, sf.state, g) == Touch(cfg, s, g)
            && Touch(cfg, sg.state, f) == Touch(cfg, s, f)
  {
    var t, u, p, q := f.task.tid, g.task.tid, Touch(cfg, s, f), Touch(cfg, s, g);
    var sf, sg := Step(cfg, s, f).state, Step(cfg, s, g).state;
    StepFrame(cfg, s, f);
    StepFrame(cfg, s, g);
    Untouched(s, sf, t, p, u, q);
    Untouched(s, sg, u, q, t, p);
    StepLocal(cfg, g, s, sf);
    StepLocal(cfg, f, s, sg);
    StepFrame(cfg, sf, g);
    StepFrame(cfg, sg, f);
    Diamond(s, sf, sg, Step(cfg, sf, g).state, Step(cfg, sg, f).state, t, u, p, q);
  }

  lemma Untouched(s: State, s': State, t: Tid, p: Option<Ip>, u: Tid, q: Option<Ip>)
    requires SameElsewhere(s, s', t, p) && t != u && Apart(p, q)
    ensures SameAt(s, s', u, q)
  {
  }

  // ------------------------------------------------------------ exactly when firings commute

  /** Both orders leave the same maps, and each firing emits the same in both. */
  predicate OrdersAgree(cfg: Config, s: State, f: Firing, g: Firing) {
    var sf, sg := Step(cfg, s, f), Step(cfg, s, g);
    && Step(cfg, sf.state, g).state == Step(cfg, sg.state, f).state
    && Step(cfg, sf.state, g).event == sg.event
    && Step(cfg, sg.state, f).event == sf.event
  }

  /** The firings meet at one address, but both are connects to an unresolved address, or both are
      lookups that store the same entry. */
  predicate HarmlessMeeting(cfg: Config, s: State, f: Firing, g: Firing) {
    var p, q := Touch(cfg, s, f), Touch(cfg, s, g);
    && p.Some? && p == q
    && (|| (f.probe.ConnectExit? && g.probe.ConnectExit? && p.value !in s.hostnames)
        || (f.probe.LookupExit? && g.probe.LookupExit?
            && Find(s.lookups, f.task.tid) == Find(s.lookups, g.task.tid)))
  }

  /** What the second of two firings that meet at `ip` finds, leaves and emits there. */
  lemma MeetingEffect(cfg: Config, s: State, f: Firing, g: Firing, ip: Ip)
    requires cfg.capacity.Unbounded? && f.task.tid != g.task.tid
    requires Touch(cfg, s, f) == Some(ip) == Touch(cfg, s, g)
    ensures var sf, found := Step(cfg, s, f).state, if f.probe.LookupExit? then Find(s.lookups, f.task.tid) else None;
            && SameAt(s, sf, g.task.tid, None) && Touch(cfg, sf, g) == Some(ip)
            && Step(cfg, sf, g).event == EventFrom(g, Some(ip), found)
            && Find(Step(cfg, sf, g).state.hostnames, ip)
               == if g.probe.LookupExit? then Find(s.lookups, g.task.tid) else None
  {
    var sf := Step(cfg, s, f).state;
    StepFrame(cfg, s, f);
    assert SameAt(s, sf, g.task.tid, None);
    SameTouch(cfg, g, s, sf);
    AddressEntryAfter(cfg, s, f);
    AddressEntryAfter(cfg, sf, g);
  }

  /** Two firings that meet at `ip` leave the same maps exactly when they leave the same entry
      there. */
  lemma MeetingMaps(cfg: Config, s: State, f: Firing, g: Firing, ip: Ip)
    requires cfg.capacity.Unbounded? && f.task.tid != g.task.tid
    requires Touch(cfg, s, f) == Some(ip) == Touch(cfg, s, g)
    ensures var fg, gf := Step(cfg, Step(cfg, s, f).state, g).state, Step(cfg, Step(cfg, s, g).state, f).state;
            fg == gf <==> Find(fg.hostnames, ip) == Find(gf.hostnames, ip)
  {
    var t, u, sf, sg := f.task.tid, g.task.tid, Step(cfg, s, f).state, Step(cfg, s, g).state;
    var fg, gf := Step(cfg, sf, g).state, Step(cfg, sg, f).state;
    MeetingEffect(cfg, s, f, g, ip);
    MeetingEffect(cfg, s, g, f, ip);
    StepFrame(cfg, s, f);
    StepFrame(cfg, s, g);
    StepFrame(cfg, sf, g);
    StepFrame(cfg, sg, f);
    SameThreadEntries(cfg, f, s, sg);
    SameThreadEntries(cfg, g, s, sf);
    ThreadSquare(s, sf, sg, fg, gf, t, u, Some(ip), Some(ip));
    if Find(fg.hostnames, ip) == Find(gf.hostnames, ip) {
      AddressSquare(s, sf, sg, fg, gf, t, u, Some(ip), Some(ip));
    }
  }

  /** Two firings of different threads commute if and only if they are independent or meet
      harmlessly. */
  lemma CommuteIff(cfg: Config, s: State, f: Firing, g: Firing)
    requires cfg.capacity.Unbounded? && f.task.tid != g.task.tid
    ensures OrdersAgree(cfg, s, f, g) <==> Independent(cfg, s, f, g) || HarmlessMeeting(cfg, s, f, g)
  {
    if Independent(cfg, s, f, g) {
      Commute(cfg, s, f, g);
    } else {
      var ip := Touch(cfg, s, f).value;
      assert Touch(cfg, s, f) == Some(ip) == Touch(cfg, s, g);
      MeetingMaps(cfg, s, f, g, ip);
      MeetingEffect(cfg, s, f, g, ip);
      MeetingEffect(cfg, s, g, f, ip);
      AddressEntryAfter(cfg, s, f);
      AddressEntryAfter(cfg, s, g);
    }
  }

  /** A lookup and a connect that meet at an address never commute: the maps always differ, and the
      connect's event differs exactly when the lookup brings news. */
  lemma SameAddressDoesNotCommute(cfg: Config, s: State, f: Firing, g: Firing, ip: Ip)
    requires cfg.capacity.Unbounded? && f.task.tid != g.task.tid
    requires f.probe.LookupExit? && g.probe.ConnectExit?
    requires Touch(cfg, s, f) == Some(ip) == Touch(cfg, s, g)
    ensures Step(cfg, Step(cfg, s, f).state, g).state != Step(cfg, Step(cfg, s, g).state, f).state
    ensures Step(cfg, Step(cfg, s, f).state, g).event != Step(cfg, s, g).event
            <==> ip !in s.hostnames || s.hostnames[ip].c != s.lookups[f.task.tid].c
  {
    MeetingEffect(cfg, s, f, g, ip);
    MeetingEffect(cfg, s, g, f, ip);
    AddressEntryAfter(cfg, s, g);
  }

  // ------------------------------------------------------------ concatenation

  lemma Associate<T>(a: seq<T>, b: seq<T>, c: seq<T>)
    ensures a + (b + c) == (a + b) + c
  {
  }

  lemma {:induction false} ThreadOfAppend(a: seq<Firing>, b: seq<Firing>, t: Tid)
    ensures ThreadOf(a + b, t) == ThreadOf(a, t) + ThreadOf(b, t)
  {
    if a == [] {
      assert a + b == b;
    } else {
      assert (a + b)[1..] == a[1..] + b;
      ThreadOfAppend(a[1..], b, t);
      Associate(if a[0].task.tid == t then [a[0]] else [], ThreadOf(a[1..], t), ThreadOf(b, t));
    }
  }

  lemma {:induction false} EventsOfAppend(cfg: Config, s: State, a: seq<Firing>, b: seq<Firing>, t: Tid)
    ensures EventsOf(cfg, s, a + b, t) == EventsOf(cfg, s, a, t) + EventsOf(cfg, Run(cfg, s, a), b, t)
    decreases |a|
  {
    if a == [] {
      assert a + b == b;
    } else {
      assert (a + b)[1..] == a[1..] + b;
      var s' := Step(cfg, s, a[0]).state;
      EventsOfAppend(cfg, s', a[1..], b, t);
      Associate(Emitted(cfg, s, a[0], t), EventsOf(cfg, s', a[1..], t), EventsOf(cfg, Run(cfg, s, a), b, t));
    }
  }

  lemma {:induction false} TouchesOfAppend(cfg: Config, s: State, a: seq<Firing>, b: seq<Firing>, ip: Ip)
    ensures TouchesOf(cfg, s, a + b, ip) == TouchesOf(cfg, s, a, ip) + TouchesOf(cfg, Run(cfg, s, a), b, ip)
    decreases |a|
  {
    if a == [] {
      assert a + b == b;
    } else {
      assert (a + b)[1..] == a[1..] + b;
      var s' := Step(cfg, s, a[0]).state;
      TouchesOfAppend(cfg, s', a[1..], b, ip);
      Associate(Touched(cfg, s, a[0], ip), TouchesOf(cfg, s', a[1..], ip), TouchesOf(cfg, Run(cfg, s, a), b, ip));
    }
  }

  lemma {:induction false} TouchesComeFrom(cfg: Config, s: State, tr: seq<Firing>, ip: Ip)
    ensures forall f | f in TouchesOf(cfg, s, tr, ip) :: f in tr
    decreases |tr|
  {
    if tr != [] {
      TouchesComeFrom(cfg, Step(cfg, s, tr[0]).state, tr[1..], ip);
    }
  }

  lemma {:induction false} ThreadOfEmpty(tr: seq<Firing>, t: Tid)
    requires forall f | f in tr :: f.task.tid != t
    ensures ThreadOf(tr, t) == []
  {
    if tr != [] {
      ThreadOfEmpty(tr[1..], t);
    }
  }

  lemma OnlyEmptyHasNoThreads(tr: seq<Firing>)
    requires forall t :: ThreadOf(tr, t) == []
    ensures tr == []
  {
    assert tr != [] ==> ThreadOf(tr, tr[0].task.tid) != [];
  }

  /** Where thread `t` first fires. */
  lemma {:induction false} FirstOfThread(tr: seq<Firing>, t: Tid) returns (i: nat)
    requires ThreadOf(tr, t) != []
    ensures i < |tr| && tr[i] == ThreadOf(tr, t)[0] && tr[i].task.tid == t
    ensures forall f | f in tr[..i] :: f.task.tid != t
  {
    if tr[0].task.tid == t {
      i := 0;
    } else {
      var k := FirstOfThread(tr[1..], t);
      i := k + 1;
      assert tr[..i] == [tr[0]] + tr[1..][..k];
    }
  }

  // ------------------------------------------------------------ moving one firing forward

  /** Equal maps, equal output of every thread, equal operations at every address. */
  ghost predicate Interchangeable(cfg: Config, s: State, a: seq<Firing>, b: seq<Firing>) {
    SameEffect(cfg, s, a, b) && (forall ip :: TouchesOf(cfg, s, a, ip) == TouchesOf(cfg, s, b, ip))
  }

  lemma Unfold(cfg: Config, s: State, f: Firing, rest: seq<Firing>)
    ensures var s' := Step(cfg, s, f).state;
            && Run(cfg, s, [f] + rest) == Run(cfg, s', rest)
            && (forall t :: EventsOf(cfg, s, [f] + rest, t) == Emitted(cfg, s, f, t) + EventsOf(cfg, s', rest, t))
            && (forall ip :: TouchesOf(cfg, s, [f] + rest, ip) == Touched(cfg, s, f, ip) + TouchesOf(cfg, s', rest, ip))
  {
    assert ([f] + rest)[1..] == rest;
  }

  lemma Prepend(cfg: Config, s: State, f: Firing, a: seq<Firing>, b: seq<Firing>)
    requires Interchangeable(cfg, Step(cfg, s, f).state, a, b)
    ensures Interchangeable(cfg, s, [f] + a, [f] + b)
  {
    Unfold(cfg, s, f, a);
    Unfold(cfg, s, f, b);
  }

  lemma SwapFront(cfg: Config, s: State, f: Firing, g: Firing, rest: seq<Firing>)
    requires cfg.capacity.Unbounded? && Independent(cfg, s, f, g)
    ensures Interchangeable(cfg, s, [g] + ([f] + rest), [f] + ([g] + rest))
  {
    Commute(cfg, s, f, g);
    var sf, sg := Step(cfg, s, f).state, Step(cfg, s, g).state;
    var both := Step(cfg, sg, f).state;
    Unfold(cfg, s, g, [f] + rest);
    Unfold(cfg, sg, f, rest);
    Unfold(cfg, s, f, [g] + rest);
    Unfold(cfg, sf, g, rest);
    forall t
      ensures EventsOf(cfg, s, [g] + ([f] + rest), t) == EventsOf(cfg, s, [f] + ([g] + rest), t)
    {
      SwapEmitted(cfg, s, f, g, t);
      Exchange(Emitted(cfg, s, g, t), Emitted(cfg, s, f, t), EventsOf(cfg, both, rest, t));
    }
    forall ip
      ensures TouchesOf(cfg, s, [g] + ([f] + rest), ip) == TouchesOf(cfg, s, [f] + ([g] + rest), ip)
    {
      SwapTouched(cfg, s, f, g, ip);
      Exchange(Touched(cfg, s, g, ip), Touched(cfg, s, f, ip), TouchesOf(cfg, both, rest, ip));
    }
  }

  lemma SwapEmitted(cfg: Config, s: State, f: Firing, g: Firing, t: Tid)
    requires cfg.capacity.Unbounded? && Independent(cfg, s, f, g)
    ensures Emitted(cfg, Step(cfg, s, g).state, f, t) == Emitted(cfg, s, f, t)
    ensures Emitted(cfg, Step(cfg, s, f).state, g, t) == Emitted(cfg, s, g, t)
    ensures Emitted(cfg, s, f, t) == [] || Emitted(cfg, s, g, t) == []
  {
    Commute(cfg, s, f, g);
  }

  lemma SwapTouched(cfg: Config, s: State, f: Firing, g: Firing, ip: Ip)
    requires cfg.capacity.Unbounded? && Independent(cfg, s, f, g)
    ensures Touched(cfg, Step(cfg, s, g).state, f, ip) == Touched(cfg, s, f, ip)
    ensures Touched(cfg, Step(cfg, s, f).state, g, ip) == Touched(cfg, s, g, ip)
    ensures Touched(cfg, s, f, ip) == [] || Touched(cfg, s, g, ip) == []
  {
    Commute(cfg, s, f, g);
  }

  lemma Exchange<T>(a: seq<T>, b: seq<T>, rest: seq<T>)
    requires a == [] || b == []
    ensures a + (b + rest) == b + (a + rest)
  {
  }

  /** `f` reaches the front of `a + [f]` by adjacent swaps when nothing in `a` is of its thread
      or operates on `hostnames` at its address. */
  lemma {:induction false} MoveToFront(cfg: Config, s: State, a: seq<Firing>, f: Firing)
    requires cfg.capacity.Unbounded?
    requires forall g | g in a :: g.task.tid != f.task.tid
    requires Touch(cfg, s, f).Some? ==> TouchesOf(cfg, s, a, Touch(cfg, s, f).value) == []
    ensures Interchangeable(cfg, s, a + [f], [f] + a)
    decreases |a|
  {
    if a == [] {
      assert a + [f] == [f] + a;
    } else {
      var g, rest := a[0], a[1..];
      var sg := Step(cfg, s, g).state;
      assert a == [g] + rest;
      Unfold(cfg, s, g, rest);
      Commute(cfg, s, f, g);
      MoveToFront(cfg, sg, rest, f);
      Prepend(cfg, s, g, rest + [f], [f] + rest);
      SwapFront(cfg, s, f, g, rest);
      assert a + [f] == [g] + (rest + [f]);
    }
  }

  /** Rotating `f` to the front of `a + [f] + rest` changes neither effect nor orders. */
  lemma Rotate(cfg: Config, s: State, a: seq<Firing>, f: Firing, rest: seq<Firing>)
    requires cfg.capacity.Unbounded?
    requires forall g | g in a :: g.task.tid != f.task.tid
    requires Touch(cfg, s, f).Some? ==> TouchesOf(cfg, s, a, Touch(cfg, s, f).value) == []
    ensures SameEffect(cfg, s, a + [f] + rest, [f] + (a + rest))
    ensures SameOrders(cfg, s, a + [f] + rest, [f] + (a + rest))
  {
    MoveToFront(cfg, s, a, f);
    var x, y := a + [f], [f] + a;
    assert [f] + (a + rest) == y + rest;
    RunAppend(cfg, s, x, rest);
    RunAppend(cfg, s, y, rest);
    forall t
      ensures EventsOf(cfg, s, x + rest, t) == EventsOf(cfg, s, y + rest, t)
      ensures ThreadOf(x + rest, t) == ThreadOf(y + rest, t)
    {
      EventsOfAppend(cfg, s, x, rest, t);
      EventsOfAppend(cfg, s, y, rest, t);
      ThreadOfAppend(x, rest, t);
      ThreadOfAppend(y, rest, t);
      ThreadOfAppend(a, [f], t);
      ThreadOfAppend([f], a, t);
      if t == f.task.tid {
        ThreadOfEmpty(a, t);
      } else {
        ThreadOfEmpty([f], t);
      }
    }
    forall ip
      ensures TouchesOf(cfg, s, x + rest, ip) == TouchesOf(cfg, s, y + rest, ip)
    {
      TouchesOfAppend(cfg, s, x, rest, ip);
      TouchesOfAppend(cfg, s, y, rest, ip);
    }
  }

  /** Dropping an equal first firing from both traces keeps their orders equal. */
  lemma DropFirst(cfg: Config, s: State, f: Firing, a: seq<Firing>, b: seq<Firing>)
    requires SameOrders(cfg, s, [f] + a, [f] + b)
    ensures SameOrders(cfg, Step(cfg, s, f).state, a, b)
  {
    var s' := Step(cfg, s, f).state;
    assert ([f] + a)[1..] == a && ([f] + b)[1..] == b;
    forall t
      ensures ThreadOf(a, t) == ThreadOf(b, t)
    {
      var pre := if f.task.tid == t then [f] else [];
      assert pre + ThreadOf(a, t) == ThreadOf([f] + a, t) == ThreadOf([f] + b, t) == pre + ThreadOf(b, t);
      assert ThreadOf(a, t) == (pre + ThreadOf(a, t))[|pre|..];
      assert ThreadOf(b, t) == (pre + ThreadOf(b, t))[|pre|..];
    }
    forall ip
      ensures TouchesOf(cfg, s', a, ip) == TouchesOf(cfg, s', b, ip)
    {
      var pre := if Touch(cfg, s, f) == Some(ip) then [f] else [];
      assert pre + TouchesOf(cfg, s', a, ip) == TouchesOf(cfg, s, [f] + a, ip);
      assert pre + TouchesOf(cfg, s', b, ip) == TouchesOf(cfg, s, [f] + b, ip);
      assert TouchesOf(cfg, s', a, ip) == (pre + TouchesOf(cfg, s', a, ip))[|pre|..];
      assert TouchesOf(cfg, s', b, ip) == (pre + TouchesOf(cfg, s', b, ip))[|pre|..];
    }
  }

  /** If the first operation at an address belongs to thread of `f`, a prefix without that
      thread holds no operation at that address. */
  lemma PrefixIsClear(cfg: Config, s: State, a: seq<Firing>, rest: seq<Firing>, f: Firing, ip: Ip)
    requires forall g | g in a :: g.task.tid != f.task.tid
    requires TouchesOf(cfg, s, a + rest, ip) != [] && TouchesOf(cfg, s, a + rest, ip)[0] == f
    ensures TouchesOf(cfg, s, a, ip) == []
  {
    TouchesOfAppend(cfg, s, a, rest, ip);
    TouchesComeFrom(cfg, s, a, ip);
  }

  /** Where the first firing of `b` sits in `a`: nothing before it is of its thread or operates on
      `hostnames` at its address. */
  lemma LocateFirst(cfg: Config, s: State, a: seq<Firing>, f: Firing, b: seq<Firing>)
      returns (pre: seq<Firing>, rest: seq<Firing>)
    requires SameOrders(cfg, s, a, [f] + b)
    ensures a == pre + [f] + rest
    ensures forall g | g in pre :: g.task.tid != f.task.tid
    ensures Touch(cfg, s, f).Some? ==> TouchesOf(cfg, s, pre, Touch(cfg, s, f).value) == []
  {
    var t := f.task.tid;
    assert ThreadOf(a, t) == ThreadOf([f] + b, t);
    var i := FirstOfThread(a, t);
    pre, rest := a[..i], a[i + 1..];
    assert a == pre + [f] + rest;
    Associate(pre, [f], rest);
    if Touch(cfg, s, f).Some? {
      var ip := Touch(cfg, s, f).value;
      assert TouchesOf(cfg, s, a, ip) == TouchesOf(cfg, s, [f] + b, ip);
      PrefixIsClear(cfg, s, pre, [f] + rest, f, ip);
    }
  }

  /** Unbounded maps: interleavings with the same orders have the same effect. */
  lemma {:induction false} SameOrdersSameEffect(cfg: Config, s: State, a: seq<Firing>, b: seq<Firing>)
    requires cfg.capacity.Unbounded?
    requires SameOrders(cfg, s, a, b)
    ensures SameEffect(cfg, s, a, b)
    decreases |b|
  {
    if b == [] {
      OnlyEmptyHasNoThreads(a);
    } else {
      var f, later := b[0], b[1..];
      assert b == [f] + later;
      var pre, rest := LocateFirst(cfg, s, a, f, later);
      Rotate(cfg, s, pre, f, rest);
      DropFirst(cfg, s, f, pre + rest, later);
      SameOrdersSameEffect(cfg, Step(cfg, s, f).state, pre + rest, later);
      PrependEffect(cfg, s, f, pre + rest, later);
    }
  }

  lemma PrependEffect(cfg: Config, s: State, f: Firing, a: seq<Firing>, b: seq<Firing>)
    requires SameEffect(cfg, Step(cfg, s, f).state, a, b)
    ensures SameEffect(cfg, s, [f] + a, [f] + b)
  {
    Unfold(cfg, s, f, a);
    Unfold(cfg, s, f, b);
  }

  // ------------------------------------------------------------ bounded maps

  lemma {:induction false} NoOverflowProjections(cfg: Config, s: State, tr: seq<Firing>)
    requires NoOverflow(cfg, s, tr)
    ensures Run(cfg, s, tr) == Run(Unlimited(cfg), s, tr)
    ensures forall t :: EventsOf(cfg, s, tr, t) == EventsOf(Unlimited(cfg), s, tr, t)
    ensures forall ip :: TouchesOf(cfg, s, tr, ip) == TouchesOf(Unlimited(cfg), s, tr, ip)
    decreases |tr|
  {
    if tr != [] {
      var f, rest, u := tr[0], tr[1..], Unlimited(cfg);
      NoOverflowStep(cfg, s, f);
      NoOverflowProjections(cfg, Step(cfg, s, f).state, rest);
      assert tr == [f] + rest;
      Unfold(cfg, s, f, rest);
      Unfold(u, s, f, rest);
    }
  }

  /** The theorem for the maps as declared: in interleavings where no insert is refused, the
      order within threads and the order per address decide the maps and every thread's output. */
  lemma InterleavingTheorem(cfg: Config, s: State, a: seq<Firing>, b: seq<Firing>)
    requires NoOverflow(cfg, s, a) && NoOverflow(cfg, s, b)
    requires SameOrders(cfg, s, a, b)
    ensures SameEffect(cfg, s, a, b)
  {
    NoOverflowProjections(cfg, s, a);
    NoOverflowProjections(cfg, s, b);
    SameOrdersSameEffect(Unlimited(cfg), s, a, b);
  }

  // ------------------------------------------------------------ the target pid

  /** The firings of one process, in order. */
  function ProcessOf(tr: seq<Firing>, tgid: nat): seq<Firing> {
    if tr == [] then [] else (if tr[0].task.tgid == tgid then [tr[0]] else []) + ProcessOf(tr[1..], tgid)
  }

  lemma TargetStep(pid: nat, capacity: Capacity, s: State, f: Firing)
    requires pid != 0
    ensures Step(Config(pid, capacity), s, f)
            == if f.task.tgid == pid then Step(Config(0, capacity), s, f) else Outcome(s, None)
  {
  }

  /** Observing one process is observing everything and looking only at that process's firings:
      same maps, same output of every thread. */
  lemma {:induction false} TargetIsFilter(pid: nat, capacity: Capacity, s: State, tr: seq<Firing>)
    requires pid != 0
    ensures var one, all, mine := Config(pid, capacity), Config(0, capacity), ProcessOf(tr, pid);
            && Run(one, s, tr) == Run(all, s, mine)
            && (forall t :: EventsOf(one, s, tr, t) == EventsOf(all, s, mine, t))
    decreases |tr|
  {
    if tr != [] {
      var one, all, f, rest := Config(pid, capacity), Config(0, capacity), tr[0], tr[1..];
      var s' := Step(one, s, f).state;
      TargetIsFilter(pid, capacity, s', rest);
      assert tr == [f] + rest;
      Unfold(one, s, f, rest);
      if f.task.tgid == pid {
        TargetStep(pid, capacity, s, f);
        Unfold(all, s, f, ProcessOf(rest, pid));
      } else {
        TargetStep(pid, capacity, s, f);
        assert ProcessOf(tr, pid) == ProcessOf(rest, pid);
      }
    }
  }
}

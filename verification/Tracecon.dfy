/** The four tracecon probes (examples/rust/tracecon/src/bpf/tracecon.bpf.c).

    `Step` is one atomic firing of one probe; `Probes` is the same code as a class whose
    methods update the three shared maps in place, proved against `Step`. */
module Tracecon {
  import opened BpfMap
  import opened Options

  type Tid = int
  type Ip = int
  type Pointer = int

  const MAX_ENTRIES: nat := 10240
  const HOSTNAME_LEN: nat := 84

  /** The two halves of bpf_get_current_pid_tgid. */
  datatype Task = Task(tgid: nat, tid: Tid)

  datatype Lookup = Lookup(c: string, results: Pointer)

  datatype Event = IpEvent(ip: Ip) | HostnameEvent(name: string)

  /** What a probe sees when it fires.  `memory` gives, for a `struct addrinfo **`, the IPv4
      address at the end of the pointer chain at that moment; `daddr` the destination address
      of a socket.  A pointer that cannot be read yields the zero the helpers leave behind. */
  datatype Probe =
    | LookupEnter(hostname: string, res: Pointer)
    | LookupExit(lookupRet: int, memory: map<Pointer, Ip>)
    | ConnectEnter(sk: Pointer)
    | ConnectExit(connectRet: int, daddr: map<Pointer, Ip>)

  datatype Firing = Firing(task: Task, probe: Probe)

  datatype Config = Config(targetPid: nat, capacity: Capacity)

  datatype State = State(lookups: map<Tid, Lookup>, hostnames: map<Ip, Lookup>, sockets: map<Tid, Pointer>)

  datatype Outcome = Outcome(state: State, event: Option<Event>)

  const EMPTY: State := State(map[], map[], map[])

  /** get_tid: 0 stands for "ignore this task". */
  function GetTid(cfg: Config, task: Task): Tid {
    if cfg.targetPid != 0 && cfg.targetPid != task.tgid then 0 else task.tid
  }

  /** The probes look at this firing: it is not the idle thread's, and its process is the target, if
      there is one. */
  predicate Observed(cfg: Config, f: Firing) {
    f.task.tid != 0 && (cfg.targetPid == 0 || f.task.tgid == cfg.targetPid)
  }

  /** bpf_probe_read_user_str into a zeroed buffer of HOSTNAME_LEN bytes: the longest prefix that
      leaves room for the terminator. */
  function StoredName(hostname: string): (name: string)
    ensures name <= hostname && |name| < HOSTNAME_LEN
    ensures |name| + 1 < HOSTNAME_LEN ==> name == hostname
  {
    if |hostname| < HOSTNAME_LEN then hostname else hostname[..HOSTNAME_LEN - 1]
  }

  function ReadAddr(memory: map<Pointer, Ip>, p: Pointer): Ip {
    if p in memory then memory[p] else 0
  }

  function Step(cfg: Config, s: State, f: Firing): Outcome {
    var tid := GetTid(cfg, f.task);
    if tid == 0 then Outcome(s, None)
    else match f.probe
      case LookupEnter(hostname, res) =>
        Outcome(s.(lookups := Update(cfg.capacity, s.lookups, tid, Lookup(StoredName(hostname), res))), None)
      case LookupExit(ret, memory) =>
        if ret != 0 then Outcome(s.(lookups := Delete(s.lookups, tid)), None)
        else if tid !in s.lookups then Outcome(s, None)
        else
          var lookup := s.lookups[tid];
          var ip := ReadAddr(memory, lookup.results);
          Outcome(s.(hostnames := Update(cfg.capacity, s.hostnames, ip, lookup),
                     lookups := Delete(s.lookups, tid)), None)
      case ConnectEnter(sk) =>
        Outcome(s.(sockets := Update(cfg.capacity, s.sockets, tid, sk)), None)
      case ConnectExit(ret, daddr) =>
        if ret != 0 then Outcome(s.(sockets := Delete(s.sockets, tid)), None)
        else if tid !in s.sockets then Outcome(s, None)
        else
          var ip := ReadAddr(daddr, s.sockets[tid]);
          var event := if ip in s.hostnames then HostnameEvent(s.hostnames[ip].c) else IpEvent(ip);
          Outcome(s.(hostnames := Delete(s.hostnames, ip), sockets := Delete(s.sockets, tid)), Some(event))
  }

  /** The maps after a whole trace of firings. */
  function Run(cfg: Config, s: State, tr: seq<Firing>): State
    decreases |tr|
  {
    if tr == [] then s else Run(cfg, Step(cfg, s, tr[0]).state, tr[1..])
  }

  /** What firing number `i` of the trace emits. */
  function EventAt(cfg: Config, s: State, tr: seq<Firing>, i: nat): Option<Event>
    requires i < |tr|
  {
    Step(cfg, Run(cfg, s, tr[..i]), tr[i]).event
  }

  lemma {:induction false} RunAppend(cfg: Config, s: State, a: seq<Firing>, b: seq<Firing>)
    ensures Run(cfg, s, a + b) == Run(cfg, Run(cfg, s, a), b)
    decreases |a|
  {
    if a == [] {
      assert a + b == b;
    } else {
      assert (a + b)[1..] == a[1..] + b;
      RunAppend(cfg, Step(cfg, s, a[0]).state, a[1..], b);
    }
  }

  lemma RunPrefix(cfg: Config, s: State, tr: seq<Firing>, i: nat)
    requires i < |tr|
    ensures Run(cfg, s, tr[..i + 1]) == Step(cfg, Run(cfg, s, tr[..i]), tr[i]).state
  {
    assert tr[..i + 1] == tr[..i] + [tr[i]];
    RunAppend(cfg, s, tr[..i], [tr[i]]);
    var mid := Run(cfg, s, tr[..i]);
    assert [tr[i]][1..] == [];
    assert Run(cfg, mid, [tr[i]]) == Run(cfg, Step(cfg, mid, tr[i]).state, []);
  }

  // ---------------------------------------------------------------- capacity

  /** The firing asks for a new entry in a map that is full. */
  predicate Overflows(cfg: Config, s: State, f: Firing) {
    Observed(cfg, f) &&
    var tid := f.task.tid;
    match f.probe
    case LookupEnter(_, _) => Refuses(cfg.capacity, s.lookups, tid)
    case LookupExit(ret, memory) =>
      ret == 0 && tid in s.lookups && Refuses(cfg.capacity, s.hostnames, ReadAddr(memory, s.lookups[tid].results))
    case ConnectEnter(_) => Refuses(cfg.capacity, s.sockets, tid)
    case ConnectExit(_, _) => false
  }

  predicate NoOverflow(cfg: Config, s: State, tr: seq<Firing>)
    decreases |tr|
  {
    tr == [] || (!Overflows(cfg, s, tr[0]) && NoOverflow(cfg, Step(cfg, s, tr[0]).state, tr[1..]))
  }

  function Unlimited(cfg: Config): Config {
    cfg.(capacity := Unbounded)
  }

  lemma NoOverflowStep(cfg: Config, s: State, f: Firing)
    requires !Overflows(cfg, s, f)
    ensures Step(cfg, s, f) == Step(Unlimited(cfg), s, f)
  {
  }

  /** A run in which no insert is refused is a run of the unbounded maps. */
  lemma {:induction false} NoOverflowIsUnlimited(cfg: Config, s: State, tr: seq<Firing>)
    requires NoOverflow(cfg, s, tr)
    ensures Run(cfg, s, tr) == Run(Unlimited(cfg), s, tr)
    ensures forall i | 0 <= i < |tr| :: EventAt(cfg, s, tr, i) == EventAt(Unlimited(cfg), s, tr, i)
    decreases |tr|
  {
    if tr != [] {
      var u := Unlimited(cfg);
      var s' := Step(cfg, s, tr[0]).state;
      NoOverflowStep(cfg, s, tr[0]);
      NoOverflowIsUnlimited(cfg, s', tr[1..]);
      forall i | 0 <= i < |tr|
        ensures EventAt(cfg, s, tr, i) == EventAt(u, s, tr, i)
      {
        if i > 0 {
          assert tr[..i][1..] == tr[1..][..i - 1];
          assert EventAt(cfg, s', tr[1..], i - 1) == EventAt(u, s', tr[1..], i - 1);
          assert EventAt(cfg, s, tr, i) == EventAt(cfg, s', tr[1..], i - 1);
          assert EventAt(u, s, tr, i) == EventAt(u, s', tr[1..], i - 1);
        }
      }
    }
  }

  // ------------------------------------------------------------ the probes

  class Probes {
    const cfg: Config
    var lookups: map<Tid, Lookup>
    var hostnames: map<Ip, Lookup>
    var sockets: map<Tid, Pointer>
    var events: seq<Event>

    ghost function View(): State
      reads this
    {
      State(lookups, hostnames, sockets)
    }

    /** The object moved by exactly one `Step`, and its event, if any, was appended. */
    twostate predicate Fired(f: Firing)
      reads this
    {
      var out := Step(cfg, old(View()), f);
      View() == out.state &&
      events == (if out.event.Some? then old(events) + [out.event.value] else old(events))
    }

    constructor (targetPid: nat)
      ensures cfg == Config(targetPid, Bounded(MAX_ENTRIES))
      ensures View() == EMPTY && events == []
    {
      cfg := Config(targetPid, Bounded(MAX_ENTRIES));
      lookups, hostnames, sockets, events := map[], map[], map[], [];
    }

    method GetaddrinfoEnter(task: Task, hostname: string, res: Pointer)
      modifies this
      ensures Fired(Firing(task, LookupEnter(hostname, res)))
    {
      var tid := GetTid(cfg, task);
      if tid == 0 { return; }
      var lookup := Lookup(StoredName(hostname), res);
      lookups := Update(cfg.capacity, lookups, tid, lookup);
    }

    method GetaddrinfoExit(task: Task, ret: int, memory: map<Pointer, Ip>)
      modifies this
      ensures Fired(Firing(task, LookupExit(ret, memory)))
    {
      var tid := GetTid(cfg, task);
      if tid == 0 { return; }
      if ret == 0 {
        if tid !in lookups { return; }
        var lookup := lookups[tid];
        hostnames := Update(cfg.capacity, hostnames, ReadAddr(memory, lookup.results), lookup);
      }
      lookups := Delete(lookups, tid);
    }

    method TcpV4ConnectEnter(task: Task, sk: Pointer)
      modifies this
      ensures Fired(Firing(task, ConnectEnter(sk)))
    {
      var tid := GetTid(cfg, task);
      if tid == 0 { return; }
      sockets := Update(cfg.capacity, sockets, tid, sk);
    }

    method TcpV4ConnectExit(task: Task, ret: int, daddr: map<Pointer, Ip>)
      modifies this
      ensures Fired(Firing(task, ConnectExit(ret, daddr)))
    {
      var tid := GetTid(cfg, task);
      if tid == 0 { return; }
      if ret == 0 {
        if tid !in sockets { return; }
        var ip := ReadAddr(daddr, sockets[tid]);
        var event;
        if ip !in hostnames {
          event := IpEvent(ip);
        } else {
          event := HostnameEvent(hostnames[ip].c);
          hostnames := Delete(hostnames, ip);
        }
        events := events + [event];
      }
      sockets := Delete(sockets, tid);
    }
  }
}

/** The page-access tracker of examples/c/kprobe.bpf.c: a bounded map from pages to metrics and
    a global rank counter, fed by folio_mark_accessed and filemap_free_folio. */
module PageTracker {
  import opened BpfMap
  import opened Options

  const MAX_PAGES: nat := 409600
  const MAX_PIDS: nat := 120

  type Pid = int

  datatype PageKey = PageKey(mapping: nat, index: nat)

  datatype Metric = Metric(refCount: nat, rank: nat, pageCount: nat, pid: Pid)

  /** `Track` is the user-space side adding a pid; the other two are the kernel probes. */
  datatype Firing =
    | Access(pid: Pid, key: PageKey, pages: nat)
    | Release(key: PageKey)
    | Track(pid: Pid)

  datatype Config = Config(pageCapacity: Capacity, pidCapacity: Capacity)

  datatype State = State(pages: map<PageKey, Metric>, counter: nat, pids: map<Pid, nat>)

  const EMPTY: State := State(map[], 0, map[])

  function Step(cfg: Config, s: State, f: Firing): State {
    match f
    case Track(pid) => s.(pids := Update(cfg.pidCapacity, s.pids, pid, 1))
    case Release(key) => s.(pages := Delete(s.pages, key))
    case Access(pid, key, pages) =>
      if pid !in s.pids then s
      else
        var rank := s.counter + 1;
        var refs := if key in s.pages then s.pages[key].refCount + 1 else 1;
        s.(counter := rank, pages := Update(cfg.pageCapacity, s.pages, key, Metric(refs, rank, pages, pid)))
  }

  function Run(cfg: Config, tr: seq<Firing>): State {
    if tr == [] then EMPTY else Step(cfg, Run(cfg, tr[..|tr| - 1]), tr[|tr| - 1])
  }

  class Tracker {
    const cfg: Config
    var pages: map<PageKey, Metric>
    var counter: nat
    var pids: map<Pid, nat>

    ghost function View(): State
      reads this
    {
      State(pages, counter, pids)
    }

    constructor ()
      ensures cfg == Config(Bounded(MAX_PAGES), Bounded(MAX_PIDS)) && View() == EMPTY
    {
      cfg := Config(Bounded(MAX_PAGES), Bounded(MAX_PIDS));
      pages, counter, pids := map[], 0, map[];
    }

    method FolioMarkAccessed(pid: Pid, key: PageKey, pageCount: nat)
      modifies this
      ensures View() == Step(cfg, old(View()), Access(pid, key, pageCount))
    {
      if pid !in pids { return; }
      if key !in pages {
        counter := counter + 1;
        var initial := Metric(1, counter, pageCount, pid);
        pages := Update(cfg.pageCapacity, pages, key, initial);
      } else {
        var metric := pages[key];
        metric := metric.(refCount := metric.refCount + 1);
        counter := counter + 1;
        metric := metric.(pid := pid, rank := counter);
        metric := metric.(pageCount := pageCount);
        pages := Update(cfg.pageCapacity, pages, key, metric);
      }
    }

    method FilemapFreeFolio(key: PageKey)
      modifies this
      ensures View() == Step(cfg, old(View()), Release(key))
    {
      if key !in pages {
        assert pages == Delete(pages, key);
        return;
      }
      pages := Delete(pages, key);
    }

    method AddPid(pid: Pid)
      modifies this
      ensures View() == Step(cfg, old(View()), Track(pid))
    {
      pids := Update(cfg.pidCapacity, pids, pid, 1);
    }
  }
}

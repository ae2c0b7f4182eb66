/** The BPF hash map as the handlers see it: a finite map with a capacity.
    An update of a present key always succeeds, an insert into a full map is refused and
    leaves the map alone, and deleting an absent key does nothing. */
module BpfMap {
  import opened Options

  /** `max_entries`, or no limit at all (the idealisation some theorems speak about). */
  datatype Capacity = Unbounded | Bounded(entries: nat)

  /** An update of `k` would be refused. */
  predicate Refuses<K, V>(cap: Capacity, m: map<K, V>, k: K) {
    cap.Bounded? && k !in m && |m| >= cap.entries
  }

  /** bpf_map_lookup_elem. */
  function Find<K, V>(m: map<K, V>, k: K): Option<V> {
    if k in m then Some(m[k]) else None
  }

  /** bpf_map_update_elem with BPF_ANY. */
  function Update<K(!new), V>(cap: Capacity, m: map<K, V>, k: K, v: V): (r: map<K, V>)
    ensures !Refuses(cap, m, k) ==> Find(r, k) == Some(v)
    ensures Refuses(cap, m, k) ==> r == m
    ensures forall x :: x != k ==> Find(r, x) == Find(m, x)
    ensures cap.Bounded? && |m| <= cap.entries ==> |r| <= cap.entries
  {
    if Refuses(cap, m, k) then m else m[k := v]
  }

  /** bpf_map_delete_elem. */
  function Delete<K(!new), V>(m: map<K, V>, k: K): (r: map<K, V>)
    ensures Find(r, k) == None
    ensures forall x :: x != k ==> Find(r, x) == Find(m, x)
  {
    m - {k}
  }

  /** Maps are decided by their lookups. */
  lemma Extensional<K(!new), V>(m: map<K, V>, n: map<K, V>)
    requires forall k :: Find(m, k) == Find(n, k)
    ensures m == n
  {
    forall k
      ensures k in m <==> k in n
      ensures k in m ==> m[k] == n[k]
    {
      assert Find(m, k) == Find(n, k);
    }
  }

  lemma UpdateKeys<K(!new), V>(cap: Capacity, m: map<K, V>, k: K, v: V)
    requires k !in m
    ensures Refuses(cap, m, k) ==> Update(cap, m, k, v) == m
    ensures !Refuses(cap, m, k) ==>
              Update(cap, m, k, v).Keys == m.Keys + {k} && |Update(cap, m, k, v)| == |m| + 1
  {
    if !Refuses(cap, m, k) {
      assert Update(cap, m, k, v) == m[k := v];
    }
  }

  /** A map without deletions holds all keys it was asked to hold, or exactly as many of them as it has
      entries. */
  ghost predicate FilledFrom<K, V>(cap: Capacity, m: map<K, V>, asked: set<K>) {
    && m.Keys <= asked
    && if cap.Bounded? && |asked| > cap.entries then |m| == cap.entries else m.Keys == asked
  }

  lemma UpdateFills<K(!new), V>(cap: Capacity, m: map<K, V>, asked: set<K>, k: K, v: V)
    requires FilledFrom(cap, m, asked)
    ensures FilledFrom(cap, Update(cap, m, k, v), asked + {k})
  {
    if k in asked {
      assert asked + {k} == asked;
    }
    if k in m {
      assert Update(cap, m, k, v).Keys == m.Keys;
    } else {
      UpdateKeys(cap, m, k, v);
    }
  }
}

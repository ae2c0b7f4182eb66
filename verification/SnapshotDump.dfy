/** The dump loop of examples/c/kprobe.c: walking the page map with get_next_key and writing one
    line per entry. */
module SnapshotDump {
  import opened Options
  import opened PageTracker

  /** One line of a snapshot file. */
  datatype Line = Line(page: nat, pid: Pid, count: nat)

  const ZERO_KEY: PageKey := PageKey(0, 0)

  /** Bitwise exclusive or. */
  function Xor(a: nat, b: nat): nat {
    if a == 0 && b == 0 then 0 else 2 * Xor(a / 2, b / 2) + (a + b) % 2
  }

  function HashIndexMapping(key: PageKey): nat {
    Xor(key.index, key.mapping)
  }

  /** Bit `i`. */
  function Bit(x: nat, i: nat): nat {
    if i == 0 then x % 2 else Bit(x / 2, i - 1)
  }

  /** A bit of the result is set exactly when it is set in one of the two and not in the other. */
  lemma {:induction false} XorIsBitwise(a: nat, b: nat, i: nat)
    ensures Bit(Xor(a, b), i) == 1 <==> Bit(a, i) != Bit(b, i)
    ensures Bit(a, i) < 2 && Bit(b, i) < 2
  {
    XorHalves(a, b);
    HalfAndRest(Xor(a / 2, b / 2), (a + b) % 2);
    if i > 0 {
      XorIsBitwise(a / 2, b / 2, i - 1);
    } else {
      OddSum(a, b);
    }
  }

  lemma HalfAndRest(x: nat, r: nat)
    requires r < 2
    ensures (2 * x + r) / 2 == x && (2 * x + r) % 2 == r
  {
  }

  lemma OddSum(a: nat, b: nat)
    ensures (a + b) % 2 == 1 <==> a % 2 != b % 2
  {
  }

  lemma XorHalves(a: nat, b: nat)
    ensures Xor(a, b) == 2 * Xor(a / 2, b / 2) + (a + b) % 2
  {
  }

  /** Equality of two results, bit by bit. */
  lemma XorEqual(a: nat, b: nat, c: nat, d: nat)
    ensures Xor(a, b) == Xor(c, d) <==> Xor(a / 2, b / 2) == Xor(c / 2, d / 2) && (a + b) % 2 == (c + d) % 2
  {
    XorHalves(a, b);
    XorHalves(c, d);
    EvenOdd(Xor(a / 2, b / 2), (a + b) % 2, Xor(c / 2, d / 2), (c + d) % 2);
  }

  lemma EvenOdd(x: nat, r: nat, y: nat, s: nat)
    requires r < 2 && s < 2
    ensures 2 * x + r == 2 * y + s <==> x == y && r == s
  {
  }

  lemma ParityExchange(a: nat, b: nat, c: nat, d: nat)
    ensures (a + b) % 2 == (c + d) % 2 <==> (a + c) % 2 == (b + d) % 2
  {
  }

  lemma {:induction false} XorExchange(a: nat, b: nat, c: nat, d: nat)
    ensures Xor(a, b) == Xor(c, d) <==> Xor(a, c) == Xor(b, d)
    decreases a + b + c + d
  {
    if a + b + c + d > 0 {
      XorExchange(a / 2, b / 2, c / 2, d / 2);
      XorEqual(a, b, c, d);
      XorEqual(a, c, b, d);
      ParityExchange(a, b, c, d);
    }
  }

  /** Two pages share a hash exactly when their indices differ in the same bits as their mappings. */
  lemma CollideIff(p: PageKey, q: PageKey)
    ensures HashIndexMapping(p) == HashIndexMapping(q) <==> Xor(p.index, q.index) == Xor(p.mapping, q.mapping)
  {
    XorExchange(p.index, p.mapping, q.index, q.mapping);
  }

  function LineOf(key: PageKey, metric: Metric): Line {
    Line(HashIndexMapping(key), metric.pid, metric.refCount)
  }

  predicate Distinct(order: seq<PageKey>) {
    forall i, j | 0 <= i < j < |order| :: order[i] != order[j]
  }

  /** `order` is the order in which the kernel iterates over an unchanging map. */
  ghost predicate IterationOrder(order: seq<PageKey>, pages: map<PageKey, Metric>) {
    Distinct(order) && KeySet(order) == pages.Keys
  }

  ghost function KeySet(order: seq<PageKey>): set<PageKey> {
    set key | key in order
  }

  function IndexOf(order: seq<PageKey>, key: PageKey): (i: nat)
    requires key in order
    ensures i < |order| && order[i] == key
  {
    if order[0] == key then 0 else 1 + IndexOf(order[1..], key)
  }

  /** bpf_map__get_next_key: the key after `key`, or the first one when `key` is not in the map. */
  function NextKey(order: seq<PageKey>, key: PageKey): Option<PageKey> {
    KeyAt(order, if key in order then IndexOf(order, key) + 1 else 0)
  }

  function KeyAt(order: seq<PageKey>, i: nat): Option<PageKey> {
    if i < |order| then Some(order[i]) else None
  }

  /** The loop starts from the all-zero key, so when a page has that key the walk begins right
      after it. */
  function Start(order: seq<PageKey>): (i: nat)
    ensures i <= |order|
  {
    if ZERO_KEY in order then IndexOf(order, ZERO_KEY) + 1 else 0
  }

  /** The entries the loop writes. */
  function Visited(order: seq<PageKey>): seq<PageKey> {
    order[Start(order)..]
  }

  function LinesOf(pages: map<PageKey, Metric>, keys: seq<PageKey>): (lines: seq<Line>)
    requires forall key | key in keys :: key in pages
    ensures |lines| == |keys|
    ensures forall i | 0 <= i < |keys| :: lines[i] == LineOf(keys[i], pages[keys[i]])
  {
    seq(|keys|, i requires 0 <= i < |keys| => LineOf(keys[i], pages[keys[i]]))
  }

  lemma IndexIsUnique(order: seq<PageKey>, i: nat)
    requires Distinct(order) && i < |order|
    ensures IndexOf(order, order[i]) == i
  {
    var j := IndexOf(order, order[i]);
    assert order[j] == order[i];
  }

  lemma NextKeyAt(order: seq<PageKey>, i: nat)
    requires Distinct(order) && i < |order|
    ensures NextKey(order, order[i]) == KeyAt(order, i + 1)
  {
    IndexIsUnique(order, i);
  }

  /** The lines written so far are those of the first keys. */
  ghost predicate Written(keys: seq<PageKey>, pages: map<PageKey, Metric>, lines: seq<Line>) {
    && |lines| <= |keys|
    && forall i | 0 <= i < |lines| :: keys[i] in pages && lines[i] == LineOf(keys[i], pages[keys[i]])
  }

  lemma WrittenNext(keys: seq<PageKey>, pages: map<PageKey, Metric>, lines: seq<Line>)
    requires Written(keys, pages, lines) && |lines| < |keys| && keys[|lines|] in pages
    ensures Written(keys, pages, lines + [LineOf(keys[|lines|], pages[keys[|lines|]])])
  {
  }

  lemma VisitedAt(order: seq<PageKey>, n: nat)
    requires n <= |Visited(order)|
    ensures KeyAt(Visited(order), n) == KeyAt(order, Start(order) + n)
  {
  }

  lemma FirstVisited(order: seq<PageKey>)
    ensures NextKey(order, ZERO_KEY) == KeyAt(Visited(order), 0)
  {
    VisitedAt(order, 0);
  }

  lemma NextVisited(order: seq<PageKey>, n: nat)
    requires Distinct(order) && n < |Visited(order)|
    ensures NextKey(order, Visited(order)[n]) == KeyAt(Visited(order), n + 1)
  {
    NextKeyAt(order, Start(order) + n);
    VisitedAt(order, n + 1);
  }

  lemma WrittenAll(keys: seq<PageKey>, pages: map<PageKey, Metric>, lines: seq<Line>)
    requires Written(keys, pages, lines) && |lines| == |keys| && forall key | key in keys :: key in pages
    ensures lines == LinesOf(pages, keys)
  {
  }

  lemma OrderInMap(order: seq<PageKey>, pages: map<PageKey, Metric>)
    requires IterationOrder(order, pages)
    ensures forall i | 0 <= i < |order| :: order[i] in pages
    ensures forall key | key in Visited(order) :: key in pages
  {
    forall i | 0 <= i < |order|
      ensures order[i] in pages
    {
      assert order[i] in KeySet(order);
    }
  }

  /** The pages among `keys` whose entry reads as `line`. */
  ghost function Owners(pages: map<PageKey, Metric>, keys: set<PageKey>, line: Line): set<PageKey> {
    set key | key in keys && key in pages && LineOf(key, pages[key]) == line
  }

  /** Each of the entries `keys` has its line written exactly once, and nothing else is written. */
  ghost predicate Complete(pages: map<PageKey, Metric>, keys: set<PageKey>, lines: seq<Line>) {
    && |lines| == |keys|
    && forall line :: multiset(lines)[line] == |Owners(pages, keys, line)|
  }

  /** With no concurrent change the loop terminates and writes exactly the visited entries, in
      iteration order: each line occurs as often as there are visited pages that read so.  Unless a
      page has the all-zero key, that is every live page. */
  method Dump(order: seq<PageKey>, pages: map<PageKey, Metric>) returns (lines: seq<Line>)
    requires IterationOrder(order, pages)
    ensures (forall key | key in Visited(order) :: key in pages) && lines == LinesOf(pages, Visited(order))
    ensures Complete(pages, KeySet(Visited(order)), lines)
    ensures ZERO_KEY !in pages ==> Complete(pages, pages.Keys, lines)
  {
    OrderInMap(order, pages);
    ghost var keys := Visited(order);
    lines := [];
    var key := ZERO_KEY;
    var next := NextKey(order, key);
    FirstVisited(order);
    while next.Some?
      invariant Written(keys, pages, lines) && next == KeyAt(keys, |lines|)
      decreases |keys| - |lines|
    {
      var nextKey := next.value;
      ghost var n := |lines|;
      assert keys[n] in keys;
      WrittenNext(keys, pages, lines);
      if nextKey in pages {
        lines := lines + [LineOf(nextKey, pages[nextKey])];
      }
      key := nextKey;
      NextVisited(order, n);
      next := NextKey(order, key);
    }
    WrittenAll(keys, pages, lines);
    DumpIsComplete(order, pages);
  }

  /** Every line is written once for each visited entry that reads so, and never otherwise; without
      an all-zero key the visited entries are all the live ones. */
  lemma DumpIsComplete(order: seq<PageKey>, pages: map<PageKey, Metric>)
    requires IterationOrder(order, pages)
    ensures forall key | key in Visited(order) :: key in pages
    ensures Complete(pages, KeySet(Visited(order)), LinesOf(pages, Visited(order)))
    ensures ZERO_KEY !in pages ==> KeySet(Visited(order)) == pages.Keys
  {
    OrderInMap(order, pages);
    forall line
      ensures multiset(LinesOf(pages, Visited(order)))[line] == |Owners(pages, KeySet(Visited(order)), line)|
    {
      CountLines(pages, Visited(order), line);
    }
    Cardinality(Visited(order));
    if ZERO_KEY !in pages {
      assert ZERO_KEY !in KeySet(order);
      assert Visited(order) == order;
    }
  }

  lemma {:induction false} CountLines(pages: map<PageKey, Metric>, keys: seq<PageKey>, line: Line)
    requires Distinct(keys) && forall key | key in keys :: key in pages
    ensures multiset(LinesOf(pages, keys))[line] == |Owners(pages, KeySet(keys), line)|
  {
    if keys == [] {
      assert LinesOf(pages, keys) == [] && Owners(pages, KeySet(keys), line) == {};
    } else {
      var first, rest := keys[0], keys[1..];
      CountLines(pages, rest, line);
      assert keys == [first] + rest;
      FirstLine(pages, keys);
      PrependCount(LineOf(first, pages[first]), LinesOf(pages, rest), line);
      FirstOwner(pages, first, rest, line);
    }
  }

  lemma FirstLine(pages: map<PageKey, Metric>, keys: seq<PageKey>)
    requires keys != [] && forall key | key in keys :: key in pages
    ensures LinesOf(pages, keys) == [LineOf(keys[0], pages[keys[0]])] + LinesOf(pages, keys[1..])
  {
  }

  lemma PrependCount(first: Line, rest: seq<Line>, line: Line)
    ensures multiset([first] + rest)[line] == multiset(rest)[line] + if first == line then 1 else 0
  {
  }

  lemma FirstOwner(pages: map<PageKey, Metric>, first: PageKey, rest: seq<PageKey>, line: Line)
    requires first in pages && first !in rest
    ensures var mine := LineOf(first, pages[first]) == line;
            |Owners(pages, KeySet([first] + rest), line)| == |Owners(pages, KeySet(rest), line)| + if mine then 1 else 0
  {
    var before := Owners(pages, KeySet(rest), line);
    assert KeySet([first] + rest) == {first} + KeySet(rest);
    if LineOf(first, pages[first]) == line {
      assert Owners(pages, KeySet([first] + rest), line) == {first} + before;
    } else {
      assert Owners(pages, KeySet([first] + rest), line) == before;
    }
  }

  lemma {:induction false} Cardinality(order: seq<PageKey>)
    requires Distinct(order)
    ensures |KeySet(order)| == |order|
  {
    if order != [] {
      var rest := order[1..];
      Cardinality(rest);
      assert order == [order[0]] + rest;
      assert KeySet(order) == {order[0]} + KeySet(rest);
      assert order[0] !in rest;
    }
  }

  /** When a page does have the all-zero key, that page and everything before it in iteration
      order are left out, and only those. */
  lemma ZeroKeyHidesPrefix(order: seq<PageKey>, i: nat)
    requires Distinct(order) && ZERO_KEY in order && i < |order|
    ensures order[i] in Visited(order) <==> i > IndexOf(order, ZERO_KEY)
  {
    assert ZERO_KEY in KeySet(order);
    var start, visited := Start(order), Visited(order);
    if i >= start {
      assert visited[i - start] == order[i];
    } else {
      forall m | 0 <= m < |visited|
        ensures visited[m] != order[i]
      {
        assert visited[m] == order[start + m];
      }
    }
  }
}

/** The pid receiver of examples/c/kprobe.c: polling a growing file, resuming each time at the
    offset where the previous poll ended. */
module PidTail {
  import opened Options
  import opened BpfMap
  import opened PageTracker

  /** fgets into char[256] returns at most 255 characters. */
  const LIMIT: nat := 255

  /** How many characters fgets takes: through the first newline, or `limit`, or all there is. */
  function ChunkLength(text: string, limit: nat): (n: nat)
    ensures n <= |text| && n <= limit && (text != [] && limit > 0 ==> n > 0)
  {
    if text == [] || limit == 0 then 0
    else if text[0] == '\n' then 1
    else 1 + ChunkLength(text[1..], limit - 1)
  }

  /** The successive results of fgets from here to the end of the file. */
  function Chunks(text: string): (chunks: seq<string>)
    ensures text == [] <==> chunks == []
    decreases |text|
  {
    if text == [] then []
    else
      var n := ChunkLength(text, LIMIT);
      [text[..n]] + Chunks(text[n..])
  }

  type Parser = string -> Option<Pid>

  /** sscanf and the map update for one line. */
  function Handle(cap: Capacity, parse: Parser, pids: map<Pid, nat>, line: string): map<Pid, nat> {
    var pid := parse(line);
    if pid.Some? then Update(cap, pids, pid.value, 1) else pids
  }

  function HandleAll(cap: Capacity, parse: Parser, pids: map<Pid, nat>, lines: seq<string>): map<Pid, nat>
    decreases |lines|
  {
    if lines == [] then pids else HandleAll(cap, parse, Handle(cap, parse, pids, lines[0]), lines[1..])
  }

  lemma {:induction false} HandleAllAppend(cap: Capacity, parse: Parser, pids: map<Pid, nat>, a: seq<string>, b: seq<string>)
    ensures HandleAll(cap, parse, pids, a + b) == HandleAll(cap, parse, HandleAll(cap, parse, pids, a), b)
    decreases |a|
  {
    if a == [] {
      assert a + b == b;
    } else {
      assert (a + b)[1..] == a[1..] + b;
      HandleAllAppend(cap, parse, Handle(cap, parse, pids, a[0]), a[1..], b);
    }
  }

  lemma HandleNext(cap: Capacity, parse: Parser, pids: map<Pid, nat>, text: string, pos: nat, n: nat)
    requires pos < |text| && n == ChunkLength(text[pos..], LIMIT)
    ensures HandleAll(cap, parse, pids, Chunks(text[pos..]))
            == HandleAll(cap, parse, Handle(cap, parse, pids, text[pos..][..n]), Chunks(text[pos + n..]))
  {
    assert text[pos..][n..] == text[pos + n..];
    assert Chunks(text[pos..])[1..] == Chunks(text[pos + n..]);
  }

  class PidReceiver {
    const cap: Capacity
    const parse: Parser
    var filePos: nat
    var pids: map<Pid, nat>

    constructor (parse: Parser)
      ensures cap == Bounded(MAX_PIDS) && this.parse == parse && filePos == 0 && pids == map[]
    {
      cap, this.parse := Bounded(MAX_PIDS), parse;
      filePos, pids := 0, map[];
    }

    /** One poll; the file may be missing, or shorter than the saved offset. */
    method Poll(file: Option<string>)
      modifies this
      ensures var start := old(filePos);
              if file.Some? && start <= |file.value| then
                && filePos == |file.value|
                && pids == HandleAll(cap, parse, old(pids), Chunks(file.value[start..]))
              else filePos == start && pids == old(pids)
    {
      if file.None? || filePos > |file.value| { return; }
      var text := file.value;
      var pos := filePos;
      ghost var all := HandleAll(cap, parse, pids, Chunks(text[pos..]));
      while pos < |text|
        invariant pos <= |text| && filePos == old(filePos)
        invariant HandleAll(cap, parse, pids, Chunks(text[pos..])) == all
      {
        var n := ChunkLength(text[pos..], LIMIT);
        var line := text[pos..][..n];
        HandleNext(cap, parse, pids, text, pos, n);
        HandleLine(line);
        pos := pos + n;
      }
      assert text[pos..] == [];
      filePos := pos;
    }

    method HandleLine(line: string)
      modifies `pids
      ensures pids == Handle(cap, parse, old(pids), line)
    {
      var pid := parse(line);
      if pid.Some? {
        pids := Update(cap, pids, pid.value, 1);
      }
    }
  }

  // ------------------------------------------------------------ when resuming is exact

  function LastChunk(text: string): string
    requires text != []
  {
    Chunks(text)[|Chunks(text)| - 1]
  }

  /** fgets would have stopped at the end of this chunk anyway: after a newline, or a full buffer. */
  predicate Stops(chunk: string) {
    chunk != [] && (chunk[|chunk| - 1] == '\n' || |chunk| == LIMIT)
  }

  /** The last chunk did not end just because the text did. */
  predicate EndsChunk(text: string)
    requires text != []
  {
    Stops(LastChunk(text))
  }

  /** Appending `more` changes a chunk exactly when it ended at the end of the text for no other
      reason than that the text ended. */
  lemma {:induction false} ChunkLengthAppend(text: string, more: string, limit: nat)
    ensures var n := ChunkLength(text, limit);
            if n < |text| || n == limit || (text != [] && text[|text| - 1] == '\n')
            then ChunkLength(text + more, limit) == n
            else more != [] ==> ChunkLength(text + more, limit) > n
  {
    if text == [] {
      assert text + more == more;
    } else if limit > 0 && text[0] != '\n' {
      ChunkLengthAppend(text[1..], more, limit - 1);
      assert (text + more)[1..] == text[1..] + more;
    }
  }

  lemma ChunksCons(text: string, more: string, n: nat)
    requires 0 < n == ChunkLength(text + more, LIMIT) <= |text|
    ensures Chunks(text + more) == [text[..n]] + Chunks(text[n..] + more)
  {
    assert (text + more)[..n] == text[..n];
    assert (text + more)[n..] == text[n..] + more;
  }

  /** Reading a file in two polls gives the same lines as reading it in one if and only if the
      first poll ended where fgets would have stopped anyway. */
  lemma {:induction false} ResumeIsExact(text: string, more: string)
    ensures Chunks(text + more) == Chunks(text) + Chunks(more)
            <==> text == [] || more == [] || EndsChunk(text)
    decreases |text|
  {
    if text == [] {
      assert text + more == more;
    } else if more == [] {
      assert text + more == text;
    } else {
      var n := ChunkLength(text, LIMIT);
      ChunkLengthAppend(text, more, LIMIT);
      if n < |text| {
        var rest := text[n..];
        ChunksCons(text, more, n);
        ResumeIsExact(rest, more);
        LastChunkOfRest(text, n);
        Cancel(text[..n], Chunks(rest + more), Chunks(rest), Chunks(more));
      } else {
        assert text[..n] == text && text[n..] == [];
        assert Chunks(text) == [text];
        if EndsChunk(text) {
          ChunksCons(text, more, n);
          assert text[n..] + more == more;
        } else {
          var first := Chunks(text + more)[0];
          assert |first| > n;
          assert (Chunks(text) + Chunks(more))[0] == text;
        }
      }
    }
  }

  lemma LastChunkOfRest(text: string, n: nat)
    requires 0 < n == ChunkLength(text, LIMIT) < |text|
    ensures LastChunk(text) == LastChunk(text[n..])
  {
    var others := Chunks(text[n..]);
    assert Chunks(text) == [text[..n]] + others;
  }

  lemma Cancel(head: string, whole: seq<string>, a: seq<string>, b: seq<string>)
    ensures [head] + whole == [head] + a + b <==> whole == a + b
  {
    assert [head] + a + b == [head] + (a + b);
    assert ([head] + whole)[1..] == whole && ([head] + (a + b))[1..] == a + b;
  }

  // ------------------------------------------------------------ many polls

  /** The lines handled over a series of polls, starting at offset `pos`. */
  function Handled(contents: seq<string>, pos: nat): seq<string>
    decreases |contents|
  {
    if contents == [] then []
    else if pos <= |contents[0]| then Chunks(contents[0][pos..]) + Handled(contents[1..], |contents[0]|)
    else Handled(contents[1..], pos)
  }

  /** Each content extends the previous one, and polls that are followed by another end on a
      chunk boundary. */
  predicate GrowsByWholeChunks(text: string, contents: seq<string>)
    decreases |contents|
  {
    contents == [] ||
    (text <= contents[0] && (text == [] || EndsChunk(text)) && GrowsByWholeChunks(contents[0], contents[1..]))
  }

  /** Every line is handled exactly once and in order: resuming is a full re-read of the last
      content, minus what `text` had already given. */
  lemma {:induction false} TailIsReread(text: string, contents: seq<string>)
    requires contents != [] && GrowsByWholeChunks(text, contents)
    ensures Chunks(text) + Handled(contents, |text|) == Chunks(contents[|contents| - 1])
    decreases |contents|
  {
    var now := contents[0];
    PollExtends(text, now);
    Associate(Chunks(text), Chunks(now[|text|..]), Handled(contents[1..], |now|));
    if |contents| > 1 {
      TailIsReread(now, contents[1..]);
      assert contents[1..][|contents| - 2] == contents[|contents| - 1];
    } else {
      assert Handled(contents[1..], |now|) == [];
    }
  }

  lemma HandledIsReread(contents: seq<string>)
    requires contents != [] && GrowsByWholeChunks([], contents)
    ensures Handled(contents, 0) == Chunks(contents[|contents| - 1])
  {
    TailIsReread([], contents);
    assert Chunks([]) + Handled(contents, 0) == Handled(contents, 0);
  }

  lemma PollExtends(text: string, now: string)
    requires text <= now && (text == [] || EndsChunk(text))
    ensures Chunks(text) + Chunks(now[|text|..]) == Chunks(now)
  {
    ResumeIsExact(text, now[|text|..]);
    assert now == text + now[|text|..];
  }

  lemma Associate(a: seq<string>, b: seq<string>, c: seq<string>)
    ensures a + (b + c) == (a + b) + c
    ensures (a + b) + [] == a + b
  {
  }

  /** The pids after a series of polls from offset `pos`. */
  function PidsAfter(cap: Capacity, parse: Parser, pids: map<Pid, nat>, contents: seq<string>, pos: nat): map<Pid, nat>
    decreases |contents|
  {
    if contents == [] then pids
    else if pos <= |contents[0]| then
      PidsAfter(cap, parse, HandleAll(cap, parse, pids, Chunks(contents[0][pos..])), contents[1..], |contents[0]|)
    else PidsAfter(cap, parse, pids, contents[1..], pos)
  }

  lemma {:induction false} PidsAreHandled(cap: Capacity, parse: Parser, pids: map<Pid, nat>, contents: seq<string>, pos: nat)
    ensures PidsAfter(cap, parse, pids, contents, pos) == HandleAll(cap, parse, pids, Handled(contents, pos))
    decreases |contents|
  {
    if contents != [] {
      if pos <= |contents[0]| {
        var chunks := Chunks(contents[0][pos..]);
        PidsAreHandled(cap, parse, HandleAll(cap, parse, pids, chunks), contents[1..], |contents[0]|);
        HandleAllAppend(cap, parse, pids, chunks, Handled(contents[1..], |contents[0]|));
      } else {
        PidsAreHandled(cap, parse, pids, contents[1..], pos);
      }
    }
  }

  /** After any number of polls of a file that grows by whole chunks, the pid map, cap included, is
      what a single pass over the file as last seen would give. */
  lemma PollsRefineOnePass(cap: Capacity, parse: Parser, contents: seq<string>)
    requires contents != [] && GrowsByWholeChunks([], contents)
    ensures PidsAfter(cap, parse, map[], contents, 0)
            == HandleAll(cap, parse, map[], Chunks(contents[|contents| - 1]))
  {
    HandledIsReread(contents);
    PidsAreHandled(cap, parse, map[], contents, 0);
  }

  // ------------------------------------------------------------ the tracker's view

  /** The firings of the tracker that handling some lines amounts to. */
  function Tracks(parse: Parser, lines: seq<string>): seq<Firing> {
    if lines == [] then []
    else
      var n := |lines| - 1;
      var pid := parse(lines[n]);
      Tracks(parse, lines[..n]) + (if pid.Some? then [Track(pid.value)] else [])
  }

  /** Handling lines in the middle of any run is a sequence of `Track` firings: the pids are those of
      `HandleAll`, pages and ranks are untouched. */
  lemma {:induction false} HandlingIsTracking(cfg: Config, parse: Parser, tr: seq<Firing>, lines: seq<string>)
    ensures var s := Run(cfg, tr);
            Run(cfg, tr + Tracks(parse, lines)) == s.(pids := HandleAll(cfg.pidCapacity, parse, s.pids, lines))
    decreases |lines|
  {
    var s := Run(cfg, tr);
    if lines == [] {
      assert tr + Tracks(parse, lines) == tr;
    } else {
      var n := |lines| - 1;
      var prior, line := lines[..n], lines[n];
      HandlingIsTracking(cfg, parse, tr, prior);
      HandleLast(cfg.pidCapacity, parse, s.pids, prior, line);
      assert lines == prior + [line];
      var before, pid := tr + Tracks(parse, prior), parse(line);
      if pid.Some? {
        assert tr + Tracks(parse, lines) == before + [Track(pid.value)];
        assert (before + [Track(pid.value)])[..|before|] == before;
      } else {
        assert tr + Tracks(parse, lines) == before;
      }
    }
  }

  lemma HandleLast(cap: Capacity, parse: Parser, pids: map<Pid, nat>, prior: seq<string>, line: string)
    ensures HandleAll(cap, parse, pids, prior + [line]) == Handle(cap, parse, HandleAll(cap, parse, pids, prior), line)
  {
    HandleAllAppend(cap, parse, pids, prior, [line]);
    var after := HandleAll(cap, parse, pids, prior);
    assert HandleAll(cap, parse, after, [line]) == HandleAll(cap, parse, Handle(cap, parse, after, line), []);
  }

  /** The pids some of the lines parse to. */
  function Parsed(parse: Parser, lines: seq<string>): set<Pid> {
    set line | line in lines && parse(line).Some? :: parse(line).value
  }

  /** Handling lines from an empty map tracks every pid they parse to, or as many as the map has
      entries. */
  lemma {:induction false} HandledAreParsed(cap: Capacity, parse: Parser, lines: seq<string>)
    ensures FilledFrom(cap, HandleAll(cap, parse, map[], lines), Parsed(parse, lines))
    decreases |lines|
  {
    if lines == [] {
      assert Parsed(parse, lines) == {};
    } else {
      var n := |lines| - 1;
      var prior, line := lines[..n], lines[n];
      HandledAreParsed(cap, parse, prior);
      assert lines == prior + [line];
      HandleLast(cap, parse, map[], prior, line);
      ParsedLast(parse, prior, line);
      if parse(line).Some? {
        UpdateFills(cap, HandleAll(cap, parse, map[], prior), Parsed(parse, prior), parse(line).value, 1);
      }
    }
  }

  lemma ParsedLast(parse: Parser, prior: seq<string>, line: string)
    ensures Parsed(parse, prior + [line])
            == Parsed(parse, prior) + if parse(line).Some? then {parse(line).value} else {}
  {
    var lines := prior + [line];
    assert forall x :: x in lines <==> x in prior || x == line;
  }

  /** So the tracker, after any series of polls of a file that grows by whole chunks, is where one
      `Track` per parsed line of the file as last seen leads. */
  lemma PollsAreTracks(cfg: Config, parse: Parser, contents: seq<string>)
    requires contents != [] && GrowsByWholeChunks([], contents)
    ensures Run(cfg, Tracks(parse, Chunks(contents[|contents| - 1])))
            == EMPTY.(pids := PidsAfter(cfg.pidCapacity, parse, map[], contents, 0))
  {
    var lines := Chunks(contents[|contents| - 1]);
    HandlingIsTracking(cfg, parse, [], lines);
    assert [] + Tracks(parse, lines) == Tracks(parse, lines);
    PollsRefineOnePass(cfg.pidCapacity, parse, contents);
  }

  // ------------------------------------------------------------ whole lines

  /** A newline-terminated line that fits the buffer. */
  predicate WholeLine(line: string) {
    && 0 < |line| <= LIMIT && line[|line| - 1] == '\n'
    && forall i | 0 <= i < |line| - 1 :: line[i] != '\n'
  }

  function Join(lines: seq<string>): string {
    if lines == [] then [] else lines[0] + Join(lines[1..])
  }

  /** Reading loses nothing: the chunks put together are the text. */
  lemma {:induction false} ChunksJoin(text: string)
    ensures Join(Chunks(text)) == text
    decreases |text|
  {
    if text != [] {
      var n := ChunkLength(text, LIMIT);
      ChunksJoin(text[n..]);
      assert Chunks(text)[1..] == Chunks(text[n..]);
      assert text == text[..n] + text[n..];
    }
  }

  lemma {:induction false} ChunkIsOneLine(text: string, limit: nat)
    ensures var n := ChunkLength(text, limit);
            forall i | 0 <= i < n - 1 :: text[i] != '\n'
  {
    if text != [] && limit > 0 && text[0] != '\n' {
      ChunkIsOneLine(text[1..], limit - 1);
      forall i | 0 <= i < ChunkLength(text, limit) - 1
        ensures text[i] != '\n'
      {
        assert i > 0 ==> text[i] == text[1..][i - 1];
      }
    }
  }

  /** Each chunk is what one fgets returns: not empty, within the buffer, with a newline at most at
      its end; and every chunk but the last stops for a newline or a full buffer. */
  lemma {:induction false} ChunksAreReads(text: string, k: nat)
    requires k < |Chunks(text)|
    ensures var chunk := Chunks(text)[k];
            && 0 < |chunk| <= LIMIT && (forall i | 0 <= i < |chunk| - 1 :: chunk[i] != '\n')
            && (k + 1 < |Chunks(text)| ==> Stops(chunk))
    decreases |text|
  {
    var n := ChunkLength(text, LIMIT);
    ChunkIsOneLine(text, LIMIT);
    if k == 0 {
      if n < |text| {
        ShortChunkStops(text, LIMIT);
      }
    } else {
      ChunksAreReads(text[n..], k - 1);
    }
  }

  lemma {:induction false} ShortChunkStops(text: string, limit: nat)
    requires ChunkLength(text, limit) < |text|
    ensures var n := ChunkLength(text, limit); n == limit || (n > 0 && text[n - 1] == '\n')
  {
    if limit > 0 && text[0] != '\n' {
      ShortChunkStops(text[1..], limit - 1);
    }
  }

  lemma {:induction false} LineIsChunk(line: string, more: string, limit: nat)
    requires 0 < |line| <= limit && line[|line| - 1] == '\n'
    requires forall i | 0 <= i < |line| - 1 :: line[i] != '\n'
    ensures ChunkLength(line + more, limit) == |line|
  {
    if |line| > 1 {
      assert line[0] != '\n';
      LineIsChunk(line[1..], more, limit - 1);
      assert (line + more)[1..] == line[1..] + more;
    }
  }

  /** For such lines the chunks are the lines. */
  lemma {:induction false} ChunksAreLines(lines: seq<string>)
    requires forall i | 0 <= i < |lines| :: WholeLine(lines[i])
    ensures Chunks(Join(lines)) == lines
  {
    if lines != [] {
      var line, rest := lines[0], Join(lines[1..]);
      ChunksAreLines(lines[1..]);
      LineIsChunk(line, rest, LIMIT);
      assert (line + rest)[..|line|] == line && (line + rest)[|line|..] == rest;
    }
  }

  lemma JoinEndsChunk(lines: seq<string>)
    requires lines != [] && forall i | 0 <= i < |lines| :: WholeLine(lines[i])
    ensures Join(lines) != [] && EndsChunk(Join(lines))
  {
    ChunksAreLines(lines);
    assert WholeLine(lines[|lines| - 1]);
  }

  /** What a poll sees when the first `cuts[k]` lines have been written. */
  function Contents(lines: seq<string>, cuts: seq<nat>): (contents: seq<string>)
    requires forall k | 0 <= k < |cuts| :: cuts[k] <= |lines|
    ensures |contents| == |cuts|
    ensures forall k | 0 <= k < |cuts| :: contents[k] == Join(lines[..cuts[k]])
  {
    seq(|cuts|, k requires 0 <= k < |cuts| => Join(lines[..cuts[k]]))
  }

  lemma {:induction false} JoinPrefix(lines: seq<string>, a: nat, b: nat)
    requires a <= b <= |lines|
    ensures Join(lines[..a]) <= Join(lines[..b])
  {
    if a > 0 {
      JoinPrefix(lines[1..], a - 1, b - 1);
      assert lines[..a][1..] == lines[1..][..a - 1] && lines[..b][1..] == lines[1..][..b - 1];
    }
  }

  lemma {:induction false} WholeLinesGrow(lines: seq<string>, from: nat, cuts: seq<nat>)
    requires forall i | 0 <= i < |lines| :: WholeLine(lines[i])
    requires forall k | 0 <= k < |cuts| :: from <= cuts[k] <= |lines|
    requires forall k, m | 0 <= k < m < |cuts| :: cuts[k] <= cuts[m]
    requires from <= |lines|
    ensures GrowsByWholeChunks(Join(lines[..from]), Contents(lines, cuts))
    decreases |cuts|
  {
    if cuts != [] {
      JoinPrefix(lines, from, cuts[0]);
      if from > 0 {
        JoinEndsChunk(lines[..from]);
      }
      WholeLinesGrow(lines, cuts[0], cuts[1..]);
      assert Contents(lines, cuts)[1..] == Contents(lines, cuts[1..]);
    }
  }

  /** Lines that fit the buffer and are written whole are each handled exactly once, in order,
      however the polls fall. */
  lemma EachLineOnce(lines: seq<string>, cuts: seq<nat>)
    requires cuts != [] && forall i | 0 <= i < |lines| :: WholeLine(lines[i])
    requires forall k | 0 <= k < |cuts| :: cuts[k] <= |lines|
    requires forall k, m | 0 <= k < m < |cuts| :: cuts[k] <= cuts[m]
    ensures Handled(Contents(lines, cuts), 0) == lines[..cuts[|cuts| - 1]]
  {
    var contents := Contents(lines, cuts);
    WholeLinesGrow(lines, 0, cuts);
    assert Join(lines[..0]) == [];
    HandledIsReread(contents);
    ChunksAreLines(lines[..cuts[|cuts| - 1]]);
  }
}

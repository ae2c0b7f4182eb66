/** The directory of numbered snapshot files shared by the writer (examples/c/kprobe.c, main) and
    a reader that takes the second-highest number (examples/c/get_avgscale.py and tel_wsf.py).

    Both processes take small steps in any interleaving.  Writing goes through a buffer, so the
    reader may see any part of a file that is still open. */
module SnapshotProtocol {
  import opened Options
  import opened SnapshotDump

  datatype File = File(visible: seq<Line>, closed: bool)

  datatype Writer =
    | Opening(next: nat)                      // about to fopen time_<next>
    | Writing(current: nat, lines: seq<Line>) // lines printed so far to time_<current>
    | Stopped

  datatype Reader = Idle | Chosen(index: nat)

  /** `complete` records, for each finished file, everything its dump printed. */
  datatype State = State(
    files: map<nat, File>, writer: Writer, complete: seq<seq<Line>>,
    reader: Reader, processed: seq<nat>)

  datatype Action =
    | Open
    | OpenFails
    | Print(line: Line)
    | Flush(upTo: nat)
    | Close
    | Quit
    | Choose(listing: seq<nat>)
    | Process

  /** The writer starts at number 0, whatever files are already there. */
  function Initial(directory: map<nat, File>): State {
    State(directory, Opening(0), [], Idle, [])
  }

  /** get_log_files: every file, in ascending order of its number. */
  ghost predicate Lists(listing: seq<nat>, files: map<nat, File>) {
    && (forall a, b | 0 <= a < b < |listing| :: listing[a] < listing[b])
    && (forall i :: i in listing <==> i in files)
  }

  ghost predicate Enabled(s: State, a: Action) {
    match a
    case Open => s.writer.Opening?
    case OpenFails => s.writer.Opening?
    case Print(_) => s.writer.Writing?
    case Flush(upTo) =>
      s.writer.Writing? && s.writer.current in s.files &&
      |s.files[s.writer.current].visible| <= upTo <= |s.writer.lines|
    case Close => s.writer.Writing?
    case Quit => s.writer.Opening?
    case Choose(listing) => s.reader.Idle? && Lists(listing, s.files)
    case Process => s.reader.Chosen?
  }

  function Last(processed: seq<nat>): Option<nat> {
    if processed == [] then None else Some(processed[|processed| - 1])
  }

  function Apply(s: State, a: Action): State
    requires Enabled(s, a)
  {
    match a
    case Open =>
      var i := s.writer.next;
      s.(files := s.files[i := File([], false)], writer := Writing(i, []))
    case OpenFails => s.(writer := Stopped)
    case Print(line) => s.(writer := Writing(s.writer.current, s.writer.lines + [line]))
    case Flush(upTo) => s.(files := s.files[s.writer.current := File(s.writer.lines[..upTo], false)])
    case Close =>
      var i, lines := s.writer.current, s.writer.lines;
      s.(files := s.files[i := File(lines, true)], complete := s.complete + [lines], writer := Opening(i + 1))
    case Quit => s.(writer := Stopped)
    case Choose(listing) =>
      if |listing| < 2 then s
      else
        var j := listing[|listing| - 2];
        if Last(s.processed) == Some(j) then s else s.(reader := Chosen(j))
    case Process => s.(processed := s.processed + [s.reader.index], reader := Idle)
  }

  /** A run from a given directory: one action between consecutive states. */
  ghost predicate Behaviour(directory: map<nat, File>, states: seq<State>, actions: seq<Action>) {
    && |states| == |actions| + 1 && states[0] == Initial(directory)
    && forall k | 0 <= k < |actions| ::
         Enabled(states[k], actions[k]) && states[k + 1] == Apply(states[k], actions[k])
  }

  // ------------------------------------------------------------ the invariant

  /** Files below `n` are exactly the finished ones, closed and holding their whole dump. */
  predicate Finished(s: State, n: nat) {
    && |s.complete| == n
    && forall i | 0 <= i < n :: i in s.files && s.files[i] == File(s.complete[i], true)
  }

  ghost predicate Only(s: State, n: nat) {
    forall i | i in s.files :: i < n
  }

  ghost predicate WriterOk(s: State) {
    && Finished(s, |s.complete|)
    && match s.writer
       case Opening(i) => |s.complete| == i && Only(s, if i == 0 then 1 else i)
       case Writing(i, lines) =>
         |s.complete| == i && Only(s, i + 1) && i in s.files && s.files[i].visible <= lines && !s.files[i].closed
       case Stopped => Only(s, if s.complete == [] then 1 else |s.complete|)
  }

  /** Nothing there before, or at most a file with number 0, which the writer truncates first. */
  predicate Clean(directory: map<nat, File>) {
    directory.Keys <= {0}
  }

  predicate Increasing(indices: seq<nat>) {
    forall a, b | 0 <= a < b < |indices| :: indices[a] < indices[b]
  }

  ghost predicate ReaderOk(s: State) {
    && Increasing(s.processed)
    && (forall a | 0 <= a < |s.processed| :: s.processed[a] + 1 in s.files)
    && (s.reader.Chosen? ==>
          s.reader.index + 1 in s.files && forall a | 0 <= a < |s.processed| :: s.processed[a] < s.reader.index)
  }

  /** The second-highest file of a directory the writer built is a finished one, and the number
      after it exists. */
  lemma SecondHighestIsFinished(s: State, listing: seq<nat>)
    requires WriterOk(s) && Lists(listing, s.files) && |listing| >= 2
    ensures var j := listing[|listing| - 2];
            && j < |s.complete| && j in s.files && s.files[j] == File(s.complete[j], true)
            && j + 1 in s.files
            && forall i | i in s.files :: i <= j + 1
  {
    var n := |listing|;
    var top, j := listing[n - 1], listing[n - 2];
    assert top in s.files && j in s.files;
    forall i | i in s.files
      ensures i <= j || i == top
    {
      assert i in listing;
      var a :| 0 <= a < n && listing[a] == i;
    }
    assert top - 1 < |s.complete|;
    assert top - 1 in s.files;
  }

  lemma WriterStep(s: State, a: Action)
    requires WriterOk(s) && Enabled(s, a)
    ensures WriterOk(Apply(s, a))
  {
  }

  lemma FilesStay(s: State, a: Action)
    requires WriterOk(s) && Enabled(s, a)
    ensures s.complete <= Apply(s, a).complete
    ensures forall i | i in s.files :: i in Apply(s, a).files
    ensures forall i | 0 <= i < |s.complete| :: Apply(s, a).files[i] == s.files[i]
  {
  }

  lemma ReaderStep(s: State, a: Action)
    requires WriterOk(s) && ReaderOk(s) && Enabled(s, a)
    ensures ReaderOk(Apply(s, a))
  {
    if a.Choose? {
      if |a.listing| >= 2 {
        SecondHighestIsFinished(s, a.listing);
        if Last(s.processed) != Some(a.listing[|a.listing| - 2]) {
          ChooseIsAhead(s, a.listing[|a.listing| - 2]);
        }
      }
    } else if a.Process? {
      ProcessStep(s);
    } else {
      FilesStay(s, a);
    }
  }

  lemma ChooseIsAhead(s: State, j: nat)
    requires ReaderOk(s) && (forall i | i in s.files :: i <= j + 1) && Last(s.processed) != Some(j)
    ensures forall a | 0 <= a < |s.processed| :: s.processed[a] < j
  {
    forall a | 0 <= a < |s.processed|
      ensures s.processed[a] < j
    {
      var last := |s.processed| - 1;
      assert s.processed[last] + 1 in s.files;
    }
  }

  lemma ProcessStep(s: State)
    requires ReaderOk(s) && s.reader.Chosen?
    ensures ReaderOk(s.(processed := s.processed + [s.reader.index], reader := Idle))
  {
  }

  lemma {:induction false} InvariantHolds(directory: map<nat, File>, states: seq<State>, actions: seq<Action>, k: nat)
    requires Clean(directory) && Behaviour(directory, states, actions) && k < |states|
    ensures WriterOk(states[k]) && ReaderOk(states[k])
  {
    if k > 0 {
      InvariantHolds(directory, states, actions, k - 1);
      WriterStep(states[k - 1], actions[k - 1]);
      ReaderStep(states[k - 1], actions[k - 1]);
    }
  }

  // ------------------------------------------------------------ what the actions print

  /** The lines printed since the latest `Open`. */
  function Printed(actions: seq<Action>): seq<Line> {
    if actions == [] then []
    else
      var n := |actions| - 1;
      match actions[n]
      case Open => []
      case Print(line) => Printed(actions[..n]) + [line]
      case _ => Printed(actions[..n])
  }

  /** For each `Close`, in order, what was printed since the `Open` before it. */
  function Dumps(actions: seq<Action>): seq<seq<Line>> {
    if actions == [] then []
    else
      var n := |actions| - 1;
      if actions[n].Close? then Dumps(actions[..n]) + [Printed(actions[..n])] else Dumps(actions[..n])
  }

  /** In every behaviour, from any directory: the recorded dumps, and the lines of a file being
      written, are exactly what the actions printed. */
  lemma {:induction false} CompleteIsPrinted(directory: map<nat, File>, states: seq<State>, actions: seq<Action>, k: nat)
    requires Behaviour(directory, states, actions) && k < |states|
    ensures states[k].complete == Dumps(actions[..k])
    ensures states[k].writer.Writing? ==> states[k].writer.lines == Printed(actions[..k])
  {
    if k > 0 {
      CompleteIsPrinted(directory, states, actions, k - 1);
      assert actions[..k][..k - 1] == actions[..k - 1];
      PrintedStep(states[k - 1], actions[..k - 1], actions[k - 1]);
      assert actions[..k] == actions[..k - 1] + [actions[k - 1]];
    }
  }

  lemma PrintedStep(s: State, before: seq<Action>, a: Action)
    requires Enabled(s, a) && s.complete == Dumps(before)
    requires s.writer.Writing? ==> s.writer.lines == Printed(before)
    ensures Apply(s, a).complete == Dumps(before + [a])
    ensures Apply(s, a).writer.Writing? ==> Apply(s, a).writer.lines == Printed(before + [a])
  {
    assert (before + [a])[..|before|] == before;
  }

  /** The lines of the `Print` actions among some actions. */
  function LinesIn(actions: seq<Action>): seq<Line> {
    if actions == [] then []
    else
      var n := |actions| - 1;
      LinesIn(actions[..n]) + if actions[n].Print? then [actions[n].line] else []
  }

  /** Position by position: with the latest `Open` at `o`, what is printed are the lines after it. */
  lemma {:induction false} PrintedSinceOpen(actions: seq<Action>, o: nat)
    requires o < |actions| && actions[o].Open? && forall i | o < i < |actions| :: !actions[i].Open?
    ensures Printed(actions) == LinesIn(actions[o + 1..])
    decreases |actions|
  {
    var n := |actions| - 1;
    if o == n {
      assert actions[o + 1..] == [];
    } else {
      PrintedSinceOpen(actions[..n], o);
      assert actions[o + 1..][..n - o - 1] == actions[..n][o + 1..];
      assert actions[o + 1..][n - o - 1] == actions[n];
    }
  }

  // ------------------------------------------------------------ the theorems

  lemma {:induction false} FilesAreForever(directory: map<nat, File>, states: seq<State>, actions: seq<Action>,
                                           k: nat, m: nat, j: nat)
    requires Clean(directory) && Behaviour(directory, states, actions)
    requires k <= m < |states| && j < |states[k].complete|
    ensures states[k].complete <= states[m].complete
    ensures j in states[k].files && j in states[m].files
    ensures states[m].files[j] == states[k].files[j] == File(states[k].complete[j], true)
    decreases m
  {
    InvariantHolds(directory, states, actions, k);
    if k < m {
      FilesAreForever(directory, states, actions, k, m - 1, j);
      InvariantHolds(directory, states, actions, m - 1);
      FilesStay(states[m - 1], actions[m - 1]);
    }
  }

  /** Finished files hold what was printed to them and never change again. */
  lemma FinishedIsForever(directory: map<nat, File>, states: seq<State>, actions: seq<Action>, k: nat, m: nat, j: nat)
    requires Clean(directory) && Behaviour(directory, states, actions)
    requires k <= m < |states| && j < |Dumps(actions[..k])|
    ensures Dumps(actions[..k]) <= Dumps(actions[..m])
    ensures j in states[k].files && j in states[m].files
    ensures states[m].files[j] == states[k].files[j] == File(Dumps(actions[..k])[j], true)
  {
    CompleteIsPrinted(directory, states, actions, k);
    CompleteIsPrinted(directory, states, actions, m);
    FilesAreForever(directory, states, actions, k, m, j);
  }

  /** File `j` is one that `actions` have finished, and in state `later` it is closed and holds exactly
      what they printed to it. */
  predicate CompleteIn(actions: seq<Action>, later: State, j: nat) {
    && j < |Dumps(actions)| && j in later.files
    && later.files[j] == File(Dumps(actions)[j], true)
  }

  /** In every interleaving, the file a reader picks as second-highest is at that moment closed and
      holds exactly what was printed between its `Open` and its `Close`, and it is the same file at
      every later moment, however late the reader gets round to opening it. */
  lemma PickedFileIsCompleteForever(directory: map<nat, File>, states: seq<State>, actions: seq<Action>,
                                    k: nat, listing: seq<nat>, m: nat)
    requires Clean(directory) && Behaviour(directory, states, actions) && k <= m < |states|
    requires Lists(listing, states[k].files) && |listing| >= 2
    ensures CompleteIn(actions[..k], states[m], listing[|listing| - 2])
  {
    InvariantHolds(directory, states, actions, k);
    SecondHighestIsFinished(states[k], listing);
    CompleteIsPrinted(directory, states, actions, k);
    FinishedIsForever(directory, states, actions, k, m, listing[|listing| - 2]);
  }

  /** The indices get_avgscale processes strictly increase, so no snapshot is processed twice; and
      each was complete when processed. */
  lemma ProcessedOnce(directory: map<nat, File>, states: seq<State>, actions: seq<Action>, k: nat)
    requires Clean(directory) && Behaviour(directory, states, actions) && k < |states|
    ensures Increasing(states[k].processed)
    ensures forall a | 0 <= a < |states[k].processed| :: CompleteIn(actions[..k], states[k], states[k].processed[a])
  {
    InvariantHolds(directory, states, actions, k);
    CompleteIsPrinted(directory, states, actions, k);
    var s := states[k];
    forall a | 0 <= a < |s.processed|
      ensures s.processed[a] < |s.complete|
    {
      assert s.processed[a] + 1 in s.files;
    }
  }

  predicate ByReader(a: Action) {
    a.Choose? || a.Process?
  }

  /** The reader's latest action before position `k` is the listing at `c`. */
  predicate LatestChoice(actions: seq<Action>, k: nat, c: int)
    requires k <= |actions|
  {
    0 <= c < k && actions[c].Choose? && forall i | c < i < k :: !ByReader(actions[i])
  }

  lemma {:induction false} ChosenByListing(directory: map<nat, File>, states: seq<State>, actions: seq<Action>, k: nat)
    returns (c: int)
    requires Behaviour(directory, states, actions) && k < |states| && states[k].reader.Chosen?
    ensures LatestChoice(actions, k, c)
    ensures var listing := actions[c].listing;
            && |listing| >= 2 && states[k].reader.index == listing[|listing| - 2]
            && Last(states[k].processed) != Some(listing[|listing| - 2])
  {
    if ByReader(actions[k - 1]) {
      c := k - 1;
    } else {
      c := ChosenByListing(directory, states, actions, k - 1);
    }
  }

  /** What is processed is the second-highest file of the reader's own latest listing, and never the
      file processed last. */
  lemma ProcessesSecondHighest(directory: map<nat, File>, states: seq<State>, actions: seq<Action>, k: nat)
    returns (c: int)
    requires Behaviour(directory, states, actions) && k < |actions| && actions[k].Process?
    ensures LatestChoice(actions, k, c) && |actions[c].listing| >= 2
    ensures var j := actions[c].listing[|actions[c].listing| - 2];
            states[k + 1].processed == states[k].processed + [j] && Last(states[k].processed) != Some(j)
  {
    c := ChosenByListing(directory, states, actions, k);
  }

  /** The writer does nothing after a failed open or after it was told to stop. */
  lemma {:induction false} StoppedIsForever(directory: map<nat, File>, states: seq<State>, actions: seq<Action>, k: nat, m: nat)
    requires Behaviour(directory, states, actions) && k < m <= |actions|
    requires actions[k].OpenFails? || actions[k].Quit?
    ensures states[m].writer.Stopped? && states[m].files == states[k].files
    ensures m < |actions| ==> ByReader(actions[m])
    decreases m
  {
    if k + 1 < m {
      StoppedIsForever(directory, states, actions, k, m - 1);
    }
  }

  // ------------------------------------------------------------ which directories are safe

  /** Whatever happens from this directory on, a reader is only ever handed files of this run that
      are complete and stay so. */
  ghost predicate Safe(directory: map<nat, File>) {
    forall states, actions, k: nat, listing, m: nat | Hands(directory, states, actions, k, listing, m) ::
      CompleteIn(actions[..k], states[m], listing[|listing| - 2])
  }

  /** In this run, at moment `k`, the directory listing hands a reader a file; `m` is no earlier. */
  ghost predicate Hands(directory: map<nat, File>, states: seq<State>, actions: seq<Action>,
                        k: nat, listing: seq<nat>, m: nat)
  {
    && Behaviour(directory, states, actions) && k <= m < |states|
    && Lists(listing, states[k].files) && |listing| >= 2
  }

  lemma {:induction false} SomeListing(keys: set<nat>) returns (listing: seq<nat>)
    ensures forall a, b | 0 <= a < b < |listing| :: listing[a] < listing[b]
    ensures forall i :: i in listing <==> i in keys
    ensures |listing| == |keys|
    decreases |keys|
  {
    if keys == {} {
      listing := [];
    } else {
      var top := Largest(keys);
      var rest := SomeListing(keys - {top});
      listing := rest + [top];
      forall a, b | 0 <= a < b < |listing|
        ensures listing[a] < listing[b]
      {
        assert rest[a] in rest;
      }
    }
  }

  lemma {:induction false} Largest(keys: set<nat>) returns (top: nat)
    requires keys != {}
    ensures top in keys && forall i | i in keys :: i <= top
    decreases |keys|
  {
    var x :| x in keys;
    var rest := keys - {x};
    if rest == {} {
      top := x;
      assert forall i | i in keys :: i == x || i in rest;
    } else {
      var other := Largest(rest);
      top := if other > x then other else x;
      assert forall i | i in keys :: i == x || i in rest;
    }
  }

  /** One stale file with a positive number is enough: as soon as the writer opens time_0, a reader
      that lists the directory is handed a file this run has not finished. */
  lemma StaleFileBreaksProtocol(directory: map<nat, File>, stale: nat) returns (states: seq<State>, listing: seq<nat>)
    requires stale in directory && stale > 0
    ensures Behaviour(directory, states, [Open]) && |states| == 2
    ensures Lists(listing, states[1].files) && |listing| >= 2
    ensures !CompleteIn([Open], states[1], listing[|listing| - 2])
  {
    var s := Initial(directory);
    states := [s, Apply(s, Open)];
    listing := SomeListing(states[1].files.Keys);
    assert {0, stale} <= states[1].files.Keys;
    TwoMembers(states[1].files.Keys, stale);
    assert [Open][..0] == [];
  }

  lemma TwoMembers(keys: set<nat>, stale: nat)
    requires 0 in keys && stale in keys && stale > 0
    ensures |keys| >= 2
  {
    assert keys == {0} + (keys - {0});
    assert stale in keys - {0};
  }

  /** The directories from which the protocol is safe are exactly the clean ones. */
  lemma SafeIffClean(directory: map<nat, File>)
    ensures Safe(directory) <==> Clean(directory)
  {
    if Clean(directory) {
      forall states, actions, k: nat, listing, m: nat | Hands(directory, states, actions, k, listing, m)
        ensures CompleteIn(actions[..k], states[m], listing[|listing| - 2])
      {
        PickedFileIsCompleteForever(directory, states, actions, k, listing, m);
      }
    } else {
      var stale :| stale in directory && stale != 0;
      var states, listing := StaleFileBreaksProtocol(directory, stale);
      assert Hands(directory, states, [Open], 1, listing, 1);
      assert [Open][..1] == [Open];
    }
  }
}

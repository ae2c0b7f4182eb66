/** One burst of examples/c/benchmark_file.c: create, size and map a set of files, then unmap,
    close and delete them, under arbitrary failures of the operating system. */
module FileBurst {

  const FILES_PER_ITERATION: nat := 20
  const NO_FD: int := -1
  const NULL: int := 0
  const MAP_FAILED: int := -1

  /** A value outside a finite set. */
  lemma Fresh(s: set<int>) returns (x: int)
    ensures x > 0 && x !in s
  {
    x := 1;
    var rest := s;
    while x in rest
      invariant x > 0 && rest <= s && forall y | y in s && y !in rest :: y < x
      decreases rest
    {
      rest := rest - {x};
      x := x + 1;
    }
  }

  /** What the operating system will answer for one file during a burst. */
  datatype Faults = Faults(openFails: bool, truncateFails: bool, mapFails: bool, unlinkFails: bool)

  /** The file gets as far as being mapped. */
  predicate Works(f: Faults) {
    !f.openFails && !f.truncateFails && !f.mapFails
  }

  /** What a process holds and what is on disk, with the calls that led there. */
  datatype Usage = Usage(descriptors: set<int>, mappings: set<int>, files: set<int>, opens: nat, maps: nat)

  /** The part of the operating system the burst touches.  Each call succeeds or fails as `faults`
      says for the file behind it.  `Close` may only be given an open descriptor and `Munmap` only a
      mapping not yet given back, so a verified caller never closes or unmaps twice; the counters
      record how often each call succeeded. */
  class Os {
    var faults: seq<Faults>  // indexed by file number
    var descriptors: set<int>
    var behind: map<int, Faults>  // the answers for the file behind each descriptor
    var mappings: set<int>
    var files: set<int>
    var opens: nat
    var closes: nat
    var maps: nat
    var unmaps: nat

    /** The counters account for everything held. */
    ghost predicate Valid()
      reads this
    {
      && descriptors <= behind.Keys
      && opens == closes + |descriptors| && maps == unmaps + |mappings|
    }

    ghost function InUse(): Usage
      reads this
    {
      Usage.Usage(descriptors, mappings, files, opens, maps)
    }

    /** open(O_RDWR | O_CREAT | O_TRUNC). */
    method Open(name: int) returns (fd: int)
      requires Valid() && 0 <= name < |faults|
      modifies `descriptors, `behind, `files, `opens
      ensures Valid()
      ensures fd == NO_FD <==> faults[name].openFails
      ensures fd == NO_FD ==> descriptors == old(descriptors) && files == old(files) && opens == old(opens)
      ensures fd != NO_FD ==>
                && fd >= 0 && fd !in old(descriptors) && descriptors == old(descriptors) + {fd}
                && fd in behind && behind[fd] == faults[name]
                && files == old(files) + {name} && opens == old(opens) + 1
    {
      if faults[name].openFails {
        fd := NO_FD;
      } else {
        ghost var spare := Fresh(descriptors);
        assert spare >= 0 && spare !in descriptors;
        fd :| fd >= 0 && fd !in descriptors;
        descriptors, behind := descriptors + {fd}, behind[fd := faults[name]];
        files, opens := files + {name}, opens + 1;
      }
    }

    method Ftruncate(fd: int) returns (result: int)
      requires Valid() && fd in descriptors
      ensures result == if behind[fd].truncateFails then -1 else 0
    {
      result := if behind[fd].truncateFails then -1 else 0;
    }

    method Mmap(fd: int) returns (address: int)
      requires Valid() && fd in descriptors
      modifies `mappings, `maps
      ensures Valid()
      ensures address == MAP_FAILED <==> behind[fd].mapFails
      ensures address == MAP_FAILED ==> mappings == old(mappings) && maps == old(maps)
      ensures address != MAP_FAILED ==>
                && address != NULL && address !in old(mappings)
                && mappings == old(mappings) + {address} && maps == old(maps) + 1
    {
      if behind[fd].mapFails {
        address := MAP_FAILED;
      } else {
        ghost var spare := Fresh(mappings);
        assert spare > 0 && spare !in mappings;
        address :| address > 0 && address !in mappings;
        mappings, maps := mappings + {address}, maps + 1;
      }
    }

    method Munmap(address: int)
      requires Valid() && address in mappings
      modifies `mappings, `unmaps
      ensures Valid()
      ensures mappings == old(mappings) - {address} && unmaps == old(unmaps) + 1
    {
      mappings, unmaps := mappings - {address}, unmaps + 1;
    }

    method Close(fd: int)
      requires Valid() && fd in descriptors
      modifies `descriptors, `closes
      ensures Valid()
      ensures descriptors == old(descriptors) - {fd} && closes == old(closes) + 1
    {
      descriptors, closes := descriptors - {fd}, closes + 1;
    }

    /** unlink: on failure the file stays. */
    method Unlink(name: int) returns (result: int)
      requires 0 <= name < |faults|
      modifies `files
      ensures result == if faults[name].unlinkFails then -1 else 0
      ensures files == if result == 0 then old(files) - {name} else old(files)
    {
      result := if faults[name].unlinkFails then -1 else 0;
      if result == 0 {
        files := files - {name};
      }
    }
  }

  /** The handles (other than `none`) held in slots [lo, hi) of an array. */
  function Held(handles: seq<int>, none: int, lo: int, hi: int): set<int>
    requires 0 <= lo <= hi <= |handles|
    decreases hi - lo
  {
    if lo == hi then {}
    else (if handles[lo] == none then {} else {handles[lo]}) + Held(handles, none, lo + 1, hi)
  }

  lemma {:induction false} HeldMember(handles: seq<int>, none: int, lo: int, hi: int, i: int)
    requires 0 <= lo <= i < hi <= |handles| && handles[i] != none
    ensures handles[i] in Held(handles, none, lo, hi)
    decreases hi - lo
  {
    if lo < i {
      HeldMember(handles, none, lo + 1, hi, i);
    }
  }

  lemma {:induction false} HeldSlot(handles: seq<int>, none: int, lo: int, hi: int, h: int) returns (i: int)
    requires 0 <= lo <= hi <= |handles| && h in Held(handles, none, lo, hi)
    ensures lo <= i < hi && handles[i] == h && h != none
    decreases hi - lo
  {
    if handles[lo] != none && handles[lo] == h {
      i := lo;
    } else {
      i := HeldSlot(handles, none, lo + 1, hi, h);
    }
  }

  lemma {:induction false} HeldSnoc(handles: seq<int>, none: int, lo: int, hi: int, h: int)
    requires 0 <= lo <= hi < |handles|
    ensures Held(handles[hi := h], none, lo, hi + 1)
            == Held(handles, none, lo, hi) + if h == none then {} else {h}
    decreases hi - lo
  {
    if lo < hi {
      HeldSnoc(handles, none, lo + 1, hi, h);
    } else {
      assert Held(handles[hi := h], none, hi + 1, hi + 1) == {};
    }
  }

  predicate Unshared(handles: seq<int>, none: int, lo: int, hi: int)
    requires 0 <= lo <= hi <= |handles|
  {
    forall i, j | lo <= i < j < hi && handles[i] != none :: handles[i] != handles[j]
  }

  /** Exactly the handles of slots [lo, hi) are held on top of `base`. */
  ghost predicate Owns(current: set<int>, base: set<int>, handles: seq<int>, none: int, lo: int, hi: int)
    requires 0 <= lo <= hi <= |handles|
  {
    && current == base + Held(handles, none, lo, hi)
    && base !! Held(handles, none, lo, hi)
    && Unshared(handles, none, lo, hi)
  }

  /** Taking one more handle, or recording that there is none. */
  lemma OwnsNext(current: set<int>, base: set<int>, handles: seq<int>, none: int, hi: int, h: int)
    requires 0 <= hi < |handles| && Owns(current, base, handles, none, 0, hi)
    requires h != none ==> h !in current
    ensures Owns(if h == none then current else current + {h}, base, handles[hi := h], none, 0, hi + 1)
  {
    HeldSnoc(handles, none, 0, hi, h);
    var handles' := handles[hi := h];
    forall i, j | 0 <= i < j < hi + 1 && handles'[i] != none
      ensures handles'[i] != handles'[j]
    {
      HeldMember(handles, none, 0, hi, i);
    }
  }

  /** Giving back the handle of the first remaining slot. */
  lemma OwnsRest(current: set<int>, base: set<int>, handles: seq<int>, none: int, lo: int)
    requires 0 <= lo < |handles| && Owns(current, base, handles, none, lo, |handles|)
    ensures handles[lo] != none ==> handles[lo] in current
    ensures Owns(if handles[lo] == none then current else current - {handles[lo]},
                 base, handles, none, lo + 1, |handles|)
  {
    var n, h := |handles|, handles[lo];
    if h != none && h in Held(handles, none, lo + 1, n) {
      var _ := HeldSlot(handles, none, lo + 1, n, h);
    }
  }

  /** How many of the first `n` files can be opened, and how many get as far as being mapped. */
  function Opened(faults: seq<Faults>, n: nat): nat
    requires n <= |faults|
  {
    if n == 0 then 0 else Opened(faults, n - 1) + if faults[n - 1].openFails then 0 else 1
  }

  function Worked(faults: seq<Faults>, n: nat): nat
    requires n <= |faults|
  {
    if n == 0 then 0 else Worked(faults, n - 1) + if Works(faults[n - 1]) then 1 else 0
  }

  /** The files on disk once the first loop has handled the files below `acquired` and the second
      those below `released`, `base` being on disk before. */
  ghost predicate FilesAfter(files: set<int>, base: set<int>, faults: seq<Faults>, acquired: nat, released: nat)
    requires acquired <= |faults|
  {
    forall name ::
      name in files <==>
        if 0 <= name < acquired && !faults[name].openFails
        then !(name < released && Works(faults[name]) && !faults[name].unlinkFails)
        else name in base
  }

  /** A slot holds a descriptor and a buffer exactly when its file worked. */
  predicate SlotsMatch(fds: seq<int>, buffers: seq<int>, faults: seq<Faults>, n: nat)
    requires n <= |fds| == |buffers| && n <= |faults|
  {
    forall i | 0 <= i < n ::
      (fds[i] != NO_FD <==> Works(faults[i])) && (buffers[i] != NULL <==> Works(faults[i]))
  }

  /** What handling one file in the first loop does: everything if it works, and otherwise nothing
      but leaving the file if it could be opened. */
  predicate AcquireStep(u: Usage, u': Usage, f: Faults, name: int, fd: int, buffer: int) {
    && (fd != NO_FD <==> Works(f)) && (buffer != NULL <==> Works(f))
    && (Works(f) ==> fd !in u.descriptors && buffer !in u.mappings)
    && u'.descriptors == (if Works(f) then u.descriptors + {fd} else u.descriptors)
    && u'.mappings == (if Works(f) then u.mappings + {buffer} else u.mappings)
    && u'.files == (if f.openFails then u.files else u.files + {name})
    && u'.opens == u.opens + (if f.openFails then 0 else 1)
    && u'.maps == u.maps + (if Works(f) then 1 else 0)
  }

  /** One pass of the first loop: open, size and map one file, undoing its own steps when a later
      one fails. */
  method AcquireOne(os: Os, name: int) returns (fd: int, buffer: int)
    requires os.Valid() && 0 <= name < |os.faults|
    modifies os
    ensures os.Valid() && os.faults == old(os.faults)
    ensures AcquireStep(old(os.InUse()), os.InUse(), os.faults[name], name, fd, buffer)
  {
    buffer := NULL;
    fd := os.Open(name);
    if fd == NO_FD {
      return;
    }
    var truncated := os.Ftruncate(fd);
    if truncated == -1 {
      os.Close(fd);
      fd := NO_FD;
      return;
    }
    buffer := os.Mmap(fd);
    if buffer == MAP_FAILED {
      os.Close(fd);
      fd, buffer := NO_FD, NULL;
      return;
    }
  }

  /** The first loop has handled the files below `n`: a buffer is non-NULL exactly where its
      descriptor is not -1, which is where the file was opened, sized and mapped, and exactly those
      handles are held on top of what was held at `u0`. */
  ghost predicate Acquired(u0: Usage, u: Usage, faults: seq<Faults>, fds: seq<int>, buffers: seq<int>, n: nat)
    requires n <= |fds| == |buffers| == |faults|
  {
    && Owns(u.descriptors, u0.descriptors, fds, NO_FD, 0, n)
    && Owns(u.mappings, u0.mappings, buffers, NULL, 0, n)
    && SlotsMatch(fds, buffers, faults, n)
    && FilesAfter(u.files, u0.files, faults, n, 0)
    && u.opens == u0.opens + Opened(faults, n) && u.maps == u0.maps + Worked(faults, n)
  }

  lemma AcquiredNext(u0: Usage, u: Usage, u': Usage, faults: seq<Faults>, fds: seq<int>, buffers: seq<int>,
                     n: nat, fd: int, buffer: int)
    requires n < |fds| == |buffers| == |faults|
    requires Acquired(u0, u, faults, fds, buffers, n) && AcquireStep(u, u', faults[n], n, fd, buffer)
    ensures Acquired(u0, u', faults, fds[n := fd], buffers[n := buffer], n + 1)
  {
    OwnsNext(u.descriptors, u0.descriptors, fds, NO_FD, n, fd);
    OwnsNext(u.mappings, u0.mappings, buffers, NULL, n, buffer);
    FilesAcquired(u.files, u0.files, faults, n);
  }

  lemma FilesAcquired(files: set<int>, base: set<int>, faults: seq<Faults>, n: nat)
    requires n < |faults| && FilesAfter(files, base, faults, n, 0)
    ensures FilesAfter(if faults[n].openFails then files else files + {n}, base, faults, n + 1, 0)
  {
  }

  /** The body of the first loop: the results go into slot `i`. */
  method AcquireSlot(os: Os, fds: array<int>, buffers: array<int>, i: nat, ghost u0: Usage)
    requires os.Valid() && i < fds.Length == buffers.Length == |os.faults| && fds != buffers
    requires Acquired(u0, os.InUse(), os.faults, fds[..], buffers[..], i)
    modifies os, fds, buffers
    ensures os.Valid() && os.faults == old(os.faults)
    ensures Acquired(u0, os.InUse(), os.faults, fds[..], buffers[..], i + 1)
  {
    ghost var u, f, b := os.InUse(), fds[..], buffers[..];
    var fd, buffer := AcquireOne(os, i);
    AcquiredNext(u0, u, os.InUse(), os.faults, f, b, i, fd, buffer);
    fds[i] := fd;
    buffers[i] := buffer;
    assert fds[..] == f[i := fd];
    assert buffers[..] == b[i := buffer];
  }

  /** The first loop. */
  method Acquire(os: Os, fds: array<int>, buffers: array<int>)
    requires os.Valid() && fds.Length == buffers.Length == |os.faults| && fds != buffers
    modifies os, fds, buffers
    ensures os.Valid() && os.faults == old(os.faults)
    ensures Acquired(old(os.InUse()), os.InUse(), os.faults, fds[..], buffers[..], fds.Length)
  {
    ghost var u0, faults := os.InUse(), os.faults;
    for i := 0 to fds.Length
      invariant os.Valid() && os.faults == faults
      invariant Acquired(u0, os.InUse(), faults, fds[..], buffers[..], i)
    {
      AcquireSlot(os, fds, buffers, i, u0);
    }
  }

  /** What handling one file in the second loop does. */
  predicate ReleaseStep(u: Usage, u': Usage, f: Faults, name: int, fd: int, buffer: int) {
    && u'.descriptors == (if fd == NO_FD then u.descriptors else u.descriptors - {fd})
    && u'.mappings == (if buffer == NULL then u.mappings else u.mappings - {buffer})
    && u'.files == (if fd != NO_FD && !f.unlinkFails then u.files - {name} else u.files)
    && u'.opens == u.opens && u'.maps == u.maps
  }

  /** One pass of the second loop: unmap, close and delete one file, if it got that far. */
  method ReleaseOne(os: Os, name: int, fd: int, buffer: int)
    requires os.Valid() && 0 <= name < |os.faults|
    requires buffer != NULL ==> buffer in os.mappings
    requires fd != NO_FD ==> fd in os.descriptors
    modifies os
    ensures os.Valid() && os.faults == old(os.faults)
    ensures ReleaseStep(old(os.InUse()), os.InUse(), os.faults[name], name, fd, buffer)
  {
    if buffer != NULL {
      os.Munmap(buffer);
    }
    if fd != NO_FD {
      os.Close(fd);
      var _ := os.Unlink(name);
    }
  }

  /** The second loop has given back the handles of the files below `n`, and still holds the rest. */
  ghost predicate Released(u0: Usage, u: Usage, faults: seq<Faults>, fds: seq<int>, buffers: seq<int>, n: nat)
    requires n <= |fds| == |buffers| == |faults|
  {
    && Owns(u.descriptors, u0.descriptors, fds, NO_FD, n, |fds|)
    && Owns(u.mappings, u0.mappings, buffers, NULL, n, |fds|)
    && FilesAfter(u.files, u0.files, faults, |fds|, n)
    && u.opens == u0.opens + Opened(faults, |fds|) && u.maps == u0.maps + Worked(faults, |fds|)
  }

  lemma ReleasedNext(u0: Usage, u: Usage, u': Usage, faults: seq<Faults>, fds: seq<int>, buffers: seq<int>, n: nat)
    requires n < |fds| == |buffers| == |faults|
    requires Released(u0, u, faults, fds, buffers, n) && SlotsMatch(fds, buffers, faults, |fds|)
    requires ReleaseStep(u, u', faults[n], n, fds[n], buffers[n])
    ensures Released(u0, u', faults, fds, buffers, n + 1)
  {
    OwnsRest(u.mappings, u0.mappings, buffers, NULL, n);
    OwnsRest(u.descriptors, u0.descriptors, fds, NO_FD, n);
    FilesReleased(u.files, u0.files, faults, |fds|, n);
  }

  lemma FilesReleased(files: set<int>, base: set<int>, faults: seq<Faults>, n: nat, i: nat)
    requires i < n <= |faults| && FilesAfter(files, base, faults, n, i)
    ensures FilesAfter(if Works(faults[i]) && !faults[i].unlinkFails then files - {i} else files, base, faults, n, i + 1)
  {
  }

  /** The second loop: everything acquired since `u0` is given back, each handle once. */
  method Release(os: Os, fds: array<int>, buffers: array<int>, ghost u0: Usage)
    requires os.Valid() && fds.Length == buffers.Length == |os.faults|
    requires Acquired(u0, os.InUse(), os.faults, fds[..], buffers[..], fds.Length)
    modifies os
    ensures os.Valid() && os.faults == old(os.faults)
    ensures os.descriptors == u0.descriptors && os.mappings == u0.mappings
    ensures os.opens == old(os.opens) && os.maps == old(os.maps)
    ensures FilesAfter(os.files, u0.files, os.faults, fds.Length, fds.Length)
  {
    ghost var u, f, b, faults := os.InUse(), fds[..], buffers[..], os.faults;
    for i := 0 to fds.Length
      invariant os.Valid() && os.faults == faults && u == os.InUse()
      invariant Released(u0, u, faults, f, b, i)
    {
      OwnsRest(u.mappings, u0.mappings, b, NULL, i);
      OwnsRest(u.descriptors, u0.descriptors, f, NO_FD, i);
      assert f[i] == fds[i] && b[i] == buffers[i];
      ReleaseOne(os, i, fds[i], buffers[i]);
      ReleasedNext(u0, u, os.InUse(), faults, f, b, i);
      u := os.InUse();
    }
    assert Held(f, NO_FD, |f|, |f|) == {} && Held(b, NULL, |b|, |b|) == {};
  }

  /** A whole burst, for every pattern of failures.  Every descriptor opened is closed once and every
      mapping made is unmapped once; a file is left behind exactly when it could be opened but not
      sized, mapped or deleted, or when it was there before and could not be opened. */
  method GenerateFiles(os: Os)
    requires os.Valid() && |os.faults| == FILES_PER_ITERATION
    modifies os
    ensures os.Valid() && os.faults == old(os.faults)
    ensures os.descriptors == old(os.descriptors) && os.mappings == old(os.mappings)
    ensures os.opens - old(os.opens) == os.closes - old(os.closes)
            == Opened(os.faults, FILES_PER_ITERATION)
    ensures os.maps - old(os.maps) == os.unmaps - old(os.unmaps)
            == Worked(os.faults, FILES_PER_ITERATION)
    ensures forall i | 0 <= i < FILES_PER_ITERATION ::
              var f := os.faults[i];
              i in os.files <==>
                if f.openFails then i in old(os.files) else f.truncateFails || f.mapFails || f.unlinkFails
    ensures (forall i | 0 <= i < FILES_PER_ITERATION :: !os.faults[i].unlinkFails) ==>
              forall i | 0 <= i < FILES_PER_ITERATION && !os.faults[i].openFails ::
                i in os.files <==> os.faults[i].truncateFails || os.faults[i].mapFails
    ensures forall name | !(0 <= name < FILES_PER_ITERATION) :: name in os.files <==> name in old(os.files)
  {
    var fds := new int[FILES_PER_ITERATION];
    var buffers := new int[FILES_PER_ITERATION];
    Acquire(os, fds, buffers);
    Release(os, fds, buffers, old(os.InUse()));
  }
}

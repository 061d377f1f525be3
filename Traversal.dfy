/** The two recursive listings of the transfer class, with every call and
    failure they can meet.  `Crawl` is GetAllDirectoryListingsAsync, which
    opens a client of its own at every level; `Gather` is the local function
    FindAllFilesToMove, which shares the one session of its caller.  Both
    append to the shared accumulator; `added` is what they append. */
module Traversal {
  import opened Remote
  import opened Discovery

  /** How a call ended: an exception to its caller, a null result, or a
      normal return. */
  datatype Outcome = Threw | Null | Returned

  /** The state after a traversal, what it appended, and how it ended. */
  datatype Run = Run(st: Store, added: seq<Entry>, outcome: Outcome)

  /** Nothing that a listing depends on has changed. */
  predicate SameServer(a: Store, b: Store)
  {
    a.fs == b.fs && a.faults == b.faults && a.refused == b.refused
  }

  /** One level of GetAllDirectoryListingsAsync: connect a new client (its
      failure propagates), list `p` (its failure is caught: disconnect, null),
      append the files, then the subdirectories, then recurse into each
      subdirectory; an exception from a recursive call is caught here and
      turns this level's result into null.  Every client it opens is
      disposed of before it returns.  Only a refused connection of its own
      throws to the caller, and then nothing has been appended. */
  function Crawl(st: Store, p: string): (r: Run)
    requires st.fs.Valid()
    ensures SameServer(r.st, st) && r.st.sessions > st.sessions
    ensures st.Fresh() ==> r.st.open == st.open
    ensures r.outcome == Threw <==> st.sessions in st.refused
    ensures r.outcome == Threw ==> r.added == []
    decreases st.fs.Rank(p), 1
  {
    var id := st.sessions;
    var connected := st.Connect();
    if id !in connected.open then Run(connected.Dispose(id), [], Threw)
    else
      var listed := connected.Perform(id, ListDirectory(p));
      if !connected.Succeeds(id, ListDirectory(p)) then
        Run(listed.DisconnectIfOpen(id).Dispose(id), [], Null)
      else
        var level := st.fs.Visible(p);
        SubdirsBelow(st.fs, p);
        var inner := CrawlEach(listed, Subdirs(level), p);
        var added := Files(level) + Subdirs(level) + inner.added;
        if inner.outcome == Threw then Run(inner.st.DisconnectIfOpen(id).Dispose(id), added, Null)
        else Run(inner.st.Dispose(id), added, Returned)
  }

  /** The recursive calls of one level, in order; a null result is discarded,
      an exception stops the remaining calls. */
  function CrawlEach(st: Store, ds: seq<Entry>, parent: string): (r: Run)
    requires st.fs.Valid()
    requires forall d {:trigger d in ds} {:trigger st.fs.Rank(d.fullName)} :: d in ds ==> st.fs.Rank(d.fullName) < st.fs.Rank(parent)
    ensures SameServer(r.st, st) && r.outcome != Null && r.st.sessions >= st.sessions
    ensures st.Fresh() ==> r.st.open == st.open
    decreases st.fs.Rank(parent), 0, |ds|
  {
    if ds == [] then Run(st, [], Returned)
    else
      var prev := CrawlEach(st, ds[..|ds| - 1], parent);
      if prev.outcome == Threw then prev
      else
        var child := Crawl(prev.st, ds[|ds| - 1].fullName);
        Run(child.st, prev.added + child.added, if child.outcome == Threw then Threw else Returned)
  }

  /** One level of FindAllFilesToMove on the shared session `id`: a failed
      listing disconnects the shared session and yields null; otherwise
      append the files, then the subdirectories, then recurse into each
      subdirectory, discarding what the recursive call returns. */
  function Gather(st: Store, id: nat, p: string): (r: Run)
    requires st.fs.Valid()
    ensures SameServer(r.st, st) && r.st.sessions == st.sessions && r.outcome != Threw
    ensures r.st.open <= st.open && r.st.open - {id} == st.open - {id}
    ensures r.outcome == Null ==> id !in r.st.open
    decreases st.fs.Rank(p), 1
  {
    var listed := st.Perform(id, ListDirectory(p));
    if !st.Succeeds(id, ListDirectory(p)) then Run(listed.DisconnectIfOpen(id), [], Null)
    else
      var level := st.fs.Visible(p);
      SubdirsBelow(st.fs, p);
      var inner := GatherEach(listed, id, Subdirs(level), p);
      Run(inner.st, Files(level) + Subdirs(level) + inner.added, Returned)
  }

  function GatherEach(st: Store, id: nat, ds: seq<Entry>, parent: string): (r: Run)
    requires st.fs.Valid()
    requires forall d {:trigger d in ds} {:trigger st.fs.Rank(d.fullName)} :: d in ds ==> st.fs.Rank(d.fullName) < st.fs.Rank(parent)
    ensures SameServer(r.st, st) && r.st.sessions == st.sessions && r.outcome == Returned
    ensures r.st.open <= st.open && r.st.open - {id} == st.open - {id}
    decreases st.fs.Rank(parent), 0, |ds|
  {
    if ds == [] then Run(st, [], Returned)
    else
      var prev := GatherEach(st, id, ds[..|ds| - 1], parent);
      var child := Gather(prev.st, id, ds[|ds| - 1].fullName);
      Run(child.st, prev.added + child.added, Returned)
  }

  /** When the server refuses no connection, no recursive call throws, so
      the loop over a level always completes. */
  lemma {:induction false} CrawlEachReturns(st: Store, ds: seq<Entry>, parent: string)
    requires st.fs.Valid() && st.refused == {}
    requires forall d {:trigger d in ds} {:trigger st.fs.Rank(d.fullName)} :: d in ds ==> st.fs.Rank(d.fullName) < st.fs.Rank(parent)
    ensures CrawlEach(st, ds, parent).outcome == Returned
    decreases |ds|
  {
    if ds != [] {
      CrawlEachReturns(st, ds[..|ds| - 1], parent);
    }
  }

  /** When the server refuses no connection, the per-level listing returns
      null exactly when the listing of its own root throws: a failure in a
      deeper listing is caught below and discarded. */
  lemma CrawlOutcome(st: Store, p: string)
    requires st.fs.Valid() && st.refused == {}
    ensures Crawl(st, p).outcome == if st.Connect().Succeeds(st.sessions, ListDirectory(p)) then Returned else Null
  {
    var id := st.sessions;
    var connected := st.Connect();
    if connected.Succeeds(id, ListDirectory(p)) {
      SubdirsBelow(st.fs, p);
      CrawlEachReturns(connected.Perform(id, ListDirectory(p)), Subdirs(st.fs.Visible(p)), p);
    }
  }

  /** A refused connection one level down makes this level return null, yet
      what this level appended stays appended: when the first subdirectory's
      client is refused, the level ends with its own files and
      subdirectories and nothing below them. */
  lemma RefusedChildNullsParent(st: Store, p: string)
    requires st.fs.Valid() && st.sessions !in st.refused && st.sessions + 1 in st.refused
    requires st.Connect().Succeeds(st.sessions, ListDirectory(p))
    requires Subdirs(st.fs.Visible(p)) != []
    ensures Crawl(st, p).outcome == Null
    ensures Crawl(st, p).added == Files(st.fs.Visible(p)) + Subdirs(st.fs.Visible(p))
  {
    var listed := st.Connect().Perform(st.sessions, ListDirectory(p));
    SubdirsBelow(st.fs, p);
    FirstChildRefused(listed, Subdirs(st.fs.Visible(p)), p);
    assert Files(st.fs.Visible(p)) + Subdirs(st.fs.Visible(p)) + [] == Files(st.fs.Visible(p)) + Subdirs(st.fs.Visible(p));
  }

  /** When the client of the first subdirectory is refused, the loop of
      recursive calls throws having appended nothing. */
  lemma FirstChildRefused(st: Store, ds: seq<Entry>, parent: string)
    requires st.fs.Valid() && st.sessions in st.refused && ds != []
    requires forall d {:trigger d in ds} {:trigger st.fs.Rank(d.fullName)} :: d in ds ==> st.fs.Rank(d.fullName) < st.fs.Rank(parent)
    ensures CrawlEach(st, ds, parent).outcome == Threw && CrawlEach(st, ds, parent).added == []
  {
    var first := ds[..1];
    assert first == [ds[0]] && first[..0] == [] && ds[0] in ds;
    assert CrawlEach(st, first, parent).outcome == Threw && CrawlEach(st, first, parent).added == [];
    assert first + ds[1..] == ds;
    CrawlEachStops(st, first, ds[1..], parent);
  }

  lemma SubdirsSnoc(s: seq<Entry>, i: nat)
    requires i < |s|
    ensures if s[i].isDirectory && !IsSentinel(s[i].name) then Subdirs(s[..i + 1]) == Subdirs(s[..i]) + [s[i]]
      else Subdirs(s[..i + 1]) == Subdirs(s[..i])
  {
    assert s[..i + 1][..i] == s[..i];
  }

  lemma {:induction false} SubdirsAppend(a: seq<Entry>, b: seq<Entry>)
    ensures Subdirs(a + b) == Subdirs(a) + Subdirs(b)
    decreases |b|
  {
    if b == [] {
      assert a + b == a;
    } else {
      var n := |b| - 1;
      assert (a + b)[..|a + b| - 1] == a + b[..n];
      assert (a + b)[|a + b| - 1] == b[n];
      SubdirsAppend(a, b[..n]);
    }
  }

  /** Once a recursive call has thrown, the remaining subdirectories are not
      visited. */
  lemma {:induction false} CrawlEachStops(st: Store, a: seq<Entry>, b: seq<Entry>, parent: string)
    requires st.fs.Valid()
    requires forall d :: d in a + b ==> st.fs.Rank(d.fullName) < st.fs.Rank(parent)
    requires CrawlEach(st, a, parent).outcome == Threw
    ensures CrawlEach(st, a + b, parent) == CrawlEach(st, a, parent)
    decreases |b|
  {
    if b == [] {
      assert a + b == a;
    } else {
      var n := |b| - 1;
      assert (a + b)[..|a + b| - 1] == a + b[..n];
      CrawlEachStops(st, a, b[..n], parent);
    }
  }

  /** The loop over a listing stops at entry `i` once the call made for it
      has thrown. */
  lemma CrawlEachStopsAt(st: Store, level: seq<Entry>, i: nat, parent: string)
    requires st.fs.Valid() && i < |level|
    requires forall d {:trigger d in Subdirs(level)} :: d in Subdirs(level) ==> st.fs.Rank(d.fullName) < st.fs.Rank(parent)
    requires forall d {:trigger d in Subdirs(level[..i + 1])} :: d in Subdirs(level[..i + 1]) ==> d in Subdirs(level)
    requires CrawlEach(st, Subdirs(level[..i + 1]), parent).outcome == Threw
    ensures CrawlEach(st, Subdirs(level), parent) == CrawlEach(st, Subdirs(level[..i + 1]), parent)
  {
    SubdirsAppend(level[..i + 1], level[i + 1..]);
    assert level[..i + 1] + level[i + 1..] == level;
    CrawlEachStops(st, Subdirs(level[..i + 1]), Subdirs(level[i + 1..]), parent);
  }

  /** The recursive calls of one level, one more subdirectory at a time. */
  lemma CrawlEachSnoc(st: Store, ds: seq<Entry>, d: Entry, parent: string)
    requires st.fs.Valid()
    requires forall e {:trigger e in ds} :: e in ds ==> st.fs.Rank(e.fullName) < st.fs.Rank(parent)
    requires st.fs.Rank(d.fullName) < st.fs.Rank(parent)
    requires CrawlEach(st, ds, parent).outcome != Threw
    ensures var prev := CrawlEach(st, ds, parent);
      var child := Crawl(prev.st, d.fullName);
      CrawlEach(st, ds + [d], parent) ==
        Run(child.st, prev.added + child.added, if child.outcome == Threw then Threw else Returned)
  {
    assert (ds + [d])[..|ds|] == ds;
  }

  lemma GatherEachSnoc(st: Store, id: nat, ds: seq<Entry>, d: Entry, parent: string)
    requires st.fs.Valid()
    requires forall e {:trigger e in ds} :: e in ds ==> st.fs.Rank(e.fullName) < st.fs.Rank(parent)
    requires st.fs.Rank(d.fullName) < st.fs.Rank(parent)
    ensures var prev := GatherEach(st, id, ds, parent);
      var child := Gather(prev.st, id, d.fullName);
      GatherEach(st, id, ds + [d], parent) == Run(child.st, prev.added + child.added, Returned)
  {
    assert (ds + [d])[..|ds|] == ds;
  }

  /** One step of the loop over a listing: entry `i` adds the run of its
      own call when it is a subdirectory other than "." and "..", and
      nothing otherwise. */
  lemma CrawlEachStep(st: Store, level: seq<Entry>, i: nat, parent: string)
    requires st.fs.Valid() && i < |level|
    requires forall d {:trigger d in Subdirs(level)} :: d in Subdirs(level) ==> st.fs.Rank(d.fullName) < st.fs.Rank(parent)
    requires forall d {:trigger d in Subdirs(level[..i])} :: d in Subdirs(level[..i]) ==> d in Subdirs(level)
    requires CrawlEach(st, Subdirs(level[..i]), parent).outcome != Threw
    ensures forall d {:trigger d in Subdirs(level[..i + 1])} :: d in Subdirs(level[..i + 1]) ==> d in Subdirs(level)
    ensures var prev := CrawlEach(st, Subdirs(level[..i]), parent);
      var next := CrawlEach(st, Subdirs(level[..i + 1]), parent);
      if level[i].isDirectory && !IsSentinel(level[i].name) then
        var child := Crawl(prev.st, level[i].fullName);
        next == Run(child.st, prev.added + child.added, if child.outcome == Threw then Threw else Returned)
      else next == prev
  {
    SubdirsSnoc(level, i);
    if level[i].isDirectory && !IsSentinel(level[i].name) {
      var ds := Subdirs(level[..i]);
      assert level[i] in Subdirs(level);
      assert Subdirs(level[..i + 1]) == ds + [level[i]];
      CrawlEachSnoc(st, ds, level[i], parent);
    }
  }

  lemma GatherEachStep(st: Store, id: nat, level: seq<Entry>, i: nat, parent: string)
    requires st.fs.Valid() && i < |level|
    requires forall d {:trigger d in Subdirs(level)} :: d in Subdirs(level) ==> st.fs.Rank(d.fullName) < st.fs.Rank(parent)
    requires forall d {:trigger d in Subdirs(level[..i])} :: d in Subdirs(level[..i]) ==> d in Subdirs(level)
    ensures forall d {:trigger d in Subdirs(level[..i + 1])} :: d in Subdirs(level[..i + 1]) ==> d in Subdirs(level)
    ensures var prev := GatherEach(st, id, Subdirs(level[..i]), parent);
      var next := GatherEach(st, id, Subdirs(level[..i + 1]), parent);
      if level[i].isDirectory && !IsSentinel(level[i].name) then
        var child := Gather(prev.st, id, level[i].fullName);
        next == Run(child.st, prev.added + child.added, Returned)
      else next == prev
  {
    SubdirsSnoc(level, i);
    if level[i].isDirectory && !IsSentinel(level[i].name) {
      assert level[i] in Subdirs(level);
      GatherEachSnoc(st, id, Subdirs(level[..i]), level[i], parent);
    }
  }

  /** On a server where nothing fails, the per-level listing appends exactly
      the discovery order, and returns null only when the root itself cannot
      be listed. */
  lemma {:induction false} CrawlFaultFree(st: Store, p: string)
    requires st.fs.Valid() && st.NoFaults()
    ensures Crawl(st, p).added == Walk(st.fs, p)
    ensures Crawl(st, p).outcome == if st.fs.DirectoryExists(p) then Returned else Null
    decreases st.fs.Rank(p), 1
  {
    var id := st.sessions;
    var connected := st.Connect();
    assert id in connected.open;
    if st.fs.DirectoryExists(p) {
      var listed := connected.Perform(id, ListDirectory(p));
      SubdirsBelow(st.fs, p);
      CrawlEachFaultFree(listed, Subdirs(st.fs.Visible(p)), p);
    }
  }

  lemma {:induction false} CrawlEachFaultFree(st: Store, ds: seq<Entry>, parent: string)
    requires st.fs.Valid() && st.NoFaults()
    requires forall d {:trigger d in ds} {:trigger st.fs.Rank(d.fullName)} :: d in ds ==> st.fs.Rank(d.fullName) < st.fs.Rank(parent)
    ensures CrawlEach(st, ds, parent).added == WalkAll(st.fs, ds, parent)
    ensures CrawlEach(st, ds, parent).outcome == Returned
    decreases st.fs.Rank(parent), 0, |ds|
  {
    if ds != [] {
      var n := |ds| - 1;
      CrawlEachFaultFree(st, ds[..n], parent);
      var prev := CrawlEach(st, ds[..n], parent);
      CrawlFaultFree(prev.st, ds[n].fullName);
    }
  }

  /** On a server where nothing fails and every listed subdirectory can be
      listed, the shared-session listing appends exactly the same discovery
      order as the per-level one, and leaves the shared session open unless
      the root itself cannot be listed. */
  lemma {:induction false} GatherFaultFree(st: Store, id: nat, p: string)
    requires st.fs.Valid() && st.fs.Closed() && st.NoFaults() && id in st.open
    ensures Gather(st, id, p).added == Walk(st.fs, p)
    ensures Gather(st, id, p).outcome == if st.fs.DirectoryExists(p) then Returned else Null
    ensures Gather(st, id, p).st.open == if st.fs.DirectoryExists(p) then st.open else st.open - {id}
    decreases st.fs.Rank(p), 1
  {
    if st.fs.DirectoryExists(p) {
      var listed := st.Perform(id, ListDirectory(p));
      SubdirsBelow(st.fs, p);
      GatherEachFaultFree(listed, id, Subdirs(st.fs.Visible(p)), p);
    }
  }

  lemma {:induction false} GatherEachFaultFree(st: Store, id: nat, ds: seq<Entry>, parent: string)
    requires st.fs.Valid() && st.fs.Closed() && st.NoFaults() && id in st.open
    requires forall d {:trigger d in ds} {:trigger st.fs.Rank(d.fullName)} :: d in ds ==> st.fs.Rank(d.fullName) < st.fs.Rank(parent)
    requires forall d {:trigger d in ds} {:trigger st.fs.DirectoryExists(d.fullName)} :: d in ds ==> st.fs.DirectoryExists(d.fullName)
    ensures GatherEach(st, id, ds, parent).added == WalkAll(st.fs, ds, parent)
    ensures GatherEach(st, id, ds, parent).st.open == st.open
    decreases st.fs.Rank(parent), 0, |ds|
  {
    if ds != [] {
      var n := |ds| - 1;
      GatherEachFaultFree(st, id, ds[..n], parent);
      var prev := GatherEach(st, id, ds[..n], parent);
      GatherFaultFree(prev.st, id, ds[n].fullName);
    }
  }

  /** Whatever fails, a per-level listing appends no "." or ".." entry, and
      every directory it appends ranks strictly below its root, so it is
      never the root itself. */
  lemma {:induction false} CrawlEntries(st: Store, p: string)
    requires st.fs.Valid()
    ensures forall e {:trigger e in Crawl(st, p).added} :: e in Crawl(st, p).added ==>
      !IsSentinel(e.name) && (e.isDirectory ==> st.fs.Rank(e.fullName) < st.fs.Rank(p))
    decreases st.fs.Rank(p), 1
  {
    var id := st.sessions;
    var connected := st.Connect();
    if id in connected.open && connected.Succeeds(id, ListDirectory(p)) {
      var listed := connected.Perform(id, ListDirectory(p));
      SubdirsBelow(st.fs, p);
      CrawlEachEntries(listed, Subdirs(st.fs.Visible(p)), p);
    }
  }

  lemma {:induction false} CrawlEachEntries(st: Store, ds: seq<Entry>, parent: string)
    requires st.fs.Valid()
    requires forall d {:trigger d in ds} {:trigger st.fs.Rank(d.fullName)} :: d in ds ==> st.fs.Rank(d.fullName) < st.fs.Rank(parent)
    ensures forall e {:trigger e in CrawlEach(st, ds, parent).added} :: e in CrawlEach(st, ds, parent).added ==>
      !IsSentinel(e.name) && (e.isDirectory ==> st.fs.Rank(e.fullName) < st.fs.Rank(parent))
    decreases st.fs.Rank(parent), 0, |ds|
  {
    if ds != [] {
      var n := |ds| - 1;
      CrawlEachEntries(st, ds[..n], parent);
      var prev := CrawlEach(st, ds[..n], parent);
      if prev.outcome != Threw {
        CrawlEntries(prev.st, ds[n].fullName);
      }
    }
  }

  /** The same for the shared-session listing of the move. */
  lemma {:induction false} GatherEntries(st: Store, id: nat, p: string)
    requires st.fs.Valid()
    ensures forall e {:trigger e in Gather(st, id, p).added} :: e in Gather(st, id, p).added ==>
      !IsSentinel(e.name) && (e.isDirectory ==> st.fs.Rank(e.fullName) < st.fs.Rank(p))
    decreases st.fs.Rank(p), 1
  {
    if st.Succeeds(id, ListDirectory(p)) {
      var listed := st.Perform(id, ListDirectory(p));
      SubdirsBelow(st.fs, p);
      GatherEachEntries(listed, id, Subdirs(st.fs.Visible(p)), p);
    }
  }

  lemma {:induction false} GatherEachEntries(st: Store, id: nat, ds: seq<Entry>, parent: string)
    requires st.fs.Valid()
    requires forall d {:trigger d in ds} {:trigger st.fs.Rank(d.fullName)} :: d in ds ==> st.fs.Rank(d.fullName) < st.fs.Rank(parent)
    ensures forall e {:trigger e in GatherEach(st, id, ds, parent).added} :: e in GatherEach(st, id, ds, parent).added ==>
      !IsSentinel(e.name) && (e.isDirectory ==> st.fs.Rank(e.fullName) < st.fs.Rank(parent))
    decreases st.fs.Rank(parent), 0, |ds|
  {
    if ds != [] {
      var n := |ds| - 1;
      GatherEachEntries(st, id, ds[..n], parent);
      var prev := GatherEach(st, id, ds[..n], parent);
      GatherEntries(prev.st, id, ds[n].fullName);
    }
  }

  /** Once the shared session is gone, every further listing on it fails
      without appending anything: after one failed level, the siblings that
      follow it contribute nothing. */
  lemma {:induction false} GatherEachAfterDisconnect(st: Store, id: nat, ds: seq<Entry>, parent: string)
    requires st.fs.Valid() && id !in st.open
    requires forall d {:trigger d in ds} {:trigger st.fs.Rank(d.fullName)} :: d in ds ==> st.fs.Rank(d.fullName) < st.fs.Rank(parent)
    ensures GatherEach(st, id, ds, parent).added == []
    ensures GatherEach(st, id, ds, parent).st.trace ==
              st.trace + seq(|ds|, i requires 0 <= i < |ds| => Call(id, ListDirectory(ds[i].fullName)))
    decreases |ds|
  {
    if ds != [] {
      var n := |ds| - 1;
      GatherEachAfterDisconnect(st, id, ds[..n], parent);
      var calls := seq(|ds|, i requires 0 <= i < |ds| => Call(id, ListDirectory(ds[i].fullName)));
      var before := seq(n, i requires 0 <= i < n => Call(id, ListDirectory(ds[..n][i].fullName)));
      assert calls == before + [Call(id, ListDirectory(ds[n].fullName))];
    }
  }
}

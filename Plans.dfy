/** The sequences of remote calls that the directory operations and the batch
    download issue over one session, and what running them does: each call is
    traced, and the first one that throws ends the run. */
module Plans {
  import opened Remote
  import opened Discovery
  import opened Paths

  /** The state after a run and whether every call returned normally. */
  datatype Attempt = Attempt(st: Store, ok: bool)

  function Calls(id: nat, reqs: seq<Request>): (r: seq<Op>)
    ensures |r| == |reqs|
  {
    seq(|reqs|, i requires 0 <= i < |reqs| => Call(id, reqs[i]))
  }

  /** Sends `reqs` in order on session `id`, stopping at the first call that
      throws.  Only the directory structure and the trace change. */
  function RunAll(st: Store, id: nat, reqs: seq<Request>): (r: Attempt)
    ensures r.st.faults == st.faults && r.st.refused == st.refused
    ensures r.st.open == st.open && r.st.sessions == st.sessions
    ensures r.st.fs.listings == st.fs.listings && r.st.fs.rank == st.fs.rank
  {
    if reqs == [] then Attempt(st, true)
    else
      var n := |reqs| - 1;
      var prev := RunAll(st, id, reqs[..n]);
      if !prev.ok then prev
      else Attempt(prev.st.Perform(id, reqs[n]), prev.st.Succeeds(id, reqs[n]))
  }

  /** What a run sends is always a prefix of `reqs`: all of it exactly when
      the run succeeds, and at least the call that threw when it fails. */
  lemma {:induction false} RunAllTrace(st: Store, id: nat, reqs: seq<Request>)
    ensures var r := RunAll(st, id, reqs);
      |st.trace| <= |r.st.trace| <= |st.trace| + |reqs| &&
      r.st.trace == st.trace + Calls(id, reqs[..|r.st.trace| - |st.trace|]) &&
      (r.ok ==> |r.st.trace| == |st.trace| + |reqs|) &&
      (!r.ok ==> |r.st.trace| > |st.trace|)
    decreases |reqs|
  {
    if reqs != [] {
      var n := |reqs| - 1;
      RunAllTrace(st, id, reqs[..n]);
      var prev := RunAll(st, id, reqs[..n]);
      var k := |prev.st.trace| - |st.trace|;
      if prev.ok {
        assert reqs[..n][..k] == reqs[..n];
        assert reqs[..n + 1] == reqs;
        assert Calls(id, reqs[..n]) + [Call(id, reqs[n])] == Calls(id, reqs);
      } else {
        assert reqs[..n][..k] == reqs[..k];
      }
    }
  }

  /** Running one more call after a successful run. */
  lemma {:induction false} RunAllStep(st: Store, id: nat, reqs: seq<Request>, i: nat)
    requires i < |reqs| && RunAll(st, id, reqs[..i]).ok
    ensures var prev := RunAll(st, id, reqs[..i]).st;
      RunAll(st, id, reqs[..i + 1]) == Attempt(prev.Perform(id, reqs[i]), prev.Succeeds(id, reqs[i]))
  {
    assert reqs[..i + 1][..i] == reqs[..i];
  }

  /** Once a call has thrown, nothing after it is sent: a run that fails
      at call `i` is the whole run. */
  lemma {:induction false} RunAllStopsAt(st: Store, id: nat, reqs: seq<Request>, i: nat)
    requires i < |reqs| && !RunAll(st, id, reqs[..i + 1]).ok
    ensures RunAll(st, id, reqs) == RunAll(st, id, reqs[..i + 1])
    decreases |reqs|
  {
    if i + 1 < |reqs| {
      var n := |reqs| - 1;
      assert reqs[..n][..i + 1] == reqs[..i + 1];
      RunAllStopsAt(st, id, reqs[..n], i);
    } else {
      assert reqs[..i + 1] == reqs;
    }
  }

  /** A run of `a + b` is a run of `a` followed, when it succeeds, by a run
      of `b` from where it left off. */
  lemma {:induction false} RunAllAppend(st: Store, id: nat, a: seq<Request>, b: seq<Request>)
    ensures RunAll(st, id, a + b) == (var p := RunAll(st, id, a); if p.ok then RunAll(p.st, id, b) else p)
    decreases |b|
  {
    if b == [] {
      assert a + b == a;
    } else {
      var n := |b| - 1;
      assert (a + b)[..|a| + n] == a + b[..n];
      RunAllAppend(st, id, a, b[..n]);
    }
  }

  function Reverse(s: seq<Entry>): (r: seq<Entry>)
    ensures |r| == |s| && forall i :: 0 <= i < |s| ==> r[i] == s[|s| - 1 - i]
  {
    seq(|s|, i requires 0 <= i < |s| => s[|s| - 1 - i])
  }

  lemma {:induction false} FilesAppend(a: seq<Entry>, b: seq<Entry>)
    ensures Files(a + b) == Files(a) + Files(b)
    decreases |b|
  {
    if b == [] {
      assert a + b == a;
    } else {
      var n := |b| - 1;
      assert (a + b)[..|a + b| - 1] == a + b[..n];
      assert (a + b)[|a + b| - 1] == b[n];
      calc {
        Files(a + b);
        Files(a + b[..n]) + (if b[n].isDirectory then [] else [b[n]]);
        { FilesAppend(a, b[..n]); }
        Files(a) + Files(b[..n]) + (if b[n].isDirectory then [] else [b[n]]);
        Files(a) + Files(b);
      }
    }
  }

  lemma {:induction false} DirectoriesAppend(a: seq<Entry>, b: seq<Entry>)
    ensures Directories(a + b) == Directories(a) + Directories(b)
    decreases |b|
  {
    if b == [] {
      assert a + b == a;
    } else {
      var n := |b| - 1;
      assert (a + b)[..|a + b| - 1] == a + b[..n];
      assert (a + b)[|a + b| - 1] == b[n];
      calc {
        Directories(a + b);
        Directories(a + b[..n]) + (if b[n].isDirectory then [b[n]] else []);
        { DirectoriesAppend(a, b[..n]); }
        Directories(a) + Directories(b[..n]) + (if b[n].isDirectory then [b[n]] else []);
        Directories(a) + Directories(b);
      }
    }
  }

  /** One more entry of a loop over `s` adds it to the files when it is one. */
  lemma FilesSnoc(s: seq<Entry>, i: nat)
    requires i < |s|
    ensures if s[i].isDirectory then Files(s[..i + 1]) == Files(s[..i])
      else Files(s[..i + 1]) == Files(s[..i]) + [s[i]]
  {
    assert s[..i + 1][..i] == s[..i];
  }

  lemma DirectoriesSnoc(s: seq<Entry>, i: nat)
    requires i < |s|
    ensures if s[i].isDirectory then Directories(s[..i + 1]) == Directories(s[..i]) + [s[i]]
      else Directories(s[..i + 1]) == Directories(s[..i])
  {
    assert s[..i + 1][..i] == s[..i];
  }

  /** The files of a prefix are a prefix of the files. */
  lemma FilesPrefix(s: seq<Entry>, i: nat)
    requires i <= |s|
    ensures |Files(s[..i])| <= |Files(s)| && Files(s)[..|Files(s[..i])|] == Files(s[..i])
  {
    FilesAppend(s[..i], s[i..]);
    assert s[..i] + s[i..] == s;
  }

  lemma DirectoriesPrefix(s: seq<Entry>, i: nat)
    requires i <= |s|
    ensures |Directories(s[..i])| <= |Directories(s)| && Directories(s)[..|Directories(s[..i])|] == Directories(s[..i])
  {
    DirectoriesAppend(s[..i], s[i..]);
    assert s[..i] + s[i..] == s;
  }

  /** Filtering the reversed accumulator for directories gives the
      directories in reverse discovery order. */
  lemma {:induction false} DirectoriesReversed(s: seq<Entry>)
    ensures Directories(Reverse(s)) == Reverse(Directories(s))
    decreases |s|
  {
    if s != [] {
      var n := |s| - 1;
      assert Reverse(s) == [s[n]] + Reverse(s[..n]);
      DirectoriesAppend([s[n]], Reverse(s[..n]));
      DirectoriesReversed(s[..n]);
      assert [s[n]][..0] == [];
    }
  }

  /** The delete call for an entry found by the traversal. */
  function Deletion(e: Entry): (r: Request)
  {
    if e.isDirectory then DeleteDirectory(e.fullName) else DeleteFile(e.fullName)
  }

  function FileDeletions(files: seq<Entry>): (r: seq<Request>)
    ensures |r| == |files|
  {
    seq(|files|, i requires 0 <= i < |files| => DeleteFile(files[i].fullName))
  }

  function DirectoryDeletions(dirs: seq<Entry>): (r: seq<Request>)
    ensures |r| == |dirs|
  {
    seq(|dirs|, i requires 0 <= i < |dirs| => DeleteDirectory(dirs[i].fullName))
  }

  /** DeleteEntireDirectoryAsync over the accumulated entries `acc`: delete
      every file in discovery order, then every directory of the reversed
      accumulator, that is every directory in reverse discovery order. */
  function DeletePlan(acc: seq<Entry>): (r: seq<Request>)
    ensures |r| == |Files(acc)| + |Directories(acc)|
    ensures forall i :: 0 <= i < |Files(acc)| ==> r[i] == DeleteFile(Files(acc)[i].fullName)
    ensures forall j :: |Files(acc)| <= j < |r| ==> r[j] == DeleteDirectory(Directories(acc)[|r| - 1 - j].fullName)
  {
    DirectoriesReversed(acc);
    FileDeletions(Files(acc)) + DirectoryDeletions(Directories(Reverse(acc)))
  }

  /** Every entry found is deleted, nothing else is, and every file is
      deleted before any directory. */
  lemma {:induction false} DeletePlanShape(acc: seq<Entry>)
    ensures forall e {:trigger e in acc} :: e in acc ==> Deletion(e) in DeletePlan(acc)
    ensures forall q {:trigger q in DeletePlan(acc)} :: q in DeletePlan(acc) ==> exists e :: e in acc && q == Deletion(e)
    ensures var r := DeletePlan(acc);
      forall i, j :: 0 <= i < |r| && 0 <= j < |r| && r[i].DeleteDirectory? && r[j].DeleteFile? ==> j < i
  {
    forall e | e in acc ensures Deletion(e) in DeletePlan(acc) {
      EntryDeleted(acc, e);
    }
    forall q | q in DeletePlan(acc) ensures exists e :: e in acc && q == Deletion(e) {
      var i :| 0 <= i < |DeletePlan(acc)| && DeletePlan(acc)[i] == q;
      var e := DeletedEntry(acc, i);
      assert e in acc && q == Deletion(e);
    }
    FilesDeletedFirst(acc);
  }

  /** Every file delete of the plan comes before every directory delete. */
  lemma FilesDeletedFirst(acc: seq<Entry>)
    ensures var r := DeletePlan(acc);
      forall i, j :: 0 <= i < |r| && 0 <= j < |r| && r[i].DeleteDirectory? && r[j].DeleteFile? ==> j < i
  {
    var head, tail := FileDeletions(Files(acc)), DirectoryDeletions(Directories(Reverse(acc)));
    assert DeletePlan(acc) == head + tail;
  }

  /** The delete of an entry found is in the plan. */
  lemma EntryDeleted(acc: seq<Entry>, e: Entry)
    requires e in acc
    ensures Deletion(e) in DeletePlan(acc)
  {
    var f, d := Files(acc), Directories(Reverse(acc));
    var head, tail := FileDeletions(f), DirectoryDeletions(d);
    assert DeletePlan(acc) == head + tail;
    if e.isDirectory {
      InReverse(acc, e);
      InDirectoryDeletions(d, e);
      assert Deletion(e) in tail;
    } else {
      var k :| 0 <= k < |f| && f[k] == e;
      assert head[k] == Deletion(e);
      assert Deletion(e) in head;
    }
  }

  /** Request `i` of the plan deletes an entry found. */
  lemma DeletedEntry(acc: seq<Entry>, i: nat) returns (e: Entry)
    requires i < |DeletePlan(acc)|
    ensures e in acc && DeletePlan(acc)[i] == Deletion(e)
  {
    var f, d := Files(acc), Directories(Reverse(acc));
    var head, tail := FileDeletions(f), DirectoryDeletions(d);
    assert DeletePlan(acc) == head + tail;
    if i < |f| {
      e := f[i];
      assert e in f && DeletePlan(acc)[i] == head[i];
    } else {
      e := d[i - |f|];
      assert e in d && DeletePlan(acc)[i] == tail[i - |f|];
      FromReverse(acc, e);
    }
  }

  /** Position `i` of a loop over `s`: the files before it are a prefix of
      the files of `s`, and a file at `i` is the next of them. */
  lemma FilesAt(s: seq<Entry>, i: nat)
    requires i < |s|
    ensures |Files(s[..i])| <= |Files(s[..i + 1])| <= |Files(s)|
    ensures if s[i].isDirectory then |Files(s[..i + 1])| == |Files(s[..i])|
      else |Files(s[..i + 1])| == |Files(s[..i])| + 1 && Files(s)[|Files(s[..i])|] == s[i]
  {
    FilesSnoc(s, i);
    FilesPrefix(s, i);
    FilesPrefix(s, i + 1);
    if !s[i].isDirectory {
      var m := |Files(s[..i])|;
      assert Files(s)[m] == Files(s[..i + 1])[m] == s[i];
    }
  }

  lemma DirectoriesAt(s: seq<Entry>, i: nat)
    requires i < |s|
    ensures |Directories(s[..i])| <= |Directories(s[..i + 1])| <= |Directories(s)|
    ensures if s[i].isDirectory then |Directories(s[..i + 1])| == |Directories(s[..i])| + 1 &&
        Directories(s)[|Directories(s[..i])|] == s[i]
      else |Directories(s[..i + 1])| == |Directories(s[..i])|
  {
    DirectoriesSnoc(s, i);
    DirectoriesPrefix(s, i);
    DirectoriesPrefix(s, i + 1);
    if s[i].isDirectory {
      var m := |Directories(s[..i])|;
      assert Directories(s)[m] == Directories(s[..i + 1])[m] == s[i];
    }
  }

  /** The directories of the reversed accumulator, split around the entry
      at `pos`: those after it in discovery order come first. */
  lemma ReversedDirectoriesAround(acc: seq<Entry>, pos: nat)
    requires pos < |acc| && acc[pos].isDirectory
    ensures Directories(Reverse(acc)) ==
      Directories(Reverse(acc[pos + 1..])) + [acc[pos]] + Directories(Reverse(acc[..pos]))
  {
    var before, after := acc[..pos], acc[pos + 1..];
    assert Reverse(acc) == Reverse(after) + [acc[pos]] + Reverse(before);
    DirectoriesAppend(Reverse(after) + [acc[pos]], Reverse(before));
    DirectoriesAppend(Reverse(after), [acc[pos]]);
    assert Directories([acc[pos]]) == [acc[pos]] by {
      assert [acc[pos]][..0] == [];
    }
  }

  /** Deepest first: given an accumulator in which every directory comes
      before the entries of its own listing, the deletion of each directory
      comes after the deletion of every entry that directory lists. */
  lemma DeletesDeepestFirst(fs: FileSystem, acc: seq<Entry>, pos: nat)
    requires ShallowFirst(fs, acc) && pos < |acc| && acc[pos].isDirectory
    ensures var plan := DeletePlan(acc);
      var a := |Files(acc)| + |Directories(Reverse(acc[pos + 1..]))|;
      a < |plan| && plan[a] == Deletion(acc[pos]) &&
      forall c {:trigger c in Level(fs, acc[pos].fullName)} :: c in Level(fs, acc[pos].fullName) ==> Deletion(c) in plan[..a]
  {
    var plan := DeletePlan(acc);
    var after := acc[pos + 1..];
    ReversedDirectoriesAround(acc, pos);
    var later := Directories(Reverse(after));
    var a := |Files(acc)| + |later|;
    var dirs := Directories(Reverse(acc));
    assert dirs[|later|] == acc[pos];
    assert plan[a] == DeleteDirectory(acc[pos].fullName);
    assert FollowedByLevel(fs, acc, pos);
    forall c {:trigger c in Level(fs, acc[pos].fullName)} | c in Level(fs, acc[pos].fullName) ensures Deletion(c) in plan[..a] {
      assert c in after;
      LaterDeletedBefore(acc, pos, c);
    }
  }

  /** An entry found after directory `acc[pos]` is deleted before it. */
  lemma LaterDeletedBefore(acc: seq<Entry>, pos: nat, c: Entry)
    requires pos < |acc| && acc[pos].isDirectory && c in acc[pos + 1..]
    ensures var a := |Files(acc)| + |Directories(Reverse(acc[pos + 1..]))|;
      a <= |DeletePlan(acc)| && Deletion(c) in DeletePlan(acc)[..a]
  {
    ReversedDirectoriesAround(acc, pos);
    if c.isDirectory {
      DeletedBefore(acc, pos, c);
    } else {
      var plan, f := DeletePlan(acc), Files(acc);
      var a := |f| + |Directories(Reverse(acc[pos + 1..]))|;
      assert c in acc;
      var k :| 0 <= k < |f| && f[k] == c;
      assert plan[..a][k] == plan[k] == DeleteFile(c.fullName);
    }
  }

  lemma InReverse(s: seq<Entry>, c: Entry)
    requires c in s
    ensures c in Reverse(s)
  {
    var j :| 0 <= j < |s| && s[j] == c;
    assert Reverse(s)[|s| - 1 - j] == c;
  }

  lemma DirectoryDeletionsAppend(a: seq<Entry>, b: seq<Entry>)
    ensures DirectoryDeletions(a + b) == DirectoryDeletions(a) + DirectoryDeletions(b)
  {
    var l, r := DirectoryDeletions(a + b), DirectoryDeletions(a) + DirectoryDeletions(b);
    forall i | 0 <= i < |l| ensures l[i] == r[i] {
      if i < |a| { assert (a + b)[i] == a[i]; } else { assert (a + b)[i] == b[i - |a|]; }
    }
  }

  lemma InDirectoryDeletions(ds: seq<Entry>, c: Entry)
    requires c in ds
    ensures DeleteDirectory(c.fullName) in DirectoryDeletions(ds)
  {
    var k :| 0 <= k < |ds| && ds[k] == c;
    assert DirectoryDeletions(ds)[k] == DeleteDirectory(c.fullName);
  }

  /** A directory found after position `pos` is deleted before the entry at
      `pos`. */
  lemma DeletedBefore(acc: seq<Entry>, pos: nat, c: Entry)
    requires pos < |acc| && acc[pos].isDirectory && c in acc[pos + 1..] && c.isDirectory
    ensures var a := |Files(acc)| + |Directories(Reverse(acc[pos + 1..]))|;
      a <= |DeletePlan(acc)| && DeleteDirectory(c.fullName) in DeletePlan(acc)[..a]
  {
    var after := acc[pos + 1..];
    ReversedDirectoriesAround(acc, pos);
    var f := Files(acc);
    var later := Directories(Reverse(after));
    var rest := [acc[pos]] + Directories(Reverse(acc[..pos]));
    assert Directories(Reverse(acc)) == later + rest;
    DirectoryDeletionsAppend(later, rest);
    InReverse(after, c);
    InDirectoryDeletions(later, c);
    var plan := DeletePlan(acc);
    var head := FileDeletions(f) + DirectoryDeletions(later);
    assert plan == head + DirectoryDeletions(rest);
    assert plan[..|head|] == head;
  }

  lemma FromReverse(s: seq<Entry>, c: Entry)
    requires c in Reverse(s)
    ensures c in s
  {
    var j :| 0 <= j < |s| && Reverse(s)[j] == c;
    assert s[|s| - 1 - j] == c;
  }

  lemma OnlyListedDirectoriesDeleted(dirs: seq<Entry>, files: seq<Entry>, path: string)
    requires forall d {:trigger d in dirs} :: d in dirs ==> d.fullName != path
    ensures DeleteDirectory(path) !in FileDeletions(files) + DirectoryDeletions(dirs)
  {
    var f, d := FileDeletions(files), DirectoryDeletions(dirs);
    forall i | 0 <= i < |f + d| ensures (f + d)[i] != DeleteDirectory(path) {
      if i >= |f| {
        assert (f + d)[i] == d[i - |f|];
        assert dirs[i - |f|] in dirs;
      }
    }
  }

  /** The delete plan of an accumulator in which no directory is named
      `path` never deletes the directory `path`. */
  lemma DeleteSparesPath(acc: seq<Entry>, path: string)
    requires forall e {:trigger e in acc} :: e in acc && e.isDirectory ==> e.fullName != path
    ensures DeleteDirectory(path) !in DeletePlan(acc)
  {
    var dirs := Directories(Reverse(acc));
    forall d {:trigger d in dirs} | d in dirs ensures d.fullName != path {
      FromReverse(acc, d);
    }
    OnlyListedDirectoriesDeleted(dirs, Files(acc), path);
  }

  /** MoveEntireDirectoryAsync over the accumulated entries `acc`: create
      each directory at its replaced path, then move each file to its
      replaced path. */
  function MovePlan(acc: seq<Entry>, src: string, dst: string): (r: seq<Request>)
    requires src != []
    ensures |r| == |Directories(acc)| + |Files(acc)|
    ensures forall i, j :: 0 <= i < |r| && 0 <= j < |r| && r[i].MoveFile? && r[j].CreateDirectory? ==> j < i
  {
    Creations(Directories(acc), src, dst) + Relocations(Files(acc), src, dst)
  }

  /** The create loop: one create per directory, in order.  Moving a tree
      onto itself asks to create every directory where it already is. */
  function Creations(dirs: seq<Entry>, src: string, dst: string): (r: seq<Request>)
    requires src != []
    ensures |r| == |dirs|
    ensures src == dst ==> forall i :: 0 <= i < |dirs| ==> r[i] == CreateDirectory(dirs[i].fullName)
  {
    seq(|dirs|, i requires 0 <= i < |dirs| => CreateDirectory(ReplaceAll(dirs[i].fullName, src, dst)))
  }

  /** The move loop: one move per file, in order, from its full name.
      Moving a tree onto itself asks to move every file onto itself. */
  function Relocations(files: seq<Entry>, src: string, dst: string): (r: seq<Request>)
    requires src != []
    ensures |r| == |files|
    ensures forall i :: 0 <= i < |files| ==> r[i].MoveFile? && r[i].source == files[i].fullName
    ensures src == dst ==> forall i :: 0 <= i < |files| ==> r[i] == MoveFile(files[i].fullName, files[i].fullName)
  {
    seq(|files|, i requires 0 <= i < |files| => MoveFile(files[i].fullName, ReplaceAll(files[i].fullName, src, dst)))
  }

  /** An entry whose full name is the source path followed by a remainder
      that does not contain the source path again is recreated, or moved,
      at the destination path followed by that remainder. */
  lemma MoveTargets(acc: seq<Entry>, src: string, dst: string, e: Entry, rest: string)
    requires src != [] && e in acc && e.fullName == src + rest && !Occurs(rest, src)
    ensures e.isDirectory ==> CreateDirectory(dst + rest) in MovePlan(acc, src, dst)
    ensures !e.isDirectory ==> MoveFile(e.fullName, dst + rest) in MovePlan(acc, src, dst)
  {
    ReplaceAllRebases(src, rest, dst);
    var plan := MovePlan(acc, src, dst);
    var dirs, files := Directories(acc), Files(acc);
    if e.isDirectory {
      var k :| 0 <= k < |dirs| && dirs[k] == e;
      assert plan[k] == CreateDirectory(dst + rest);
    } else {
      var k :| 0 <= k < |files| && files[k] == e;
      assert plan[|dirs| + k] == MoveFile(e.fullName, dst + rest);
    }
  }

  /** The trace of files whose download and callback both completed. */
  function Processed(id: nat, names: seq<string>): (r: seq<Op>)
    ensures |r| == 2 * |names|
  {
    if names == [] then []
    else
      var n := |names| - 1;
      Processed(id, names[..n]) + [Call(id, DownloadFile(names[n])), Callback(names[n])]
  }

  /** The state after a batch, whether it succeeded, and how many files were
      downloaded and handed to the callback. */
  datatype BatchRun = BatchRun(st: Store, ok: bool, done: nat)

  /** The loop of DownloadFilesAsync on session `id`: for each file in order,
      download it and then hand it to the callback; the callback throws for
      the positions in `callbackFails`; the first exception ends the batch. */
  function Batch(st: Store, id: nat, names: seq<string>, callbackFails: set<nat>): (r: BatchRun)
    ensures r.st.fs == st.fs && r.st.faults == st.faults && r.st.refused == st.refused
    ensures r.st.open == st.open && r.st.sessions == st.sessions
    ensures r.done <= |names| && (r.ok <==> r.done == |names|)
  {
    if names == [] then BatchRun(st, true, 0)
    else
      var n := |names| - 1;
      var prev := Batch(st, id, names[..n], callbackFails);
      if !prev.ok then prev
      else
        var req := DownloadFile(names[n]);
        var downloaded := prev.st.Perform(id, req);
        if !prev.st.Succeeds(id, req) then BatchRun(downloaded, false, n)
        else
          var called := downloaded.(trace := downloaded.trace + [Callback(names[n])]);
          if n in callbackFails then BatchRun(called, false, n)
          else BatchRun(called, true, n + 1)
  }

  /** A complete batch downloads each file and then hands it to the
      callback, in order; a failed one does so for the files before the
      one that failed, whose download was sent and whose callback may have
      run. */
  lemma {:induction false} BatchTrace(st: Store, id: nat, names: seq<string>, callbackFails: set<nat>)
    ensures var r := Batch(st, id, names, callbackFails);
      (r.ok ==> r.st.trace == st.trace + Processed(id, names)) &&
      (!r.ok ==>
        var failed := st.trace + Processed(id, names[..r.done]) + [Call(id, DownloadFile(names[r.done]))];
        r.st.trace == failed || r.st.trace == failed + [Callback(names[r.done])])
    decreases |names|
  {
    if names != [] {
      var n := |names| - 1;
      BatchTrace(st, id, names[..n], callbackFails);
      var prev := Batch(st, id, names[..n], callbackFails);
      if !prev.ok {
        assert names[..n][..prev.done] == names[..prev.done];
      } else {
        assert names[..n] == names[..n][..prev.done];
        assert names[..n + 1] == names;
        var done := st.trace + Processed(id, names[..n]);
        assert done + [Call(id, DownloadFile(names[n]))] + [Callback(names[n])] == st.trace + Processed(id, names);
      }
    }
  }

  /** On an open session where no download throws and the callback never
      does, the whole batch completes: every file is downloaded and then
      handed to the callback, in order. */
  lemma {:induction false} BatchFaultFree(st: Store, id: nat, names: seq<string>)
    requires st.faults == {} && id in st.open
    ensures Batch(st, id, names, {}).ok
    ensures Batch(st, id, names, {}).st.trace == st.trace + Processed(id, names)
    decreases |names|
  {
    if names != [] {
      BatchFaultFree(st, id, names[..|names| - 1]);
    }
    BatchTrace(st, id, names, {});
  }

  /** Running one more file of the batch after the first `i` succeeded. */
  lemma {:induction false} BatchStep(st: Store, id: nat, names: seq<string>, callbackFails: set<nat>, i: nat)
    requires i < |names| && Batch(st, id, names[..i], callbackFails).ok
    ensures var prev := Batch(st, id, names[..i], callbackFails).st;
      var req := DownloadFile(names[i]);
      var downloaded := prev.Perform(id, req);
      var called := downloaded.(trace := downloaded.trace + [Callback(names[i])]);
      Batch(st, id, names[..i + 1], callbackFails) ==
        if !prev.Succeeds(id, req) then BatchRun(downloaded, false, i)
        else BatchRun(called, i !in callbackFails, if i in callbackFails then i else i + 1)
  {
    assert names[..i + 1][..i] == names[..i];
  }

  /** Once a file has failed, the rest of the batch changes nothing. */
  lemma {:induction false} BatchStops(st: Store, id: nat, names: seq<string>, callbackFails: set<nat>, i: nat)
    requires i <= |names| && !Batch(st, id, names[..i], callbackFails).ok
    ensures Batch(st, id, names, callbackFails) == Batch(st, id, names[..i], callbackFails)
    decreases |names| - i
  {
    if i < |names| {
      assert names[..|names| - 1][..i] == names[..i];
      BatchStops(st, id, names[..|names| - 1], callbackFails, i);
    } else {
      assert names[..i] == names;
    }
  }
}

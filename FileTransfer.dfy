/** The transfer class: its accumulator `_filesFound` is a field that the
    recursive listings append to and the directory operations clear, the
    server is the state every client it opens talks to, and each public
    operation is a method proved to do what `Operations` says it does. */
module FileTransfer {
  import opened Remote
  import opened Discovery
  import opened Traversal
  import opened Plans
  import opened Paths
  import opened Operations

  /** The buffer a download fills and an upload reads; only its read
      position is modelled. */
  class MemoryStream {
    var position: nat

    constructor ()
      ensures position == 0
    {
      position := 0;
    }
  }

  /** A file or directory found on the server, and the buffer it was last
      downloaded into. */
  class FileTransferObject {
    const name: string
    const fullName: string
    const isDirectory: bool
    var fileData: MemoryStream?

    /** The object made from one entry of a listing. */
    constructor (e: Entry)
      ensures name == e.name && fullName == e.fullName && isDirectory == e.isDirectory
      ensures fileData == null
    {
      name, fullName, isDirectory := e.name, e.fullName, e.isDirectory;
      fileData := null;
    }
  }

  /** The entry an object stands for; its fields never change. */
  function Record(o: FileTransferObject): (r: Entry)
  {
    Entry(o.name, o.fullName, o.isDirectory)
  }

  function Records(s: seq<FileTransferObject>): (r: seq<Entry>)
    ensures |r| == |s| && forall i :: 0 <= i < |s| ==> r[i] == Record(s[i])
  {
    seq(|s|, i requires 0 <= i < |s| => Record(s[i]))
  }

  lemma RecordsAppend(a: seq<FileTransferObject>, b: seq<FileTransferObject>)
    ensures Records(a + b) == Records(a) + Records(b)
  {
    var l, r := Records(a + b), Records(a) + Records(b);
    forall i | 0 <= i < |l| ensures l[i] == r[i] {
      if i < |a| { assert (a + b)[i] == a[i]; } else { assert (a + b)[i] == b[i - |a|]; }
    }
  }

  /** A proof step only: regrouping what was appended, so that the loops
      below can match a level's additions against the specification. */
  lemma AppendAssoc(head: seq<Entry>, a: seq<Entry>, b: seq<Entry>)
    ensures head + a + b == head + (a + b)
  {
  }

  /** `Where(x => !x.IsDirectory)` over objects. */
  function FilesOf(s: seq<FileTransferObject>): (r: seq<FileTransferObject>)
    ensures Records(r) == Files(Records(s))
  {
    if s == [] then []
    else
      var n := |s| - 1;
      var last := if s[n].isDirectory then [] else [s[n]];
      RecordsAppend(FilesOf(s[..n]), last);
      assert Records(s)[..n] == Records(s[..n]);
      FilesOf(s[..n]) + last
  }

  /** `Reverse()` over objects. */
  function ReversedObjects(s: seq<FileTransferObject>): (r: seq<FileTransferObject>)
    ensures Records(r) == Reverse(Records(s))
  {
    seq(|s|, i requires 0 <= i < |s| => s[|s| - 1 - i])
  }

  /** The names of the files of a batch, in order. */
  function Names(files: seq<FileTransferObject>): (r: seq<string>)
    ensures |r| == |files| && forall i :: 0 <= i < |files| ==> r[i] == files[i].name
  {
    seq(|files|, i requires 0 <= i < |files| => files[i].name)
  }

  /** The result of a listing, as the entries its objects stand for. */
  function Shown(r: Result<Option<seq<FileTransferObject>>>): Result<Option<seq<Entry>>>
  {
    match r
    case Raised => Raised
    case Value(None) => Value(None)
    case Value(Some(objs)) => Value(Some(Records(objs)))
  }

  /** `Select(file => new FileTransferObject(file))`: a new object per entry. */
  method NewObjects(es: seq<Entry>) returns (objs: seq<FileTransferObject>)
    ensures Records(objs) == es
    ensures forall o :: o in objs ==> fresh(o)
  {
    objs := [];
    for i := 0 to |es|
      invariant Records(objs) == es[..i]
      invariant forall o :: o in objs ==> fresh(o)
    {
      var o := new FileTransferObject(es[i]);
      RecordsAppend(objs, [o]);
      assert es[..i + 1] == es[..i] + [es[i]];
      objs := objs + [o];
    }
  }

  /** `after` begins with the objects of `before`, and every object it
      holds beyond them is new. */
  twostate predicate Kept(before: seq<FileTransferObject>, new after: seq<FileTransferObject>)
  {
    |before| <= |after| && after[..|before|] == before &&
    forall i :: |before| <= i < |after| ==> fresh(after[i])
  }

  class SftpFileTransfer {
    /** The server, as every client this object opens sees it. */
    var remote: Store
    /** `_filesFound`: the entries found by the recursive listings. */
    var filesFound: seq<FileTransferObject>

    constructor (server: Store)
      ensures remote == server && filesFound == []
    {
      remote := server;
      filesFound := [];
    }

    /** Appends a new object for `e` to the accumulator; the objects already
        in it stay where they are. */
    method Add(e: Entry)
      modifies this
      ensures remote == old(remote)
      ensures Records(filesFound) == Records(old(filesFound)) + [e]
      ensures filesFound[..|old(filesFound)|] == old(filesFound) && fresh(filesFound[|old(filesFound)|])
    {
      var o := new FileTransferObject(e);
      RecordsAppend(filesFound, [o]);
      filesFound := filesFound + [o];
    }

    /** The first loop of a level of either traversal: append the files
        of the listing, in order. */
    method AppendFiles(level: seq<Entry>)
      modifies this
      ensures remote == old(remote)
      ensures Records(filesFound) == Records(old(filesFound)) + Files(level)
      ensures Kept(old(filesFound), filesFound)
    {
      ghost var base := Records(filesFound);
      for i := 0 to |level|
        invariant remote == old(remote)
        invariant Records(filesFound) == base + Files(level[..i])
        invariant Kept(old(filesFound), filesFound)
      {
        FilesSnoc(level, i);
        if !level[i].isDirectory {
          Add(level[i]);
        }
      }
      assert level[..|level|] == level;
    }

    /** The second loop: append the directories of the listing other than
        "." and "..", in order. */
    method AppendSubdirs(level: seq<Entry>)
      modifies this
      ensures remote == old(remote)
      ensures Records(filesFound) == Records(old(filesFound)) + Subdirs(level)
      ensures Kept(old(filesFound), filesFound)
    {
      ghost var base := Records(filesFound);
      for i := 0 to |level|
        invariant remote == old(remote)
        invariant Records(filesFound) == base + Subdirs(level[..i])
        invariant Kept(old(filesFound), filesFound)
      {
        SubdirsSnoc(level, i);
        if level[i].name != "." && level[i].name != ".." && level[i].isDirectory {
          Add(level[i]);
        }
      }
      assert level[..|level|] == level;
    }

    /** The first two loops of a level of either traversal: the files of the
        listing, then its directories other than "." and "..". */
    method AppendLevel(level: seq<Entry>)
      modifies this
      ensures remote == old(remote)
      ensures Records(filesFound) == Records(old(filesFound)) + (Files(level) + Subdirs(level))
      ensures Kept(old(filesFound), filesFound)
    {
      ghost var base := Records(filesFound);
      AppendFiles(level);
      AppendSubdirs(level);
      AppendAssoc(base, Files(level), Subdirs(level));
    }

    /** GetDirectoryListingAsync. */
    method GetDirectoryListing(remoteDirectoryPath: string, excludeDirectories: bool)
      returns (r: Result<Option<seq<FileTransferObject>>>)
      modifies this
      ensures filesFound == old(filesFound)
      ensures var spec := ListOnce(old(remote), remoteDirectoryPath, excludeDirectories);
        remote == spec.st && Shown(r) == spec.result
    {
      var id := remote.sessions;
      var level := remote.fs.Visible(remoteDirectoryPath);
      remote := remote.Connect();
      if id !in remote.open {
        remote := remote.Dispose(id);
        return Raised;
      }
      var req := ListDirectory(remoteDirectoryPath);
      var ok := remote.Succeeds(id, req);
      remote := remote.Perform(id, req);
      if !ok {
        remote := remote.DisconnectIfOpen(id);
        remote := remote.Dispose(id);
        return Value(None);
      }
      var listing := NewObjects(level);
      remote := remote.Disconnect(id);
      var shown := if excludeDirectories then FilesOf(listing) else listing;
      remote := remote.Dispose(id);
      return Value(Some(shown));
    }

    /** GetAllDirectoryListingsAsync: a client of its own for this level;
        append the files, then the subdirectories, then list each
        subdirectory recursively.  A failed listing is caught and gives
        null; a refused connection below makes this level fail too, since
        the awaited task rethrows. */
    method GetAllDirectoryListings(remoteDirectoryPath: string, excludeDirectories: bool)
      returns (r: Result<Option<seq<FileTransferObject>>>)
      requires remote.fs.Valid()
      modifies this
      decreases remote.fs.Rank(remoteDirectoryPath), 1
      ensures var crawl := Crawl(old(remote), remoteDirectoryPath);
        remote == crawl.st &&
        Records(filesFound) == Records(old(filesFound)) + crawl.added &&
        (r == Raised <==> crawl.outcome == Threw) &&
        (r == Value(None) <==> crawl.outcome == Null) &&
        (r.Value? && r.value.Some? ==>
           r.value.value == if excludeDirectories then FilesOf(filesFound) else filesFound)
    {
      var path := remoteDirectoryPath;
      ghost var st0 := remote;
      var level := remote.fs.Visible(path);
      var id := remote.sessions;
      remote := remote.Connect();
      if id !in remote.open {
        remote := remote.Dispose(id);
        return Raised;
      }
      var req := ListDirectory(path);
      var ok := remote.Succeeds(id, req);
      remote := remote.Perform(id, req);
      if !ok {
        remote := remote.DisconnectIfOpen(id);
        remote := remote.Dispose(id);
        return Value(None);
      }
      SubdirsBelow(st0.fs, path);
      ghost var base, listed := Records(filesFound), remote;
      AppendLevel(level);
      var threw := ListSubfolders(level, path);
      AppendAssoc(base, Files(level) + Subdirs(level), CrawlEach(listed, Subdirs(level), path).added);
      if threw {
        remote := remote.DisconnectIfOpen(id);
        remote := remote.Dispose(id);
        return Value(None);
      }
      remote := remote.Dispose(id);
      return Value(Some(if excludeDirectories then FilesOf(filesFound) else filesFound));
    }

    /** The third loop of GetAllDirectoryListingsAsync: list each
        subdirectory of `level` in turn, stopping at the first whose
        connection is refused. */
    method ListSubfolders(level: seq<Entry>, path: string) returns (threw: bool)
      requires remote.fs.Valid()
      requires forall d {:trigger d in Subdirs(level)} :: d in Subdirs(level) ==> remote.fs.Rank(d.fullName) < remote.fs.Rank(path)
      modifies this
      decreases remote.fs.Rank(path), 0
      ensures var each := CrawlEach(old(remote), Subdirs(level), path);
        remote == each.st &&
        Records(filesFound) == Records(old(filesFound)) + each.added &&
        (threw <==> each.outcome == Threw)
    {
      ghost var st0 := remote;
      ghost var base := Records(filesFound);
      for i := 0 to |level|
        invariant forall d {:trigger d in Subdirs(level[..i])} :: d in Subdirs(level[..i]) ==> d in Subdirs(level)
        invariant var each := CrawlEach(st0, Subdirs(level[..i]), path);
          remote == each.st && each.outcome == Returned &&
          Records(filesFound) == base + each.added
      {
        ghost var prev := CrawlEach(st0, Subdirs(level[..i]), path);
        CrawlEachStep(st0, level, i, path);
        var subfolder := level[i];
        if subfolder.name != "." && subfolder.name != ".." && subfolder.isDirectory {
          assert subfolder in Subdirs(level);
          var inner := GetAllDirectoryListings(subfolder.fullName, false);
          AppendAssoc(base, prev.added, Crawl(prev.st, subfolder.fullName).added);
          if inner == Raised {
            CrawlEachStopsAt(st0, level, i, path);
            return true;
          }
        }
      }
      assert level[..|level|] == level;
      return false;
    }

    /** FindAllFilesToMove: the same traversal over the caller's session
        `id`; a failed listing disconnects that session and returns null,
        and what a recursive call returns is discarded. */
    method FindAllFilesToMove(id: nat, remoteDirectoryPath: string, excludeDirectories: bool)
      returns (r: Option<seq<FileTransferObject>>)
      requires remote.fs.Valid()
      modifies this
      decreases remote.fs.Rank(remoteDirectoryPath), 1
      ensures var found := Gather(old(remote), id, remoteDirectoryPath);
        remote == found.st &&
        Records(filesFound) == Records(old(filesFound)) + found.added &&
        (r.Some? <==> found.outcome == Returned) &&
        (r.Some? ==> r.value == if excludeDirectories then FilesOf(filesFound) else filesFound)
    {
      var path := remoteDirectoryPath;
      ghost var st0 := remote;
      var level := remote.fs.Visible(path);
      var req := ListDirectory(path);
      var ok := remote.Succeeds(id, req);
      remote := remote.Perform(id, req);
      if !ok {
        remote := remote.DisconnectIfOpen(id);
        return None;
      }
      SubdirsBelow(st0.fs, path);
      ghost var base, listed := Records(filesFound), remote;
      AppendLevel(level);
      FindInSubfolders(id, level, path);
      AppendAssoc(base, Files(level) + Subdirs(level), GatherEach(listed, id, Subdirs(level), path).added);
      return Some(if excludeDirectories then FilesOf(filesFound) else filesFound);
    }

    /** The third loop of FindAllFilesToMove: search each subdirectory of
        `level` in turn over session `id`. */
    method FindInSubfolders(id: nat, level: seq<Entry>, path: string)
      requires remote.fs.Valid()
      requires forall d {:trigger d in Subdirs(level)} :: d in Subdirs(level) ==> remote.fs.Rank(d.fullName) < remote.fs.Rank(path)
      modifies this
      decreases remote.fs.Rank(path), 0
      ensures var each := GatherEach(old(remote), id, Subdirs(level), path);
        remote == each.st &&
        Records(filesFound) == Records(old(filesFound)) + each.added
    {
      ghost var st0 := remote;
      ghost var base := Records(filesFound);
      for i := 0 to |level|
        invariant forall d {:trigger d in Subdirs(level[..i])} :: d in Subdirs(level[..i]) ==> d in Subdirs(level)
        invariant var each := GatherEach(st0, id, Subdirs(level[..i]), path);
          remote == each.st &&
          Records(filesFound) == base + each.added
      {
        ghost var prev := GatherEach(st0, id, Subdirs(level[..i]), path);
        GatherEachStep(st0, id, level, i, path);
        var subfolder := level[i];
        if subfolder.name != "." && subfolder.name != ".." && subfolder.isDirectory {
          assert subfolder in Subdirs(level);
          var _ := FindAllFilesToMove(id, subfolder.fullName, false);
          AppendAssoc(base, prev.added, Gather(prev.st, id, subfolder.fullName).added);
        }
      }
      assert level[..|level|] == level;
    }

    /** One call of a run over session `id`: `req` is call `m` of `plan`,
        sent after the first `m` returned; if it throws, the run ends here. */
    method SendNext(id: nat, req: Request, ghost st0: Store, ghost plan: seq<Request>, ghost m: nat) returns (ok: bool)
      requires m < |plan| && plan[m] == req && RunAll(st0, id, plan[..m]) == Attempt(remote, true)
      modifies this
      ensures filesFound == old(filesFound)
      ensures RunAll(st0, id, plan[..m + 1]) == Attempt(remote, ok)
      ensures !ok ==> RunAll(st0, id, plan) == Attempt(remote, false)
    {
      RunAllStep(st0, id, plan, m);
      ok := remote.Succeeds(id, req);
      remote := remote.Perform(id, req);
      if !ok {
        RunAllStopsAt(st0, id, plan, m);
      }
    }

    /** The first loop of DeleteEntireDirectoryAsync: delete every file of
        `found` in order; the first delete that throws ends the run. */
    method DeleteFiles(id: nat, found: seq<FileTransferObject>) returns (ok: bool)
      modifies this
      ensures filesFound == old(filesFound)
      ensures var run := RunAll(old(remote), id, FileDeletions(Files(Records(found))));
        remote == run.st && ok == run.ok
    {
      ghost var st0 := remote;
      ghost var acc := Records(found);
      ghost var plan := FileDeletions(Files(acc));
      ghost var m := 0;
      for i := 0 to |found|
        invariant m == |Files(acc[..i])| && m <= |plan|
        invariant RunAll(st0, id, plan[..m]) == Attempt(remote, true)
        invariant filesFound == old(filesFound)
      {
        FilesAt(acc, i);
        var file := found[i];
        assert Record(file) == acc[i];
        if !file.isDirectory {
          ok := SendNext(id, Request.DeleteFile(file.fullName), st0, plan, m);
          if !ok {
            return;
          }
          m := m + 1;
        }
      }
      assert acc[..|found|] == acc;
      assert plan[..m] == plan;
      return true;
    }

    /** The second loop of DeleteEntireDirectoryAsync, over the reversed
        accumulator: delete every directory of `found` in order. */
    method DeleteDirectories(id: nat, found: seq<FileTransferObject>) returns (ok: bool)
      modifies this
      ensures filesFound == old(filesFound)
      ensures var run := RunAll(old(remote), id, DirectoryDeletions(Directories(Records(found))));
        remote == run.st && ok == run.ok
    {
      ghost var st0 := remote;
      ghost var acc := Records(found);
      ghost var plan := DirectoryDeletions(Directories(acc));
      ghost var m := 0;
      for i := 0 to |found|
        invariant m == |Directories(acc[..i])| && m <= |plan|
        invariant RunAll(st0, id, plan[..m]) == Attempt(remote, true)
        invariant filesFound == old(filesFound)
      {
        DirectoriesAt(acc, i);
        var folder := found[i];
        assert Record(folder) == acc[i];
        if folder.isDirectory {
          ok := SendNext(id, DeleteDirectory(folder.fullName), st0, plan, m);
          if !ok {
            return;
          }
          m := m + 1;
        }
      }
      assert acc[..|found|] == acc;
      assert plan[..m] == plan;
      return true;
    }

    /** The two delete loops of DeleteEntireDirectoryAsync over session
        `id`: every file of `found` in order, then every directory of the
        reversed `found`; the first delete that throws ends the run. */
    method RunDeletes(id: nat, found: seq<FileTransferObject>) returns (ok: bool)
      modifies this
      ensures filesFound == old(filesFound)
      ensures var run := RunAll(old(remote), id, DeletePlan(Records(found)));
        remote == run.st && ok == run.ok
    {
      ghost var acc := Records(found);
      RunAllAppend(remote, id, FileDeletions(Files(acc)), DirectoryDeletions(Directories(Reverse(acc))));
      ok := DeleteFiles(id, found);
      if ok {
        var reversed := ReversedObjects(found);
        ok := DeleteDirectories(id, reversed);
      }
    }

    /** DeleteEntireDirectoryAsync: connect (outside the `try`), list the
        tree with GetAllDirectoryListingsAsync, delete what the accumulator
        holds, and clear it only when every delete returned. */
    method DeleteEntireDirectory(targetPath: string) returns (r: Result<bool>)
      requires remote.fs.Valid()
      modifies this
      ensures var spec := DeleteEntire(old(remote), Records(old(filesFound)), targetPath);
        remote == spec.st && Records(filesFound) == spec.acc && r == spec.result
    {
      var id := remote.sessions;
      remote := remote.Connect();
      if id !in remote.open {
        remote := remote.Dispose(id);
        return Raised;
      }
      var listing := GetAllDirectoryListings(targetPath, false);
      if !(listing.Value? && listing.value.Some?) {
        remote := remote.DisconnectIfOpen(id);
        remote := remote.Dispose(id);
        return Value(false);
      }
      var ok := RunDeletes(id, listing.value.value);
      if !ok {
        remote := remote.DisconnectIfOpen(id);
        remote := remote.Dispose(id);
        return Value(false);
      }
      filesFound := [];
      remote := remote.Disconnect(id);
      remote := remote.Dispose(id);
      return Value(true);
    }

    /** The first loop of MoveEntireDirectoryAsync: create every directory
        of `found`, in order, at its path with `src` replaced by `dst`. */
    method CreateDirectories(id: nat, found: seq<FileTransferObject>, src: string, dst: string) returns (ok: bool)
      requires src != []
      modifies this
      ensures filesFound == old(filesFound)
      ensures var run := RunAll(old(remote), id, Creations(Directories(Records(found)), src, dst));
        remote == run.st && ok == run.ok
    {
      ghost var st0 := remote;
      ghost var acc := Records(found);
      ghost var plan := Creations(Directories(acc), src, dst);
      ghost var m := 0;
      for i := 0 to |found|
        invariant m == |Directories(acc[..i])| && m <= |plan|
        invariant RunAll(st0, id, plan[..m]) == Attempt(remote, true)
        invariant filesFound == old(filesFound)
      {
        DirectoriesAt(acc, i);
        var folder := found[i];
        assert Record(folder) == acc[i];
        if folder.isDirectory {
          ok := SendNext(id, CreateDirectory(ReplaceAll(folder.fullName, src, dst)), st0, plan, m);
          if !ok {
            return;
          }
          m := m + 1;
        }
      }
      assert acc[..|found|] == acc;
      assert plan[..m] == plan;
      return true;
    }

    /** The second loop of MoveEntireDirectoryAsync: move every file of
        `found`, in order, to its path with `src` replaced by `dst`. */
    method MoveFiles(id: nat, found: seq<FileTransferObject>, src: string, dst: string) returns (ok: bool)
      requires src != []
      modifies this
      ensures filesFound == old(filesFound)
      ensures var run := RunAll(old(remote), id, Relocations(Files(Records(found)), src, dst));
        remote == run.st && ok == run.ok
    {
      ghost var st0 := remote;
      ghost var acc := Records(found);
      ghost var plan := Relocations(Files(acc), src, dst);
      ghost var m := 0;
      for i := 0 to |found|
        invariant m == |Files(acc[..i])| && m <= |plan|
        invariant RunAll(st0, id, plan[..m]) == Attempt(remote, true)
        invariant filesFound == old(filesFound)
      {
        FilesAt(acc, i);
        var file := found[i];
        assert Record(file) == acc[i];
        if !file.isDirectory {
          ok := SendNext(id, MoveFile(file.fullName, ReplaceAll(file.fullName, src, dst)), st0, plan, m);
          if !ok {
            return;
          }
          m := m + 1;
        }
      }
      assert acc[..|found|] == acc;
      assert plan[..m] == plan;
      return true;
    }

    /** The two loops of MoveEntireDirectoryAsync over session `id`: create
        every directory of `found` at its replaced path, then move every
        file of `found` to its replaced path. */
    method RunMoves(id: nat, found: seq<FileTransferObject>, src: string, dst: string) returns (ok: bool)
      requires src != []
      modifies this
      ensures filesFound == old(filesFound)
      ensures var run := RunAll(old(remote), id, MovePlan(Records(found), src, dst));
        remote == run.st && ok == run.ok
    {
      ghost var acc := Records(found);
      RunAllAppend(remote, id, Creations(Directories(acc), src, dst), Relocations(Files(acc), src, dst));
      ok := CreateDirectories(id, found, src, dst);
      if ok {
        ok := MoveFiles(id, found, src, dst);
      }
    }

    /** MoveEntireDirectoryAsync: connect (outside the `try`), collect the
        tree over that session, recreate it under `dst`, clear the
        accumulator and delete the source tree.  `Replace` with an empty
        `src` throws at the first entry it is applied to, before any call
        is sent. */
    method MoveEntireDirectory(src: string, dst: string) returns (r: Result<bool>)
      requires remote.fs.Valid()
      modifies this
      ensures var spec := MoveEntire(old(remote), Records(old(filesFound)), src, dst);
        remote == spec.st && Records(filesFound) == spec.acc && r == spec.result
    {
      var id := remote.sessions;
      remote := remote.Connect();
      if id !in remote.open {
        remote := remote.Dispose(id);
        return Raised;
      }
      var listing := FindAllFilesToMove(id, src, false);
      if listing.None? || (src == [] && filesFound != []) {
        filesFound := [];
        remote := remote.DisconnectIfOpen(id);
        remote := remote.Dispose(id);
        return Value(false);
      }
      if filesFound != [] {
        var ok := RunMoves(id, listing.value, src, dst);
        if !ok {
          filesFound := [];
          remote := remote.DisconnectIfOpen(id);
          remote := remote.Dispose(id);
          return Value(false);
        }
      }
      filesFound := [];
      var cleanup := DeleteEntireDirectory(src);
      if cleanup == Raised {
        filesFound := [];
        remote := remote.DisconnectIfOpen(id);
        remote := remote.Dispose(id);
        return Value(false);
      }
      remote := remote.Disconnect(id);
      remote := remote.Dispose(id);
      return Value(true);
    }

    /** The start of every single-client operation: connect, then change
        into `path` unless it is blank; both happen outside the `try`. */
    method Open(path: string) returns (id: nat, ready: bool)
      modifies this
      ensures filesFound == old(filesFound) && id == old(remote).sessions
      ensures var p := Prepare(old(remote), path);
        remote == p.st && ready == p.ok
    {
      id := remote.sessions;
      remote := remote.Connect();
      if id !in remote.open {
        return id, false;
      }
      ready := true;
      if !IsBlank(path) {
        var req := ChangeDirectory(path);
        ready := remote.Succeeds(id, req);
        remote := remote.Perform(id, req);
      }
    }

    /** DownloadFileAsync: a new buffer is attached to `file` inside the
        `try`, and the file is downloaded into it. */
    method DownloadFile(remoteDirectoryPath: string, file: FileTransferObject) returns (r: Result<bool>)
      modifies this, file
      ensures filesFound == old(filesFound)
      ensures var spec := Transfer(old(remote), remoteDirectoryPath, Some(Request.DownloadFile(file.name)));
        remote == spec.st && r == spec.result
      ensures if Prepare(old(remote), remoteDirectoryPath).ok then file.fileData != null && fresh(file.fileData)
        else file.fileData == old(file.fileData)
    {
      var id, ready := Open(remoteDirectoryPath);
      if !ready {
        remote := remote.Dispose(id);
        return Raised;
      }
      file.fileData := new MemoryStream();
      var req := Request.DownloadFile(file.name);
      var ok := remote.Succeeds(id, req);
      remote := remote.Perform(id, req);
      if ok {
        remote := remote.Disconnect(id);
      } else {
        remote := remote.DisconnectIfOpen(id);
      }
      remote := remote.Dispose(id);
      return Value(ok);
    }

    /** One file of DownloadFilesAsync: a new buffer is attached to `file`,
        the file is downloaded into it and then handed to the callback;
        `names[i]` is its name and the `i` files before it succeeded. */
    method DownloadNext(id: nat, file: FileTransferObject, i: nat, ghost st1: Store, ghost names: seq<string>, callbackFails: set<nat>)
      returns (ok: bool)
      requires i < |names| && names[i] == file.name
      requires Batch(st1, id, names[..i], callbackFails) == BatchRun(remote, true, i)
      modifies this, file
      ensures filesFound == old(filesFound)
      ensures file.fileData != null && fresh(file.fileData)
      ensures ok ==> Batch(st1, id, names[..i + 1], callbackFails) == BatchRun(remote, true, i + 1)
      ensures !ok ==> Batch(st1, id, names, callbackFails) == BatchRun(remote, false, i)
    {
      BatchStep(st1, id, names, callbackFails, i);
      file.fileData := new MemoryStream();
      var req := Request.DownloadFile(file.name);
      ok := remote.Succeeds(id, req);
      remote := remote.Perform(id, req);
      if ok {
        remote := remote.(trace := remote.trace + [Callback(file.name)]);
        ok := i !in callbackFails;
      }
      if !ok {
        BatchStops(st1, id, names, callbackFails, i + 1);
      }
    }

    /** The loop of DownloadFilesAsync over session `id`: the files up to
        and including the one that failed have a new buffer each, and the
        others keep theirs. */
    method DownloadEach(id: nat, files: seq<FileTransferObject>, callbackFails: set<nat>) returns (ok: bool)
      modifies this, files
      ensures filesFound == old(filesFound)
      ensures var b := Batch(old(remote), id, Names(files), callbackFails);
        var n := if b.ok then |files| else b.done + 1;
        remote == b.st && ok == b.ok &&
        forall o :: o in files ==>
          if o in files[..n] then o.fileData != null && fresh(o.fileData) else o.fileData == old(o.fileData)
    {
      ghost var st1 := remote;
      ghost var names := Names(files);
      for i := 0 to |files|
        invariant Batch(st1, id, names[..i], callbackFails) == BatchRun(remote, true, i)
        invariant filesFound == old(filesFound)
        invariant forall o :: o in files ==>
          if o in files[..i] then o.fileData != null && fresh(o.fileData) else o.fileData == old(o.fileData)
      {
        ok := DownloadNext(id, files[i], i, st1, names, callbackFails);
        forall o | o in files
          ensures o in files[..i + 1] <==> o in files[..i] || o == files[i]
        {
          assert files[..i + 1] == files[..i] + [files[i]];
        }
        if !ok {
          return;
        }
      }
      assert names[..|files|] == names;
      return true;
    }

    /** DownloadFilesAsync: for each file in order, attach a new buffer,
        download into it and hand the file to the callback, which throws
        for the positions in `callbackFails`.  The first exception
        disconnects and returns false. */
    method DownloadFiles(remoteDirectoryPath: string, files: seq<FileTransferObject>, callbackFails: set<nat>)
      returns (r: Result<bool>)
      modifies this, files
      ensures filesFound == old(filesFound)
      ensures var spec := DownloadAll(old(remote), remoteDirectoryPath, Names(files), callbackFails);
        remote == spec.st && r == spec.result &&
        (forall k :: 0 <= k < spec.attempted ==> files[k].fileData != null && fresh(files[k].fileData)) &&
        (forall o :: o in files && o !in files[..spec.attempted] ==> o.fileData == old(o.fileData))
    {
      var id, ready := Open(remoteDirectoryPath);
      if !ready {
        remote := remote.Dispose(id);
        return Raised;
      }
      var ok := DownloadEach(id, files, callbackFails);
      if !ok {
        remote := remote.DisconnectIfOpen(id);
        remote := remote.Dispose(id);
        return Value(false);
      }
      remote := remote.Disconnect(id);
      remote := remote.Dispose(id);
      return Value(true);
    }

    /** UploadFileAsync: rewind the file's buffer and upload it from the
        start; with no buffer attached, the rewind throws inside the `try`
        and nothing is sent. */
    method UploadFile(remoteDirectoryPath: string, file: FileTransferObject) returns (r: Result<bool>)
      modifies this, file.fileData
      ensures filesFound == old(filesFound)
      ensures var req := if file.fileData == null then None else Some(Request.UploadFile(file.name, 0));
        var spec := Transfer(old(remote), remoteDirectoryPath, req);
        remote == spec.st && r == spec.result
      ensures file.fileData != null ==>
        file.fileData.position == if Prepare(old(remote), remoteDirectoryPath).ok then 0 else old(file.fileData.position)
    {
      var id, ready := Open(remoteDirectoryPath);
      if !ready {
        remote := remote.Dispose(id);
        return Raised;
      }
      if file.fileData == null {
        remote := remote.DisconnectIfOpen(id);
        remote := remote.Dispose(id);
        return Value(false);
      }
      file.fileData.position := 0;
      var req := Request.UploadFile(file.name, file.fileData.position);
      var ok := remote.Succeeds(id, req);
      remote := remote.Perform(id, req);
      if ok {
        remote := remote.Disconnect(id);
      } else {
        remote := remote.DisconnectIfOpen(id);
      }
      remote := remote.Dispose(id);
      return Value(ok);
    }

    /** DeleteFile: delete `fileName` inside the `try`; the `finally`
        disconnects if still connected. */
    method DeleteFile(remoteDirectoryPath: string, fileName: string) returns (r: Result<bool>)
      modifies this
      ensures filesFound == old(filesFound)
      ensures var spec := Transfer(old(remote), remoteDirectoryPath, Some(Request.DeleteFile(fileName)));
        remote == spec.st && r == spec.result
    {
      var id, ready := Open(remoteDirectoryPath);
      if !ready {
        remote := remote.Dispose(id);
        return Raised;
      }
      var req := Request.DeleteFile(fileName);
      var ok := remote.Succeeds(id, req);
      remote := remote.Perform(id, req);
      if ok {
        remote := remote.Disconnect(id);
      } else {
        remote := remote.DisconnectIfOpen(id);
      }
      remote := remote.Dispose(id);
      return Value(ok);
    }
  }
}

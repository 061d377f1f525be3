/** What each public operation of the transfer class does, as a function of
    the server's state (and of the accumulated entries) before the call: the
    state after it, the accumulated entries after it, and how it ended. */
module Operations {
  import opened Remote
  import opened Discovery
  import opened Traversal
  import opened Plans
  import opened Paths

  /** How a public operation ends: an exception escapes to its caller, or it
      returns a value. */
  datatype Result<T> = Raised | Value(value: T)

  /** The server after an operation that does not touch the accumulator. */
  datatype Step<T> = Step(st: Store, result: Result<T>)

  /** The server and the accumulated entries after an operation. */
  datatype Effects<T> = Effects(st: Store, acc: seq<Entry>, result: Result<T>)

  /** `char.IsWhiteSpace`: U+0009 to U+000D, U+0020, U+0085, U+00A0 and the
      Unicode space, line and paragraph separators. */
  predicate IsWhiteSpace(c: char)
    ensures c == ' ' || c == '\t' || c == '\n' || c == '\r' ==> IsWhiteSpace(c)
    ensures IsWhiteSpace(c) ==>
      c != '/' && c != '.' && c != '_' && c != '-' && !('0' <= c <= '9') && !('a' <= c <= 'z') && !('A' <= c <= 'Z')
  {
    c == ' ' || ('\t' <= c <= '\r') || c == '\U{0085}' || c == '\U{00A0}' || c == '\U{1680}' ||
    ('\U{2000}' <= c <= '\U{200A}') || c == '\U{2028}' || c == '\U{2029}' || c == '\U{202F}' ||
    c == '\U{205F}' || c == '\U{3000}'
  }

  /** `string.IsNullOrWhiteSpace` on a non-null string: the empty path is
      blank, and a path with a "/" in it never is. */
  predicate IsBlank(s: string)
    ensures s == [] ==> IsBlank(s)
    ensures (exists i :: 0 <= i < |s| && s[i] == '/') ==> !IsBlank(s)
  {
    forall i :: 0 <= i < |s| ==> IsWhiteSpace(s[i])
  }

  /** Connects a new client and, unless `path` is blank, changes into `path`.
      Both happen before the `try`, so a failure of either escapes to the
      caller; `ok` says the client is ready. */
  function Prepare(st: Store, path: string): (r: Attempt)
    ensures SameServer(r.st, st) && r.st.sessions == st.sessions + 1
    ensures r.ok <==>
      st.sessions !in st.refused &&
      (IsBlank(path) ||
       (Call(st.sessions, ChangeDirectory(path)) !in st.faults && st.fs.DirectoryExists(path)))
    ensures r.ok ==> r.st.open == st.open + {st.sessions}
    ensures r.st.trace == st.trace + [Op.Connect(st.sessions)] + (
      if st.sessions in st.refused || IsBlank(path) then []
      else [Call(st.sessions, ChangeDirectory(path))])
  {
    var id := st.sessions;
    var connected := st.Connect();
    if id !in connected.open then Attempt(connected, false)
    else if IsBlank(path) then Attempt(connected, true)
    else
      var req := ChangeDirectory(path);
      Attempt(connected.Perform(id, req), connected.Succeeds(id, req))
  }

  /** DownloadFileAsync, UploadFileAsync and DeleteFile: prepare a client,
      then send the one request `req` inside the `try`; `None` stands for a
      request that fails on the client side before anything is sent.  A
      normal return disconnects, a caught failure disconnects if still
      connected, and the end of the `using` block disposes of the client. */
  function Transfer(st: Store, path: string, req: Option<Request>): (r: Step<bool>)
    ensures r.st.faults == st.faults && r.st.refused == st.refused
    ensures r.st.fs == if r.result == Value(true) && req.Some? then Prepare(st, path).st.Effect(req.value) else st.fs
    ensures r.result == Raised <==> !Prepare(st, path).ok
    ensures r.result == Value(true) <==>
      Prepare(st, path).ok && req.Some? && Prepare(st, path).st.Succeeds(st.sessions, req.value)
    ensures r.st.sessions == st.sessions + 1 && r.st.open == st.open - {st.sessions}
    ensures |r.st.trace| > |st.trace| && r.st.trace[|r.st.trace| - 1] == Dispose(st.sessions)
  {
    var id := st.sessions;
    var ready := Prepare(st, path);
    if !ready.ok then Step(ready.st.Dispose(id), Raised)
    else if req.None? then Step(ready.st.DisconnectIfOpen(id).Dispose(id), Value(false))
    else
      var sent := ready.st.Perform(id, req.value);
      if ready.st.Succeeds(id, req.value) then Step(sent.Disconnect(id).Dispose(id), Value(true))
      else Step(sent.DisconnectIfOpen(id).Dispose(id), Value(false))
  }

  /** On a server where nothing fails, a transfer from a blank or existing
      directory returns true exactly when the request itself can succeed;
      after the change of directory the client sends that one request,
      then disconnects and is disposed of, whatever the request did. */
  lemma {:induction false} TransferFaultFree(st: Store, path: string, req: Request)
    requires st.NoFaults() && (IsBlank(path) || st.fs.DirectoryExists(path))
    ensures var id := st.sessions;
      var before := Prepare(st, path).st;
      var r := Transfer(st, path, Some(req));
      (r.result == Value(true) <==> before.Succeeds(id, req)) &&
      r.result != Raised &&
      r.st.trace == before.trace + [Call(id, req), Op.Disconnect(id), Op.Dispose(id)]
  {
    var id := st.sessions;
    var before := Prepare(st, path).st;
    assert id in before.open;
  }

  /** GetDirectoryListingAsync: one client lists `path`; a normal return
      disconnects and returns the listing, "." and ".." included, or only its
      files when `excludeDirectories`; a failed listing returns null. */
  function ListOnce(st: Store, path: string, excludeDirectories: bool): (r: Step<Option<seq<Entry>>>)
    ensures SameServer(r.st, st) && r.st.sessions == st.sessions + 1
    ensures r.st.open == st.open - {st.sessions}
    ensures r.result == Raised <==> st.sessions in st.refused
    ensures r.result == Value(None) <==>
      st.sessions !in st.refused &&
      (Call(st.sessions, ListDirectory(path)) in st.faults || !st.fs.DirectoryExists(path))
    ensures r.result.Value? && r.result.value.Some? ==>
      forall e :: e in r.result.value.value <==>
        e in st.fs.Visible(path) && (excludeDirectories ==> !e.isDirectory)
  {
    var id := st.sessions;
    var connected := st.Connect();
    if id !in connected.open then Step(connected.Dispose(id), Raised)
    else
      var req := ListDirectory(path);
      var listed := connected.Perform(id, req);
      if !connected.Succeeds(id, req) then Step(listed.DisconnectIfOpen(id).Dispose(id), Value(None))
      else
        var level := st.fs.Visible(path);
        Step(listed.Disconnect(id).Dispose(id), Value(Some(if excludeDirectories then Files(level) else level)))
  }

  /** GetAllDirectoryListingsAsync called from outside with the entries
      `prior` already accumulated: the traversal appends to them, and the
      outermost call returns all of them (leftovers included), or only their
      files when `excludeDirectories`. */
  function ListAll(st: Store, prior: seq<Entry>, path: string, excludeDirectories: bool)
    : (r: Effects<Option<seq<Entry>>>)
    requires st.fs.Valid()
    ensures SameServer(r.st, st) && r.acc == prior + Crawl(st, path).added
    ensures st.Fresh() ==> r.st.open == st.open
    ensures r.result == Raised <==> st.sessions in st.refused
    ensures r.result.Value? && r.result.value.Some? ==>
      r.result.value.value == if excludeDirectories then Files(r.acc) else r.acc
  {
    var crawl := Crawl(st, path);
    var acc := prior + crawl.added;
    var result := match crawl.outcome
      case Threw => Raised
      case Null => Value(None)
      case Returned => Value(Some(if excludeDirectories then Files(acc) else acc));
    Effects(crawl.st, acc, result)
  }

  /** On a server where nothing fails, the listing returns the leftovers
      followed by the discovery order of the tree, and the directory filter
      applies to the leftovers as much as to the new entries. */
  lemma {:induction false} ListAllFaultFree(st: Store, prior: seq<Entry>, path: string, excludeDirectories: bool)
    requires st.fs.Valid() && st.NoFaults()
    ensures var r := ListAll(st, prior, path, excludeDirectories);
      r.acc == prior + Walk(st.fs, path) &&
      (r.result.Value? && r.result.value.Some? <==> st.fs.DirectoryExists(path)) &&
      r.result != Raised &&
      (r.result.Value? && r.result.value.Some? && excludeDirectories ==>
         r.result.value.value == Files(prior) + Files(Walk(st.fs, path)))
  {
    CrawlFaultFree(st, path);
    FilesAppend(prior, Walk(st.fs, path));
  }

  /** On a fault-free server whose listings form a tree, listing a tree
      from an empty accumulator returns every file and directory below the
      path exactly once. */
  lemma ListAllExactlyOnce(st: Store, path: string)
    requires st.fs.Valid() && st.NoFaults() && Tree(st.fs)
    ensures var acc := ListAll(st, [], path, false).acc;
      Distinct(acc) &&
      (forall c {:trigger c in Level(st.fs, path)} :: c in Level(st.fs, path) ==> c in acc) &&
      forall g, c {:trigger c in Level(st.fs, g.fullName), g in acc} ::
        g in acc && g.isDirectory && c in Level(st.fs, g.fullName) ==> c in acc
  {
    ListAllFaultFree(st, [], path, false);
    WalkExactlyOnce(st.fs, path);
    assert [] + Walk(st.fs, path) == Walk(st.fs, path);
  }

  /** DeleteEntireDirectoryAsync with the entries `prior` already
      accumulated: connect (outside the `try`), list the tree with the
      per-level traversal, then send the delete plan over the whole
      accumulator; only a complete run clears the accumulator and returns
      true.  A null or failed listing returns false with nothing deleted. */
  function DeleteEntire(st: Store, prior: seq<Entry>, target: string): (r: Effects<bool>)
    requires st.fs.Valid()
    ensures r.st.faults == st.faults && r.st.refused == st.refused
    ensures r.st.fs.listings == st.fs.listings && r.st.fs.rank == st.fs.rank
    ensures r.st.sessions > st.sessions && (st.Fresh() ==> r.st.open == st.open)
    ensures r.result == Raised <==> st.sessions in st.refused
    ensures r.result == Value(true) <==>
      (st.sessions !in st.refused && Crawl(st.Connect(), target).outcome == Returned &&
       RunAll(Crawl(st.Connect(), target).st, st.sessions,
              DeletePlan(prior + Crawl(st.Connect(), target).added)).ok)
    ensures r.result == Value(true) ==> r.acc == []
    ensures r.result == Value(false) ==> r.acc == prior + Crawl(st.Connect(), target).added
    ensures r.result == Raised ==> r.acc == prior && r.st.fs == st.fs
  {
    var id := st.sessions;
    var connected := st.Connect();
    if id !in connected.open then Effects(connected.Dispose(id), prior, Raised)
    else
      var crawl := Crawl(connected, target);
      var acc := prior + crawl.added;
      if crawl.outcome != Returned then Effects(crawl.st.DisconnectIfOpen(id).Dispose(id), acc, Value(false))
      else
        var run := RunAll(crawl.st, id, DeletePlan(acc));
        if run.ok then Effects(run.st.Disconnect(id).Dispose(id), [], Value(true))
        else Effects(run.st.DisconnectIfOpen(id).Dispose(id), acc, Value(false))
  }

  /** MoveEntireDirectoryAsync with the entries `prior` already accumulated:
      connect (outside the `try`), list the tree over the same session, then
      create every directory and move every file to its path with `src`
      replaced by `dst`, clear the accumulator and delete the source tree.
      A null listing, an empty `src` (which `Replace` rejects) with anything
      to rename, or a failed create or move clears the accumulator and
      returns false; the delete's own result is discarded, and only an
      exception from it (its own connection refused) makes the move return
      false.  The move's client is disposed of on every path. */
  function MoveEntire(st: Store, prior: seq<Entry>, src: string, dst: string): (r: Effects<bool>)
    requires st.fs.Valid()
    ensures r.st.faults == st.faults && r.st.refused == st.refused
    ensures st.Fresh() ==> r.st.open == st.open
    ensures r.result == Raised <==> st.sessions in st.refused
    ensures r.result == Value(true) <==>
      st.sessions !in st.refused &&
      var found := Gather(st.Connect(), st.sessions, src);
      var acc := prior + found.added;
      found.outcome == Returned && (src != [] || acc == []) &&
      (acc == [] || RunAll(found.st, st.sessions, MovePlan(acc, src, dst)).ok) &&
      st.sessions + 1 !in st.refused
    ensures r.result != Value(true) ==> r.acc == (if r.result == Raised then prior else [])
  {
    var id := st.sessions;
    var connected := st.Connect();
    if id !in connected.open then Effects(connected.Dispose(id), prior, Raised)
    else
      var found := Gather(connected, id, src);
      var acc := prior + found.added;
      if found.outcome == Null || (src == [] && acc != []) then
        Effects(found.st.DisconnectIfOpen(id).Dispose(id), [], Value(false))
      else
        var run := if acc == [] then Attempt(found.st, true) else RunAll(found.st, id, MovePlan(acc, src, dst));
        if !run.ok then Effects(run.st.DisconnectIfOpen(id).Dispose(id), [], Value(false))
        else
          var cleanup := DeleteEntire(run.st, [], src);
          if cleanup.result == Raised then Effects(cleanup.st.DisconnectIfOpen(id).Dispose(id), [], Value(false))
          else Effects(cleanup.st.Disconnect(id).Dispose(id), cleanup.acc, Value(true))
  }

  /** On a server where nothing fails, the delete of a freshly listed tree
      removes each directory only after every entry of its own listing. */
  lemma DeletesDeepestFirstFaultFree(st: Store, target: string, pos: nat)
    requires st.fs.Valid() && st.NoFaults()
    requires pos < |Crawl(st.Connect(), target).added| && Crawl(st.Connect(), target).added[pos].isDirectory
    ensures var acc := Crawl(st.Connect(), target).added;
      var plan := DeletePlan(acc);
      var a := |Files(acc)| + |Directories(Reverse(acc[pos + 1..]))|;
      a < |plan| && plan[a] == Deletion(acc[pos]) &&
      forall c {:trigger c in Level(st.fs, acc[pos].fullName)} :: c in Level(st.fs, acc[pos].fullName) ==> Deletion(c) in plan[..a]
  {
    CrawlFaultFree(st.Connect(), target);
    WalkShallowFirst(st.fs, target);
    DeletesDeepestFirst(st.fs, Crawl(st.Connect(), target).added, pos);
  }

  /** A delete whose accumulator starts with no directory named `target`
      never deletes `target` itself, whatever fails during the listing: the
      listing appends only entries ranked below its root. */
  lemma DeleteSparesRoot(st: Store, prior: seq<Entry>, target: string)
    requires st.fs.Valid()
    requires forall e {:trigger e in prior} :: e in prior && e.isDirectory ==> e.fullName != target
    ensures DeleteDirectory(target) !in DeletePlan(prior + Crawl(st.Connect(), target).added)
  {
    var added := Crawl(st.Connect(), target).added;
    CrawlEntries(st.Connect(), target);
    DeleteSparesPath(prior + added, target);
  }

  /** The move discards what its recursive delete returns: when every create
      and move returned and the delete connects but returns false, the move
      still returns true, with the delete's listing left in the
      accumulator. */
  lemma MoveIgnoresFailedDelete(st: Store, prior: seq<Entry>, src: string, dst: string)
    requires st.fs.Valid() && st.sessions !in st.refused && src != []
    requires var found := Gather(st.Connect(), st.sessions, src);
      var acc := prior + found.added;
      var run := if acc == [] then Attempt(found.st, true) else RunAll(found.st, st.sessions, MovePlan(acc, src, dst));
      found.outcome == Returned && run.ok && DeleteEntire(run.st, [], src).result == Value(false)
    ensures var found := Gather(st.Connect(), st.sessions, src);
      var acc := prior + found.added;
      var run := if acc == [] then Attempt(found.st, true) else RunAll(found.st, st.sessions, MovePlan(acc, src, dst));
      var r := MoveEntire(st, prior, src, dst);
      r.result == Value(true) && r.acc == DeleteEntire(run.st, [], src).acc &&
      r.acc == Crawl(run.st.Connect(), src).added
  {
  }

  /** The state after a batch download, how many files had a buffer attached
      (the ones handed over plus the one that failed), and the result. */
  datatype Downloads = Downloads(st: Store, attempted: nat, result: Result<bool>)

  /** DownloadFilesAsync: prepare a client (a failure escapes), then run the
      batch over `names`; the first failure disconnects and returns false, a
      complete batch disconnects and returns true. */
  function DownloadAll(st: Store, path: string, names: seq<string>, callbackFails: set<nat>): (r: Downloads)
    ensures r.result == Raised <==> !Prepare(st, path).ok
    ensures r.result == Value(true) <==>
      Prepare(st, path).ok && Batch(Prepare(st, path).st, st.sessions, names, callbackFails).ok
    ensures r.attempted <= |names| && (r.result == Value(true) ==> r.attempted == |names|)
    ensures r.st.fs == st.fs && r.st.open == st.open - {st.sessions}
  {
    var id := st.sessions;
    var ready := Prepare(st, path);
    if !ready.ok then Downloads(ready.st.Dispose(id), 0, Raised)
    else
      var batch := Batch(ready.st, id, names, callbackFails);
      if batch.ok then Downloads(batch.st.Disconnect(id).Dispose(id), |names|, Value(true))
      else Downloads(batch.st.DisconnectIfOpen(id).Dispose(id), batch.done + 1, Value(false))
  }
}

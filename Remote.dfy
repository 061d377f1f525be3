/** The remote side of every transfer: what an SFTP server answers, which calls
    throw, and the trace of every call a client makes.  The client library
    itself is not modelled; each of its calls is one step of this store. */
module Remote {

  datatype Option<T> = None | Some(value: T)

  /** One entry of a directory listing, as the server reports it. */
  datatype Entry = Entry(name: string, fullName: string, isDirectory: bool)

  /** The self and parent entries that a listing may contain. */
  predicate IsSentinel(name: string)
  {
    name == "." || name == ".."
  }

  /** A request sent over an open session. */
  datatype Request =
    | ChangeDirectory(path: string)
    | ListDirectory(path: string)
    | DownloadFile(name: string)
    | UploadFile(name: string, offset: nat)
    | CreateDirectory(path: string)
    | MoveFile(source: string, target: string)
    | DeleteFile(path: string)
    | DeleteDirectory(path: string)

  /** Everything a client does that is visible from outside: sessions are
      numbered by connection attempt; `Dispose` is the end of a client's
      `using` block; `Callback` is the caller's hook in a batch download. */
  datatype Op =
    | Connect(session: nat)
    | Disconnect(session: nat)
    | Dispose(session: nat)
    | Call(session: nat, request: Request)
    | Callback(name: string)

  /** The directory structure of the server: what listing each directory
      returns (in server order, "." and ".." included), a rank that decreases
      from a directory to each subdirectory it lists, and the paths deleted,
      moved away or created since. */
  datatype FileSystem = FileSystem(
    listings: map<string, seq<Entry>>,
    rank: map<string, nat>,
    removed: set<string>,
    created: set<string>)
  {
    /** No cycles through listed subdirectories, and "." and ".." are only
        ever listed as directories. */
    predicate Valid()
    {
      rank.Keys == listings.Keys &&
      forall p, e {:trigger e in listings[p]} :: p in listings && e in listings[p] ==>
        (IsSentinel(e.name) ==> e.isDirectory) &&
        (e.isDirectory && !IsSentinel(e.name) && e.fullName in listings ==>
           rank[e.fullName] < rank[p])
    }

    /** Every subdirectory a listing shows can itself be listed. */
    predicate Closed()
    {
      forall p, e {:trigger e in listings[p]} :: p in listings && e in listings[p] && e.isDirectory && !IsSentinel(e.name) ==>
        e.fullName in listings
    }

    /** A measure for recursion over listed directories: 0 for a path the
        server does not list. */
    function Rank(p: string): nat
    {
      if p in rank then rank[p] + 1 else 0
    }

    predicate DirectoryExists(p: string)
    {
      (p in listings || p in created) && p !in removed
    }

    /** What listing `p` returns now: the server's entries minus those removed. */
    function Visible(p: string): (r: seq<Entry>)
      ensures forall e {:trigger e in r} :: e in r ==> p in listings && e in listings[p] && e.fullName !in removed
      ensures forall e {:trigger e in listings[p]} :: p in listings && e in listings[p] && e.fullName !in removed ==> e in r
    {
      if p in listings then Unremoved(listings[p], removed) else []
    }
  }

  /** Entries of `es` that have not been deleted or moved away, in order. */
  function Unremoved(es: seq<Entry>, removed: set<string>): (r: seq<Entry>)
    ensures forall e {:trigger e in r} {:trigger e in es} :: e in r <==> e in es && e.fullName !in removed
  {
    if es == [] then []
    else Unremoved(es[..|es| - 1], removed)
         + (if es[|es| - 1].fullName in removed then [] else [es[|es| - 1]])
  }

  /** The non-directory entries of a listing, in order. */
  function Files(es: seq<Entry>): (r: seq<Entry>)
    ensures forall e {:trigger e in r} {:trigger e in es} :: e in r <==> e in es && !e.isDirectory
    ensures |r| <= |es|
  {
    if es == [] then []
    else Files(es[..|es| - 1]) + (if es[|es| - 1].isDirectory then [] else [es[|es| - 1]])
  }

  /** The directory entries of a listing, sentinels included, in order. */
  function Directories(es: seq<Entry>): (r: seq<Entry>)
    ensures forall e {:trigger e in r} {:trigger e in es} :: e in r <==> e in es && e.isDirectory
    ensures |r| <= |es|
  {
    if es == [] then []
    else Directories(es[..|es| - 1]) + (if es[|es| - 1].isDirectory then [es[|es| - 1]] else [])
  }

  /** The directory entries of a listing other than "." and "..", in order. */
  function Subdirs(es: seq<Entry>): (r: seq<Entry>)
    ensures forall e {:trigger e in r} {:trigger e in es} :: e in r <==> e in es && e.isDirectory && !IsSentinel(e.name)
    ensures |r| <= |es|
  {
    if es == [] then []
    else
      var e := es[|es| - 1];
      Subdirs(es[..|es| - 1]) + (if e.isDirectory && !IsSentinel(e.name) then [e] else [])
  }

  /** The state of the server and of the client's connections: the directory
      structure, the calls that throw, the connection attempts that are
      refused, the sessions now open, the number of connection attempts so
      far, and the trace of every call made. */
  datatype Store = Store(
    fs: FileSystem,
    faults: set<Op>,
    refused: set<nat>,
    open: set<nat>,
    sessions: nat,
    trace: seq<Op>)
  {
    /** Every open session was numbered by an earlier connection attempt. */
    predicate Fresh()
    {
      forall s :: s in open ==> s < sessions
    }

    /** A server on which no call throws and no connection is refused. */
    predicate NoFaults()
    {
      faults == {} && refused == {}
    }

    /** Whether `req` on session `s` returns normally (otherwise it throws).
        A call on a client that is not connected throws, and so does the
        delete of a directory that still lists anything but "." and "..". */
    predicate Succeeds(s: nat, req: Request)
      ensures Succeeds(s, req) ==> s in open && Call(s, req) !in faults
      ensures Succeeds(s, req) && req.DeleteDirectory? ==>
        forall e {:trigger e in fs.Visible(req.path)} :: e in fs.Visible(req.path) ==> IsSentinel(e.name)
    {
      s in open && Call(s, req) !in faults &&
      match req
      case ChangeDirectory(p) => fs.DirectoryExists(p)
      case ListDirectory(p) => fs.DirectoryExists(p)
      case CreateDirectory(p) => !fs.DirectoryExists(p)
      case MoveFile(source, _) => source !in fs.removed
      case DeleteFile(p) => p !in fs.removed
      case DeleteDirectory(p) =>
        fs.DirectoryExists(p) && forall e {:trigger e in fs.Visible(p)} :: e in fs.Visible(p) ==> IsSentinel(e.name)
      case _ => true
    }

    /** The directory structure once `req` has changed it. */
    function Effect(req: Request): (r: FileSystem)
      ensures r.listings == fs.listings && r.rank == fs.rank
    {
      match req
      case CreateDirectory(p) => fs.(created := fs.created + {p}, removed := fs.removed - {p})
      case MoveFile(source, _) => fs.(removed := fs.removed + {source})
      case DeleteFile(p) => fs.(removed := fs.removed + {p})
      case DeleteDirectory(p) => fs.(removed := fs.removed + {p})
      case _ => fs
    }

    /** Sends `req` on session `s`: it is traced, and changes the directory
        structure only when it succeeds. */
    function Perform(s: nat, req: Request): (r: Store)
      ensures r.faults == faults && r.refused == refused && r.open == open && r.sessions == sessions
      ensures r.trace == trace + [Call(s, req)]
      ensures r.fs == if Succeeds(s, req) then Effect(req) else fs
      ensures r.fs.listings == fs.listings && r.fs.rank == fs.rank
    {
      this.(fs := if Succeeds(s, req) then Effect(req) else fs, trace := trace + [Call(s, req)])
    }

    /** A new client connects: its session is numbered by the attempt count
        and is open unless the server refuses that attempt. */
    function Connect(): (r: Store)
      ensures r.fs == fs && r.faults == faults && r.refused == refused
      ensures r.sessions == sessions + 1 && r.trace == trace + [Op.Connect(sessions)]
      ensures sessions in r.open <==> sessions !in refused
      ensures forall s :: s != sessions ==> (s in r.open <==> s in open)
      ensures Fresh() ==> r.Fresh() && sessions !in open
    {
      this.(sessions := sessions + 1,
            trace := trace + [Op.Connect(sessions)],
            open := if sessions in refused then open - {sessions} else open + {sessions})
    }

    /** `Disconnect()` on the client of session `s`: the session is closed and
        the step is traced. */
    function Disconnect(s: nat): (r: Store)
      ensures r.fs == fs && r.faults == faults && r.refused == refused && r.sessions == sessions
      ensures r.open == open - {s} && r.trace == trace + [Op.Disconnect(s)]
    {
      this.(open := open - {s}, trace := trace + [Op.Disconnect(s)])
    }

    /** The end of the `using` block that owns session `s`. */
    function Dispose(s: nat): (r: Store)
      ensures r.fs == fs && r.faults == faults && r.refused == refused && r.sessions == sessions
      ensures r.open == open - {s} && r.trace == trace + [Op.Dispose(s)]
    {
      this.(open := open - {s}, trace := trace + [Op.Dispose(s)])
    }

    /** Disconnects session `s` only if it is still connected. */
    function DisconnectIfOpen(s: nat): (r: Store)
      ensures r.fs == fs && r.faults == faults && r.refused == refused && r.sessions == sessions
      ensures r.open == open - {s}
      ensures r.trace == trace + (if s in open then [Op.Disconnect(s)] else [])
    {
      if s in open then Disconnect(s) else this
    }
  }
}

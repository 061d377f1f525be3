# SFTP file transfer: traversal, batch transfer and recursive delete/move

This project models the transfer class `SftpFileTransfer` of an SFTP client
library and proves properties of it in Dafny.

## What it models

The class keeps one piece of state of its own, the accumulator `_filesFound`.
Its two recursive listings append to that list. The recursive delete and move
read it and then clear it. Each public operation opens an SFTP client (a
`using` block), connects and sends calls. It reports success as a boolean, or
a listing as a nullable sequence.

The model has three layers.

- **The server** (`Remote`). A `Store` value holds:
  - the directory listings the server returns, in server order, with "." and
    "..";
  - a rank that makes recursion over listed subdirectories well-founded;
  - which calls throw (`faults`) and which connection attempts are refused
    (`refused`);
  - the open sessions and the number of connection attempts so far;
  - a `trace` of every observable step: connect, disconnect, the end of a
    `using` block, each request, and each callback of a batch download.

  Deletes, moves and directory creations change the structure. A call on a
  session that is not open throws.
- **Specification functions** (`Traversal`, `Plans`, `Operations`, and
  `Discovery` for the fault-free order). These give the state after each
  operation, the accumulator after it, and how it ended: an exception escaped
  (`Raised`) or a value was returned. They follow the source branch by
  branch, including every `try`/`catch`, every `if (sftp.IsConnected)` guard,
  and the `Connect`/`ChangeDirectory` calls that sit outside the `try`.
- **The class** (`FileTransfer`). `SftpFileTransfer` has the fields `remote`
  (the server) and `filesFound` (the accumulator, as a sequence of
  `FileTransferObject`s). Its methods use the source's own loops:
  - the three `foreach` loops of a listing level;
  - the delete loops over the files and over the reversed list;
  - the create and move loops;
  - the batch download loop, which exits early on the first failure.

  Each method is proved to leave exactly the state, accumulator and result
  that the matching specification function gives. The properties below are
  proved about those functions.

Main properties:

- **Listing order.** A traversal appends each level's files, then its
  subdirectories other than "." and "..", then one traversal per
  subdirectory. Within a level every file comes before every directory
  (`Discovery.WalkStartsWithLevel`). Every directory comes before every
  entry of its own listing (`Discovery.WalkShallowFirst`). Whatever fails,
  no "." or ".." entry is ever appended, and every directory appended ranks
  below the root (`Traversal.CrawlEntries`, `Traversal.GatherEntries`).
  The listings may form a tree: no listing shows an entry twice, and a full
  name identifies both the entry and the one directory that lists it
  (`Discovery.Tree`). On such a server a traversal appends every file and
  directory below its root exactly once. It appends no entry twice, and it
  appends the root's own level and the level of every directory it finds
  (`Discovery.WalkExactlyOnce`). Where nothing fails, so does the listing
  operation itself (`Operations.ListAllExactlyOnce`). The traversals of two
  different subdirectories of one directory share no entry
  (`Discovery.SiblingsDisjoint`). A server whose listing shows an entry
  twice gets that entry twice in the result.
- **Per-level connections and failures.** `GetAllDirectoryListingsAsync`
  opens a client per level, while `FindAllFilesToMove` shares its caller's
  session. On a fault-free server both append exactly the discovery order
  (`Traversal.CrawlFaultFree`, `Traversal.GatherFaultFree`). With faults:
  - The per-level listing throws exactly when its own connection is
    refused, and then appends nothing (`Traversal.Crawl`). Called from
    outside, the listing raises exactly then (`Operations.ListAll`).
  - An inner listing failure is a null that the parent discards. When no
    connection is refused, the listing returns null exactly when the
    listing of its own root fails (`Traversal.CrawlOutcome`), and the loop
    over subdirectories always completes (`Traversal.CrawlEachReturns`).
  - A refused connection below makes only the parent level return null, and
    what that level appended stays in the accumulator
    (`Traversal.RefusedChildNullsParent`).
  - A failure on the shared session disconnects it: a shared-session
    listing that returns null leaves the session closed (`Traversal.Gather`),
    and every later listing contributes nothing
    (`Traversal.GatherEachAfterDisconnect`).
- **Accumulator.** Entries left over from earlier calls stay in front.
  `excludeDirectories` filters the whole accumulator, once, at the outermost
  return (`Operations.ListAll`, `Operations.ListAllFaultFree`).
- **Recursive delete.**
  - Every file is deleted before any directory
    (`Plans.DeletePlanShape`). The files are deleted in discovery order and
    the directories in reverse discovery order (`Plans.DeletePlan`).
  - When the accumulator lists every directory before the entries of its own
    listing, each directory is deleted after all of them
    (`Plans.DeletesDeepestFirst`). A fault-free listing of the target has
    that order, so on a server where nothing fails the delete removes each
    directory only after everything it listed
    (`Operations.DeletesDeepestFirstFaultFree`). With faults, a
    subdirectory whose listing failed has none of its entries found; its
    delete is still sent, and the server refuses it while it is not empty.
  - Every entry found gets a delete in the plan, and nothing else does
    (`Plans.DeletePlanShape`).
  - When no leftover directory in the accumulator has the target's name, the
    target root itself is never deleted, whatever fails during the listing
    (`Operations.DeleteSparesRoot`).
  - The first delete that throws ends the run (`Plans.RunAllStopsAt`).
  - The accumulator is cleared only when every delete returned
    (`Operations.DeleteEntire`).
- **Move.**
  - Every `CreateDirectory` is sent before any `MoveFile`
    (`Plans.MovePlan`).
  - Targets are computed with `Replace`, which rewrites every occurrence of
    the source path (`Paths.ReplaceAllRewritesInnerOccurrence`). A name that
    starts with the source path and does not contain it again is moved to
    the destination path plus the same remainder (`Plans.MoveTargets`).
  - The move returns true exactly when it connects, the listing returns, the
    source path is not empty if anything is to be renamed (`Replace` throws on
    an empty source path), every create and move returns, and the recursive
    delete's own client connects (`Operations.MoveEntire`).
    What that delete returns is discarded: a delete that returns false still
    leaves the move returning true (`Operations.MoveIgnoresFailedDelete`).
  - Every failure path clears the accumulator (`Operations.MoveEntire`).
- **Batch download.** Files are processed in list order, each downloaded and
  then handed to the callback. The first failure ends the batch, and the
  files after it are never touched (`Plans.BatchTrace`, `Plans.BatchStops`,
  `FileTransfer.SftpFileTransfer.DownloadEach`). On a fault-free session the
  whole batch completes (`Plans.BatchFaultFree`).
- **Single transfers.** Download, upload and single-file delete return true
  exactly when their one request returned (`Operations.Transfer`). A failed
  connect or change of directory escapes to the caller.
- **Clients.** Every operation disposes of every client it opens, on every
  path, including the per-level clients of the recursive listing
  (`Traversal.Crawl`, `Operations.ListAll`, `Operations.DeleteEntire`,
  `Operations.MoveEntire`).

Behaviour of the code worth knowing:

- The recursive listing opens a new client at every level, not one shared
  connection. Only the move's local traversal shares a session.
- A failure inside the recursive listing does not abort the traversal.
  - The inner call catches it and returns null, which the parent ignores.
  - Only a refused connection escapes an inner call, and then only the
    parent level fails.
- `Connect` and `ChangeDirectory` are outside the `try`, so their failures
  escape to the caller. They are not turned into `false` or null.
- The recursive delete deletes the files in discovery order. Only the list
  it takes the directories from is reversed. It never deletes the target
  root, because the listing does not contain the root, unless an entry left
  over in the accumulator from an earlier call is a directory with the
  target's name.
- The move rewrites every occurrence of the source path with
  `string.Replace`, not only the prefix. It ignores the `false` that the
  recursive delete returns: only an exception from the delete makes the move
  fail. The delete opens further clients of its own while the move's client
  is still connected.

## Model

| member | source | states |
|---|---|---|
| Remote.Files | SFTP/SftpFileTransfer.cs:58-64 | keeps exactly the entries that are not directories, and no more entries than it was given |
| Remote.Directories | SFTP/SftpFileTransfer.cs:370 | keeps exactly the directory entries, and no more entries than it was given |
| Remote.Subdirs | SFTP/SftpFileTransfer.cs:65-71 | keeps exactly the directory entries not named "." or "..", and no more entries than it was given |
| Remote.FileSystem.Visible | SFTP/SftpFileTransfer.cs:56 | a listing shows exactly the entries the server lists for that path that have not been deleted or moved away |
| Remote.Store.Succeeds | SFTP/SftpFileTransfer.cs:366-373 | a call returns normally only on a connected session with no fault for it, and a directory delete returns only when the directory lists nothing but "." and ".." |
| Remote.Store.Perform | SFTP/SftpFileTransfer.cs:366-373 | every call is traced, changes no session, and changes the directory structure only when it returns normally |
| Remote.Store.Connect | SFTP/SftpFileTransfer.cs:52 | the new client's session is open exactly when the server accepts the attempt; no other session changes |
| Remote.Store.Disconnect | SFTP/SftpFileTransfer.cs:33 | `Disconnect()` closes exactly that session, is traced, and changes nothing else |
| Remote.Store.Dispose | SFTP/SftpFileTransfer.cs:50 | the end of the `using` block closes the client's session and is traced |
| Remote.Store.DisconnectIfOpen | SFTP/SftpFileTransfer.cs:86-87 | disconnects, and traces it, only when the session is still connected |
| Paths.ReplaceAll | SFTP/SftpFileTransfer.cs:291-295 | `Replace` with the source path as its own replacement leaves every string unchanged |
| Paths.ReplaceAllAbsent | SFTP/SftpFileTransfer.cs:291 | `Replace` leaves a string that does not contain the source path unchanged |
| Paths.ReplaceAllRebases | SFTP/SftpFileTransfer.cs:291 | a full name made of the source path and a remainder without it becomes the destination path and the same remainder |
| Paths.ReplaceAllRewritesInnerOccurrence | SFTP/SftpFileTransfer.cs:295 | every occurrence is replaced: `/a/a` moved from `/a` to `/x` becomes `/x/x`, not `/x/a` |
| Discovery.Walk | SFTP/SftpFileTransfer.cs:48-91 | a fault-free traversal appends only entries that have not been deleted or moved away |
| Discovery.WalkAll | SFTP/SftpFileTransfer.cs:72-78 | the same for the recursive calls of one level |
| Discovery.WalkStartsWithLevel | SFTP/SftpFileTransfer.cs:58-71 | a traversal starts with its root's level, and within that level every file precedes every directory |
| Discovery.LevelInWalk | SFTP/SftpFileTransfer.cs:72-78 | the entries of a directory's own listing are appended by the traversal of that directory |
| Discovery.WalkInWalkAll | SFTP/SftpFileTransfer.cs:72-78 | every entry found below a subdirectory is part of what the recursive calls of its parent's level find |
| Discovery.LevelInWalkAll | SFTP/SftpFileTransfer.cs:72-78 | the listing of each subdirectory is appended by the recursive calls of its parent's level |
| Discovery.WalkShallowFirst | SFTP/SftpFileTransfer.cs:65-78 | every directory appended comes before every entry of its own listing |
| Discovery.WalkAllShallowFirst | SFTP/SftpFileTransfer.cs:72-78 | the recursive calls of one level, together, keep every directory before its own entries |
| Discovery.WalkEntries | SFTP/SftpFileTransfer.cs:67-75 | no "." or ".." entry is appended, and every directory appended ranks below the root, so it is never the root |
| Discovery.WalkAllEntries | SFTP/SftpFileTransfer.cs:72-78 | the same for the recursive calls of one level |
| Discovery.DistinctLevel | SFTP/SftpFileTransfer.cs:58-71 | on a tree, one level's files followed by its subdirectories show no entry twice |
| Discovery.WalkLister | SFTP/SftpFileTransfer.cs:48-91 | every entry a traversal appends is shown by the listing of its root or of a directory the traversal appended, ranked no higher than the root |
| Discovery.WalkAllLister | SFTP/SftpFileTransfer.cs:72-78 | every entry the recursive calls of one level append is shown by the listing of one of the subdirectories or of a directory they appended, ranked below the parent |
| Discovery.WalkAllFrom | SFTP/SftpFileTransfer.cs:72-78 | every entry the recursive calls of one level append comes from the traversal of one of the subdirectories |
| Discovery.SiblingsDisjoint | SFTP/SftpFileTransfer.cs:72-78 | on a tree, the traversals of two different subdirectories of one directory share no entry |
| Discovery.NotListedBy | SFTP/SftpFileTransfer.cs:72-78 | on a tree, no directory found below one subdirectory has the full name of a subdirectory its parent lists |
| Discovery.WalkDistinct | SFTP/SftpFileTransfer.cs:48-91 | on a tree, a traversal appends no entry twice |
| Discovery.WalkAllDistinct | SFTP/SftpFileTransfer.cs:72-78 | on a tree, the recursive calls over distinct subdirectories of one level append no entry twice |
| Discovery.WalkExactlyOnce | SFTP/SftpFileTransfer.cs:48-91 | on a tree, a traversal returns every file and directory below its root exactly once: no entry twice, the root's level and the level of every directory found |
| Traversal.Crawl | SFTP/SftpFileTransfer.cs:48-91 | the per-level listing does not change the server's structure, faults or refusals, opens at least one client, and leaves every client it opened disposed of; it throws exactly when its own connection is refused, and then appends nothing |
| Traversal.CrawlEach | SFTP/SftpFileTransfer.cs:72-78 | the loop of recursive calls ends normally or by an exception, never with a null, and leaves every client it opened disposed of |
| Traversal.Gather | SFTP/SftpFileTransfer.cs:313-351 | the shared-session listing never throws, opens no client, never reopens a session and closes none but the shared one; when it returns null the shared session is closed |
| Traversal.GatherEach | SFTP/SftpFileTransfer.cs:333-339 | the loop of shared-session recursive calls always completes, opens no client and closes none but the shared one |
| Traversal.CrawlEachStops | SFTP/SftpFileTransfer.cs:72-78 | once a recursive call has thrown, no later subdirectory is listed |
| Traversal.CrawlEachReturns | SFTP/SftpFileTransfer.cs:72-78 | when no connection is refused, no recursive call throws and the loop over a level completes |
| Traversal.CrawlOutcome | SFTP/SftpFileTransfer.cs:48-91 | when no connection is refused, the per-level listing returns null exactly when the listing of its own root throws, whatever fails deeper down |
| Traversal.RefusedChildNullsParent | SFTP/SftpFileTransfer.cs:72-89 | a refused connection for the first subdirectory makes its parent level return null, with the parent's files and subdirectories still appended |
| Traversal.CrawlFaultFree | SFTP/SftpFileTransfer.cs:48-91 | with no faults the per-level listing appends exactly the discovery order, and is null only when the root cannot be listed |
| Traversal.CrawlEachFaultFree | SFTP/SftpFileTransfer.cs:72-78 | with no faults the recursive calls of a level append the traversals of its subdirectories in order |
| Traversal.GatherFaultFree | SFTP/SftpFileTransfer.cs:313-351 | with no faults the shared-session listing appends the same discovery order and keeps the session open unless the root cannot be listed |
| Traversal.GatherEachFaultFree | SFTP/SftpFileTransfer.cs:333-339 | the same for the shared-session recursive calls of one level |
| Traversal.GatherEachAfterDisconnect | SFTP/SftpFileTransfer.cs:345-348 | after the shared session is disconnected, each later listing is still attempted but appends nothing |
| Traversal.CrawlEntries | SFTP/SftpFileTransfer.cs:48-91 | whatever fails, the per-level listing appends no "." or ".." entry, and every directory it appends ranks below the root |
| Traversal.CrawlEachEntries | SFTP/SftpFileTransfer.cs:72-78 | the same for the recursive calls of one level |
| Traversal.GatherEntries | SFTP/SftpFileTransfer.cs:313-351 | the same for the shared-session listing |
| Traversal.GatherEachEntries | SFTP/SftpFileTransfer.cs:333-339 | the same for the shared-session recursive calls of one level |
| Plans.RunAll | SFTP/SftpFileTransfer.cs:366-373 | a run of calls changes only the structure and the trace |
| Plans.RunAllTrace | SFTP/SftpFileTransfer.cs:366-373 | a run sends a prefix of its calls in order: all of them when it succeeds, up to the one that threw when it fails |
| Plans.RunAllStopsAt | SFTP/SftpFileTransfer.cs:366-373 | a run that fails at a call sends nothing after it |
| Plans.RunAllAppend | SFTP/SftpFileTransfer.cs:366-373 | running two loops back to back runs the second only when the first completed |
| Plans.Reverse | SFTP/SftpFileTransfer.cs:364 | the reversed list holds the same entries in the opposite order |
| Plans.DirectoriesReversed | SFTP/SftpFileTransfer.cs:364-370 | the directories of the reversed list are the directories in reverse discovery order |
| Plans.DeletePlan | SFTP/SftpFileTransfer.cs:363-373 | one delete per file, in discovery order, then one delete per directory, in reverse discovery order |
| Plans.DeletePlanShape | SFTP/SftpFileTransfer.cs:366-373 | every entry found is deleted and every delete is of an entry found, and every file delete comes before every directory delete |
| Plans.DeletesDeepestFirst | SFTP/SftpFileTransfer.cs:364-373 | in a shallow-first accumulator, each directory is deleted after every entry of its own listing |
| Plans.DeleteSparesPath | SFTP/SftpFileTransfer.cs:370-373 | a path that is not the full name of any directory in the accumulator is never deleted as a directory |
| Plans.Creations | SFTP/SftpFileTransfer.cs:289-292 | one create per directory, in order; moving a tree onto itself creates each directory at its own name |
| Plans.Relocations | SFTP/SftpFileTransfer.cs:293-296 | one move per file, in order, each from the file's full name; moving a tree onto itself moves each file onto itself |
| Plans.MovePlan | SFTP/SftpFileTransfer.cs:289-296 | one create per directory and one move per file, with every create before every move |
| Plans.MoveTargets | SFTP/SftpFileTransfer.cs:289-296 | an entry under the source path is created or moved at the destination path plus its remainder |
| Plans.Batch | SFTP/SftpFileTransfer.cs:133-150 | a batch leaves the structure unchanged, and succeeds exactly when every file was processed |
| Plans.BatchTrace | SFTP/SftpFileTransfer.cs:133-150 | each file is downloaded and then handed to the callback, in list order; a failed batch stops at the failing file |
| Plans.BatchFaultFree | SFTP/SftpFileTransfer.cs:133-150 | on an open session with no faults and no failing callback, the whole batch completes |
| Plans.BatchStops | SFTP/SftpFileTransfer.cs:141-146 | once a file has failed, no later file is downloaded or handed to the callback |
| Operations.IsWhiteSpace | SFTP/SftpFileTransfer.cs:99 | space, tab, line feed and carriage return are white space; no character that can appear in a path name is |
| Operations.IsBlank | SFTP/SftpFileTransfer.cs:99-102 | the empty path is blank, and a path containing "/" is not |
| Operations.Prepare | SFTP/SftpFileTransfer.cs:97-102 | the client is ready exactly when the connection is accepted and, for a non-blank path, the change of directory succeeds |
| Operations.Transfer | SFTP/SftpFileTransfer.cs:93-120 | a single transfer raises exactly when preparation fails, returns true exactly when its request returned, and always ends the client |
| Operations.TransferFaultFree | SFTP/SftpFileTransfer.cs:104-118 | with no faults the trace after preparation is exactly the request, the disconnect and the end of the client, and the result is whether the request can succeed |
| Operations.ListOnce | SFTP/SftpFileTransfer.cs:23-46 | one level is listed: a refused connection raises, a failed listing gives null, otherwise the entries, or only the files with `excludeDirectories` |
| Operations.ListAll | SFTP/SftpFileTransfer.cs:48-91 | the traversal appends after the leftovers, the outermost call returns the whole accumulator, filtered once, and every client is disposed of; it raises exactly when its own connection is refused |
| Operations.ListAllFaultFree | SFTP/SftpFileTransfer.cs:48-91 | with no faults it returns the leftovers followed by the discovery order, and the filter applies to the leftovers as well |
| Operations.ListAllExactlyOnce | SFTP/SftpFileTransfer.cs:48-91 | with no faults, on a tree and from an empty accumulator, the listing returns every file and directory below the path exactly once |
| Operations.DeleteEntire | SFTP/SftpFileTransfer.cs:354-387 | raises only on a refused connection, returns true exactly when the listing and every delete succeed, clears the accumulator only then, and disposes of every client |
| Operations.DeleteSparesRoot | SFTP/SftpFileTransfer.cs:361-373 | when no leftover directory has the target's name, the target root is never deleted, whatever fails during the listing |
| Operations.DeletesDeepestFirstFaultFree | SFTP/SftpFileTransfer.cs:361-373 | on a server where nothing fails, the delete of a freshly listed tree removes each directory only after every entry of its own listing |
| Operations.MoveEntire | SFTP/SftpFileTransfer.cs:278-311 | raises exactly when its own connection is refused; returns true exactly when the listing returns, `Replace` does not throw on an empty source path, every create and move returns, and the recursive delete's connection is accepted; every failure path clears the accumulator; every client is disposed of |
| Operations.MoveIgnoresFailedDelete | SFTP/SftpFileTransfer.cs:297-302 | a recursive delete that returns false still leaves the move returning true, with the delete's listing left in the accumulator |
| Operations.DownloadAll | SFTP/SftpFileTransfer.cs:122-152 | raises exactly when preparation fails, returns true exactly when the whole batch succeeds, and leaves the structure unchanged |
| FileTransfer.FilesOf | SFTP/SftpFileTransfer.cs:80-82 | `Where(x => !x.IsDirectory)` over objects stands for the file entries of the accumulator, in the order `Files` gives them |
| FileTransfer.ReversedObjects | SFTP/SftpFileTransfer.cs:364 | `Reverse()` over objects gives their entries in reverse order |
| FileTransfer.NewObjects | SFTP/SftpFileTransfer.cs:31 | one new object per listed entry, in order |
| FileTransfer.MemoryStream.constructor | SFTP/SftpFileTransfer.cs:106 | a new buffer is at position 0 |
| FileTransfer.FileTransferObject.constructor | SFTP/SftpFileTransfer.cs:56 | an object made from an entry has its name, full name and kind, and no buffer |
| FileTransfer.SftpFileTransfer.constructor | SFTP/SftpFileTransfer.cs:16-21 | the accumulator starts empty |
| FileTransfer.SftpFileTransfer.Add | SFTP/SftpFileTransfer.cs:62 | appends one new object for the entry to the accumulator and keeps the objects already there |
| FileTransfer.SftpFileTransfer.AppendFiles | SFTP/SftpFileTransfer.cs:58-64 | appends exactly the level's files, in listing order, and leaves the session untouched; the objects already there are kept and the new ones are fresh |
| FileTransfer.SftpFileTransfer.AppendSubdirs | SFTP/SftpFileTransfer.cs:65-71 | appends exactly the level's directories other than "." and "..", in listing order, and leaves the session untouched; the objects already there are kept and the new ones are fresh |
| FileTransfer.SftpFileTransfer.AppendLevel | SFTP/SftpFileTransfer.cs:58-71 | appends the level's files, then its directories other than "." and "..", and nothing else; the objects already there are kept and the new ones are fresh |
| FileTransfer.SftpFileTransfer.GetDirectoryListing | SFTP/SftpFileTransfer.cs:23-46 | state and result are those of `ListOnce`, and the accumulator is untouched |
| FileTransfer.SftpFileTransfer.GetAllDirectoryListings | SFTP/SftpFileTransfer.cs:48-91 | state, appended entries and result are those of `Crawl`; a normal return gives the whole accumulator, filtered with `excludeDirectories` |
| FileTransfer.SftpFileTransfer.ListSubfolders | SFTP/SftpFileTransfer.cs:72-78 | the loop of recursive calls does what `CrawlEach` says, and reports whether a call threw |
| FileTransfer.SftpFileTransfer.FindAllFilesToMove | SFTP/SftpFileTransfer.cs:313-351 | state and appended entries are those of `Gather`; it returns null exactly when the listing failed |
| FileTransfer.SftpFileTransfer.FindInSubfolders | SFTP/SftpFileTransfer.cs:333-339 | the loop of shared-session recursive calls does what `GatherEach` says |
| FileTransfer.SftpFileTransfer.SendNext | SFTP/SftpFileTransfer.cs:366-373 | one call of a delete, create or move loop is the next step of the run, and a call that throws ends the run |
| FileTransfer.SftpFileTransfer.DeleteFiles | SFTP/SftpFileTransfer.cs:366-369 | deletes the files of the listing in order, and stops at the first that throws |
| FileTransfer.SftpFileTransfer.DeleteDirectories | SFTP/SftpFileTransfer.cs:370-373 | deletes the directories of the reversed listing in order, and stops at the first that throws |
| FileTransfer.SftpFileTransfer.RunDeletes | SFTP/SftpFileTransfer.cs:363-373 | the two delete loops together run the delete plan of the accumulator |
| FileTransfer.SftpFileTransfer.DeleteEntireDirectory | SFTP/SftpFileTransfer.cs:354-387 | state, accumulator and result are those of `DeleteEntire` |
| FileTransfer.SftpFileTransfer.CreateDirectories | SFTP/SftpFileTransfer.cs:289-292 | creates each directory at its replaced path, in order, and stops at the first that throws |
| FileTransfer.SftpFileTransfer.MoveFiles | SFTP/SftpFileTransfer.cs:293-296 | moves each file to its replaced path, in order, and stops at the first that throws |
| FileTransfer.SftpFileTransfer.RunMoves | SFTP/SftpFileTransfer.cs:287-296 | the two loops together run the move plan of the accumulator |
| FileTransfer.SftpFileTransfer.MoveEntireDirectory | SFTP/SftpFileTransfer.cs:278-311 | state, accumulator and result are those of `MoveEntire` |
| FileTransfer.SftpFileTransfer.Open | SFTP/SftpFileTransfer.cs:95-102 | connects and changes directory as `Prepare` says, and reports whether the client is ready |
| FileTransfer.SftpFileTransfer.DownloadFile | SFTP/SftpFileTransfer.cs:93-120 | state and result are those of `Transfer` with one download, and a ready client attaches a fresh buffer to the file |
| FileTransfer.SftpFileTransfer.DownloadNext | SFTP/SftpFileTransfer.cs:135-146 | one file gets a fresh buffer, is downloaded and handed to the callback, as the next step of `Batch` |
| FileTransfer.SftpFileTransfer.DownloadEach | SFTP/SftpFileTransfer.cs:133-147 | the loop does what `Batch` says; files up to the failing one get fresh buffers, and the others keep theirs |
| FileTransfer.SftpFileTransfer.DownloadFiles | SFTP/SftpFileTransfer.cs:122-152 | state and result are those of `DownloadAll`; the files attempted get fresh buffers, and the others keep theirs |
| FileTransfer.SftpFileTransfer.UploadFile | SFTP/SftpFileTransfer.cs:154-181 | state and result are those of `Transfer` with one upload from position 0; with no buffer nothing is sent and it returns false |
| FileTransfer.SftpFileTransfer.DeleteFile | SFTP/SftpFileTransfer.cs:249-276 | state and result are those of `Transfer` with one file delete; the client is disconnected whatever the outcome |

## Left out

- SSH.NET: authentication, the wire protocol, and how the library produces
  `FullName`. Each client call is one step of the `Store`: it succeeds unless
  the fault set or the directory structure says otherwise.
- Directories created and files moved by a move never appear in later
  listings; listings come from the server's fixed listing map minus what was
  removed. A listing of the destination during the same move is therefore
  not modelled.
- `FileTransferObject.MoveFile` is not part of this model. It is taken to
  rename the file over the move's shared session. Entries left over in the
  accumulator from an earlier call were listed by a client that has since
  been disposed of, so the source plausibly cannot rename those at all; the
  model sends their moves over the move's session like any other.
- Cyclic listings: `FileSystem.Valid` requires a rank that decreases from
  each directory to every subdirectory it lists. A server whose listings
  form a cycle (a directory listing one of its ancestors) is excluded; on
  such a server the source would recurse without bound.
- Parent directories: a `CreateDirectory` succeeds whenever its path does
  not exist, and a `MoveFile` whenever its source has not been removed. The
  model does not check that the parent of the new path exists.
- Buffer contents: the bytes downloaded or uploaded, and the buffer position
  after a transfer. Only the rewind to 0 before an upload is modelled.
- The current directory after `ChangeDirectory`: a request carries the name
  it was given, and relative names are not resolved.
- `async`/`await` and `Task`: everything runs sequentially. A faulted task is
  modelled by the exception it rethrows at `await` or `.Result`.
- The batch callback is modelled as a trace step and a set of positions at
  which it throws. What it does with the file is not modelled.
- LINQ laziness and aliasing: a listing returns the accumulator as it is at
  the moment of return. In the source the returned `Where` or the list itself
  stays live, and later appends would show through it.
- Null arguments (a null path, name, file list or callback) are not
  modelled.
- Exception types and messages: every exception is one failure outcome.
- `UploadDirectoryAsync`: it is driven by local file system enumeration and
  console output.
- `CreateRemoteFolder`: a one-call wrapper that never connects.
- Settings and credentials.
- Traversal.Crawl: the shallow-first order and the exact discovery order are
  proved for a server without faults (`Walk`). With faults, the exact
  entries appended are given by `Crawl` itself, and `Traversal.CrawlEntries`
  bounds them, but no order lemma is stated for a partial traversal. When the
  listing returns null is stated for two cases only: a server that refuses
  no connection (`Traversal.CrawlOutcome`), and a refused connection for
  the first subdirectory (`Traversal.RefusedChildNullsParent`).
- Operations.MoveEntire: after a successful move, the accumulator is
  whatever the recursive delete leaves in it: empty unless that delete
  returned false, and then the delete's own listing
  (`Operations.MoveIgnoresFailedDelete`). No lemma relates a whole
  fault-free move to the resulting directory tree.

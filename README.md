# QSsh SftpFileSystemModel — a verified Dafny model of its directory tree

QSsh's `SftpFileSystemModel` is a read-only Qt item model of a remote file
system reached over SFTP. Directories are listed lazily. The first time a
view asks for the row count of a directory, the model sends a listing request
down the SFTP channel and answers 0. When the listing comes back, each entry
other than "." and ".." becomes a child node, inserted in case-insensitive
name order. Each request to the channel returns a job id. The model matches
results to requests through three tables:

- `statJobId`: the pending stat of the root directory;
- `lsOps`: listing jobs and the directory each one lists;
- `externalJobs`: the download, upload and remove jobs.

This project models that core:

- the node hierarchy;
- the sorted child insertion `SftpDirNode::insertChild`;
- root handling;
- the lazy listing started by `rowCount`;
- `index`, `parent`, `data` and `flags`;
- the name filters;
- `update`;
- the transfer bookkeeping;
- the two completion handlers `handleFileInfo` and `handleSftpJobFinished`.

Representation:

- Nodes live in an arena, `nodes: seq<Node>`. A `NodeId` is a position in it.
- The parent pointer is `Option<NodeId>`.
- A directory's children are a `seq<NodeId>`.
- The model object is the class `FileSystemModel.SftpFileSystemModel`. Its fields are the source's private state.
- A model index (`ModelIndex`) is either the default index, which carries no node, or a `NodeIndex(row, column, node)`. As with `QModelIndex::isValid()`, a `NodeIndex` is valid (`IsValid`) only when its row and column are not negative. `parent()` can build a `NodeIndex` with row -1, which is therefore not valid.
- The SFTP channel is an oracle. Every method that asks the channel for a job takes the id the channel returned as a parameter, `job`. It appends the request it made to the `requests` log.

Files:

- `sftp_types.dfy`: job ids, file info, `Option`.
- `names.dfy`: ASCII case folding, the case-insensitive comparison, the last path segment, child paths.
- `glob.dfy`: the whole-name wildcard matcher used by the name filters.
- `nodes.dfy`: nodes, their constructors, and sorted insertion (specification, lemmas, and the scanning method).
- `tree.dfy`: arena well-formedness, and merging a listing into a directory.
- `model.dfy`: the model class.

The invariant `Valid()` (`StateOk`) says:

- the root is a parentless directory;
- a directory that has never been listed has no children;
- every listing job names a directory whose listing has started;
- every directory's children are in the arena, distinct and sorted, and each points back at that directory.

Every method that changes the root, the listing table or the arena requires and keeps `Valid()`. The other methods (`StatRootDirectory`, `SetNameFilters` and the transfers) change only fields that `Valid()` does not depend on.

## Model

| member | source | states |
|---|---|---|
| Nodes.NewFileNode | src/libs/ssh/sftpfilesystemmodel.h:49 | a new file node has no parent and is not a directory |
| Nodes.NewDirNode | src/libs/ssh/sftpfilesystemmodel.h:61 | a new directory node has no parent, has never been listed, and has no children |
| Names.CompareCI | src/libs/ssh/sftpfilesystemmodel.h:78 | the case-insensitive name comparison yields -1, 0 or 1; the insertion loop uses only its sign |
| Names.CompareCIPrefix | src/libs/ssh/sftpfilesystemmodel.h:78 | a name that is a proper prefix of another sorts before it |
| Names.CompareCIAntisymmetric | src/libs/ssh/sftpfilesystemmodel.h:78 | swapping the operands of the case-insensitive name comparison negates its result |
| Names.CompareCITransitive | src/libs/ssh/sftpfilesystemmodel.h:78 | the case-insensitive "not after" order is transitive, so the sort order is a preorder |
| Names.CompareCIZero | src/libs/ssh/sftpfilesystemmodel.h:78 | two names compare equal exactly when they have the same length and agree letter by letter up to ASCII case |
| Nodes.InsertionPoint | src/libs/ssh/sftpfilesystemmodel.h:76-89 | the insertion point is the first child the new node does not sort after; every earlier child sorts strictly before it; it is the end when none qualifies |
| Nodes.InsertChild | src/libs/ssh/sftpfilesystemmodel.h:64-90 | the scanning insertion computes exactly the insertion specification; an already present node leaves the children unchanged; an empty list becomes exactly the new node |
| Nodes.InsertedAt | src/libs/ssh/sftpfilesystemmodel.h:74-89 | a fresh insert grows the list by one, puts the node at the insertion point, keeps the children before and after it in their order, and adds exactly the new node to the multiset |
| Nodes.InsertedSorted | src/libs/ssh/sftpfilesystemmodel.h:74-89 | inserting into children sorted by case-insensitive name keeps them sorted |
| Nodes.InsertedDistinct | src/libs/ssh/sftpfilesystemmodel.h:66-67 | inserting keeps the children free of repeats, because a node already present is not inserted again |
| Nodes.InsertedElements | src/libs/ssh/sftpfilesystemmodel.h:64-90 | after an insert the children are the old children plus the new node, and nothing else |
| Nodes.SameNameOtherNodeIsAdded | src/libs/ssh/sftpfilesystemmodel.h:66 | deduplication is by node identity: a different node with an equal name, up to case, is still added |
| Names.FileName | src/libs/ssh/sftpfilesystemmodel.cpp:446 | the last path segment has no slash, ends the path, and follows a slash when it is not the whole path |
| Names.ChildPath | src/libs/ssh/sftpfilesystemmodel.cpp:470-473 | a child path is the parent path, a '/' only when the parent path does not end in one, then the name |
| Names.ChildPathFileName | src/libs/ssh/sftpfilesystemmodel.cpp:470-473 | the last segment of a child path is the child's name whenever the name has no slash |
| Glob.Matches | src/libs/ssh/sftpfilesystemmodel.cpp:282-284 | a name filter is matched against the whole name; the pattern "*" matches every name, the empty one included |
| Glob.LiteralMatches | src/libs/ssh/sftpfilesystemmodel.cpp:280-285 | a pattern without wildcards matches a name exactly when the two are equal up to case |
| Glob.StarSuffixMatches | src/libs/ssh/sftpfilesystemmodel.cpp:280-285 | "*" followed by a literal suffix matches exactly the names that end in that suffix, up to case |
| FileSystemModel.SuffixFilter | src/libs/ssh/sftpfilesystemmodel.cpp:271-291 | with the single filter "*suffix", directories pass, and a file passes exactly when its name ends in the suffix, up to case |
| FileSystemModel.RootName | src/libs/ssh/sftpfilesystemmodel.cpp:445-446 | the root node's name is "/" for the file-system root; otherwise it is the last segment of the root path: slash-free, ending the path, and preceded by a '/' when it is not the whole path |
| FileSystemModel.RootNameOfChildPath | src/libs/ssh/sftpfilesystemmodel.cpp:445-446 | a root directory given as a child path is named after that child |
| FileSystemModel.FilterDotEntries | src/libs/ssh/sftpfilesystemmodel.cpp:452-456 | the filtering loop keeps, in order, exactly the entries other than "." and ".." |
| Tree.DropDotEntries | src/libs/ssh/sftpfilesystemmodel.cpp:452-456 | the filtered listing has no "." or ".." entry, and every other entry of the listing is in it |
| Tree.ChildNode | src/libs/ssh/sftpfilesystemmodel.cpp:464-476 | a listing entry becomes a directory node exactly when its type is Directory; it is never listed and has no children; it keeps the entry's file info; its parent is the listed directory; its path ends in the entry's name |
| Tree.WithChildShape | src/libs/ssh/sftpfilesystemmodel.cpp:464-477 | merging one entry appends its node, inserts it into the directory's children, and changes no other node |
| Tree.MergedStep | src/libs/ssh/sftpfilesystemmodel.cpp:464-477 | each iteration of the merge loop extends the merge of the entries so far by the next entry |
| Tree.MergedChildren | src/libs/ssh/sftpfilesystemmodel.cpp:464-477 | after a listing is merged, the directory's children are still sorted, and they are exactly its old children plus one new node per entry |
| Tree.InsertAllSorted | src/libs/ssh/sftpfilesystemmodel.cpp:464-477 | inserting a batch of children one after another keeps the children sorted |
| Tree.InsertAllAdds | src/libs/ssh/sftpfilesystemmodel.cpp:464-477 | a batch of distinct new nodes adds exactly those nodes to the children |
| Tree.FirstIndex | src/libs/ssh/sftpfilesystemmodel.cpp:334 | indexOf returns -1 exactly when the element is absent; otherwise it returns the position of its first occurrence |
| FileSystemModel.SftpFileSystemModel.constructor | src/libs/ssh/sftpfilesystemmodel.cpp:78-85 | a new model has root directory "/", no root node, no pending stat job, and empty job tables |
| FileSystemModel.SftpFileSystemModel.StatRootDirectory | src/libs/ssh/sftpfilesystemmodel.cpp:355-358 | statting the root records the returned id as the pending stat job and requests a stat of the root directory |
| FileSystemModel.SftpFileSystemModel.SetRootDirectory | src/libs/ssh/sftpfilesystemmodel.cpp:107-117 | setting the root directory drops the root node, clears the listing table, and issues one new stat job for the new path |
| FileSystemModel.SftpFileSystemModel.ShutDown | src/libs/ssh/sftpfilesystemmodel.cpp:360-374 | shutting down drops the root node only; the listing table is kept |
| FileSystemModel.SftpFileSystemModel.RowCount | src/libs/ssh/sftpfilesystemmodel.cpp:337-353 | rowCount is 0 with no root, 1 for a parent that is not valid, and 0 for a column other than 0 or a file; a never-listed directory gets exactly one new listing job, is left being listed with no children, and the count is 0, now and on every later call until entries arrive; otherwise the count is the child count and nothing changes |
| FileSystemModel.SftpFileSystemModel.IndexAt | src/libs/ssh/sftpfilesystemmodel.cpp:305-318 | index() gives a node exactly when 0 <= row < rowCount(parent) and 0 <= column < 2, and that index is valid and records where its node sits; under a parent that is not valid it names the root; otherwise it names a child of the parent |
| FileSystemModel.SftpFileSystemModel.Index | src/libs/ssh/sftpfilesystemmodel.cpp:305-318 | index() returns IndexAt, and may start the parent's listing through rowCount() |
| FileSystemModel.SftpFileSystemModel.ParentOf | src/libs/ssh/sftpfilesystemmodel.cpp:320-335 | parent() gives no node for an index that is not valid or for the root; otherwise it gives the child's parent directory in column 0, and that index is valid exactly when its row is the directory's position (0 for the root, its place among the grandparent's children otherwise) |
| FileSystemModel.SftpFileSystemModel.DetachedParent | src/libs/ssh/sftpfilesystemmodel.cpp:332-334 | a parent index whose directory is no longer among the grandparent's children has row -1 and is not valid, so it acts as the default index: no flags, the default index's row count (1 while a root exists, 0 otherwise), index() under it names the root, update() refreshes the root |
| FileSystemModel.SftpFileSystemModel.ParentOfIndex | src/libs/ssh/sftpfilesystemmodel.cpp:305-335 | parent() inverts index(): the root reached from a parent that is not valid has the default parent; the parent of an entry reached from index q is q in column 0 (the root at (0, 0); any other directory at its indexOf in its own parent's children) |
| FileSystemModel.SftpFileSystemModel.RowsInNameOrder | src/libs/ssh/sftpfilesystemmodel.cpp:186-202 | the rows under a directory show distinct entries, with their names in case-insensitive order |
| FileSystemModel.SftpFileSystemModel.Data | src/libs/ssh/sftpfilesystemmodel.cpp:186-202 | for the display and edit roles, column 0 shows the entry's name, column 1 its size, any other column nothing, and an index without a node the empty text; the row is not consulted; the path role gets no answer |
| FileSystemModel.SftpFileSystemModel.Flags | src/libs/ssh/sftpfilesystemmodel.cpp:255-269 | an entry is selectable exactly when the index is valid, and enabled exactly when it is also accepted by the name filters |
| FileSystemModel.SftpFileSystemModel.PassNameFilters | src/libs/ssh/sftpfilesystemmodel.cpp:271-291 | the pattern scan accepts exactly when the filter list is empty, the entry is a directory, or some pattern matches the whole name up to case |
| FileSystemModel.SftpFileSystemModel.SetNameFilters | src/libs/ssh/sftpfilesystemmodel.cpp:244-248 | the filter list is replaced |
| FileSystemModel.SftpFileSystemModel.UpdateTarget | src/libs/ssh/sftpfilesystemmodel.cpp:378-391 | update() targets the indexed node's parent, or the root when the index is not valid or the node has no parent; the target is a directory |
| FileSystemModel.SftpFileSystemModel.Update | src/libs/ssh/sftpfilesystemmodel.cpp:376-397 | update() empties the target's children, registers one new listing job for it, and leaves it being listed |
| FileSystemModel.SftpFileSystemModel.DownloadFile | src/libs/ssh/sftpfilesystemmodel.cpp:124-135 | download returns the invalid id, with no change, when there is no root or no entry; otherwise it requests the entry's path and records the returned id unless that id is invalid |
| FileSystemModel.SftpFileSystemModel.DownloadFileToDevice | src/libs/ssh/sftpfilesystemmodel.cpp:167-178 | the same bookkeeping as the download to a file |
| FileSystemModel.SftpFileSystemModel.UploadFile | src/libs/ssh/sftpfilesystemmodel.cpp:137-145 | upload needs a root but no index; it records the returned id unless that id is invalid |
| FileSystemModel.SftpFileSystemModel.RemoveFile | src/libs/ssh/sftpfilesystemmodel.cpp:147-165 | remove needs a root and an entry; it requests removal of the entry's path and records the returned id unless that id is invalid |
| FileSystemModel.SftpFileSystemModel.HandleSftpJobFinished | src/libs/ssh/sftpfilesystemmodel.cpp:484-511 | the stat id clears the pending stat job; a listing id marks its directory as listed and leaves the table; an external id is removed once; an unknown id changes nothing; a failure is reported exactly for a stat or listing job with an error message |
| FileSystemModel.SftpFileSystemModel.AddChild | src/libs/ssh/sftpfilesystemmodel.cpp:465-477 | one iteration of the merge loop appends the entry's node and inserts it into the directory's children (WithChild), keeping the model well formed |
| FileSystemModel.SftpFileSystemModel.MergeListing | src/libs/ssh/sftpfilesystemmodel.cpp:464-477 | the merge loop merges every entry, in order, into the listed directory |
| FileSystemModel.SftpFileSystemModel.HandleFileInfo | src/libs/ssh/sftpfilesystemmodel.cpp:437-482 | stat info creates a fresh root directory node, named by RootName; a listing adds one child per entry other than "." and ".." to the directory the job lists; with no such entry nothing changes |

## Left out

- Connection and channel plumbing is not modelled. This covers `setSshConnection`, the connection and channel handlers, and the channel release in `shutDown`. The channel is only a source of job ids, which callers pass in.
- Qt signals and the view protocol are not modelled (`beginResetModel`, `layoutChanged`, `sftpOperationFailed`, `sftpOperationFinished`). `HandleSftpJobFinished` returns the job kind and whether a failure would be reported.
- The mutex in the device overload of `downloadFile` is concurrency and is not modelled.
- Decoration icons, text alignment and `headerData` are presentation only.
- `columnCount` is the constant `ColumnCount` (2). It needs no member of its own.
- The `rootDirectory()` getter is the field itself.
- `Glob.Matches`: bracket classes of Qt's wildcard syntax are not modelled, only `*` and `?` over the whole name. Qt's wildcard conversion keeps `*` and `?` from matching '/', while the model's may match it; entry names from a listing never contain '/', so no filtered name is affected. Like `Names.CompareCI`, it folds ASCII letters only, where Qt's case-insensitive match folds Unicode case.
- `Names.CompareCI`: it folds ASCII letters only, instead of Qt's Unicode case folding. It also compares whole characters (code points), while `QString::compare` compares UTF-16 code units, so a name with a character beyond U+FFFF (a surrogate pair) can sort differently against one with a character in U+E000 to U+FFFF.
- `Names.FileName`: it is plain "text after the last '/'", instead of `QFileInfo::fileName`.
- Memory management is not modelled. Nodes that the source deletes or leaks stay in the arena, unreachable from the root. This applies to `setRootDirectory`, `shutDown`, `update` and a repeated stat.
- sftpdefs.h is not part of this model. `SftpInvalidJob` is taken to be 0.
- `QSSH_ASSERT` only logs. The listing-state check in `handleSftpJobFinished` is therefore not a precondition.
- `QSSH_ASSERT_AND_RETURN` logs and returns. An unknown id in `handleSftpJobFinished` therefore changes nothing.
- `FileSystemModel.SftpFileSystemModel.HandleFileInfo` requires a non-empty list for the stat job, because `first()` of an empty list is undefined.
- `FileSystemModel.SftpFileSystemModel.HandleFileInfo` requires a known listing job whenever entries remain after filtering. The source's check is commented out, so an unknown id dereferences a null directory.
- `FileSystemModel.SftpFileSystemModel.Update` requires a target directory. With no root, `update()` dereferences null.
- `FileSystemModel.SftpFileSystemModel.ParentOf` requires that a valid index name the root or a node with a parent. For a parentless node other than the root (a root replaced by a later stat), the source dereferences a null parent at sftpfilesystemmodel.cpp:332 when a root exists, and returns an index carrying no node when there is none, which `ModelIndex` cannot express.
- The model keeps these quirks of the code, where the code departs from what its design suggests:
  - `insertChild` deduplicates by node identity, not by name;
  - `handleFileInfo` does not ignore an unknown listing id;
  - `data()` does not answer the path role;
  - `update()` refreshes the parent of the indexed node, not the node itself;
  - `shutDown()` keeps the listing table.

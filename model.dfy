/** The lazily listed remote directory tree: root handling, lazy listing on
    row counting, the job correlation tables, coordinate mapping, name
    filtering, and the transfer bookkeeping.

    The SFTP channel is an oracle: wherever the model asks the channel for a
    job, the caller supplies the id the channel returned (`job`), and the
    request itself is appended to `requests`. */
module FileSystemModel {
  import opened SftpTypes
  import opened Names
  import opened Glob
  import opened Nodes
  import opened Tree

  /** A model index: the default index, which names no node, or a (row,
      column) carrying a node.  An index carrying a node may still have a
      negative row (parent() builds one for a directory that is no longer
      among its parent's children). */
  datatype ModelIndex = InvalidIndex | NodeIndex(row: int, column: int, node: NodeId)

  /** QModelIndex::isValid(): a node and a row and column that are not
      negative. */
  predicate IsValid(idx: ModelIndex)
  {
    idx.NodeIndex? && idx.row >= 0 && idx.column >= 0
  }

  /** A request made of the SFTP channel. */
  datatype Request =
    | StatRequest(path: string)
    | ListRequest(path: string)
    | DownloadRequest(path: string, target: string)
    | DownloadToDeviceRequest(path: string, size: nat)
    | UploadRequest(localPath: string, target: string)
    | RemoveRequest(path: string)

  /** The data roles the model answers; PathRole is the user role reserved for
      a node's full path. */
  datatype Role = DisplayRole | EditRole | PathRole

  datatype Variant = NoValue | Text(text: string) | Size(size: nat)

  datatype ItemFlags = ItemFlags(selectable: bool, enabled: bool)

  /** Which table a finished job was found in. */
  datatype FinishedJob = StatJob | ListingJob(node: NodeId) | ExternalJob | UnknownJob

  /** Two columns: file name and file size. */
  const ColumnCount: int := 2

  /** Name given to the root node: "/" for the file-system root, otherwise the
      last segment of the root path. */
  function RootName(rootDirectory: string): (r: string)
    ensures rootDirectory == "/" ==> r == "/"
    ensures rootDirectory != "/" ==> '/' !in r
    ensures rootDirectory != "/" ==> |r| <= |rootDirectory| && rootDirectory[|rootDirectory| - |r|..] == r
    ensures rootDirectory != "/" && |r| < |rootDirectory| ==> rootDirectory[|rootDirectory| - |r| - 1] == '/'
  {
    if rootDirectory == "/" then "/" else FileName(rootDirectory)
  }

  /** A root set to some directory's child path is named after that child. */
  lemma RootNameOfChildPath(dirPath: string, name: string)
    requires name != [] && '/' !in name
    ensures RootName(ChildPath(dirPath, name)) == name
  {
  }

  /** The name filter: everything passes an empty filter list, directories
      always pass, and a file passes when some pattern matches its whole name. */
  predicate PassesFilters(filters: seq<string>, fileInfo: FileInfo)
  {
    || filters == []
    || fileInfo.fileType == Directory
    || exists k :: 0 <= k < |filters| && Matches(filters[k], fileInfo.name)
  }

  /** A single "*<suffix>" filter, with no other wildcard, enables the
      directories and exactly the files whose names end in the suffix, ignoring
      case. */
  lemma SuffixFilter(suffix: string, fileInfo: FileInfo)
    requires forall i :: 0 <= i < |suffix| ==> !IsWildcard(suffix[i])
    ensures PassesFilters(["*" + suffix], fileInfo) <==>
              || fileInfo.fileType == Directory
              || (|suffix| <= |fileInfo.name|
                  && CompareCI(suffix, fileInfo.name[|fileInfo.name| - |suffix|..]) == 0)
  {
    StarSuffixMatches(suffix, fileInfo.name);
    var filters := ["*" + suffix];
    assert (exists k :: 0 <= k < |filters| && Matches(filters[k], fileInfo.name))
           <==> Matches(filters[0], fileInfo.name);
  }

  /** The listing bookkeeping: a directory that has never been listed has no
      children, and every listing job names a directory whose listing has
      started (rowCount() and update() mark it before registering the job). */
  ghost predicate ListingOk(lsOps: map<JobId, NodeId>, nodes: seq<Node>)
  {
    && (forall n :: 0 <= n < |nodes| && nodes[n].IsDir() && nodes[n].kind.lsState == LsNotYetCalled ==>
          nodes[n].kind.children == [])
    && (forall j :: j in lsOps ==>
          lsOps[j] < |nodes| && nodes[lsOps[j]].IsDir() && nodes[lsOps[j]].kind.lsState != LsNotYetCalled)
  }

  /** The model's invariant: the root is a parentless directory, the listing
      bookkeeping holds, and the arena is well formed. */
  ghost predicate StateOk(rootNode: Option<NodeId>, lsOps: map<JobId, NodeId>, nodes: seq<Node>)
  {
    && (rootNode.Some? ==>
          rootNode.value < |nodes| && nodes[rootNode.value].IsDir() && nodes[rootNode.value].parent == None)
    && ListingOk(lsOps, nodes)
    && TreeOk(nodes)
  }

  lemma StateOkExtends(rootNode: Option<NodeId>, lsOps: map<JobId, NodeId>, a: seq<Node>, b: seq<Node>)
    requires StateOk(rootNode, lsOps, a) && Extends(a, b) && TreeOk(b) && ListingOk(lsOps, b)
    ensures StateOk(rootNode, lsOps, b)
  {
  }

  /** The first loop of handleFileInfo(): keep every entry but "." and "..". */
  method FilterDotEntries(fileInfoList: seq<FileInfo>) returns (filtered: seq<FileInfo>)
    ensures filtered == DropDotEntries(fileInfoList)
  {
    filtered := [];
    var i := 0;
    while i < |fileInfoList|
      invariant 0 <= i <= |fileInfoList|
      invariant filtered == DropDotEntries(fileInfoList[..i])
    {
      ghost var before := filtered;
      if !IsDotEntry(fileInfoList[i].name) {
        filtered := filtered + [fileInfoList[i]];
      }
      DropDotEntriesStep(fileInfoList, i, before, filtered);
      i := i + 1;
    }
    assert fileInfoList[..i] == fileInfoList;
  }

  /** Merging one listing entry keeps the model's state well formed. */
  lemma WithChildStateOk(rootNode: Option<NodeId>, lsOps: map<JobId, NodeId>, nodes: seq<Node>, p: NodeId, fi: FileInfo)
    requires StateOk(rootNode, lsOps, nodes) && p < |nodes| && nodes[p].IsDir()
    requires nodes[p].kind.lsState != LsNotYetCalled
    ensures StateOk(rootNode, lsOps, WithChild(nodes, p, fi))
  {
    assert NodeOk(nodes, p);
    WithChildShape(nodes, p, fi);
    WithChildOk(nodes, p, fi);
    var r := WithChild(nodes, p, fi);
    assert ListingOk(lsOps, r) by {
      forall n | 0 <= n < |r| && r[n].IsDir() && r[n].kind.lsState == LsNotYetCalled
        ensures r[n].kind.children == []
      {
        if n < |nodes| {
          assert n != p;
        }
      }
    }
    StateOkExtends(rootNode, lsOps, nodes, WithChild(nodes, p, fi));
  }

  /** Removing the element at `i` removes exactly one occurrence of it. */
  lemma RemovedOnce(s: seq<JobId>, i: nat)
    requires i < |s|
    ensures multiset(s[..i] + s[i + 1..]) == multiset(s) - multiset{s[i]}
  {
    assert s == s[..i] + [s[i]] + s[i + 1..];
  }

  class SftpFileSystemModel {
    var rootDirectory: string
    var rootNode: Option<NodeId>
    /** Pending stat job of the root directory, InvalidJob when none. */
    var statJobId: JobId
    /** Listing jobs in flight and the directory each one lists. */
    var lsOps: map<JobId, NodeId>
    /** Download, upload and remove jobs in flight. */
    var externalJobs: seq<JobId>
    var nameFilters: seq<string>
    /** Every node ever created; a NodeId stays valid for the model's lifetime. */
    var nodes: seq<Node>
    /** Requests made of the SFTP channel, oldest first. */
    var requests: seq<Request>

    ghost predicate Valid()
      reads this
    {
      StateOk(rootNode, lsOps, nodes)
    }

    /** An index that refers to a node of the arena (or none). */
    predicate IndexOk(idx: ModelIndex)
      reads this
    {
      idx.NodeIndex? ==> idx.node < |nodes|
    }

    constructor ()
      ensures Valid()
      ensures rootDirectory == "/" && rootNode == None && statJobId == InvalidJob
      ensures lsOps == map[] && externalJobs == [] && nameFilters == []
      ensures nodes == [] && requests == []
    {
      rootDirectory := "/";
      rootNode := None;
      statJobId := InvalidJob;
      lsOps := map[];
      externalJobs := [];
      nameFilters := [];
      nodes := [];
      requests := [];
    }

    /** Issue the stat job for the configured root directory. */
    method StatRootDirectory(job: JobId)
      modifies this`statJobId, this`requests
      ensures statJobId == job
      ensures requests == old(requests) + [StatRequest(rootDirectory)]
    {
      statJobId := job;
      requests := requests + [StatRequest(rootDirectory)];
    }

    /** Drop the tree and the listing table, forget the pending stat job, and
        stat the new root. */
    method SetRootDirectory(path: string, job: JobId)
      requires Valid()
      modifies this`rootDirectory, this`rootNode, this`lsOps, this`statJobId, this`requests
      ensures Valid()
      ensures rootDirectory == path && rootNode == None && lsOps == map[]
      ensures statJobId == job
      ensures requests == old(requests) + [StatRequest(path)]
    {
      rootDirectory := path;
      rootNode := None;
      lsOps := map[];
      statJobId := InvalidJob;
      StatRootDirectory(job);
    }

    /** Drop the tree.  The listing table is left as it is. */
    method ShutDown()
      requires Valid()
      modifies this`rootNode
      ensures Valid() && rootNode == None
    {
      rootNode := None;
    }

    /** The directory `parent` addresses is listed lazily: it is a directory,
        in column 0, under an existing root, and has never been listed. */
    predicate StartsListing(parent: ModelIndex)
      reads this
      requires IndexOk(parent)
    {
      && rootNode.Some? && IsValid(parent) && parent.column == 0
      && nodes[parent.node].IsDir() && nodes[parent.node].kind.lsState == LsNotYetCalled
    }

    /** The number of rows under `parent` as rowCount reports it. */
    function RowCountOf(parent: ModelIndex): int
      reads this
      requires IndexOk(parent)
    {
      if rootNode.None? then 0
      else if !IsValid(parent) then 1
      else if parent.column != 0 then 0
      else if !nodes[parent.node].IsDir() then 0
      else if nodes[parent.node].kind.lsState == LsNotYetCalled then 0
      else |nodes[parent.node].kind.children|
    }

    /** rowCount: the row count, and on the first visit of a directory the
        listing job for it, registered in lsOps, with the directory marked
        as being listed. */
    method RowCount(parent: ModelIndex, job: JobId) returns (n: int)
      requires Valid() && IndexOk(parent)
      modifies this`nodes, this`lsOps, this`requests
      ensures Valid()
      ensures n == old(RowCountOf(parent))
      ensures old(StartsListing(parent)) ==>
                && nodes == old(nodes[parent.node := nodes[parent.node].(kind := nodes[parent.node].kind.(lsState := LsRunning))])
                && lsOps == old(lsOps)[job := parent.node]
                && requests == old(requests) + [ListRequest(old(nodes[parent.node].path))]
      ensures old(StartsListing(parent)) ==>
                nodes[parent.node].kind == DirKind(LsRunning, []) && RowCountOf(parent) == 0
      ensures !old(StartsListing(parent)) ==>
                nodes == old(nodes) && lsOps == old(lsOps) && requests == old(requests)
    {
      if rootNode.None? {
        return 0;
      }
      if !IsValid(parent) {
        return 1;
      }
      if parent.column != 0 {
        return 0;
      }
      var dirNode := nodes[parent.node];
      if !dirNode.IsDir() {
        return 0;
      }
      if dirNode.kind.lsState != LsNotYetCalled {
        return |dirNode.kind.children|;
      }
      requests := requests + [ListRequest(dirNode.path)];
      lsOps := lsOps[job := parent.node];
      assert NodeOk(nodes, parent.node);
      SetDirOk(nodes, parent.node, LsRunning, dirNode.kind.children);
      nodes := nodes[parent.node := dirNode.(kind := dirNode.kind.(lsState := LsRunning))];
      return 0;
    }

    /** index(): the root for a parent that is not valid, otherwise the row-th
        child;
        invalid unless row and column are in range.  (The source's further
        guards, no root, a file parent, a row past the children, cannot fire
        once the row is below the parent's row count.) */
    function IndexAt(row: int, column: int, parent: ModelIndex): (r: ModelIndex)
      reads this
      requires Valid() && IndexOk(parent)
      ensures r.NodeIndex? <==> 0 <= row < RowCountOf(parent) && 0 <= column < ColumnCount
      ensures r.NodeIndex? ==> r.row == row && r.column == column && r.node < |nodes|
      ensures r.NodeIndex? ==> IsValid(r) && RowIsPosition(r)
      ensures r.NodeIndex? && !IsValid(parent) ==> Some(r.node) == rootNode
      ensures r.NodeIndex? && IsValid(parent) ==> nodes[r.node].parent == Some(parent.node)
    {
      if row < 0 || row >= RowCountOf(parent) || column < 0 || column >= ColumnCount then InvalidIndex
      else if !IsValid(parent) then NodeIndex(row, column, rootNode.value)
      else
        assert NodeOk(nodes, parent.node);
        NodeIndex(row, column, nodes[parent.node].kind.children[row])
    }

    /** index() asks rowCount() for the parent's row count (when the row is
        not negative), so it may start the parent's listing. */
    method Index(row: int, column: int, parent: ModelIndex, job: JobId) returns (r: ModelIndex)
      requires Valid() && IndexOk(parent)
      modifies this`nodes, this`lsOps, this`requests
      ensures Valid()
      ensures r == old(IndexAt(row, column, parent))
      ensures old(row >= 0 && StartsListing(parent)) ==>
                && nodes == old(nodes[parent.node := nodes[parent.node].(kind := nodes[parent.node].kind.(lsState := LsRunning))])
                && lsOps == old(lsOps)[job := parent.node]
                && requests == old(requests) + [ListRequest(old(nodes[parent.node].path))]
      ensures !old(row >= 0 && StartsListing(parent)) ==>
                nodes == old(nodes) && lsOps == old(lsOps) && requests == old(requests)
    {
      if row < 0 {
        return InvalidIndex;
      }
      var n := RowCount(parent, job);
      if row >= n || column < 0 || column >= ColumnCount {
        return InvalidIndex;
      }
      if rootNode.None? {
        return InvalidIndex;
      }
      if !IsValid(parent) {
        return NodeIndex(row, column, rootNode.value);
      }
      var parentNode := nodes[parent.node];
      if !parentNode.IsDir() {
        return InvalidIndex;
      }
      if row >= |parentNode.kind.children| {
        return InvalidIndex;
      }
      return NodeIndex(row, column, parentNode.kind.children[row]);
    }

    /** The row of `idx` is where its node sits: row 0 for the root, and its
        position among its parent's children for any other node. */
    predicate RowIsPosition(idx: ModelIndex)
      reads this
      requires IndexOk(idx) && idx.NodeIndex?
    {
      if Some(idx.node) == rootNode then idx.row == 0
      else match nodes[idx.node].parent
        case None => false
        case Some(p) =>
          && p < |nodes| && nodes[p].IsDir()
          && 0 <= idx.row < |nodes[p].kind.children| && nodes[p].kind.children[idx.row] == idx.node
    }

    /** parent(): the default index for an index that is not valid and for the
        root; (0, 0, root) for a child of the root; otherwise the parent
        directory at its position among the grandparent's children, which is
        the negative row -1, an index that is not valid, once the parent is no
        longer among them. */
    function ParentOf(child: ModelIndex): (r: ModelIndex)
      reads this
      requires Valid() && IndexOk(child)
      requires IsValid(child) ==> Some(child.node) == rootNode || nodes[child.node].parent.Some?
      ensures r.NodeIndex? ==> r.column == 0 && r.node < |nodes| && nodes[r.node].IsDir()
      ensures r.NodeIndex? ==> IsValid(child) && nodes[child.node].parent == Some(r.node)
      ensures r.NodeIndex? ==> (IsValid(r) <==> RowIsPosition(r))
    {
      if !IsValid(child) then InvalidIndex
      else if Some(child.node) == rootNode then InvalidIndex
      else
        assert NodeOk(nodes, child.node);
        var parentNode := nodes[child.node].parent.value;
        if Some(parentNode) == rootNode then NodeIndex(0, 0, parentNode)
        else
          assert NodeOk(nodes, parentNode);
          match nodes[parentNode].parent
          case None => InvalidIndex
          case Some(grandParent) =>
            assert NodeOk(nodes, grandParent);
            NodeIndex(FirstIndex(nodes[grandParent].kind.children, parentNode), 0, parentNode)
    }

    /** parent() undoes index(): the root's parent is the invalid index, and
        the parent of any entry reached through index() from an index `q` is
        `q` itself, in column 0. */
    lemma ParentOfIndex(row: int, column: int, parent: ModelIndex, row2: int, column2: int)
      requires Valid() && IndexOk(parent)
      requires IndexAt(row, column, parent).NodeIndex?
      ensures !IsValid(parent) ==> ParentOf(IndexAt(row, column, parent)) == InvalidIndex
      ensures var q := IndexAt(row, column, parent);
              IndexAt(row2, column2, q).NodeIndex? ==>
                ParentOf(IndexAt(row2, column2, q)) == q.(column := 0)
    {
      var q := IndexAt(row, column, parent);
      if IndexAt(row2, column2, q).NodeIndex? {
        var c := IndexAt(row2, column2, q);
        assert c.node != rootNode.value;
        if IsValid(parent) {
          assert q.node != rootNode.value;
          assert NodeOk(nodes, parent.node);
          FirstIndexDistinct(nodes[parent.node].kind.children, row);
        }
      }
    }

    /** A parent index that does not record where its directory sits (the
        directory was dropped from the grandparent's children by update()) is
        not valid, so the model treats it as the default index: no flags, one
        row, index() under it names the root, and update() refreshes the root. */
    lemma DetachedParent(child: ModelIndex, row: int, column: int)
      requires Valid() && IndexOk(child)
      requires IsValid(child) ==> Some(child.node) == rootNode || nodes[child.node].parent.Some?
      requires ParentOf(child).NodeIndex? && !RowIsPosition(ParentOf(child))
      ensures !IsValid(ParentOf(child)) && ParentOf(child).row == -1
      ensures Flags(ParentOf(child)) == ItemFlags(false, false)
      ensures RowCountOf(ParentOf(child)) == RowCountOf(InvalidIndex)
      ensures IndexAt(row, column, ParentOf(child)) == IndexAt(row, column, InvalidIndex)
      ensures UpdateTarget(ParentOf(child)) == rootNode
    {
    }

    /** The rows under a directory appear in case-insensitive name order, one
        distinct entry per row. */
    lemma RowsInNameOrder(parent: ModelIndex, i: int, j: int)
      requires Valid() && IndexOk(parent) && IsValid(parent)
      requires 0 <= i < j < RowCountOf(parent)
      ensures IndexAt(i, 0, parent).node != IndexAt(j, 0, parent).node
      ensures CompareCI(Data(IndexAt(i, 0, parent), DisplayRole).text,
                        Data(IndexAt(j, 0, parent), DisplayRole).text) <= 0
    {
      assert NodeOk(nodes, parent.node);
    }

    /** data(): the name in column 0 and the size in column 1 for the display
        and edit roles; the empty text for an index without a node; nothing for
        the path role, which no branch of data() answers.  data() looks only at
        the node an index carries and at its column, not at its row. */
    function Data(idx: ModelIndex, role: Role): (r: Variant)
      reads this
      requires IndexOk(idx)
      ensures role == PathRole ==> r == NoValue
      ensures r.Text? && idx.NodeIndex? ==> idx.column == 0 && r.text == nodes[idx.node].fileInfo.name
      ensures r.Size? ==> idx.NodeIndex? && idx.column == 1 && r.size == nodes[idx.node].fileInfo.size
      ensures role != PathRole && idx.InvalidIndex? ==> r == Text("")
      ensures role != PathRole && idx.NodeIndex? && idx.column == 0 ==> r == Text(nodes[idx.node].fileInfo.name)
      ensures role != PathRole && idx.NodeIndex? && idx.column == 1 ==> r == Size(nodes[idx.node].fileInfo.size)
      ensures idx.NodeIndex? && idx.column !in {0, 1} ==> r == NoValue
    {
      match role
      case PathRole => NoValue
      case _ =>
        if idx.InvalidIndex? then Text("")
        else if idx.column == 0 then Text(nodes[idx.node].fileInfo.name)
        else if idx.column == 1 then Size(nodes[idx.node].fileInfo.size)
        else NoValue
    }

    /** flags(): no flags for an index that is not valid; otherwise
        selectable, and enabled exactly when the entry passes the name
        filters. */
    function Flags(idx: ModelIndex): (r: ItemFlags)
      reads this
      requires IndexOk(idx)
      ensures r.selectable <==> IsValid(idx)
      ensures r.enabled <==> IsValid(idx) && PassesFilters(nameFilters, nodes[idx.node].fileInfo)
    {
      if !IsValid(idx) then ItemFlags(false, false)
      else
        var flags := ItemFlags(true, true);
        if !PassesFilters(nameFilters, nodes[idx.node].fileInfo) then flags.(enabled := false)
        else flags
    }

    /** passNameFilters(): scan the patterns, stopping at the first match. */
    method PassNameFilters(node: NodeId) returns (b: bool)
      requires node < |nodes|
      ensures b == PassesFilters(nameFilters, nodes[node].fileInfo)
    {
      if |nameFilters| == 0 {
        return true;
      }
      var fileInfo := nodes[node].fileInfo;
      if fileInfo.fileType != Directory {
        var k := 0;
        while k < |nameFilters|
          invariant 0 <= k <= |nameFilters|
          invariant forall m :: 0 <= m < k ==> !Matches(nameFilters[m], fileInfo.name)
        {
          if Matches(nameFilters[k], fileInfo.name) {
            return true;
          }
          k := k + 1;
        }
        return false;
      }
      return true;
    }

    method SetNameFilters(filters: seq<string>)
      modifies this`nameFilters
      ensures nameFilters == filters
    {
      nameFilters := filters;
    }

    /** The directory update() refreshes: the parent of the indexed node, or
        the root when the index is not valid or the node has no parent. */
    function UpdateTarget(idx: ModelIndex): (r: Option<NodeId>)
      reads this
      requires Valid() && IndexOk(idx)
      ensures r.Some? ==> r.value < |nodes| && nodes[r.value].IsDir()
      ensures r.None? ==> rootNode.None?
      ensures IsValid(idx) && nodes[idx.node].parent.Some? ==> r == nodes[idx.node].parent
      ensures !IsValid(idx) || nodes[idx.node].parent.None? ==> r == rootNode
    {
      var parent := if !IsValid(idx) then rootNode else
        assert NodeOk(nodes, idx.node);
        nodes[idx.node].parent;
      if parent.None? then rootNode else parent
    }

    /** update(): empty the target directory's children, issue a new listing
        job for it, and leave it being listed. */
    method Update(idx: ModelIndex, job: JobId)
      requires Valid() && IndexOk(idx)
      requires UpdateTarget(idx).Some?
      modifies this`nodes, this`lsOps, this`requests
      ensures Valid()
      ensures var t := old(UpdateTarget(idx)).value;
              && nodes == old(nodes)[t := old(nodes)[t].(kind := DirKind(LsRunning, []))]
              && lsOps == old(lsOps)[job := t]
              && requests == old(requests) + [ListRequest(old(nodes)[t].path)]
    {
      var parent := if !IsValid(idx) then rootNode else nodes[idx.node].parent;
      if parent.None? {
        parent := rootNode;
      }
      var dir := parent.value;
      SetDirOk(nodes, dir, LsNotYetCalled, []);
      nodes := nodes[dir := nodes[dir].(kind := DirKind(LsNotYetCalled, []))];
      requests := requests + [ListRequest(nodes[dir].path)];
      lsOps := lsOps[job := dir];
      SetDirOk(nodes, dir, LsRunning, []);
      nodes := nodes[dir := nodes[dir].(kind := DirKind(LsRunning, []))];
    }

    /** What a transfer method leaves behind for an id the channel returned:
        the id is recorded as an external job unless it is the invalid id. */
    predicate Recorded(before: seq<JobId>, after: seq<JobId>, id: JobId)
    {
      after == before + (if id != InvalidJob then [id] else [])
    }

    /** downloadFile() to a local file path. */
    method DownloadFile(idx: ModelIndex, targetFilePath: string, job: JobId) returns (r: JobId)
      requires IndexOk(idx)
      modifies this`externalJobs, this`requests
      ensures rootNode.None? || idx.InvalidIndex? ==>
                r == InvalidJob && externalJobs == old(externalJobs) && requests == old(requests)
      ensures rootNode.Some? && idx.NodeIndex? ==>
                && r == job && Recorded(old(externalJobs), externalJobs, r)
                && requests == old(requests) + [DownloadRequest(nodes[idx.node].path, targetFilePath)]
    {
      if rootNode.None? || idx.InvalidIndex? {
        return InvalidJob;
      }
      requests := requests + [DownloadRequest(nodes[idx.node].path, targetFilePath)];
      r := job;
      if r != InvalidJob {
        externalJobs := externalJobs + [r];
      }
    }

    /** downloadFile() into an already open local device of the given size. */
    method DownloadFileToDevice(idx: ModelIndex, size: nat, job: JobId) returns (r: JobId)
      requires IndexOk(idx)
      modifies this`externalJobs, this`requests
      ensures rootNode.None? || idx.InvalidIndex? ==>
                r == InvalidJob && externalJobs == old(externalJobs) && requests == old(requests)
      ensures rootNode.Some? && idx.NodeIndex? ==>
                && r == job && Recorded(old(externalJobs), externalJobs, r)
                && requests == old(requests) + [DownloadToDeviceRequest(nodes[idx.node].path, size)]
    {
      if rootNode.None? || idx.InvalidIndex? {
        return InvalidJob;
      }
      requests := requests + [DownloadToDeviceRequest(nodes[idx.node].path, size)];
      r := job;
      if r != InvalidJob {
        externalJobs := externalJobs + [r];
      }
    }

    /** uploadFile(): needs a root, but no index. */
    method UploadFile(localFilePath: string, targetFilePath: string, job: JobId) returns (r: JobId)
      modifies this`externalJobs, this`requests
      ensures rootNode.None? ==>
                r == InvalidJob && externalJobs == old(externalJobs) && requests == old(requests)
      ensures rootNode.Some? ==>
                && r == job && Recorded(old(externalJobs), externalJobs, r)
                && requests == old(requests) + [UploadRequest(localFilePath, targetFilePath)]
    {
      if rootNode.None? {
        return InvalidJob;
      }
      requests := requests + [UploadRequest(localFilePath, targetFilePath)];
      r := job;
      if r != InvalidJob {
        externalJobs := externalJobs + [r];
      }
    }

    /** removeFile(): removes the indexed entry, directories included. */
    method RemoveFile(idx: ModelIndex, job: JobId) returns (r: JobId)
      requires IndexOk(idx)
      modifies this`externalJobs, this`requests
      ensures rootNode.None? || idx.InvalidIndex? ==>
                r == InvalidJob && externalJobs == old(externalJobs) && requests == old(requests)
      ensures rootNode.Some? && idx.NodeIndex? ==>
                && r == job && Recorded(old(externalJobs), externalJobs, r)
                && requests == old(requests) + [RemoveRequest(nodes[idx.node].path)]
    {
      if rootNode.None? || idx.InvalidIndex? {
        return InvalidJob;
      }
      requests := requests + [RemoveRequest(nodes[idx.node].path)];
      r := job;
      if r != InvalidJob {
        externalJobs := externalJobs + [r];
      }
    }

    /** handleSftpJobFinished(): the pending stat job is forgotten; a listing
        job marks its directory as listed and leaves lsOps; any other id is
        removed from the external jobs, or, when it is not there either, is
        reported as unknown and nothing changes.  A failure is reported for a
        stat or listing job that finished with an error message. */
    method HandleSftpJobFinished(jobId: JobId, errorMessage: string) returns (finished: FinishedJob, reportFailure: bool)
      requires Valid()
      modifies this`statJobId, this`nodes, this`lsOps, this`externalJobs
      ensures Valid()
      ensures reportFailure <==> (finished.StatJob? || finished.ListingJob?) && errorMessage != ""
      ensures old(jobId == statJobId) ==>
                && finished == StatJob && statJobId == InvalidJob
                && nodes == old(nodes) && lsOps == old(lsOps) && externalJobs == old(externalJobs)
      ensures old(jobId != statJobId && jobId in lsOps) ==>
                var d := old(lsOps[jobId]);
                && finished == ListingJob(d) && statJobId == old(statJobId)
                && nodes == old(nodes)[d := old(nodes)[d].(kind := old(nodes)[d].kind.(lsState := LsFinished))]
                && lsOps == old(lsOps) - {jobId} && externalJobs == old(externalJobs)
      ensures old(jobId != statJobId && jobId !in lsOps && jobId in externalJobs) ==>
                var i := FirstIndex(old(externalJobs), jobId);
                && finished == ExternalJob
                && externalJobs == old(externalJobs)[..i] + old(externalJobs)[i + 1..]
                && multiset(externalJobs) == multiset(old(externalJobs)) - multiset{jobId}
                && statJobId == old(statJobId) && nodes == old(nodes) && lsOps == old(lsOps)
      ensures old(jobId != statJobId && jobId !in lsOps && jobId !in externalJobs) ==>
                && finished == UnknownJob
                && statJobId == old(statJobId) && nodes == old(nodes)
                && lsOps == old(lsOps) && externalJobs == old(externalJobs)
    {
      if jobId == statJobId {
        statJobId := InvalidJob;
        return StatJob, errorMessage != "";
      }
      if jobId in lsOps {
        var d := lsOps[jobId];
        var nodes' := nodes[d := nodes[d].(kind := nodes[d].kind.(lsState := LsFinished))];
        assert StateOk(rootNode, lsOps - {jobId}, nodes') by {
          assert NodeOk(nodes, d);
          SetDirOk(nodes, d, LsFinished, nodes[d].kind.children);
          StateOkExtends(rootNode, lsOps, nodes, nodes');
        }
        nodes := nodes';
        lsOps := lsOps - {jobId};
        return ListingJob(d), errorMessage != "";
      }
      var jobIndex := FirstIndex(externalJobs, jobId);
      if jobIndex == -1 {
        return UnknownJob, false;
      }
      RemovedOnce(externalJobs, jobIndex);
      externalJobs := externalJobs[..jobIndex] + externalJobs[jobIndex + 1..];
      return ExternalJob, false;
    }

    /** One iteration of the listing merge: make the child node for `fi`
        under `parentNode` and insert it into the directory's children. */
    method AddChild(parentNode: NodeId, fi: FileInfo)
      requires Valid() && parentNode < |nodes| && nodes[parentNode].IsDir()
      requires nodes[parentNode].kind.lsState != LsNotYetCalled
      modifies this`nodes
      ensures Valid() && nodes == WithChild(old(nodes), parentNode, fi)
    {
      ghost var before := nodes;
      var childNode := ChildNode(nodes[parentNode].path, parentNode, fi);
      nodes := nodes + [childNode];
      var children := InsertChild(nodes, nodes[parentNode].kind.children, |nodes| - 1);
      WithChildIs(before, parentNode, fi, nodes, children);
      nodes := nodes[parentNode := nodes[parentNode].(kind := nodes[parentNode].kind.(children := children))];
      WithChildStateOk(rootNode, lsOps, before, parentNode, fi);
    }

    /** The merge loop of a listing: one new child per entry, in order. */
    method MergeListing(parentNode: NodeId, entries: seq<FileInfo>)
      requires Valid() && parentNode < |nodes| && nodes[parentNode].IsDir()
      requires nodes[parentNode].kind.lsState != LsNotYetCalled
      modifies this`nodes
      ensures Valid() && Merged(old(nodes), parentNode, entries, nodes)
    {
      ghost var nodes0 := nodes;
      assert NodeOk(nodes, parentNode);
      MergedNothing(nodes, parentNode);
      var k := 0;
      while k < |entries|
        invariant 0 <= k <= |entries|
        invariant Valid() && Merged(nodes0, parentNode, entries[..k], nodes)
      {
        MergedPrefixStep(nodes0, parentNode, entries, k, nodes);
        AddChild(parentNode, entries[k]);
        k := k + 1;
      }
      assert entries[..k] == entries;
    }

    /** handleFileInfo(): the stat job's entry becomes a fresh, never listed
        root directory node named after the root path.  Otherwise the entries
        of a listing, less "." and "..", each become one new child of the
        directory the job lists (a directory node exactly for a directory
        entry), inserted in name order; with no entries left nothing changes.
        An unknown listing job with entries left is a null dereference in the
        source and is excluded. */
    method HandleFileInfo(jobId: JobId, fileInfoList: seq<FileInfo>)
      requires Valid()
      requires jobId == statJobId ==> fileInfoList != []
      requires jobId != statJobId && jobId !in lsOps ==> DropDotEntries(fileInfoList) == []
      modifies this`nodes, this`rootNode
      ensures Valid()
      ensures old(jobId == statJobId) ==>
                && nodes == old(nodes) + [NewDirNode(rootDirectory, fileInfoList[0].(name := RootName(rootDirectory)))]
                && rootNode == Some(old(|nodes|))
      ensures old(jobId != statJobId) && DropDotEntries(fileInfoList) == [] ==>
                nodes == old(nodes) && rootNode == old(rootNode)
      ensures old(jobId != statJobId) && DropDotEntries(fileInfoList) != [] ==>
                rootNode == old(rootNode) && Merged(old(nodes), lsOps[jobId], DropDotEntries(fileInfoList), nodes)
    {
      if jobId == statJobId {
        var root := NewDirNode(rootDirectory, fileInfoList[0].(name := RootName(rootDirectory)));
        AppendOk(nodes, root);
        StateOkExtends(rootNode, lsOps, nodes, nodes + [root]);
        nodes := nodes + [root];
        rootNode := Some(|nodes| - 1);
        return;
      }
      var filtered := FilterDotEntries(fileInfoList);
      if filtered == [] {
        return;
      }
      var parentNode := lsOps[jobId];
      MergeListing(parentNode, filtered);
    }
  }
}

/** Well-formedness of the node arena, and the value-level building blocks
    of a listing completion: dropping the "." and ".." pseudo-entries, making
    a child node, and inserting a batch of new children. */
module Tree {
  import opened SftpTypes
  import opened Names
  import opened Nodes

  /** Every parent link names a directory, and every directory's children are
      distinct, sorted, in the arena and point back at it. */
  ghost predicate NodeOk(nodes: seq<Node>, n: NodeId)
    requires n < |nodes|
  {
    && (nodes[n].parent.Some? ==> nodes[n].parent.value < |nodes| && nodes[nodes[n].parent.value].IsDir())
    && (nodes[n].IsDir() ==>
          var ch := nodes[n].kind.children;
          && InArena(nodes, ch) && Distinct(ch) && Sorted(nodes, ch)
          && forall k :: 0 <= k < |ch| ==> nodes[ch[k]].parent == Some(n))
  }

  ghost predicate TreeOk(nodes: seq<Node>)
  {
    forall n :: 0 <= n < |nodes| ==> NodeOk(nodes, n)
  }

  /** `b` keeps every node of `a` with its path, file info, parent and kind tag
      (a directory's listing state and children may differ). */
  ghost predicate Extends(a: seq<Node>, b: seq<Node>)
  {
    && |a| <= |b|
    && forall i :: 0 <= i < |a| ==>
         b[i].path == a[i].path && b[i].fileInfo == a[i].fileInfo
         && b[i].parent == a[i].parent && b[i].IsDir() == a[i].IsDir()
  }

  lemma ExtendsTransitive(a: seq<Node>, b: seq<Node>, c: seq<Node>)
    requires Extends(a, b) && Extends(b, c)
    ensures Extends(a, c)
  {
  }

  lemma SortedExtends(a: seq<Node>, b: seq<Node>, ids: seq<NodeId>)
    requires Extends(a, b) && InArena(a, ids) && Sorted(a, ids)
    ensures InArena(b, ids) && Sorted(b, ids)
  {
  }

  lemma {:induction false} InsertSortedExtends(a: seq<Node>, b: seq<Node>, ids: seq<NodeId>, x: NodeId)
    requires Extends(a, b) && InArena(a, ids) && x < |a|
    ensures InsertSorted(a, ids, x) == InsertSorted(b, ids, x)
  {
    if ids != [] {
      InsertSortedExtends(a, b, ids[1..], x);
    }
  }

  /** Inserting into a directory's children does not depend on the rest of the
      arena beyond the names of the nodes involved. */
  lemma InsertedExtends(a: seq<Node>, b: seq<Node>, ids: seq<NodeId>, x: NodeId)
    requires Extends(a, b) && InArena(a, ids) && x < |a|
    ensures InArena(b, ids) && Inserted(a, ids, x) == Inserted(b, ids, x)
  {
    InsertSortedExtends(a, b, ids, x);
  }

  /** Replacing a directory's listing state and children keeps the arena well
      formed when the new children are distinct, sorted and its own. */
  lemma SetDirOk(nodes: seq<Node>, d: NodeId, st: LsState, ch: seq<NodeId>)
    requires TreeOk(nodes) && d < |nodes| && nodes[d].IsDir()
    requires InArena(nodes, ch) && Distinct(ch) && Sorted(nodes, ch)
    requires forall k :: 0 <= k < |ch| ==> nodes[ch[k]].parent == Some(d)
    ensures var nodes' := nodes[d := nodes[d].(kind := DirKind(st, ch))];
            TreeOk(nodes') && Extends(nodes, nodes')
  {
    var nodes' := nodes[d := nodes[d].(kind := DirKind(st, ch))];
    assert Extends(nodes, nodes');
    forall n | 0 <= n < |nodes'| ensures NodeOk(nodes', n) {
      assert NodeOk(nodes, n);
      if nodes'[n].IsDir() {
        SortedExtends(nodes, nodes', nodes'[n].kind.children);
      }
    }
  }

  /** Appending a fresh node whose parent (if any) is a directory, and which
      has no children, keeps the arena well formed. */
  lemma AppendOk(nodes: seq<Node>, n: Node)
    requires TreeOk(nodes)
    requires n.parent.Some? ==> n.parent.value < |nodes| && nodes[n.parent.value].IsDir()
    requires n.IsDir() ==> n.kind.children == []
    ensures TreeOk(nodes + [n]) && Extends(nodes, nodes + [n])
  {
    var nodes' := nodes + [n];
    assert Extends(nodes, nodes');
    forall m | 0 <= m < |nodes'| ensures NodeOk(nodes', m) {
      if m < |nodes| {
        assert NodeOk(nodes, m);
        if nodes'[m].IsDir() {
          SortedExtends(nodes, nodes', nodes'[m].kind.children);
        }
      }
    }
  }

  /** The children obtained by inserting `xs` one after another, in order. */
  function InsertAll(nodes: seq<Node>, ch: seq<NodeId>, xs: seq<NodeId>): seq<NodeId>
  {
    if xs == [] then ch
    else Inserted(nodes, InsertAll(nodes, ch, xs[..|xs| - 1]), xs[|xs| - 1])
  }

  lemma {:induction false} InsertAllArena(nodes: seq<Node>, ch: seq<NodeId>, xs: seq<NodeId>)
    requires InArena(nodes, ch) && InArena(nodes, xs)
    ensures InArena(nodes, InsertAll(nodes, ch, xs))
  {
    if xs != [] {
      InsertAllArena(nodes, ch, xs[..|xs| - 1]);
      InsertedArena(nodes, InsertAll(nodes, ch, xs[..|xs| - 1]), xs[|xs| - 1]);
    }
  }

  lemma InsertedArena(nodes: seq<Node>, ids: seq<NodeId>, x: NodeId)
    requires InArena(nodes, ids) && x < |nodes|
    ensures InArena(nodes, Inserted(nodes, ids, x))
  {
    if x !in ids {
      InsertedAt(nodes, ids, x);
      var r, i := Inserted(nodes, ids, x), InsertionPoint(nodes, ids, x);
      SpliceAt(ids, i, x);
      InsertSortedSplit(nodes, ids, x);
    }
  }

  lemma {:induction false} InsertAllExtends(a: seq<Node>, b: seq<Node>, ch: seq<NodeId>, xs: seq<NodeId>)
    requires Extends(a, b) && InArena(a, ch) && InArena(a, xs)
    ensures InArena(b, ch) && InArena(b, xs) && InsertAll(a, ch, xs) == InsertAll(b, ch, xs)
  {
    if xs != [] {
      InsertAllExtends(a, b, ch, xs[..|xs| - 1]);
      InsertAllArena(a, ch, xs[..|xs| - 1]);
      InsertedExtends(a, b, InsertAll(a, ch, xs[..|xs| - 1]), xs[|xs| - 1]);
    }
  }

  /** One more insertion extends a batch; the arena may have grown meanwhile. */
  lemma InsertAllStep(a: seq<Node>, b: seq<Node>, c: seq<Node>, ch: seq<NodeId>, xs: seq<NodeId>, x: NodeId)
    requires Extends(a, b) && Extends(b, c) && |b| == |c|
    requires InArena(a, ch) && InArena(a, xs) && x < |b|
    ensures InArena(c, ch) && InArena(c, xs + [x])
    ensures InsertAll(c, ch, xs + [x]) == Inserted(b, InsertAll(a, ch, xs), x)
  {
    ExtendsTransitive(a, b, c);
    InsertAllExtends(a, c, ch, xs);
    InsertAllExtends(a, b, ch, xs);
    InsertAllArena(a, ch, xs);
    assert (xs + [x])[..|xs|] == xs;
    InsertedExtends(b, c, InsertAll(a, ch, xs), x);
  }

  /** A batch of insertions into a sorted child list leaves it sorted. */
  lemma {:induction false} InsertAllSorted(nodes: seq<Node>, ch: seq<NodeId>, xs: seq<NodeId>)
    requires Sorted(nodes, ch)
    ensures Sorted(nodes, InsertAll(nodes, ch, xs))
  {
    if xs != [] {
      InsertAllSorted(nodes, ch, xs[..|xs| - 1]);
      InsertedSorted(nodes, InsertAll(nodes, ch, xs[..|xs| - 1]), xs[|xs| - 1]);
    }
  }

  /** A batch of distinct new nodes, none already a child, each becomes exactly
      one more child: the children are the old ones plus the batch. */
  lemma {:induction false} InsertAllAdds(nodes: seq<Node>, ch: seq<NodeId>, xs: seq<NodeId>)
    requires Distinct(xs)
    requires forall k :: 0 <= k < |xs| ==> xs[k] !in ch
    ensures multiset(InsertAll(nodes, ch, xs)) == multiset(ch) + multiset(xs)
  {
    if xs != [] {
      var init, x := xs[..|xs| - 1], xs[|xs| - 1];
      assert xs == init + [x];
      assert forall k :: 0 <= k < |init| ==> init[k] == xs[k];
      InsertAllAdds(nodes, ch, init);
      var prev := InsertAll(nodes, ch, init);
      assert x !in init by {
        forall k | 0 <= k < |init| ensures init[k] != x {
          assert init[k] == xs[k];
        }
      }
      assert x !in multiset(prev);
      InsertedAt(nodes, prev, x);
    }
  }

  /** The entries of a listing that become nodes: all but "." and "..", in order. */
  function DropDotEntries(list: seq<FileInfo>): (r: seq<FileInfo>)
    ensures |r| <= |list|
    ensures forall k :: 0 <= k < |r| ==> !IsDotEntry(r[k].name)
    ensures forall fi :: fi in r <==> fi in list && !IsDotEntry(fi.name)
  {
    if list == [] then []
    else
      var init := list[..|list| - 1];
      var last := list[|list| - 1];
      assert list == init + [last];
      DropDotEntries(init) + (if IsDotEntry(last.name) then [] else [last])
  }

  /** One more step of filtering a listing front to back. */
  lemma DropDotEntriesStep(list: seq<FileInfo>, i: nat, before: seq<FileInfo>, after: seq<FileInfo>)
    requires i < |list| && before == DropDotEntries(list[..i])
    requires after == before + (if IsDotEntry(list[i].name) then [] else [list[i]])
    ensures after == DropDotEntries(list[..i + 1])
  {
    var l := list[..i + 1];
    assert l[..|l| - 1] == list[..i];
  }

  /** The node made for listing entry `fi` under directory `p`: a directory node
      exactly when the entry is a directory, with its path under `parentPath`. */
  function ChildNode(parentPath: string, p: NodeId, fi: FileInfo): (n: Node)
    ensures n.IsDir() <==> fi.fileType == Directory
    ensures n.IsDir() ==> n.kind.lsState == LsNotYetCalled && n.kind.children == []
    ensures n.fileInfo == fi && n.parent == Some(p)
    ensures '/' !in fi.name ==> FileName(n.path) == fi.name
  {
    var path := ChildPath(parentPath, fi.name);
    ChildPathFileName(parentPath, fi.name);
    var n := if fi.fileType == Directory then NewDirNode(path, fi) else NewFileNode(path, fi);
    n.(parent := Some(p))
  }

  /** Position of the first occurrence of `x`, or -1 when it does not occur. */
  function FirstIndex<T(==)>(s: seq<T>, x: T): (i: int)
    ensures -1 <= i < |s|
    ensures i == -1 <==> x !in s
    ensures 0 <= i ==> s[i] == x && x !in s[..i]
  {
    if s == [] then -1
    else if s[0] == x then 0
    else
      var j := FirstIndex(s[1..], x);
      assert j >= 0 ==> s[..j + 1] == [s[0]] + s[1..][..j];
      if j == -1 then -1 else j + 1
  }

  /** In a list without repeats, the first occurrence of an element is its position. */
  lemma FirstIndexDistinct(s: seq<NodeId>, k: nat)
    requires Distinct(s) && k < |s|
    ensures FirstIndex(s, s[k]) == k
  {
  }

  /** `p` is a directory of the arena whose children are all in the arena. */
  predicate DirIn(nodes: seq<Node>, p: NodeId)
  {
    p < |nodes| && nodes[p].IsDir() && InArena(nodes, nodes[p].kind.children)
  }

  /** The arena after one listing entry `fi` is merged into directory `p`: the
      new child node is appended and inserted into `p`'s children. */
  function WithChild(nodes: seq<Node>, p: NodeId, fi: FileInfo): seq<Node>
    requires p < |nodes| && nodes[p].IsDir()
  {
    var appended := nodes + [ChildNode(nodes[p].path, p, fi)];
    appended[p := appended[p].(kind := appended[p].kind.(
                  children := Inserted(appended, appended[p].kind.children, |nodes|)))]
  }

  /** WithChild spelled out as its two steps: append the node, then store the
      new child list. */
  lemma WithChildIs(nodes: seq<Node>, p: NodeId, fi: FileInfo, appended: seq<Node>, children: seq<NodeId>)
    requires p < |nodes| && nodes[p].IsDir()
    requires appended == nodes + [ChildNode(nodes[p].path, p, fi)]
    requires children == Inserted(appended, appended[p].kind.children, |nodes|)
    ensures appended[p := appended[p].(kind := appended[p].kind.(children := children))] == WithChild(nodes, p, fi)
  {
  }

  /** Merging one entry appends its node and changes only `p`'s children. */
  lemma WithChildShape(nodes: seq<Node>, p: NodeId, fi: FileInfo)
    requires DirIn(nodes, p)
    ensures var r := WithChild(nodes, p, fi);
            && DirIn(r, p) && Extends(nodes, r)
            && |r| == |nodes| + 1
            && r[|nodes|] == ChildNode(nodes[p].path, p, fi)
            && (forall m :: 0 <= m < |nodes| && m != p ==> r[m] == nodes[m])
            && r[p] == nodes[p].(kind := nodes[p].kind.(children := Inserted(r, nodes[p].kind.children, |nodes|)))
  {
    var child := ChildNode(nodes[p].path, p, fi);
    var appended := nodes + [child];
    var oldChildren := nodes[p].kind.children;
    assert Extends(nodes, appended);
    assert appended[p].kind.children == oldChildren;
    SortedExtends(nodes, appended, []);
    assert InArena(appended, oldChildren);
    var children := Inserted(appended, oldChildren, |nodes|);
    InsertedArena(appended, oldChildren, |nodes|);
    var r := WithChild(nodes, p, fi);
    assert Extends(appended, r);
    InsertedExtends(appended, r, oldChildren, |nodes|);
  }

  lemma WithChildOk(nodes: seq<Node>, p: NodeId, fi: FileInfo)
    requires TreeOk(nodes) && p < |nodes| && nodes[p].IsDir()
    ensures TreeOk(WithChild(nodes, p, fi))
  {
    var child := ChildNode(nodes[p].path, p, fi);
    AppendOk(nodes, child);
    var appended := nodes + [child];
    assert NodeOk(nodes, p);
    var oldChildren := nodes[p].kind.children;
    assert appended[p].kind.children == oldChildren;
    var children := Inserted(appended, oldChildren, |nodes|);
    SortedExtends(nodes, appended, oldChildren);
    InsertedSorted(appended, oldChildren, |nodes|);
    InsertedDistinct(appended, oldChildren, |nodes|);
    InsertedElements(appended, oldChildren, |nodes|);
    InsertedArena(appended, oldChildren, |nodes|);
    forall k | 0 <= k < |children| ensures appended[children[k]].parent == Some(p) {
      assert children[k] in oldChildren || children[k] == |nodes|;
    }
    SetDirOk(appended, p, nodes[p].kind.lsState, children);
    assert WithChild(nodes, p, fi) == appended[p := appended[p].(kind := DirKind(nodes[p].kind.lsState, children))];
  }

  /** `r` is the arena after the listing `entries` is merged into directory
      `p` of `nodes`, entry by entry: one new node per entry, appended in
      order, inserted into `p`'s children; no other existing node changes. */
  ghost predicate Merged(nodes: seq<Node>, p: NodeId, entries: seq<FileInfo>, r: seq<Node>)
  {
    && DirIn(nodes, p)
    && |r| == |nodes| + |entries|
    && (forall k :: 0 <= k < |entries| ==> r[|nodes| + k] == ChildNode(nodes[p].path, p, entries[k]))
    && (forall m :: 0 <= m < |nodes| && m != p ==> r[m] == nodes[m])
    && r[p] == nodes[p].(kind := nodes[p].kind.(
                 children := InsertAll(r, nodes[p].kind.children, NewIds(|nodes|, |entries|))))
  }

  lemma MergedNothing(nodes: seq<Node>, p: NodeId)
    requires DirIn(nodes, p)
    ensures Merged(nodes, p, [], nodes)
  {
  }

  /** A merge into `p` keeps `p` a directory whose children are in the arena. */
  lemma MergedDirIn(nodes: seq<Node>, p: NodeId, entries: seq<FileInfo>, prev: seq<Node>)
    requires Merged(nodes, p, entries, prev)
    ensures DirIn(prev, p)
    ensures InArena(prev, nodes[p].kind.children) && InArena(prev, NewIds(|nodes|, |entries|))
  {
    var ch := nodes[p].kind.children;
    var ids := NewIds(|nodes|, |entries|);
    assert InArena(prev, ch) && InArena(prev, ids);
    InsertAllArena(prev, ch, ids);
  }

  /** One more appended child node continues the run of new nodes. */
  lemma MergedNewNodes(nodes: seq<Node>, p: NodeId, entries: seq<FileInfo>, prev: seq<Node>, fi: FileInfo, r: seq<Node>)
    requires p < |nodes| && |prev| == |nodes| + |entries| && |r| == |prev| + 1
    requires forall k :: 0 <= k < |entries| ==> prev[|nodes| + k] == ChildNode(nodes[p].path, p, entries[k])
    requires forall m :: 0 <= m < |prev| && m != p ==> r[m] == prev[m]
    requires r[|prev|] == ChildNode(nodes[p].path, p, fi)
    ensures forall k :: 0 <= k < |entries| + 1 ==> r[|nodes| + k] == ChildNode(nodes[p].path, p, (entries + [fi])[k])
  {
    forall k | 0 <= k < |entries| + 1 ensures r[|nodes| + k] == ChildNode(nodes[p].path, p, (entries + [fi])[k]) {
      if k < |entries| {
        assert (entries + [fi])[k] == entries[k];
        assert r[|nodes| + k] == prev[|nodes| + k];
      } else {
        assert (entries + [fi])[k] == fi && |nodes| + k == |prev|;
      }
    }
  }

  /** Inserting one more new node continues a batch of new nodes. */
  lemma InsertAllNext(prev: seq<Node>, r: seq<Node>, ch: seq<NodeId>, base: nat, n: nat)
    requires Extends(prev, r) && |prev| == base + n && |r| == |prev| + 1
    requires InArena(prev, ch) && InArena(prev, NewIds(base, n))
    ensures InsertAll(r, ch, NewIds(base, n + 1)) == Inserted(r, InsertAll(prev, ch, NewIds(base, n)), |prev|)
  {
    InsertAllStep(prev, r, r, ch, NewIds(base, n), |prev|);
  }

  /** An arena shaped like one more merged entry extends the merge. */
  lemma MergedExtend(nodes: seq<Node>, p: NodeId, entries: seq<FileInfo>, prev: seq<Node>, fi: FileInfo, r: seq<Node>)
    requires Merged(nodes, p, entries, prev) && DirIn(prev, p)
    requires InArena(prev, nodes[p].kind.children) && InArena(prev, NewIds(|nodes|, |entries|))
    requires Extends(prev, r) && |r| == |prev| + 1
    requires r[|prev|] == ChildNode(prev[p].path, p, fi)
    requires forall m :: 0 <= m < |prev| && m != p ==> r[m] == prev[m]
    requires r[p] == prev[p].(kind := prev[p].kind.(children := Inserted(r, prev[p].kind.children, |prev|)))
    ensures Merged(nodes, p, entries + [fi], r)
  {
    InsertAllNext(prev, r, nodes[p].kind.children, |nodes|, |entries|);
    assert |entries + [fi]| == |entries| + 1;
    MergedNewNodes(nodes, p, entries, prev, fi, r);
  }

  /** Merging one more entry extends a merge. */
  lemma MergedStep(nodes: seq<Node>, p: NodeId, entries: seq<FileInfo>, prev: seq<Node>, fi: FileInfo)
    requires Merged(nodes, p, entries, prev)
    ensures DirIn(prev, p)
    ensures Merged(nodes, p, entries + [fi], WithChild(prev, p, fi))
  {
    MergedDirIn(nodes, p, entries, prev);
    WithChildShape(prev, p, fi);
    MergedExtend(nodes, p, entries, prev, fi, WithChild(prev, p, fi));
  }

  /** The step of a merge loop that has merged the first `k` entries. */
  lemma MergedPrefixStep(nodes: seq<Node>, p: NodeId, entries: seq<FileInfo>, k: nat, prev: seq<Node>)
    requires k < |entries| && Merged(nodes, p, entries[..k], prev)
    ensures DirIn(prev, p)
    ensures Merged(nodes, p, entries[..k + 1], WithChild(prev, p, entries[k]))
  {
    var next := entries[..k] + [entries[k]];
    assert next == entries[..k + 1];
    MergedStep(nodes, p, entries[..k], prev, entries[k]);
  }

  /** After a merge, `p`'s children are still sorted, and they are its old
      children plus exactly one new node per entry. */
  lemma MergedChildren(nodes: seq<Node>, p: NodeId, entries: seq<FileInfo>, r: seq<Node>)
    requires Merged(nodes, p, entries, r) && TreeOk(nodes)
    ensures Sorted(r, r[p].kind.children)
    ensures multiset(r[p].kind.children) == multiset(nodes[p].kind.children) + multiset(NewIds(|nodes|, |entries|))
  {
    var ch := nodes[p].kind.children;
    var ids := NewIds(|nodes|, |entries|);
    assert NodeOk(nodes, p);
    assert Extends(nodes, r);
    SortedExtends(nodes, r, ch);
    InsertAllSorted(r, ch, ids);
    assert forall k :: 0 <= k < |ids| ==> ids[k] !in ch;
    InsertAllAdds(r, ch, ids);
  }

  /** The ids given to `count` nodes appended to an arena of size `base`. */
  function NewIds(base: nat, count: nat): (r: seq<NodeId>)
    ensures |r| == count
    ensures forall k :: 0 <= k < count ==> r[k] == base + k
  {
    if count == 0 then [] else NewIds(base, count - 1) + [base + count - 1]
  }
}

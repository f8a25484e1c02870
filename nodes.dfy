/** Nodes of the lazily listed remote tree and the sorted insertion of a
    child into a directory's child list.  Nodes live in an arena (a sequence
    indexed by NodeId); a directory's children are NodeIds into it. */
module Nodes {
  import opened SftpTypes
  import opened Names

  type NodeId = nat

  /** Listing state of a directory: never listed, listing job issued, listing job finished. */
  datatype LsState = LsNotYetCalled | LsRunning | LsFinished

  /** A plain file node, or a directory node with its listing state and its
      children in case-insensitive name order. */
  datatype Kind = FileKind | DirKind(lsState: LsState, children: seq<NodeId>)

  datatype Node = Node(path: string, fileInfo: FileInfo, parent: Option<NodeId>, kind: Kind)
  {
    predicate IsDir()
    {
      kind.DirKind?
    }
  }

  /** A newly constructed file node: no parent yet. */
  function NewFileNode(path: string, fileInfo: FileInfo): (n: Node)
    ensures n.path == path && n.fileInfo == fileInfo
    ensures n.parent == None && !n.IsDir()
  {
    Node(path, fileInfo, None, FileKind)
  }

  /** A newly constructed directory node: no parent, never listed, no children. */
  function NewDirNode(path: string, fileInfo: FileInfo): (n: Node)
    ensures n.path == path && n.fileInfo == fileInfo
    ensures n.parent == None && n.IsDir()
    ensures n.kind.lsState == LsNotYetCalled && n.kind.children == []
  {
    Node(path, fileInfo, None, DirKind(LsNotYetCalled, []))
  }

  predicate InArena(nodes: seq<Node>, ids: seq<NodeId>)
  {
    forall k :: 0 <= k < |ids| ==> ids[k] < |nodes|
  }

  /** The name of a node; the empty name for an id outside the arena. */
  function NameOf(nodes: seq<Node>, id: NodeId): string
  {
    if id < |nodes| then nodes[id].fileInfo.name else ""
  }

  /** `x` sorts strictly after `y` by case-insensitive name. */
  predicate After(nodes: seq<Node>, x: NodeId, y: NodeId)
  {
    CompareCI(NameOf(nodes, x), NameOf(nodes, y)) > 0
  }

  /** Children in ascending case-insensitive name order. */
  predicate Sorted(nodes: seq<Node>, ids: seq<NodeId>)
  {
    forall i, j :: 0 <= i < j < |ids| ==> CompareCI(NameOf(nodes, ids[i]), NameOf(nodes, ids[j])) <= 0
  }

  predicate Distinct(ids: seq<NodeId>)
  {
    forall i, j :: 0 <= i < j < |ids| ==> ids[i] != ids[j]
  }

  /** Index of the first child that `x` does not sort after; |ids| when there is none. */
  function InsertionPoint(nodes: seq<Node>, ids: seq<NodeId>, x: NodeId): (i: nat)
    ensures i <= |ids|
    ensures forall k :: 0 <= k < i ==> After(nodes, x, ids[k])
    ensures i < |ids| ==> !After(nodes, x, ids[i])
  {
    if ids == [] then 0
    else if After(nodes, x, ids[0]) then 1 + InsertionPoint(nodes, ids[1..], x)
    else 0
  }

  /** Scan-and-insert of a node known not to be among `ids`. */
  function InsertSorted(nodes: seq<Node>, ids: seq<NodeId>, x: NodeId): seq<NodeId>
  {
    if ids == [] then [x]
    else if After(nodes, x, ids[0]) then [ids[0]] + InsertSorted(nodes, ids[1..], x)
    else [x] + ids
  }

  /** The child list after inserting `x`: unchanged when that very node is
      already a child (names are not compared for this), else sorted insertion. */
  function Inserted(nodes: seq<Node>, ids: seq<NodeId>, x: NodeId): seq<NodeId>
  {
    if x in ids then ids else InsertSorted(nodes, ids, x)
  }

  lemma {:induction false} InsertSortedSplit(nodes: seq<Node>, ids: seq<NodeId>, x: NodeId)
    ensures var i := InsertionPoint(nodes, ids, x);
            InsertSorted(nodes, ids, x) == ids[..i] + [x] + ids[i..]
  {
    if ids == [] {
    } else if After(nodes, x, ids[0]) {
      InsertSortedSplit(nodes, ids[1..], x);
      ConsSplice(ids, InsertionPoint(nodes, ids[1..], x), x);
    } else {
      assert ids[..0] + [x] + ids[0..] == [x] + ids;
    }
  }

  /** Splicing into the tail of a list is splicing one place further into it. */
  lemma ConsSplice(ids: seq<NodeId>, j: nat, x: NodeId)
    requires ids != [] && j <= |ids| - 1
    ensures [ids[0]] + (ids[1..][..j] + [x] + ids[1..][j..]) == ids[..j + 1] + [x] + ids[j + 1..]
  {
  }

  /** The list `ids` with `x` placed at position `i`, as an index map. */
  lemma SpliceAt(ids: seq<NodeId>, i: nat, x: NodeId)
    requires i <= |ids|
    ensures var r := ids[..i] + [x] + ids[i..];
            && |r| == |ids| + 1
            && (forall k :: 0 <= k < i ==> r[k] == ids[k])
            && r[i] == x
            && (forall k :: i < k < |r| ==> r[k] == ids[k - 1])
            && multiset(r) == multiset(ids) + multiset{x}
  {
    assert ids == ids[..i] + ids[i..];
  }

  /** Inserting a node that is not yet a child puts it at the insertion point:
      every earlier child sorts strictly before it, the child at that point (if
      any) does not, the list grows by one, and the existing children keep
      their relative order on either side. */
  lemma InsertedAt(nodes: seq<Node>, ids: seq<NodeId>, x: NodeId)
    requires x !in ids
    ensures var r, i := Inserted(nodes, ids, x), InsertionPoint(nodes, ids, x);
            && |r| == |ids| + 1
            && r[i] == x
            && r[..i] == ids[..i]
            && r[i + 1..] == ids[i..]
            && multiset(r) == multiset(ids) + multiset{x}
  {
    var i := InsertionPoint(nodes, ids, x);
    InsertSortedSplit(nodes, ids, x);
    SpliceAt(ids, i, x);
    var r := ids[..i] + [x] + ids[i..];
    assert r[..i] == ids[..i];
    assert r[i + 1..] == ids[i..];
  }

  /** Inserting into a sorted child list keeps it sorted. */
  lemma InsertedSorted(nodes: seq<Node>, ids: seq<NodeId>, x: NodeId)
    requires Sorted(nodes, ids)
    ensures Sorted(nodes, Inserted(nodes, ids, x))
  {
    if x !in ids {
      var i := InsertionPoint(nodes, ids, x);
      InsertSortedSplit(nodes, ids, x);
      SpliceAt(ids, i, x);
      var r := ids[..i] + [x] + ids[i..];
      forall a, b | 0 <= a < b < |r|
        ensures CompareCI(NameOf(nodes, r[a]), NameOf(nodes, r[b])) <= 0
      {
        if b < i {
        } else if b == i {
          CompareCIAntisymmetric(NameOf(nodes, x), NameOf(nodes, r[a]));
        } else if a == i {
          if b - 1 > i {
            CompareCITransitive(NameOf(nodes, x), NameOf(nodes, ids[i]), NameOf(nodes, r[b]));
          }
        } else {
          assert r[a] == (if a < i then ids[a] else ids[a - 1]);
        }
      }
    }
  }

  /** Inserting keeps a child list free of repeated nodes. */
  lemma InsertedDistinct(nodes: seq<Node>, ids: seq<NodeId>, x: NodeId)
    requires Distinct(ids)
    ensures Distinct(Inserted(nodes, ids, x))
  {
    if x !in ids {
      var i := InsertionPoint(nodes, ids, x);
      InsertSortedSplit(nodes, ids, x);
      SpliceAt(ids, i, x);
      var r := ids[..i] + [x] + ids[i..];
      forall a, b | 0 <= a < b < |r| ensures r[a] != r[b] {
        assert r[a] == (if a < i then ids[a] else if a == i then x else ids[a - 1]);
        assert r[b] == (if b < i then ids[b] else if b == i then x else ids[b - 1]);
      }
    }
  }

  /** The children after an insertion are the old children and the inserted node. */
  lemma InsertedElements(nodes: seq<Node>, ids: seq<NodeId>, x: NodeId)
    ensures forall c :: c in Inserted(nodes, ids, x) <==> c in ids || c == x
  {
    if x !in ids {
      InsertedAt(nodes, ids, x);
      assert forall c :: c in Inserted(nodes, ids, x) <==> c in multiset(ids) + multiset{x};
    }
  }

  /** Identity, not name, decides whether a node is already a child: a
      different node with a name equal up to case is still added. */
  lemma SameNameOtherNodeIsAdded(nodes: seq<Node>, ids: seq<NodeId>, x: NodeId, y: NodeId)
    requires y in ids && x !in ids
    requires CompareCI(NameOf(nodes, x), NameOf(nodes, y)) == 0
    ensures |Inserted(nodes, ids, x)| == |ids| + 1
  {
    InsertedAt(nodes, ids, x);
  }

  /** In-place insertion into a directory's child list: scan with a running
      index for the first child the new node does not sort after, insert there,
      or append when the scan runs off the end. */
  method InsertChild(nodes: seq<Node>, children: seq<NodeId>, newNode: NodeId) returns (r: seq<NodeId>)
    ensures r == Inserted(nodes, children, newNode)
    ensures newNode in children ==> r == children
    ensures children == [] ==> r == [newNode]
  {
    if newNode in children {
      return children;
    }
    if |children| == 0 {
      return [newNode];
    }
    var i := 0;
    while i < |children|
      invariant 0 <= i <= |children|
      invariant forall k :: 0 <= k < i ==> After(nodes, newNode, children[k])
    {
      if After(nodes, newNode, children[i]) {
        i := i + 1;
      } else {
        InsertedHere(nodes, children, newNode, i);
        return children[..i] + [newNode] + children[i..];
      }
    }
    InsertedHere(nodes, children, newNode, i);
    assert children[..i] == children && children[i..] == [];
    return children + [newNode];
  }

  /** A position with only earlier children sorting before `x`, and the child
      there (if any) not, is the insertion point, and `x` goes there. */
  lemma InsertedHere(nodes: seq<Node>, ids: seq<NodeId>, x: NodeId, i: nat)
    requires x !in ids && i <= |ids|
    requires forall k :: 0 <= k < i ==> After(nodes, x, ids[k])
    requires i < |ids| ==> !After(nodes, x, ids[i])
    ensures Inserted(nodes, ids, x) == ids[..i] + [x] + ids[i..]
  {
    InsertSortedSplit(nodes, ids, x);
    var j := InsertionPoint(nodes, ids, x);
    assert j == i;
  }
}

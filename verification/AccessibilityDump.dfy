/** The dump of the accessibility tree: child ids are collected by flattening, and the node of every child
    is looked up again from the root. The reference is a direct pre-order walk that looks nothing up. */
module AccessibilityDump {
  import opened Prelude
  import opened AccessibilityTree
  import opened AccessibilitySearch

  const DEFAULT_ID := -1

  // ----- A size that covers everything flattening may reach -----

  function FullSize(n: UINode): (size: nat)
    ensures size >= 1
    decreases n, 1
  {
    1 + FullSizeAll(n.liveChildren) + if n.virtualNode.Some? then FullSize(n.virtualNode.value) else 0
  }

  function FullSizeAll(ns: seq<UINode>): nat
    decreases ns, 0
  {
    if ns == [] then 0 else FullSize(ns[0]) + FullSizeAll(ns[1..])
  }

  lemma {:induction false} FullSizeAppend(a: seq<UINode>, b: seq<UINode>)
    ensures FullSizeAll(a + b) == FullSizeAll(a) + FullSizeAll(b)
    decreases |a|
  {
    if a == [] {
      NothingAround(b);
    } else {
      HeadOfAppend(a, b);
      FullSizeAppend(a[1..], b);
    }
  }

  lemma {:induction false} FullSizeMember(ns: seq<UINode>, m: UINode)
    requires m in ns
    ensures 0 < FullSize(m) <= FullSizeAll(ns)
    decreases |ns|
  {
    if m != ns[0] {
      FullSizeMember(ns[1..], m);
    }
  }

  lemma FlatSuccShrinks(n: UINode)
    ensures FullSizeAll(FlatSucc(n)) < FullSize(n)
  {
    if HasVirtual(n) && n.virtualNode.value.frame.Some? {
      assert [n.virtualNode.value][1..] == [];
      assert FullSizeAll([]) == 0;
    }
  }

  lemma {:induction false} FlattenShrinks(ns: seq<UINode>, pageId: int)
    ensures FullSizeAll(FlattenAll(ns, pageId)) <= FullSizeAll(ns)
    ensures forall c :: c in FlattenAll(ns, pageId) ==> c.frame.Some?
    decreases FullSizeAll(ns)
  {
    if ns != [] {
      var first := Flatten(ns[0], pageId);
      match RoleOf(ns[0], pageId) {
        case Dropped =>
        case Listed =>
          assert first[1..] == [] && FullSizeAll([]) == 0;
        case PassedThrough =>
          FlattenUnfold(ns[0], pageId);
          FlatSuccShrinks(ns[0]);
          FlattenShrinks(FlatSucc(ns[0]), pageId);
      }
      FlattenShrinks(ns[1..], pageId);
      FullSizeAppend(first, FlattenAll(ns[1..], pageId));
    }
  }

  // ----- Children -----

  predicate IsGroup(f: Frame) {
    (f.group || f.groupByPlace) && f.tag != RootTag
  }

  /** Where flattening starts from a dumped node; nowhere from a group. */
  function KidSucc(n: UINode): (ns: seq<UINode>)
    requires n.frame.Some?
    ensures FullSizeAll(ns) < FullSize(n)
  {
    FlatSuccShrinks(n);
    if IsGroup(n.frame.value) then [] else FlatSucc(n)
  }

  /** The child nodes of a dumped node. */
  function Kids(n: UINode, pageId: int): (kids: seq<UINode>)
    requires n.frame.Some?
    ensures FullSizeAll(kids) < FullSize(n)
    ensures forall c :: c in kids ==> c.frame.Some?
  {
    FlattenShrinks(KidSucc(n), pageId);
    FlattenAll(KidSucc(n), pageId)
  }

  /** A group lists no children unless it is the root. */
  lemma GroupsAreCut(n: UINode, pageId: int)
    requires n.frame.Some? && (n.frame.value.group || n.frame.value.groupByPlace) && n.frame.value.tag != RootTag
    ensures Kids(n, pageId) == []
  {
  }

  /** Any other node lists what flattening makes of its virtual node, if it has one that is a frame, and otherwise
      of its live children. */
  lemma KidsAreFlattened(n: UINode, pageId: int)
    requires n.frame.Some?
    requires (n.frame.value.group || n.frame.value.groupByPlace) ==> n.frame.value.tag == RootTag
    ensures Kids(n, pageId) ==
      if n.virtualNode.Some? && n.virtualNode.value.frame.Some? then Flatten(n.virtualNode.value, pageId)
      else FlattenAll(n.liveChildren, pageId)
  {
    if HasVirtual(n) && n.virtualNode.value.frame.Some? {
      FlattenSingle(n.virtualNode.value, pageId);
    }
  }

  /** Ids as they pass through a vector of 32-bit integers. */
  function Ids(ns: seq<UINode>): seq<int> {
    if ns == [] then []
    else (if ns[0].frame.Some? then [Narrow32(ns[0].frame.value.id)] else []) + Ids(ns[1..])
  }

  lemma {:induction false} IdsAppend(a: seq<UINode>, b: seq<UINode>)
    ensures Ids(a + b) == Ids(a) + Ids(b)
    decreases |a|
  {
    if a == [] {
      NothingAround(b);
    } else {
      HeadOfAppend(a, b);
      IdsAppend(a[1..], b);
      Assoc(if a[0].frame.Some? then [Narrow32(a[0].frame.value.id)] else [], Ids(a[1..]), Ids(b));
    }
  }

  lemma {:induction false} IdsLength(ns: seq<UINode>)
    requires forall n :: n in ns ==> n.frame.Some?
    ensures |Ids(ns)| == |ns|
    ensures forall i :: 0 <= i < |ns| ==> ns[i].frame.Some? && Ids(ns)[i] == Narrow32(ns[i].frame.value.id)
    decreases |ns|
  {
    if ns != [] {
      assert ns[0] in ns;
      IdsLength(ns[1..]);
      assert forall i :: 0 < i < |ns| ==> ns[i] == ns[1..][i - 1];
    }
  }

  /** An id that is listed already is not added again. */
  function Added(ids: seq<int>, id: int): seq<int> {
    if id in ids then ids else ids + [id]
  }

  function AddedAll(start: seq<int>, ids: seq<int>): seq<int> {
    if ids == [] then start else Added(AddedAll(start, ids[..|ids| - 1]), ids[|ids| - 1])
  }

  function WithoutRepeats(ids: seq<int>): seq<int> {
    AddedAll([], ids)
  }

  predicate Distinct(ids: seq<int>) {
    forall i, j :: 0 <= i < j < |ids| ==> ids[i] != ids[j]
  }

  /** Dropping repetitions keeps the members, and is the identity exactly on lists without any; no other list
      keeps its length. */
  lemma {:induction false} WithoutRepeatsIff(ids: seq<int>)
    ensures var kept := WithoutRepeats(ids);
      && Distinct(kept) && |kept| <= |ids| && (forall id :: id in kept <==> id in ids)
      && (kept == ids <==> Distinct(ids)) && (|kept| == |ids| <==> Distinct(ids))
    decreases |ids|
  {
    if ids != [] {
      var n := |ids| - 1;
      WithoutRepeatsIff(ids[..n]);
      assert ids == ids[..n] + [ids[n]];
      assert Distinct(ids) <==> Distinct(ids[..n]) && ids[n] !in ids[..n];
    }
  }

  /** Of an id that repeats, the first place counts. */
  lemma FirstPlaceCounts(ids: seq<int>, id: int)
    ensures WithoutRepeats(ids + [id]) == if id in ids then WithoutRepeats(ids) else WithoutRepeats(ids) + [id]
  {
    WithoutRepeatsIff(ids);
    assert (ids + [id])[..|ids|] == ids;
  }

  /** The child ids a node is dumped with. */
  function ChildIds(n: UINode, pageId: int): seq<int>
    requires n.frame.Some?
  {
    WithoutRepeats(Ids(Kids(n, pageId)))
  }

  // ----- The reference: a direct pre-order walk -----

  /** The nodes of the filtered tree in pre-order; level-No nodes are cut with everything below them. */
  function DumpNodes(n: UINode, pageId: int): seq<UINode>
    requires n.frame.Some?
    decreases FullSize(n), 0
  {
    [n] + DumpNodesAll(Kids(n, pageId), pageId)
  }

  function DumpNodesAll(ns: seq<UINode>, pageId: int): seq<UINode>
    requires forall n :: n in ns ==> n.frame.Some?
    decreases FullSizeAll(ns), 1
  {
    if ns == [] then []
    else
      assert ns[0] in ns;
      (if ns[0].frame.value.levelNo then [] else DumpNodes(ns[0], pageId)) + DumpNodesAll(ns[1..], pageId)
  }

  /** The dumped nodes are nodes of the search tree, in pre-order, none twice. */
  lemma {:induction false} DumpEmbeds(n: UINode, pageId: int)
    requires n.frame.Some? && VirtualsAreFrames(Preorder(Live, n))
    ensures Embeds(DumpNodes(n, pageId), Preorder(Live, n))
    decreases FullSize(n), 0
  {
    var kids := Kids(n, pageId);
    KidsEmbed(n, pageId);
    assert forall m :: m in PreorderAll(Live, kids) ==> m in Preorder(Live, n) by {
      forall m | m in PreorderAll(Live, kids)
        ensures m in Preorder(Live, n)
      {
        EmbedsMember(PreorderAll(Live, kids), PreorderAll(Live, Succ(Live, n)), m);
      }
    }
    DumpAllEmbeds(kids, pageId);
    EmbedsTransitive(DumpNodesAll(kids, pageId), PreorderAll(Live, kids), PreorderAll(Live, Succ(Live, n)));
    EmbedsItself([n]);
    EmbedsAppend([n], [n], DumpNodesAll(kids, pageId), PreorderAll(Live, Succ(Live, n)));
  }

  lemma KidsEmbed(n: UINode, pageId: int)
    requires n.frame.Some? && VirtualsAreFrames(Preorder(Live, n))
    ensures Embeds(PreorderAll(Live, Kids(n, pageId)), PreorderAll(Live, Succ(Live, n)))
  {
    assert n in Preorder(Live, n);
    assert FlatSucc(n) == Succ(Live, n);
    assert forall m :: m in PreorderAll(Live, Succ(Live, n)) ==> m in Preorder(Live, n);
    FlattenAllEmbeds(Succ(Live, n), pageId);
  }

  lemma {:induction false} DumpAllEmbeds(ns: seq<UINode>, pageId: int)
    requires forall n :: n in ns ==> n.frame.Some?
    requires VirtualsAreFrames(PreorderAll(Live, ns))
    ensures Embeds(DumpNodesAll(ns, pageId), PreorderAll(Live, ns))
    decreases FullSizeAll(ns), 1
  {
    if ns != [] {
      assert ns[0] in ns;
      DumpAllEmbeds(ns[1..], pageId);
      DumpEmbeds(ns[0], pageId);
      var first := if ns[0].frame.value.levelNo then [] else DumpNodes(ns[0], pageId);
      EmbedsAppend(first, Preorder(Live, ns[0]), DumpNodesAll(ns[1..], pageId), PreorderAll(Live, ns[1..]));
    }
  }

  /** What is dumped of a node: the node its properties are copied from, and its child ids. */
  datatype ElementInfo = ElementInfo(source: UINode, childIds: seq<int>)

  /** The calls of a dump: a node with the dumps its child ids lead to, or an id under which nothing is found. */
  datatype Dump = Made(info: ElementInfo, below: seq<Dump>) | Missing

  function TrueIds(ns: seq<UINode>): (ids: seq<int>)
    requires forall n :: n in ns ==> n.frame.Some?
    ensures |ids| == |ns| && forall i :: 0 <= i < |ns| ==> ns[i].frame.Some? && ids[i] == ns[i].frame.value.id
  {
    seq(|ns|, i requires 0 <= i < |ns| => assert ns[i] in ns; ns[i].frame.value.id)
  }

  /** The dump as it should be: every child listed under its own id, and dumped unless it is a level-No node. */
  function Walk(n: UINode, pageId: int): Dump
    requires n.frame.Some?
    decreases FullSize(n), 0
  {
    Made(ElementInfo(n, TrueIds(Kids(n, pageId))), WalkAll(Kids(n, pageId), pageId))
  }

  function WalkAll(ns: seq<UINode>, pageId: int): (walks: seq<Dump>)
    requires forall n :: n in ns ==> n.frame.Some?
    ensures |walks| == |ns|
    decreases FullSizeAll(ns), 1
  {
    if ns == [] then []
    else
      assert ns[0] in ns;
      [if ns[0].frame.value.levelNo then Missing else Walk(ns[0], pageId)] + WalkAll(ns[1..], pageId)
  }

  /** The list a dump leaves behind. */
  function Listing(dump: Dump): seq<ElementInfo> {
    match dump
    case Missing => []
    case Made(info, below) => [info] + ListingAll(below)
  }

  function ListingAll(dumps: seq<Dump>): seq<ElementInfo> {
    if dumps == [] then [] else Listing(dumps[0]) + ListingAll(dumps[1..])
  }

  function Sources(infos: seq<ElementInfo>): seq<UINode> {
    if infos == [] then [] else [infos[0].source] + Sources(infos[1..])
  }

  lemma {:induction false} SourcesAppend(a: seq<ElementInfo>, b: seq<ElementInfo>)
    ensures Sources(a + b) == Sources(a) + Sources(b)
    decreases |a|
  {
    if a == [] {
      NothingAround(b);
    } else {
      HeadOfAppend(a, b);
      SourcesAppend(a[1..], b);
      Assoc([a[0].source], Sources(a[1..]), Sources(b));
    }
  }

  /** The walk lists the nodes of the filtered tree in pre-order. */
  lemma {:induction false} WalkListsDumpNodes(n: UINode, pageId: int)
    requires n.frame.Some?
    ensures Sources(Listing(Walk(n, pageId))) == DumpNodes(n, pageId)
    decreases FullSize(n), 0
  {
    WalkAllListsDumpNodes(Kids(n, pageId), pageId);
    var info := ElementInfo(n, TrueIds(Kids(n, pageId)));
    HeadOfAppend([info], ListingAll(WalkAll(Kids(n, pageId), pageId)));
    NothingAround(ListingAll(WalkAll(Kids(n, pageId), pageId)));
  }

  lemma {:induction false} WalkAllListsDumpNodes(ns: seq<UINode>, pageId: int)
    requires forall n :: n in ns ==> n.frame.Some?
    ensures Sources(ListingAll(WalkAll(ns, pageId))) == DumpNodesAll(ns, pageId)
    decreases FullSizeAll(ns), 1
  {
    if ns != [] {
      assert ns[0] in ns;
      var first := if ns[0].frame.value.levelNo then Missing else Walk(ns[0], pageId);
      if !ns[0].frame.value.levelNo {
        WalkListsDumpNodes(ns[0], pageId);
      }
      WalkAllListsDumpNodes(ns[1..], pageId);
      HeadOfAppend([first], WalkAll(ns[1..], pageId));
      NothingAround(WalkAll(ns[1..], pageId));
      SourcesAppend(Listing(first), ListingAll(WalkAll(ns[1..], pageId)));
    }
  }

  // ----- The dump as the code does it -----

  class IdVector {
    var ids: seq<int>

    constructor ()
      ensures ids == []
    {
      ids := [];
    }
  }

  class InfoList {
    var items: seq<ElementInfo>
  }

  /** The child list of an element info. */
  class NodeInfo {
    var childIds: seq<int>

    constructor ()
      ensures childIds == []
    {
      childIds := [];
    }

    method AddChild(childId: int)
      modifies this
      ensures childIds == Added(old(childIds), childId)
    {
      var i := 0;
      while i < |childIds|
        invariant i <= |childIds| && childIds == old(childIds) && childId !in childIds[..i]
      {
        if childIds[i] == childId {
          return;
        }
        PrefixStep(childIds, i);
        i := i + 1;
      }
      assert childIds[..i] == childIds;
      childIds := childIds + [childId];
    }
  }

  method GetFrameNodeChildren(n: UINode, children: IdVector, pageId: int)
    modifies children
    ensures children.ids == old(children.ids) + Ids(Flatten(n, pageId))
    decreases n
  {
    if n.frame.Some? {
      var f := n.frame.value;
      if !f.firstVirtual {
        if !f.active {
          return;
        }
      }
      if f.tag == StageTag {
      } else if f.tag == PageTag {
        if f.pageId != pageId {
          return;
        }
      } else if !f.isInternal || f.firstVirtual {
        children.ids := children.ids + [Narrow32(f.id)];
        assert Ids([n]) == [Narrow32(f.id)] + Ids([]);
        return;
      }
      if n.virtualNode.Some? && n.virtualNode.value.frame.Some? {
        GetFrameNodeChildren(n.virtualNode.value, children, pageId);
        return;
      }
    }
    GetAllChildren(n.liveChildren, children, pageId);
  }

  lemma FlattenedFrom(ns: seq<UINode>, i: nat, pageId: int, before: seq<int>)
    requires i < |ns|
    ensures before + Ids(FlattenAll(ns[i..], pageId))
      == before + Ids(Flatten(ns[i], pageId)) + Ids(FlattenAll(ns[i + 1..], pageId))
  {
    SuffixStep(ns, i);
    IdsAppend(Flatten(ns[i], pageId), FlattenAll(ns[i + 1..], pageId));
    Assoc(before, Ids(Flatten(ns[i], pageId)), Ids(FlattenAll(ns[i + 1..], pageId)));
  }

  method GetAllChildren(ns: seq<UINode>, children: IdVector, pageId: int)
    modifies children
    ensures children.ids == old(children.ids) + Ids(FlattenAll(ns, pageId))
    decreases ns
  {
    var i := 0;
    assert ns[0..] == ns;
    while i < |ns|
      invariant i <= |ns|
      invariant children.ids + Ids(FlattenAll(ns[i..], pageId)) == old(children.ids) + Ids(FlattenAll(ns, pageId))
    {
      FlattenedFrom(ns, i, pageId, children.ids);
      GetFrameNodeChildren(ns[i], children, pageId);
      i := i + 1;
    }
  }

  /** The ids of the flattened children, or of the virtual node alone if there is one. */
  method CollectChildren(n: UINode, pageId: int) returns (ids: seq<int>)
    requires n.frame.Some?
    ensures ids == Ids(FlattenAll(FlatSucc(n), pageId))
  {
    var children := new IdVector();
    GetAllChildren(n.liveChildren, children, pageId);
    if n.virtualNode.Some? {
      if n.virtualNode.value.frame.Some? {
        children.ids := [];
        GetFrameNodeChildren(n.virtualNode.value, children, pageId);
        FlattenSingle(n.virtualNode.value, pageId);
      }
    }
    ids := children.ids;
  }

  method UpdateChildren(n: UINode, pageId: int, nodeInfo: NodeInfo)
    requires n.frame.Some?
    modifies nodeInfo
    ensures nodeInfo.childIds == AddedAll(old(nodeInfo.childIds), Ids(FlattenAll(FlatSucc(n), pageId)))
  {
    var children := CollectChildren(n, pageId);
    var i := 0;
    while i < |children|
      invariant i <= |children| && nodeInfo.childIds == AddedAll(old(nodeInfo.childIds), children[..i])
    {
      PrefixStep(children, i);
      nodeInfo.AddChild(children[i]);
      i := i + 1;
    }
    assert children[..i] == children;
  }

  method MakeInfo(n: UINode, pageId: int) returns (info: ElementInfo)
    requires n.frame.Some?
    ensures info == ElementInfo(n, ChildIds(n, pageId))
  {
    var nodeInfo := new NodeInfo();
    if !(n.frame.value.group || n.frame.value.groupByPlace) || n.frame.value.tag == RootTag {
      UpdateChildren(n, pageId, nodeInfo);
    }
    info := ElementInfo(n, nodeInfo.childIds);
  }

  /** -1 stands for the root. */
  function Target(root: UINode, elementId: int): int
    requires root.frame.Some?
  {
    if elementId == DEFAULT_ID then root.frame.value.id else elementId
  }

  function Lookup(root: UINode, elementId: int): (found: Option<UINode>)
    requires root.frame.Some?
    ensures found.Some? ==> found.value.frame.Some?
  {
    Find(root, Target(root, elementId))
  }

  /** The dump on any tree, to a recursion depth; None when that is used up before the recursion ends. */
  function Search(root: UINode, elementId: int, pageId: int, depth: nat): Option<Dump>
    requires root.frame.Some?
    decreases depth, 0
  {
    if depth == 0 then None
    else
      match Lookup(root, elementId)
      case None => Some(Missing)
      case Some(n) =>
        match SearchAll(root, ChildIds(n, pageId), pageId, depth - 1)
        case None => None
        case Some(below) => Some(Made(ElementInfo(n, ChildIds(n, pageId)), below))
  }

  function SearchAll(root: UINode, ids: seq<int>, pageId: int, depth: nat): Option<seq<Dump>>
    requires root.frame.Some?
    decreases depth, 1 + |ids|
  {
    if ids == [] then Some([])
    else
      match Search(root, ids[0], pageId, depth)
      case None => None
      case Some(first) =>
        match SearchAll(root, ids[1..], pageId, depth)
        case None => None
        case Some(later) => Some([first] + later)
  }

  /** What the dumps of the ids from the i-th on leave behind, if they end. */
  function Rest(root: UINode, ids: seq<int>, i: nat, pageId: int, depth: nat): Option<seq<ElementInfo>>
    requires root.frame.Some? && i <= |ids|
  {
    match SearchAll(root, ids[i..], pageId, depth) case None => None case Some(dumps) => Some(ListingAll(dumps))
  }

  lemma RestOfFound(root: UINode, elementId: int, n: UINode, pageId: int, depth: nat, items: seq<ElementInfo>)
    requires root.frame.Some? && Lookup(root, elementId) == Some(n) && Search(root, elementId, pageId, depth).Some?
    ensures depth > 0 && Rest(root, ChildIds(n, pageId), 0, pageId, depth - 1).Some?
    ensures items + Listing(Search(root, elementId, pageId, depth).value)
      == items + [ElementInfo(n, ChildIds(n, pageId))] + Rest(root, ChildIds(n, pageId), 0, pageId, depth - 1).value
  {
    var ids := ChildIds(n, pageId);
    assert ids[0..] == ids;
    Assoc(items, [ElementInfo(n, ids)], Rest(root, ids, 0, pageId, depth - 1).value);
  }

  lemma RestStep(root: UINode, ids: seq<int>, i: nat, pageId: int, depth: nat, items: seq<ElementInfo>)
    requires root.frame.Some? && i < |ids| && Rest(root, ids, i, pageId, depth).Some?
    ensures Search(root, ids[i], pageId, depth).Some? && Rest(root, ids, i + 1, pageId, depth).Some?
    ensures items + Rest(root, ids, i, pageId, depth).value
      == items + Listing(Search(root, ids[i], pageId, depth).value) + Rest(root, ids, i + 1, pageId, depth).value
  {
    SuffixStep(ids, i);
    var first := Search(root, ids[i], pageId, depth).value;
    var later := SearchAll(root, ids[i + 1..], pageId, depth).value;
    HeadOfAppend([first], later);
    NothingAround(later);
    Assoc(items, Listing(first), ListingAll(later));
  }

  lemma RestAtEnd(root: UINode, ids: seq<int>, pageId: int, depth: nat, items: seq<ElementInfo>)
    requires root.frame.Some?
    ensures Rest(root, ids, |ids|, pageId, depth).Some? && items + Rest(root, ids, |ids|, pageId, depth).value == items
  {
    assert ids[|ids|..] == [];
    NothingAround(items);
  }

  lemma NothingFound(root: UINode, elementId: int, pageId: int, depth: nat, items: seq<ElementInfo>)
    requires root.frame.Some? && Lookup(root, elementId) == None && Search(root, elementId, pageId, depth).Some?
    ensures items + Listing(Search(root, elementId, pageId, depth).value) == items
  {
    NothingAround(items);
  }

  /** The recursive dump, wherever it ends: `depth` is any depth that suffices. */
  method SearchElementInfo(root: UINode, elementId: int, pageId: int, infos: InfoList, ghost depth: nat)
    requires root.frame.Some? && Search(root, elementId, pageId, depth).Some?
    modifies infos
    ensures infos.items == old(infos.items) + Listing(Search(root, elementId, pageId, depth).value)
    decreases depth
  {
    ghost var whole := infos.items + Listing(Search(root, elementId, pageId, depth).value);
    var nodeId := elementId;
    if elementId == DEFAULT_ID {
      nodeId := root.frame.value.id;
    }
    var node := GetFramenodeByAccessibilityId(Some(root), nodeId);
    if node.None? {
      NothingFound(root, elementId, pageId, depth, infos.items);
      return;
    }
    RestOfFound(root, elementId, node.value, pageId, depth, infos.items);
    var info := MakeInfo(node.value, pageId);
    infos.items := infos.items + [info];
    var i := 0;
    while i < |info.childIds|
      invariant i <= |info.childIds| && Rest(root, info.childIds, i, pageId, depth - 1).Some?
      invariant infos.items + Rest(root, info.childIds, i, pageId, depth - 1).value == whole
    {
      RestStep(root, info.childIds, i, pageId, depth - 1, infos.items);
      SearchElementInfo(root, info.childIds[i], pageId, infos, depth - 1);
      i := i + 1;
    }
    RestAtEnd(root, info.childIds, pageId, depth - 1, infos.items);
  }
}

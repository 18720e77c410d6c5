/** When the dump that looks every child up again from the root is the direct walk: exactly when the children
    met on the walk are numbered so that each lookup leads back to the child it is for. */
module AccessibilityNumbering {
  import opened Prelude
  import opened AccessibilityTree
  import opened AccessibilitySearch
  import opened AccessibilityDump

  // ----- Earliest matches -----

  predicate EarliestMatch(rule: Rule, ns: seq<UINode>, id: int, i: int) {
    0 <= i < |ns| && Matches(rule, ns[i], id) && forall j :: 0 <= j < i ==> !Matches(rule, ns[j], id)
  }

  lemma {:induction false} FirstIsEarliest(rule: Rule, ns: seq<UINode>, id: int, i: nat)
    requires EarliestMatch(rule, ns, id, i)
    ensures First(rule, ns, id) == Some(ns[i])
  {
    if i > 0 {
      assert forall j :: 0 < j < |ns| ==> ns[j] == ns[1..][j - 1];
      FirstIsEarliest(rule, ns[1..], id, i - 1);
    }
  }

  // ----- Numbering -----

  /** No eligible node served before `c` has its id; if `c` is a level-No node, no eligible node has it at all. */
  ghost predicate IdLeadsHere(root: UINode, c: UINode)
    requires root.frame.Some? && c.frame.Some?
  {
    var served, id := Served(Live, Succ(Live, root)), c.frame.value.id;
    if c.frame.value.levelNo then forall m :: m in served ==> !Matches(NotLevelNo, m, id)
    else exists i :: EarliestMatch(NotLevelNo, served, id, i) && served[i] == c
  }

  ghost predicate ChildNumbered(root: UINode, c: UINode)
    requires root.frame.Some? && c.frame.Some?
  {
    var id := c.frame.value.id;
    Fits32(id) && id != -1 && id != root.frame.value.id && IdLeadsHere(root, c)
  }

  ghost predicate ChildrenNumbered(root: UINode, n: UINode, pageId: int)
    requires root.frame.Some? && n.frame.Some?
  {
    && Distinct(TrueIds(Kids(n, pageId)))
    && forall c :: c in Kids(n, pageId) ==> ChildNumbered(root, c)
  }

  /** The children of all nodes met on the walk from `n`. */
  ghost predicate WalkNumbered(root: UINode, n: UINode, pageId: int)
    requires root.frame.Some? && n.frame.Some?
  {
    forall m :: m in DumpNodes(n, pageId) && m.frame.Some? ==> ChildrenNumbered(root, m, pageId)
  }

  /** A lookup by a child's id leads to the child, or to nothing if it is a level-No node. */
  predicate LeadsBack(root: UINode, id: int, c: UINode)
    requires root.frame.Some? && c.frame.Some?
  {
    Lookup(root, id) == if c.frame.value.levelNo then None else Some(c)
  }

  lemma LeadsBackIff(root: UINode, c: UINode)
    requires root.frame.Some? && c.frame.Some?
    requires c.frame.value.id != -1 && c.frame.value.id != root.frame.value.id
    ensures LeadsBack(root, c.frame.value.id, c) <==> IdLeadsHere(root, c)
  {
    var served, id := Served(Live, Succ(Live, root)), c.frame.value.id;
    NoFirst(NotLevelNo, served, id);
    if First(NotLevelNo, served, id).Some? {
      var i := FirstIndex(NotLevelNo, served, id);
      assert EarliestMatch(NotLevelNo, served, id, i);
    }
    if i :| EarliestMatch(NotLevelNo, served, id, i) && served[i] == c {
      FirstIsEarliest(NotLevelNo, served, id, i);
    }
  }

  /** No two of the nodes served by a search from `root` are the same node. */
  predicate ServedOnce(root: UINode) {
    var served := Served(Live, Succ(Live, root));
    forall i, j :: 0 <= i < j < |served| ==> served[i] != served[j]
  }

  /** By place: the node served at place `k` is where its id leads exactly when no eligible node served before
      that place has the id. */
  lemma IdLeadsHereByPlace(root: UINode, k: nat)
    requires root.frame.Some? && ServedOnce(root) && k < |Served(Live, Succ(Live, root))|
    requires var c := Served(Live, Succ(Live, root))[k]; c.frame.Some? && !c.frame.value.levelNo
    ensures var served := Served(Live, Succ(Live, root));
      IdLeadsHere(root, served[k]) <==>
        forall j :: 0 <= j < k ==> !Matches(NotLevelNo, served[j], served[k].frame.value.id)
  {
    var served := Served(Live, Succ(Live, root));
    var id := served[k].frame.value.id;
    if i :| EarliestMatch(NotLevelNo, served, id, i) && served[i] == served[k] {
      assert i == k;
    }
    if forall j :: 0 <= j < k ==> !Matches(NotLevelNo, served[j], id) {
      assert EarliestMatch(NotLevelNo, served, id, k);
    }
  }

  // ----- The walk and its members -----

  lemma {:induction false} WalkedBelow(ns: seq<UINode>, pageId: int, m: UINode)
    requires forall n :: n in ns ==> n.frame.Some?
    ensures m in DumpNodesAll(ns, pageId) <==>
      exists c :: c in ns && !c.frame.value.levelNo && m in DumpNodes(c, pageId)
    decreases |ns|
  {
    if ns != [] {
      assert ns[0] in ns;
      WalkedBelow(ns[1..], pageId, m);
      assert forall c :: c in ns <==> c == ns[0] || c in ns[1..];
    }
  }

  lemma WalkedFrom(n: UINode, c: UINode, pageId: int, m: UINode)
    requires n.frame.Some? && c in Kids(n, pageId) && !c.frame.value.levelNo && m in DumpNodes(c, pageId)
    ensures m in DumpNodes(n, pageId)
  {
    WalkedBelow(Kids(n, pageId), pageId, m);
  }

  lemma {:induction false} InTreeIsSmaller(ns: seq<UINode>, m: UINode)
    requires m in PreorderAll(Live, ns)
    ensures FullSize(m) <= FullSizeAll(ns)
    decreases SizeAll(Live, ns), |ns|
  {
    if m in Preorder(Live, ns[0]) {
      SizeStep(Live, ns[0]);
      if m != ns[0] {
        InTreeIsSmaller(Succ(Live, ns[0]), m);
        SuccIsSmaller(ns[0]);
      }
    } else {
      InTreeIsSmaller(ns[1..], m);
    }
  }

  lemma SuccIsSmaller(n: UINode)
    ensures FullSizeAll(Succ(Live, n)) < FullSize(n)
  {
    if HasVirtual(n) {
      assert [n.virtualNode.value][1..] == [];
      assert FullSizeAll([]) == 0;
    }
  }

  lemma {:induction false} ServedIsPreorder(view: View, queue: seq<UINode>, m: UINode)
    ensures m in Served(view, queue) <==> m in PreorderAll(view, queue)
    decreases SizeAll(view, queue)
  {
    if queue != [] {
      SizeStep(view, queue[0]);
      SizeAppend(view, queue[1..], Succ(view, queue[0]));
      PreorderAppend(view, queue[1..], Succ(view, queue[0]));
      ServedIsPreorder(view, queue[1..] + Succ(view, queue[0]), m);
    }
  }

  lemma FoundIsInTree(root: UINode, elementId: int)
    requires root.frame.Some? && Lookup(root, elementId).Some?
    ensures Lookup(root, elementId).value in Preorder(Live, root)
    ensures FullSize(Lookup(root, elementId).value) <= FullSize(root)
  {
    var n := Lookup(root, elementId).value;
    ServedIsPreorder(Live, Succ(Live, root), n);
    PreorderSingle(Live, root);
    InTreeIsSmaller([root], n);
    assert [root][1..] == [] && FullSizeAll([]) == 0;
  }

  lemma {:induction false} WalkedThrough(n: UINode, pageId: int, m: UINode) returns (i: nat)
    requires n.frame.Some? && m in DumpNodes(n, pageId) && m != n
    ensures var kids := Kids(n, pageId);
      i < |kids| && kids[i] in kids && !kids[i].frame.value.levelNo && m in DumpNodes(kids[i], pageId)
  {
    var kids := Kids(n, pageId);
    WalkedBelow(kids, pageId, m);
    var c :| c in kids && !c.frame.value.levelNo && m in DumpNodes(c, pageId);
    i :| 0 <= i < |kids| && kids[i] == c;
  }

  // ----- A well-numbered walk is what the dump does -----

  lemma IdsAreTrue(kids: seq<UINode>)
    requires forall c :: c in kids ==> c.frame.Some? && Fits32(c.frame.value.id)
    requires Distinct(TrueIds(kids))
    ensures WithoutRepeats(Ids(kids)) == TrueIds(kids)
  {
    IdsLength(kids);
    var ids, own := Ids(kids), TrueIds(kids);
    forall i | 0 <= i < |kids|
      ensures ids[i] == own[i]
    {
      assert kids[i] in kids;
      NarrowFits(own[i]);
    }
    assert ids == own;
    WithoutRepeatsIff(ids);
  }

  /** The children of a well-numbered node. */
  lemma KidLeadsBack(root: UINode, n: UINode, pageId: int, i: nat)
    requires root.frame.Some? && n.frame.Some? && ChildrenNumbered(root, n, pageId) && i < |Kids(n, pageId)|
    ensures var c := Kids(n, pageId)[i];
      c in Kids(n, pageId) && c.frame.Some? && LeadsBack(root, c.frame.value.id, c) && FullSize(c) < FullSize(n)
  {
    var c := Kids(n, pageId)[i];
    assert c in Kids(n, pageId);
    FullSizeMember(Kids(n, pageId), c);
    LeadsBackIff(root, c);
  }

  lemma ChildIdsAreTrue(root: UINode, n: UINode, pageId: int)
    requires root.frame.Some? && n.frame.Some? && ChildrenNumbered(root, n, pageId)
    ensures ChildIds(n, pageId) == TrueIds(Kids(n, pageId))
  {
    IdsAreTrue(Kids(n, pageId));
  }

  lemma SearchStep(root: UINode, elementId: int, n: UINode, pageId: int, depth: nat)
    requires root.frame.Some? && Lookup(root, elementId) == Some(n) && depth > 0
    ensures var below := SearchAll(root, ChildIds(n, pageId), pageId, depth - 1);
      Search(root, elementId, pageId, depth) ==
        if below.None? then None else Some(Made(ElementInfo(n, ChildIds(n, pageId)), below.value))
  {
  }

  /** Where every id leads to its node, but the dumps of the ids are not the walks of the nodes: some eligible
      node's dump is not its walk. */
  lemma {:induction false} CulpritAmong(root: UINode, ids: seq<int>, kids: seq<UINode>, pageId: int, depth: nat)
      returns (i: nat)
    requires root.frame.Some? && depth > 0 && |ids| == |kids| && forall c :: c in kids ==> c.frame.Some?
    requires forall k :: 0 <= k < |kids| ==> kids[k] in kids && LeadsBack(root, ids[k], kids[k])
    requires SearchAll(root, ids, pageId, depth) != Some(WalkAll(kids, pageId))
    ensures i < |kids| && kids[i].frame.Some? && !kids[i].frame.value.levelNo
    ensures Search(root, ids[i], pageId, depth) != Some(Walk(kids[i], pageId))
    decreases |ids|
  {
    assert kids[0] in kids && LeadsBack(root, ids[0], kids[0]);
    if !kids[0].frame.value.levelNo && Search(root, ids[0], pageId, depth) != Some(Walk(kids[0], pageId)) {
      i := 0;
    } else {
      forall k | 0 <= k < |kids[1..]|
        ensures kids[1..][k] in kids[1..] && LeadsBack(root, ids[1..][k], kids[1..][k])
      {
        assert LeadsBack(root, ids[k + 1], kids[k + 1]);
      }
      var k := CulpritAmong(root, ids[1..], kids[1..], pageId, depth);
      i := k + 1;
    }
  }

  /** A node with well-numbered children whose dump is not its walk, though there is depth enough: the dump of some
      eligible child is not its walk either. */
  lemma CulpritBelow(root: UINode, elementId: int, n: UINode, pageId: int, depth: nat) returns (c: UINode)
    requires root.frame.Some? && Lookup(root, elementId) == Some(n) && depth > FullSize(n)
    requires ChildrenNumbered(root, n, pageId) && Search(root, elementId, pageId, depth) != Some(Walk(n, pageId))
    ensures c in Kids(n, pageId) && !c.frame.value.levelNo && depth - 1 > FullSize(c)
    ensures Lookup(root, c.frame.value.id) == Some(c)
    ensures Search(root, c.frame.value.id, pageId, depth - 1) != Some(Walk(c, pageId))
  {
    var kids, ids := Kids(n, pageId), TrueIds(Kids(n, pageId));
    ChildIdsAreTrue(root, n, pageId);
    SearchStep(root, elementId, n, pageId, depth);
    forall k | 0 <= k < |kids|
      ensures kids[k] in kids && LeadsBack(root, ids[k], kids[k])
    {
      KidLeadsBack(root, n, pageId, k);
    }
    var i := CulpritAmong(root, ids, kids, pageId, depth - 1);
    c := kids[i];
    KidLeadsBack(root, n, pageId, i);
  }

  /** If there is depth enough and the dump is not the walk, some node met on the walk has badly numbered children. */
  lemma {:induction false} Culprit(root: UINode, elementId: int, n: UINode, pageId: int, depth: nat) returns (m: UINode)
    requires root.frame.Some? && Lookup(root, elementId) == Some(n) && depth > FullSize(n)
    requires Search(root, elementId, pageId, depth) != Some(Walk(n, pageId))
    ensures m in DumpNodes(n, pageId) && m.frame.Some? && !ChildrenNumbered(root, m, pageId)
    decreases depth
  {
    m := n;
    if ChildrenNumbered(root, n, pageId) {
      var c := CulpritBelow(root, elementId, n, pageId, depth);
      m := Culprit(root, c.frame.value.id, c, pageId, depth - 1);
      WalkedFrom(n, c, pageId, m);
    }
  }

  lemma NumberedIsWalked(root: UINode, elementId: int, n: UINode, pageId: int, depth: nat)
    requires root.frame.Some? && Lookup(root, elementId) == Some(n)
    requires WalkNumbered(root, n, pageId) && depth > FullSize(n)
    ensures Search(root, elementId, pageId, depth) == Some(Walk(n, pageId))
  {
    if Search(root, elementId, pageId, depth) != Some(Walk(n, pageId)) {
      var m := Culprit(root, elementId, n, pageId, depth);
    }
  }

  // ----- A dump that is the walk is well-numbered -----

  /** Where the dumps of a list of ids are the walks of a list of nodes, each id leads to its node. */
  lemma {:induction false} WalkedKidsLeadBack(root: UINode, ids: seq<int>, kids: seq<UINode>, pageId: int, depth: nat,
                                              i: nat)
    requires root.frame.Some? && i < |kids| == |ids| && forall c :: c in kids ==> c.frame.Some?
    requires SearchAll(root, ids, pageId, depth) == Some(WalkAll(kids, pageId))
    ensures kids[i] in kids && LeadsBack(root, ids[i], kids[i])
    ensures !kids[i].frame.value.levelNo ==> Search(root, ids[i], pageId, depth) == Some(Walk(kids[i], pageId))
    decreases |ids|
  {
    assert kids[0] in kids;
    var first := if kids[0].frame.value.levelNo then Missing else Walk(kids[0], pageId);
    HeadOfAppend([first], WalkAll(kids[1..], pageId));
    NothingAround(WalkAll(kids[1..], pageId));
    HeadOfAppend([Search(root, ids[0], pageId, depth).value], SearchAll(root, ids[1..], pageId, depth).value);
    NothingAround(SearchAll(root, ids[1..], pageId, depth).value);
    if i > 0 {
      WalkedKidsLeadBack(root, ids[1..], kids[1..], pageId, depth, i - 1);
    }
  }

  /** Child ids that are the children's own were neither narrowed nor dropped. */
  lemma TrueIdsFit(n: UINode, pageId: int)
    requires n.frame.Some? && ChildIds(n, pageId) == TrueIds(Kids(n, pageId))
    ensures Distinct(TrueIds(Kids(n, pageId)))
    ensures forall c :: c in Kids(n, pageId) ==> Fits32(c.frame.value.id)
  {
    var kids := Kids(n, pageId);
    IdsLength(kids);
    WithoutRepeatsIff(Ids(kids));
    forall c | c in kids
      ensures Fits32(c.frame.value.id)
    {
      var i :| 0 <= i < |kids| && kids[i] == c;
      assert Ids(kids)[i] == TrueIds(kids)[i];
    }
  }

  /** A child is smaller than the root, so no lookup that leads to the root leads back to a child. */
  lemma KidIsNumbered(root: UINode, n: UINode, c: UINode, pageId: int)
    requires root.frame.Some? && n.frame.Some? && FullSize(n) <= FullSize(root) && c in Kids(n, pageId)
    requires Fits32(c.frame.value.id) && LeadsBack(root, c.frame.value.id, c)
    ensures ChildNumbered(root, c)
  {
    FullSizeMember(Kids(n, pageId), c);
    assert c != root;
    LeadsBackIff(root, c);
  }

  /** What the dumps of its children look like if the dump of `n` is its walk. */
  predicate BelowIsWalked(root: UINode, n: UINode, pageId: int, depth: nat)
    requires root.frame.Some? && n.frame.Some?
  {
    && ChildIds(n, pageId) == TrueIds(Kids(n, pageId))
    && SearchAll(root, ChildIds(n, pageId), pageId, depth) == Some(WalkAll(Kids(n, pageId), pageId))
  }

  lemma WalkedStep(root: UINode, elementId: int, n: UINode, pageId: int, depth: nat)
    requires root.frame.Some? && Lookup(root, elementId) == Some(n)
    requires Search(root, elementId, pageId, depth) == Some(Walk(n, pageId))
    ensures depth > 0 && BelowIsWalked(root, n, pageId, depth - 1)
  {
    assert depth > 0;
    SearchStep(root, elementId, n, pageId, depth);
  }

  /** One child of a node whose dump is its walk. */
  lemma WalkedKid(root: UINode, n: UINode, pageId: int, depth: nat, i: nat)
    requires root.frame.Some? && n.frame.Some? && FullSize(n) <= FullSize(root) && i < |Kids(n, pageId)|
    requires BelowIsWalked(root, n, pageId, depth)
    ensures var c := Kids(n, pageId)[i];
      && c in Kids(n, pageId) && c.frame.Some? && ChildNumbered(root, c) && FullSize(c) < FullSize(n)
      && (!c.frame.value.levelNo ==> depth > 0 && BelowIsWalked(root, c, pageId, depth - 1))
  {
    var kids := Kids(n, pageId);
    TrueIdsFit(n, pageId);
    WalkedKidsLeadBack(root, ChildIds(n, pageId), kids, pageId, depth, i);
    KidIsNumbered(root, n, kids[i], pageId);
    FullSizeMember(kids, kids[i]);
    if !kids[i].frame.value.levelNo {
      WalkedStep(root, kids[i].frame.value.id, kids[i], pageId, depth);
    }
  }

  lemma NodeIsNumbered(root: UINode, n: UINode, pageId: int, depth: nat)
    requires root.frame.Some? && n.frame.Some? && FullSize(n) <= FullSize(root)
    requires BelowIsWalked(root, n, pageId, depth)
    ensures ChildrenNumbered(root, n, pageId)
  {
    var kids := Kids(n, pageId);
    TrueIdsFit(n, pageId);
    forall c | c in kids
      ensures ChildNumbered(root, c)
    {
      var i: nat :| i < |kids| && kids[i] == c;
      WalkedKid(root, n, pageId, depth, i);
    }
  }

  /** The child below which `m` is met. */
  lemma ChildOnTheWay(root: UINode, n: UINode, pageId: int, depth: nat, m: UINode) returns (c: UINode)
    requires root.frame.Some? && n.frame.Some? && FullSize(n) <= FullSize(root)
    requires BelowIsWalked(root, n, pageId, depth) && m in DumpNodes(n, pageId) && m != n
    ensures c.frame.Some? && FullSize(c) <= FullSize(root) && m in DumpNodes(c, pageId)
    ensures depth > 0 && BelowIsWalked(root, c, pageId, depth - 1)
  {
    var i := WalkedThrough(n, pageId, m);
    c := Kids(n, pageId)[i];
    WalkedKid(root, n, pageId, depth, i);
  }

  /** The dumps of the children of any node met on the way are their walks, too. */
  lemma {:induction false} WalkedOnTheWay(root: UINode, n: UINode, pageId: int, depth: nat, m: UINode) returns (d: nat)
    requires root.frame.Some? && n.frame.Some? && FullSize(n) <= FullSize(root)
    requires BelowIsWalked(root, n, pageId, depth) && m in DumpNodes(n, pageId)
    ensures m.frame.Some? && FullSize(m) <= FullSize(root) && BelowIsWalked(root, m, pageId, d)
    decreases depth
  {
    d := depth;
    if m != n {
      var c := ChildOnTheWay(root, n, pageId, depth, m);
      d := WalkedOnTheWay(root, c, pageId, depth - 1, m);
    }
  }

  lemma MetIsNumbered(root: UINode, n: UINode, pageId: int, depth: nat, m: UINode)
    requires root.frame.Some? && n.frame.Some? && FullSize(n) <= FullSize(root)
    requires BelowIsWalked(root, n, pageId, depth) && m in DumpNodes(n, pageId)
    ensures m.frame.Some? && ChildrenNumbered(root, m, pageId)
  {
    var d := WalkedOnTheWay(root, n, pageId, depth, m);
    NodeIsNumbered(root, m, pageId, d);
  }

  lemma WalkedIsNumbered(root: UINode, elementId: int, n: UINode, pageId: int, depth: nat)
    requires root.frame.Some? && Lookup(root, elementId) == Some(n)
    requires Search(root, elementId, pageId, depth) == Some(Walk(n, pageId))
    ensures WalkNumbered(root, n, pageId)
  {
    FoundIsInTree(root, elementId);
    WalkedStep(root, elementId, n, pageId, depth);
    forall m | m in DumpNodes(n, pageId) {
      MetIsNumbered(root, n, pageId, depth - 1, m);
    }
  }

  /** On any tree: the dump ends with the direct walk exactly when, for every child met on the walk, its id fits 32
      bits, is neither -1 nor the root's, differs from its siblings', and leads to no other eligible node first. */
  lemma DumpIsWalkIff(root: UINode, elementId: int, pageId: int)
    requires root.frame.Some? && Lookup(root, elementId).Some?
    ensures var n := Lookup(root, elementId).value;
      (exists depth :: Search(root, elementId, pageId, depth) == Some(Walk(n, pageId)))
      <==> WalkNumbered(root, n, pageId)
  {
    var n := Lookup(root, elementId).value;
    FoundIsInTree(root, elementId);
    if WalkNumbered(root, n, pageId) {
      NumberedIsWalked(root, elementId, n, pageId, FullSize(n) + 1);
    }
    if depth :| Search(root, elementId, pageId, depth) == Some(Walk(n, pageId)) {
      WalkedIsNumbered(root, elementId, n, pageId, depth);
    }
  }

  /** Two different nodes with one id, both met on the walk as eligible children: the dump is not the walk. */
  lemma SharedIdIsNotWalk(root: UINode, elementId: int, n: UINode, pageId: int, depth: nat,
                          m: UINode, c: UINode, m': UINode, c': UINode)
    requires root.frame.Some? && Lookup(root, elementId) == Some(n)
    requires m in DumpNodes(n, pageId) && m.frame.Some? && c in Kids(m, pageId) && !c.frame.value.levelNo
    requires m' in DumpNodes(n, pageId) && m'.frame.Some? && c' in Kids(m', pageId) && !c'.frame.value.levelNo
    requires c != c' && c.frame.value.id == c'.frame.value.id
    ensures Search(root, elementId, pageId, depth) != Some(Walk(n, pageId))
  {
    if Search(root, elementId, pageId, depth) == Some(Walk(n, pageId)) {
      WalkedIsNumbered(root, elementId, n, pageId, depth);
      assert ChildrenNumbered(root, m, pageId) && ChildrenNumbered(root, m', pageId);
      LeadsBackIff(root, c);
      LeadsBackIff(root, c');
    }
  }

  // ----- Trees numbered well throughout -----

  /** All ids are unique, fit 32 bits and are not -1, and virtual nodes are frames. */
  predicate WellNumbered(root: UINode) {
    var all := Preorder(Live, root);
    && UniqueIds(all)
    && VirtualsAreFrames(all)
    && forall m :: m in all && m.frame.Some? ==>
         Fits32(m.frame.value.id) && m.frame.value.id != -1
  }

  /** With unique ids a node below the root is found under its id, unless it is a level-No node. */
  lemma FindById(root: UINode, c: UINode)
    requires root.frame.Some? && c.frame.Some? && UniqueIds(Preorder(Live, root)) && c in Preorder(Live, root)
    requires root.frame.value.id != c.frame.value.id
    ensures Find(root, c.frame.value.id) == if c.frame.value.levelNo then None else Some(c)
  {
    var id := c.frame.value.id;
    NoFirst(NotLevelNo, Served(Live, Succ(Live, root)), id);
    ServedIsPreorder(Live, Succ(Live, root), c);
    if Find(root, id).Some? {
      ServedIsPreorder(Live, Succ(Live, root), Find(root, id).value);
      SameIdSameNode(Preorder(Live, root), Find(root, id).value, c);
    }
  }

  lemma KidInTree(root: UINode, n: UINode, c: UINode, pageId: int)
    requires WellNumbered(root) && n in Preorder(Live, root) && n.frame.Some? && c in Kids(n, pageId)
    ensures c in Preorder(Live, root)
  {
    InTree(root, n);
    KidsEmbed(n, pageId);
    var kids := Kids(n, pageId);
    var i :| 0 <= i < |kids| && kids[i] == c;
    assert c in Preorder(Live, c);
    PreorderAllMember(Live, kids, i, c);
    EmbedsMember(PreorderAll(Live, kids), PreorderAll(Live, Succ(Live, n)), c);
  }

  lemma InTree(root: UINode, n: UINode)
    requires n in Preorder(Live, root)
    ensures forall m :: m in Preorder(Live, n) ==> m in Preorder(Live, root)
  {
    PreorderSingle(Live, root);
    forall m | m in Preorder(Live, n)
      ensures m in Preorder(Live, root)
    {
      PreorderTransitive(Live, [root], n, m);
    }
  }

  /** A dumped node's child is found again under its id, unless it is a level-No node. */
  lemma FindKid(root: UINode, n: UINode, c: UINode, pageId: int)
    requires root.frame.Some? && WellNumbered(root)
    requires n in Preorder(Live, root) && n.frame.Some? && c in Kids(n, pageId)
    ensures c in Preorder(Live, root) && ChildNumbered(root, c)
  {
    KidInTree(root, n, c, pageId);
    PreorderSingle(Live, root);
    InTreeIsSmaller([root], n);
    assert [root][1..] == [] && FullSizeAll([]) == 0;
    FullSizeMember(Kids(n, pageId), c);
    if root.frame.value.id == c.frame.value.id {
      SameIdSameNode(Preorder(Live, root), root, c);
    } else {
      FindById(root, c);
      LeadsBackIff(root, c);
    }
  }

  lemma KidsAreDistinct(root: UINode, n: UINode, pageId: int)
    requires WellNumbered(root) && n in Preorder(Live, root) && n.frame.Some?
    ensures Distinct(TrueIds(Kids(n, pageId)))
  {
    var kids := Kids(n, pageId);
    InTree(root, n);
    PreorderSingle(Live, root);
    SubtreeUnique([root], n);
    KidsEmbed(n, pageId);
    UniqueParts([n], PreorderAll(Live, Succ(Live, n)));
    EmbedsUnique(PreorderAll(Live, kids), PreorderAll(Live, Succ(Live, n)));
    forall i, j | 0 <= i < j < |kids|
      ensures TrueIds(kids)[i] != TrueIds(kids)[j]
    {
      assert kids[i] in Preorder(Live, kids[i]) && kids[j] in Preorder(Live, kids[j]);
      PreorderAllMember(Live, kids, i, kids[i]);
      PreorderAllMember(Live, kids, j, kids[j]);
      BlocksAreDisjoint(kids, i, j, kids[i]);
      if TrueIds(kids)[i] == TrueIds(kids)[j] {
        SameIdSameNode(PreorderAll(Live, kids), kids[i], kids[j]);
      }
    }
  }

  lemma {:induction false} SubtreeUnique(ns: seq<UINode>, n: UINode)
    requires n in PreorderAll(Live, ns) && UniqueIds(PreorderAll(Live, ns))
    ensures UniqueIds(Preorder(Live, n))
    decreases SizeAll(Live, ns), |ns|
  {
    var first, later := Preorder(Live, ns[0]), PreorderAll(Live, ns[1..]);
    UniqueParts(first, later);
    if n in first {
      if n != ns[0] {
        SizeStep(Live, ns[0]);
        UniqueParts([ns[0]], PreorderAll(Live, Succ(Live, ns[0])));
        SubtreeUnique(Succ(Live, ns[0]), n);
      }
    } else {
      SubtreeUnique(ns[1..], n);
    }
  }

  lemma UniqueParts(a: seq<UINode>, b: seq<UINode>)
    requires UniqueIds(a + b)
    ensures UniqueIds(a) && UniqueIds(b)
  {
    assert forall i :: 0 <= i < |a| ==> (a + b)[i] == a[i];
    assert forall i :: 0 <= i < |b| ==> (a + b)[i + |a|] == b[i];
  }

  lemma WellNumberedWalk(root: UINode, n: UINode, pageId: int)
    requires root.frame.Some? && WellNumbered(root) && n in Preorder(Live, root) && n.frame.Some?
    ensures WalkNumbered(root, n, pageId)
  {
    InTree(root, n);
    DumpEmbeds(n, pageId);
    forall m | m in DumpNodes(n, pageId) && m.frame.Some?
      ensures ChildrenNumbered(root, m, pageId)
    {
      EmbedsMember(DumpNodes(n, pageId), Preorder(Live, n), m);
      KidsAreDistinct(root, m, pageId);
      forall c | c in Kids(m, pageId)
        ensures ChildNumbered(root, c)
      {
        FindKid(root, m, c, pageId);
      }
    }
  }

  /** On a well-numbered tree a depth above the size of the found subtree is always enough for the walk. */
  lemma DepthSuffices(root: UINode, elementId: int, pageId: int, depth: nat)
    requires root.frame.Some? && WellNumbered(root) && Lookup(root, elementId).Some?
    requires depth > FullSize(Lookup(root, elementId).value)
    ensures Search(root, elementId, pageId, depth) == Some(Walk(Lookup(root, elementId).value, pageId))
  {
    var n := Lookup(root, elementId).value;
    FoundIsInTree(root, elementId);
    WellNumberedWalk(root, n, pageId);
    NumberedIsWalked(root, elementId, n, pageId, depth);
  }

  /** There the dump is the pre-order of the filtered tree, each element once. */
  lemma DumpListsEachOnce(root: UINode, elementId: int, pageId: int)
    requires root.frame.Some? && WellNumbered(root) && Lookup(root, elementId).Some?
    ensures var n := Lookup(root, elementId).value;
      && (exists depth :: Search(root, elementId, pageId, depth) == Some(Walk(n, pageId)))
      && Sources(Listing(Walk(n, pageId))) == DumpNodes(n, pageId)
      && Embeds(DumpNodes(n, pageId), Preorder(Live, n))
      && UniqueIds(DumpNodes(n, pageId))
  {
    var n := Lookup(root, elementId).value;
    DepthSuffices(root, elementId, pageId, FullSize(n) + 1);
    FoundIsInTree(root, elementId);
    InTree(root, n);
    WalkListsDumpNodes(n, pageId);
    DumpEmbeds(n, pageId);
    PreorderSingle(Live, root);
    SubtreeUnique([root], n);
    EmbedsUnique(DumpNodes(n, pageId), Preorder(Live, n));
  }

  // ----- Two small trees -----

  function Column(handle: nat, id: int, kids: seq<UINode>): UINode {
    UINode(handle, Some(Frame(id, OtherTag("Column"), 0, true, false, false, false, false, false)), kids, kids, None)
  }

  function RootOver(id: int, kids: seq<UINode>): UINode {
    UINode(0, Some(Frame(id, RootTag, 0, true, false, false, false, false, false)), kids, kids, None)
  }

  lemma {:induction false} ColumnsAreListed(ns: seq<UINode>)
    requires forall n :: n in ns ==> RoleOf(n, 0) == Listed
    ensures FlattenAll(ns, 0) == ns
  {
    if ns != [] {
      assert ns[0] in ns;
      ColumnsAreListed(ns[1..]);
      assert [ns[0]] + ns[1..] == ns;
    }
  }

  lemma LeafWalk(handle: nat, id: int)
    ensures var leaf := Column(handle, id, []); Kids(leaf, 0) == [] && DumpNodes(leaf, 0) == [leaf]
  {
    var leaf := Column(handle, id, []);
    assert DumpNodes(leaf, 0) == [leaf] + [];
  }

  lemma PairWalk(id: int, kidId: int)
    ensures var kid := Column(1, kidId, []);
      var root := RootOver(id, [kid]);
      Kids(root, 0) == [kid] && Kids(kid, 0) == [] && DumpNodes(root, 0) == [root, kid]
  {
    var kid := Column(1, kidId, []);
    var root := RootOver(id, [kid]);
    ColumnsAreListed([kid]);
    LeafWalk(1, kidId);
    assert [kid][1..] == [];
    assert DumpNodesAll([kid], 0) == [kid] + [];
    assert DumpNodes(root, 0) == [root] + [kid];
  }

  lemma PairNumbered(id: int, kidId: int)
    ensures var kid := Column(1, kidId, []);
      ChildNumbered(RootOver(id, [kid]), kid) <==> Fits32(kidId) && kidId !in {id, -1}
  {
    var kid := Column(1, kidId, []);
    assert [kid][1..] + Succ(Live, kid) == [];
    assert Served(Live, [kid]) == [kid] + Served(Live, []);
    assert EarliestMatch(NotLevelNo, Served(Live, [kid]), kidId, 0);
  }

  /** For a root with one leaf, whatever their ids, the condition comes down to the leaf's id: it fits 32 bits and
      is neither the root's nor -1. */
  lemma PairDumpIff(id: int, kidId: int)
    ensures var root := RootOver(id, [Column(1, kidId, [])]);
      (exists depth :: Search(root, id, 0, depth) == Some(Walk(root, 0)))
      <==> -0x8000_0000 <= kidId < 0x8000_0000 && kidId !in {id, -1}
  {
    var kid := Column(1, kidId, []);
    var root := RootOver(id, [kid]);
    PairWalk(id, kidId);
    PairNumbered(id, kidId);
    assert ChildrenNumbered(root, kid, 0);
    assert ChildrenNumbered(root, root, 0) <==> ChildNumbered(root, kid);
    assert root in DumpNodes(root, 0);
    DumpIsWalkIff(root, id, 0);
  }

  /** A root over two columns, each over a leaf numbered 5. */
  function Cousins(first: nat, second: nat): UINode {
    RootOver(1, [Column(1, 2, [Column(first, 5, [])]), Column(2, 3, [Column(second, 5, [])])])
  }

  lemma ServesCousins(left: UINode, right: UINode, a: UINode, b: UINode)
    requires Succ(Live, left) == [a] && Succ(Live, right) == [b]
    ensures var served := Served(Live, [left, right]);
      |served| >= 4 && served[0] == left && served[1] == right && served[2] == a && served[3] == b
  {
    ServedLevel(Live, [left, right]);
    ServedLevel(Live, [a, b]);
    assert [left, right][1..] == [right] && [right][1..] == [];
    assert NextLevel(Live, [right]) == [b] + NextLevel(Live, []);
    assert NextLevel(Live, [left, right]) == [a] + [b];
  }

  /** Where the ids of the cousins' tree lead. */
  lemma CousinsLookups(first: nat, second: nat)
    ensures var root := Cousins(first, second);
      && Lookup(root, 2) == Some(Column(1, 2, [Column(first, 5, [])]))
      && Lookup(root, 3) == Some(Column(2, 3, [Column(second, 5, [])]))
      && Lookup(root, 5) == Some(Column(first, 5, []))
  {
    var a, b := Column(first, 5, []), Column(second, 5, []);
    var left, right := Column(1, 2, [a]), Column(2, 3, [b]);
    var served := Served(Live, [left, right]);
    ServesCousins(left, right, a, b);
    FirstIsEarliest(NotLevelNo, served, 2, 0);
    FirstIsEarliest(NotLevelNo, served, 3, 1);
    FirstIsEarliest(NotLevelNo, served, 5, 2);
  }

  /** The children of a column, and the ids it is dumped with. */
  lemma ColumnIds(n: UINode, kids: seq<UINode>)
    requires n.frame.Some? && KidSucc(n) == kids && forall c :: c in kids ==> RoleOf(c, 0) == Listed
    requires forall c :: c in kids ==> c.frame.Some? && Fits32(c.frame.value.id)
    requires Distinct(TrueIds(kids))
    ensures Kids(n, 0) == kids && ChildIds(n, 0) == TrueIds(kids)
  {
    ColumnsAreListed(kids);
    IdsAreTrue(kids);
  }

  lemma SearchLeaf(root: UINode, id: int, leaf: UINode, depth: nat)
    requires root.frame.Some? && Lookup(root, id) == Some(leaf) && KidSucc(leaf) == [] && depth > 0
    ensures Search(root, id, 0, depth) == Some(Made(ElementInfo(leaf, []), []))
  {
    ColumnIds(leaf, []);
    SearchStep(root, id, leaf, 0, depth);
  }

  lemma SearchAllCons(root: UINode, id: int, ids: seq<int>, depth: nat, first: Dump, later: seq<Dump>)
    requires root.frame.Some? && Search(root, id, 0, depth) == Some(first)
    requires SearchAll(root, ids, 0, depth) == Some(later)
    ensures SearchAll(root, [id] + ids, 0, depth) == Some([first] + later)
  {
    HeadOfAppend([id], ids);
    NothingAround(ids);
  }

  /** A node that lists one id. */
  lemma SearchOver(root: UINode, id: int, n: UINode, kidId: int, depth: nat, below: Dump)
    requires root.frame.Some? && Lookup(root, id) == Some(n) && depth > 0 && ChildIds(n, 0) == [kidId]
    requires Search(root, kidId, 0, depth - 1) == Some(below)
    ensures Search(root, id, 0, depth) == Some(Made(ElementInfo(n, [kidId]), [below]))
  {
    SearchAllCons(root, kidId, [], depth - 1, below, []);
    assert [kidId] + [] == [kidId] && [below] + [] == [below];
    SearchStep(root, id, n, 0, depth);
  }

  lemma SearchAllPair(root: UINode, a: int, b: int, depth: nat, first: Dump, second: Dump)
    requires root.frame.Some? && Search(root, a, 0, depth) == Some(first) && Search(root, b, 0, depth) == Some(second)
    ensures SearchAll(root, [a, b], 0, depth) == Some([first, second])
  {
    SearchAllCons(root, b, [], depth, second, []);
    NothingAround([b]);
    NothingAround([second]);
    SearchAllCons(root, a, [b], depth, first, [second]);
    assert [a] + [b] == [a, b] && [first] + [second] == [first, second];
  }

  /** A node that lists two ids. */
  lemma SearchPair(root: UINode, id: int, n: UINode, a: int, b: int, depth: nat, first: Dump, second: Dump)
    requires root.frame.Some? && Lookup(root, id) == Some(n) && depth > 0 && ChildIds(n, 0) == [a, b]
    requires Search(root, a, 0, depth - 1) == Some(first) && Search(root, b, 0, depth - 1) == Some(second)
    ensures Search(root, id, 0, depth) == Some(Made(ElementInfo(n, [a, b]), [first, second]))
  {
    SearchAllPair(root, a, b, depth - 1, first, second);
    SearchStep(root, id, n, 0, depth);
  }

  lemma CousinsIds(first: nat, second: nat)
    ensures var left, right := Column(1, 2, [Column(first, 5, [])]), Column(2, 3, [Column(second, 5, [])]);
      && Kids(left, 0) == [Column(first, 5, [])] && ChildIds(left, 0) == [5]
      && Kids(right, 0) == [Column(second, 5, [])] && ChildIds(right, 0) == [5]
      && Kids(Cousins(first, second), 0) == [left, right] && ChildIds(Cousins(first, second), 0) == [2, 3]
  {
    var left, right := Column(1, 2, [Column(first, 5, [])]), Column(2, 3, [Column(second, 5, [])]);
    ColumnIds(left, [Column(first, 5, [])]);
    ColumnIds(right, [Column(second, 5, [])]);
    ColumnIds(Cousins(first, second), [left, right]);
  }

  /** Two cousins that share an id: the first is dumped twice and the second never. */
  lemma CousinsAreDumped(first: nat, second: nat, depth: nat)
    requires depth > 3
    ensures var root := Cousins(first, second);
      var left, right := Column(1, 2, [Column(first, 5, [])]), Column(2, 3, [Column(second, 5, [])]);
      var twice := Made(ElementInfo(Column(first, 5, []), []), []);
      var below := [Made(ElementInfo(left, [5]), [twice]), Made(ElementInfo(right, [5]), [twice])];
      Search(root, 1, 0, depth) == Some(Made(ElementInfo(root, [2, 3]), below))
  {
    var root := Cousins(first, second);
    var left, right := Column(1, 2, [Column(first, 5, [])]), Column(2, 3, [Column(second, 5, [])]);
    var twice := Made(ElementInfo(Column(first, 5, []), []), []);
    CousinsIds(first, second);
    CousinsLookups(first, second);
    SearchLeaf(root, 5, Column(first, 5, []), depth - 2);
    SearchOver(root, 2, left, 5, depth - 1, twice);
    SearchOver(root, 3, right, 5, depth - 1, twice);
    SearchPair(root, 1, root, 2, 3, depth,
               Made(ElementInfo(left, [5]), [twice]), Made(ElementInfo(right, [5]), [twice]));
  }

  /** If they are different nodes, no depth gives the walk. */
  lemma CousinsAreNotWalked(first: nat, second: nat, depth: nat)
    requires first != second
    ensures var root := Cousins(first, second); Search(root, 1, 0, depth) != Some(Walk(root, 0))
  {
    var root := Cousins(first, second);
    var left, right := Column(1, 2, [Column(first, 5, [])]), Column(2, 3, [Column(second, 5, [])]);
    CousinsIds(first, second);
    assert left in DumpNodes(left, 0) && right in DumpNodes(right, 0);
    WalkedFrom(root, left, 0, left);
    WalkedFrom(root, right, 0, right);
    SharedIdIsNotWalk(root, 1, root, 0, depth, left, Column(first, 5, []), right, Column(second, 5, []));
  }
}

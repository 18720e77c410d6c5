/** The UI tree as the accessibility manager sees it: two child enumerations, virtual nodes that stand
    in for children, and the flattening of nodes that are passed through. */
module AccessibilityTree {
  import opened Prelude

  /** Node tags; the named ones are those that flattening and dumping tell apart. */
  datatype Tag = StageTag | PageTag | RootTag | OtherTag(name: string)

  /** What makes a node a frame node. `groupByPlace` is the rule that makes buttons of tab bars and select
      menus groups when they are dumped. */
  datatype Frame = Frame(
    id: int, tag: Tag, pageId: int, active: bool, isInternal: bool, firstVirtual: bool, levelNo: bool,
    group: bool, groupByPlace: bool)

  /** `handle` is the node's identity and stands for everything else it carries, such as its text and bounds.
      `children` is the plain enumeration, `liveChildren` the one that asks for nodes not yet detached. */
  datatype UINode = UINode(
    handle: nat, frame: Option<Frame>, children: seq<UINode>, liveChildren: seq<UINode>, virtualNode: Option<UINode>)

  datatype View = Plain | Live

  predicate HasVirtual(n: UINode) {
    n.frame.Some? && n.virtualNode.Some?
  }

  /** Where a search goes from a node. */
  function Succ(view: View, n: UINode): seq<UINode> {
    if view == Plain then n.children
    else if HasVirtual(n) then [n.virtualNode.value]
    else n.liveChildren
  }

  // ----- Size and pre-order -----

  function Size(view: View, n: UINode): (size: nat)
    ensures size >= 1
    decreases n, 1
  {
    if view == Plain then 1 + SizeAll(view, n.children)
    else if HasVirtual(n) then 1 + Size(view, n.virtualNode.value)
    else 1 + SizeAll(view, n.liveChildren)
  }

  function SizeAll(view: View, ns: seq<UINode>): nat
    decreases ns, 0
  {
    if ns == [] then 0 else Size(view, ns[0]) + SizeAll(view, ns[1..])
  }

  lemma SizeStep(view: View, n: UINode)
    ensures Size(view, n) == 1 + SizeAll(view, Succ(view, n))
  {
    if view == Live && HasVirtual(n) {
      assert [n.virtualNode.value][1..] == [];
      assert SizeAll(view, []) == 0;
    }
  }

  lemma {:induction false} SizeAppend(view: View, a: seq<UINode>, b: seq<UINode>)
    ensures SizeAll(view, a + b) == SizeAll(view, a) + SizeAll(view, b)
    decreases |a|
  {
    if a == [] {
      NothingAround(b);
    } else {
      HeadOfAppend(a, b);
      SizeAppend(view, a[1..], b);
    }
  }

  function Preorder(view: View, n: UINode): seq<UINode>
    decreases Size(view, n), 0
  {
    SizeStep(view, n);
    [n] + PreorderAll(view, Succ(view, n))
  }

  function PreorderAll(view: View, ns: seq<UINode>): seq<UINode>
    decreases SizeAll(view, ns), 1
  {
    if ns == [] then [] else Preorder(view, ns[0]) + PreorderAll(view, ns[1..])
  }

  lemma {:induction false} PreorderAppend(view: View, a: seq<UINode>, b: seq<UINode>)
    ensures PreorderAll(view, a + b) == PreorderAll(view, a) + PreorderAll(view, b)
    decreases |a|
  {
    if a == [] {
      NothingAround(b);
    } else {
      HeadOfAppend(a, b);
      PreorderAppend(view, a[1..], b);
      Assoc(Preorder(view, a[0]), PreorderAll(view, a[1..]), PreorderAll(view, b));
    }
  }

  lemma PreorderSingle(view: View, n: UINode)
    ensures PreorderAll(view, [n]) == Preorder(view, n)
    ensures SizeAll(view, [n]) == Size(view, n)
  {
    assert [n][1..] == [];
    assert PreorderAll(view, []) == [];
  }

  lemma {:induction false} PreorderSmaller(view: View, ns: seq<UINode>, m: UINode)
    requires m in PreorderAll(view, ns)
    ensures Size(view, m) <= SizeAll(view, ns)
    decreases SizeAll(view, ns), |ns|
  {
    if m in Preorder(view, ns[0]) {
      SizeStep(view, ns[0]);
      if m != ns[0] {
        PreorderSmaller(view, Succ(view, ns[0]), m);
      }
    } else {
      PreorderSmaller(view, ns[1..], m);
    }
  }

  /** Descendants of descendants are descendants. */
  lemma {:induction false} PreorderTransitive(view: View, ns: seq<UINode>, m: UINode, k: UINode)
    requires m in PreorderAll(view, ns) && k in Preorder(view, m)
    ensures k in PreorderAll(view, ns)
    decreases SizeAll(view, ns), |ns|
  {
    if m in Preorder(view, ns[0]) {
      SizeStep(view, ns[0]);
      if m != ns[0] {
        PreorderTransitive(view, Succ(view, ns[0]), m, k);
      }
    } else {
      PreorderTransitive(view, ns[1..], m, k);
    }
  }

  // ----- Subsequences -----

  /** `a` is `b` with some elements left out. */
  predicate Embeds(a: seq<UINode>, b: seq<UINode>)
    decreases |b|
  {
    a == [] || (b != [] && ((a[0] == b[0] && Embeds(a[1..], b[1..])) || Embeds(a, b[1..])))
  }

  lemma {:induction false} EmbedsItself(a: seq<UINode>)
    ensures Embeds(a, a)
  {
    if a != [] {
      EmbedsItself(a[1..]);
    }
  }

  lemma {:induction false} EmbedsAppend(a: seq<UINode>, b: seq<UINode>, c: seq<UINode>, d: seq<UINode>)
    requires Embeds(a, b) && Embeds(c, d)
    ensures Embeds(a + c, b + d)
    decreases |b|
  {
    if b == [] {
      assert a + c == c && b + d == d;
    } else {
      assert (b + d)[1..] == b[1..] + d;
      if a != [] && a[0] == b[0] && Embeds(a[1..], b[1..]) {
        EmbedsAppend(a[1..], b[1..], c, d);
        assert (a + c)[1..] == a[1..] + c;
      } else {
        EmbedsAppend(a, b[1..], c, d);
        if a + c != [] {
          assert Embeds(a + c, (b + d)[1..]);
        }
      }
    }
  }

  lemma {:induction false} EmbedsTransitive(a: seq<UINode>, b: seq<UINode>, c: seq<UINode>)
    requires Embeds(a, b) && Embeds(b, c)
    ensures Embeds(a, c)
    decreases |c|
  {
    if a != [] {
      if b[0] == c[0] && Embeds(b[1..], c[1..]) {
        if a[0] == b[0] && Embeds(a[1..], b[1..]) {
          EmbedsTransitive(a[1..], b[1..], c[1..]);
        } else {
          EmbedsTransitive(a, b[1..], c[1..]);
        }
      } else {
        EmbedsTransitive(a, b, c[1..]);
      }
    }
  }

  lemma {:induction false} EmbedsMember(a: seq<UINode>, b: seq<UINode>, m: UINode)
    requires Embeds(a, b) && m in a
    ensures m in b
    decreases |b|
  {
    if a[0] == b[0] && Embeds(a[1..], b[1..]) {
      if m != a[0] {
        EmbedsMember(a[1..], b[1..], m);
      }
    } else {
      EmbedsMember(a, b[1..], m);
    }
  }

  predicate UniqueIds(ns: seq<UINode>) {
    forall i, j :: 0 <= i < j < |ns| && ns[i].frame.Some? && ns[j].frame.Some? ==>
      ns[i].frame.value.id != ns[j].frame.value.id
  }

  lemma {:induction false} EmbedsUnique(a: seq<UINode>, b: seq<UINode>)
    requires Embeds(a, b) && UniqueIds(b)
    ensures UniqueIds(a)
    decreases |b|
  {
    if a != [] {
      if a[0] == b[0] && Embeds(a[1..], b[1..]) {
        EmbedsUnique(a[1..], b[1..]);
        forall j | 0 < j < |a| && a[0].frame.Some? && a[j].frame.Some?
          ensures a[0].frame.value.id != a[j].frame.value.id
        {
          assert a[j] == a[1..][j - 1];
          EmbedsMember(a[1..], b[1..], a[j]);
          var k :| 0 <= k < |b[1..]| && b[1..][k] == a[j];
          assert b[k + 1] == a[j];
        }
        assert forall i :: 0 < i < |a| ==> a[i] == a[1..][i - 1];
      } else {
        EmbedsUnique(a, b[1..]);
      }
    }
  }

  lemma SameIdSameNode(ns: seq<UINode>, m: UINode, k: UINode)
    requires UniqueIds(ns) && m in ns && k in ns
    requires m.frame.Some? && k.frame.Some? && m.frame.value.id == k.frame.value.id
    ensures m == k
  {
    var i :| 0 <= i < |ns| && ns[i] == m;
    var j :| 0 <= j < |ns| && ns[j] == k;
  }

  // ----- Flattening -----

  /** Where flattening goes from a node that is passed through. */
  function FlatSucc(n: UINode): seq<UINode> {
    if HasVirtual(n) && n.virtualNode.value.frame.Some? then [n.virtualNode.value] else n.liveChildren
  }

  datatype Role = Dropped | PassedThrough | Listed

  /** Inactive frames and pages of another id are dropped; frame nodes proper are listed; stages, pages of
      this id, internal nodes and nodes that are no frames are passed through. */
  function RoleOf(n: UINode, pageId: int): Role {
    match n.frame
    case None => PassedThrough
    case Some(f) =>
      if !f.firstVirtual && !f.active then Dropped
      else if f.tag == StageTag then PassedThrough
      else if f.tag == PageTag then (if f.pageId != pageId then Dropped else PassedThrough)
      else if !f.isInternal || f.firstVirtual then Listed
      else PassedThrough
  }

  function Flatten(n: UINode, pageId: int): seq<UINode>
    decreases n, 1
  {
    match RoleOf(n, pageId)
    case Dropped => []
    case Listed => [n]
    case PassedThrough =>
      if HasVirtual(n) && n.virtualNode.value.frame.Some? then Flatten(n.virtualNode.value, pageId)
      else FlattenAll(n.liveChildren, pageId)
  }

  function FlattenAll(ns: seq<UINode>, pageId: int): seq<UINode>
    decreases ns, 0
  {
    if ns == [] then [] else Flatten(ns[0], pageId) + FlattenAll(ns[1..], pageId)
  }

  lemma FlattenUnfold(n: UINode, pageId: int)
    requires RoleOf(n, pageId) == PassedThrough
    ensures Flatten(n, pageId) == FlattenAll(FlatSucc(n), pageId)
  {
    if HasVirtual(n) && n.virtualNode.value.frame.Some? {
      assert [n.virtualNode.value][1..] == [];
      assert FlattenAll([], pageId) == [];
    }
  }

  lemma {:induction false} FlattenMember(ns: seq<UINode>, pageId: int, c: UINode)
    ensures c in FlattenAll(ns, pageId) <==> exists m :: m in ns && c in Flatten(m, pageId)
    decreases |ns|
  {
    if ns != [] {
      FlattenMember(ns[1..], pageId, c);
      assert forall m :: m in ns <==> m == ns[0] || m in ns[1..];
      if c in Flatten(ns[0], pageId) {
        assert ns[0] in ns;
      } else if c in FlattenAll(ns[1..], pageId) {
        var m :| m in ns[1..] && c in Flatten(m, pageId);
        assert m in ns;
      }
    }
  }

  /** What flattening makes of a node, field by field: nothing of a frame that is neither active nor the first
      virtual node, nor of a page of another id. */
  lemma FlattenDrops(n: UINode, pageId: int)
    requires n.frame.Some?
    requires var f := n.frame.value;
      (!f.active && !f.firstVirtual) || (f.tag == PageTag && f.pageId != pageId)
    ensures Flatten(n, pageId) == []
  {
  }

  /** Any other frame that is no stage or page is listed itself, unless it is internal and not the first virtual
      node. */
  lemma FlattenLists(n: UINode, pageId: int)
    requires n.frame.Some? && (n.frame.value.active || n.frame.value.firstVirtual)
    requires n.frame.value.tag !in {StageTag, PageTag} && (!n.frame.value.isInternal || n.frame.value.firstVirtual)
    ensures Flatten(n, pageId) == [n]
  {
  }

  /** The rest contributes what its virtual node does, if it has one that is a frame, and otherwise what its live
      children do. */
  lemma FlattenPassesOn(n: UINode, pageId: int)
    requires n.frame.Some? ==>
      var f := n.frame.value;
      && (f.active || f.firstVirtual)
      && (f.tag == StageTag || (f.tag == PageTag && f.pageId == pageId)
          || (f.tag != PageTag && f.isInternal && !f.firstVirtual))
    ensures Flatten(n, pageId) ==
      if n.frame.Some? && n.virtualNode.Some? && n.virtualNode.value.frame.Some?
      then Flatten(n.virtualNode.value, pageId)
      else FlattenAll(n.liveChildren, pageId)
  {
  }

  /** Siblings contribute one after the other. */
  lemma {:induction false} FlattenAppend(a: seq<UINode>, b: seq<UINode>, pageId: int)
    ensures FlattenAll(a + b, pageId) == FlattenAll(a, pageId) + FlattenAll(b, pageId)
    decreases |a|
  {
    if a == [] {
      NothingAround(b);
    } else {
      HeadOfAppend(a, b);
      FlattenAppend(a[1..], b, pageId);
      Assoc(Flatten(a[0], pageId), FlattenAll(a[1..], pageId), FlattenAll(b, pageId));
    }
  }

  lemma FlattenSingle(n: UINode, pageId: int)
    ensures FlattenAll([n], pageId) == Flatten(n, pageId)
  {
    assert [n][1..] == [];
    NothingAround(Flatten(n, pageId));
  }

  /** A frame that is listed itself. */
  predicate Shows(n: UINode) {
    && n.frame.Some? && (n.frame.value.active || n.frame.value.firstVirtual)
    && n.frame.value.tag !in {StageTag, PageTag} && (!n.frame.value.isInternal || n.frame.value.firstVirtual)
  }

  /** `n` is not listed but passed through to `m`. */
  predicate LeadsOn(n: UINode, m: UINode, pageId: int) {
    && (n.frame.Some? ==>
          var f := n.frame.value;
          && (f.active || f.firstVirtual)
          && (f.tag == StageTag || (f.tag == PageTag && f.pageId == pageId)
              || (f.tag != PageTag && f.isInternal && !f.firstVirtual)))
    && if n.frame.Some? && n.virtualNode.Some? && n.virtualNode.value.frame.Some? then m == n.virtualNode.value
       else m in n.liveChildren
  }

  lemma StepOfRole(n: UINode, m: UINode, pageId: int)
    ensures Shows(n) <==> RoleOf(n, pageId) == Listed
    ensures LeadsOn(n, m, pageId) <==> RoleOf(n, pageId) == PassedThrough && m in FlatSucc(n)
  {
  }

  /** A path from `n` down to `c` that leads on from node to node and ends in a listed frame. */
  predicate ListingPath(path: seq<UINode>, n: UINode, c: UINode, pageId: int) {
    && path != [] && path[0] == n && path[|path| - 1] == c
    && Shows(c)
    && forall i :: 0 <= i < |path| - 1 ==> LeadsOn(path[i], path[i + 1], pageId)
  }

  lemma {:induction false} ListedHasPath(n: UINode, c: UINode, pageId: int) returns (path: seq<UINode>)
    requires c in Flatten(n, pageId)
    ensures ListingPath(path, n, c, pageId)
    decreases n
  {
    if RoleOf(n, pageId) == Listed {
      path := [n];
      StepOfRole(n, n, pageId);
    } else {
      FlattenUnfold(n, pageId);
      FlattenMember(FlatSucc(n), pageId, c);
      var m :| m in FlatSucc(n) && c in Flatten(m, pageId);
      var rest := ListedHasPath(m, c, pageId);
      StepOfRole(n, m, pageId);
      path := [n] + rest;
      assert forall i :: 0 < i < |path| ==> path[i] == rest[i - 1];
    }
  }

  lemma {:induction false} PathIsListed(path: seq<UINode>, n: UINode, c: UINode, pageId: int)
    requires ListingPath(path, n, c, pageId)
    ensures c in Flatten(n, pageId)
    decreases |path|
  {
    if |path| > 1 {
      var m, rest := path[1], path[1..];
      assert forall i :: 0 <= i < |rest| ==> rest[i] == path[i + 1];
      PathIsListed(rest, m, c, pageId);
      StepOfRole(n, m, pageId);
      FlattenUnfold(n, pageId);
      FlattenMember(FlatSucc(n), pageId, c);
    } else {
      StepOfRole(n, n, pageId);
    }
  }

  /** A node is listed below `n` exactly when such a path leads to it from `n`. */
  lemma ListedIffReached(n: UINode, c: UINode, pageId: int)
    ensures c in Flatten(n, pageId) <==> exists path :: ListingPath(path, n, c, pageId)
  {
    if c in Flatten(n, pageId) {
      var path := ListedHasPath(n, c, pageId);
    } else if path :| ListingPath(path, n, c, pageId) {
      PathIsListed(path, n, c, pageId);
    }
  }

  /** Virtual nodes below `n` are frame nodes. */
  predicate VirtualsAreFrames(ns: seq<UINode>) {
    forall m :: m in ns && HasVirtual(m) ==> m.virtualNode.value.frame.Some?
  }

  lemma {:induction false} FlattenEmbeds(n: UINode, pageId: int)
    requires VirtualsAreFrames(Preorder(Live, n))
    ensures Embeds(PreorderAll(Live, Flatten(n, pageId)), Preorder(Live, n))
    decreases Size(Live, n), 0
  {
    match RoleOf(n, pageId)
    case Dropped =>
    case Listed =>
      PreorderSingle(Live, n);
      EmbedsItself(Preorder(Live, n));
    case PassedThrough =>
      assert n in Preorder(Live, n);
      assert FlatSucc(n) == Succ(Live, n);
      FlattenUnfold(n, pageId);
      SizeStep(Live, n);
      FlattenAllEmbeds(Succ(Live, n), pageId);
      EmbedsAppend([], [n], PreorderAll(Live, Flatten(n, pageId)), PreorderAll(Live, Succ(Live, n)));
      assert [] + PreorderAll(Live, Flatten(n, pageId)) == PreorderAll(Live, Flatten(n, pageId));
  }

  /** The listed nodes' subtrees are disjoint parts of the tree, in document order. */
  lemma {:induction false} FlattenAllEmbeds(ns: seq<UINode>, pageId: int)
    requires VirtualsAreFrames(PreorderAll(Live, ns))
    ensures Embeds(PreorderAll(Live, FlattenAll(ns, pageId)), PreorderAll(Live, ns))
    decreases SizeAll(Live, ns), 1
  {
    if ns != [] {
      FlattenEmbeds(ns[0], pageId);
      FlattenAllEmbeds(ns[1..], pageId);
      PreorderAppend(Live, Flatten(ns[0], pageId), FlattenAll(ns[1..], pageId));
      EmbedsAppend(PreorderAll(Live, Flatten(ns[0], pageId)), Preorder(Live, ns[0]),
                   PreorderAll(Live, FlattenAll(ns[1..], pageId)), PreorderAll(Live, ns[1..]));
    }
  }

  lemma {:induction false} FlattenListsFrames(n: UINode, pageId: int, c: UINode)
    requires c in Flatten(n, pageId)
    ensures Shows(c)
    decreases n
  {
    var path := ListedHasPath(n, c, pageId);
  }

  lemma {:induction false} PreorderAllMember(view: View, ns: seq<UINode>, i: nat, m: UINode)
    requires i < |ns|
    ensures m in Preorder(view, ns[i]) ==> m in PreorderAll(view, ns)
    decreases |ns|
  {
    if i > 0 {
      PreorderAllMember(view, ns[1..], i - 1, m);
    }
  }

  /** No listed node lies below another one. */
  lemma FlattenIsAntichain(ns: seq<UINode>, pageId: int, i: nat, j: nat)
    requires VirtualsAreFrames(PreorderAll(Live, ns)) && UniqueIds(PreorderAll(Live, ns))
    requires i < |FlattenAll(ns, pageId)| && j < |FlattenAll(ns, pageId)| && i != j
    ensures FlattenAll(ns, pageId)[i] !in Preorder(Live, FlattenAll(ns, pageId)[j])
  {
    var listed := FlattenAll(ns, pageId);
    FlattenAllEmbeds(ns, pageId);
    EmbedsUnique(PreorderAll(Live, listed), PreorderAll(Live, ns));
    FlattenMember(ns, pageId, listed[i]);
    var n :| n in ns && listed[i] in Flatten(n, pageId);
    FlattenListsFrames(n, pageId, listed[i]);
    if i < j {
      BlocksAreDisjoint(listed, i, j, listed[i]);
    } else {
      BlocksAreDisjoint(listed, j, i, listed[i]);
    }
    assert listed[i] in Preorder(Live, listed[i]);
  }

  /** With unique ids no frame lies in the blocks of two nodes of a list. */
  lemma {:induction false} BlocksAreDisjoint(ns: seq<UINode>, i: nat, j: nat, m: UINode)
    requires i < j < |ns| && UniqueIds(PreorderAll(Live, ns)) && m.frame.Some?
    ensures m in Preorder(Live, ns[i]) ==> m !in Preorder(Live, ns[j])
  {
    var front, back := ns[..j], ns[j..];
    assert ns == front + back;
    PreorderAppend(Live, front, back);
    PreorderAllMember(Live, front, i, m);
    PreorderAllMember(Live, back, 0, m);
    UniqueHasNoCommon(PreorderAll(Live, front), PreorderAll(Live, back), m);
  }

  lemma UniqueHasNoCommon(a: seq<UINode>, b: seq<UINode>, m: UINode)
    requires UniqueIds(a + b) && m.frame.Some?
    ensures m in a ==> m !in b
  {
    if m in a {
      var i :| 0 <= i < |a| && a[i] == m;
      forall j | 0 <= j < |b|
        ensures b[j] != m
      {
        assert (a + b)[i] == m && (a + b)[|a| + j] == b[j];
      }
    }
  }
}

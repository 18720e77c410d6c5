/** The two queue-driven searches by accessibility id, proved against level order. */
module AccessibilitySearch {
  import opened Prelude
  import opened AccessibilityTree

  // ----- Level order -----

  /** All children of a level, left to right. */
  function NextLevel(view: View, level: seq<UINode>): seq<UINode> {
    if level == [] then [] else Succ(view, level[0]) + NextLevel(view, level[1..])
  }

  /** The nodes at depth `d` below a forest, left to right. */
  function Level(view: View, ns: seq<UINode>, d: nat): seq<UINode> {
    if d == 0 then ns else NextLevel(view, Level(view, ns, d - 1))
  }

  lemma {:induction false} NextLevelAppend(view: View, a: seq<UINode>, b: seq<UINode>)
    ensures NextLevel(view, a + b) == NextLevel(view, a) + NextLevel(view, b)
    decreases |a|
  {
    if a == [] {
      NothingAround(b);
    } else {
      HeadOfAppend(a, b);
      NextLevelAppend(view, a[1..], b);
      Assoc(Succ(view, a[0]), NextLevel(view, a[1..]), NextLevel(view, b));
    }
  }

  /** Every node of a level puts its children, whole and in order, behind those of the nodes before it: the plain
      ones, or its virtual node if it is a frame with one, or the live ones. */
  lemma NextLevelInOrder(view: View, a: seq<UINode>, n: UINode, b: seq<UINode>)
    ensures NextLevel(view, a + [n] + b)
         == NextLevel(view, a)
            + (if view == Plain then n.children
               else if n.frame.Some? && n.virtualNode.Some? then [n.virtualNode.value]
               else n.liveChildren)
            + NextLevel(view, b)
  {
    NextLevelAppend(view, a + [n], b);
    NextLevelAppend(view, a, [n]);
    assert [n][1..] == [];
    NothingAround(Succ(view, n));
  }

  lemma {:induction false} NextLevelShrinks(view: View, ns: seq<UINode>)
    ensures SizeAll(view, ns) == |ns| + SizeAll(view, NextLevel(view, ns))
    decreases |ns|
  {
    if ns != [] {
      NextLevelShrinks(view, ns[1..]);
      SizeStep(view, ns[0]);
      SizeAppend(view, Succ(view, ns[0]), NextLevel(view, ns[1..]));
    }
  }

  /** The order in which a queue is served: the front, then the rest with the front's children behind. */
  function Served(view: View, queue: seq<UINode>): seq<UINode>
    decreases SizeAll(view, queue)
  {
    if queue == [] then []
    else
      SizeStep(view, queue[0]);
      SizeAppend(view, queue[1..], Succ(view, queue[0]));
      [queue[0]] + Served(view, queue[1..] + Succ(view, queue[0]))
  }

  /** A whole level is served before the next one. */
  lemma {:induction false} ServedSplit(view: View, a: seq<UINode>, b: seq<UINode>)
    ensures Served(view, a + b) == a + Served(view, b + NextLevel(view, a))
    decreases |a|
  {
    if a == [] {
      assert a + b == b && b + [] == b;
    } else {
      var more := b + Succ(view, a[0]);
      assert (a + b)[1..] + Succ(view, a[0]) == a[1..] + more;
      ServedSplit(view, a[1..], more);
      Assoc(b, Succ(view, a[0]), NextLevel(view, a[1..]));
      HeadAndTail(a, Served(view, b + NextLevel(view, a)));
    }
  }

  lemma HeadAndTail(a: seq<UINode>, b: seq<UINode>)
    requires a != []
    ensures [a[0]] + (a[1..] + b) == a + b
  {
  }

  lemma ServedLevel(view: View, level: seq<UINode>)
    ensures Served(view, level) == level + Served(view, NextLevel(view, level))
  {
    ServedSplit(view, level, []);
    assert level + [] == level && [] + NextLevel(view, level) == NextLevel(view, level);
  }

  // ----- First matches -----

  /** The searches differ in which nodes may match. */
  datatype Rule = AnyFrame | NotLevelNo

  predicate Matches(rule: Rule, n: UINode, id: int) {
    n.frame.Some? && n.frame.value.id == id && (rule == NotLevelNo ==> !n.frame.value.levelNo)
  }

  function First(rule: Rule, ns: seq<UINode>, id: int): (found: Option<UINode>)
    ensures found.Some? ==> found.value in ns && Matches(rule, found.value, id)
  {
    if ns == [] then None
    else if Matches(rule, ns[0], id) then Some(ns[0])
    else First(rule, ns[1..], id)
  }

  lemma {:induction false} FirstAppend(rule: Rule, a: seq<UINode>, b: seq<UINode>, id: int)
    ensures First(rule, a + b, id) == if First(rule, a, id).Some? then First(rule, a, id) else First(rule, b, id)
    decreases |a|
  {
    if a == [] {
      NothingAround(b);
    } else {
      HeadOfAppend(a, b);
      FirstAppend(rule, a[1..], b, id);
    }
  }

  lemma {:induction false} FirstIndex(rule: Rule, ns: seq<UINode>, id: int) returns (i: nat)
    requires First(rule, ns, id).Some?
    ensures i < |ns| && Some(ns[i]) == First(rule, ns, id)
    ensures forall j :: 0 <= j < i ==> !Matches(rule, ns[j], id)
  {
    if Matches(rule, ns[0], id) {
      i := 0;
    } else {
      var k := FirstIndex(rule, ns[1..], id);
      i := k + 1;
      assert forall j :: 1 <= j < i ==> ns[j] == ns[1..][j - 1];
    }
  }

  lemma {:induction false} NoFirst(rule: Rule, ns: seq<UINode>, id: int)
    ensures First(rule, ns, id).None? <==> forall n :: n in ns ==> !Matches(rule, n, id)
    decreases |ns|
  {
    if ns != [] {
      NoFirst(rule, ns[1..], id);
      assert forall n :: n in ns <==> n == ns[0] || n in ns[1..];
      assert ns[0] in ns;
    }
  }

  /** The specification of the search: the root by its id alone, then the first match in serving order. */
  function Find(root: UINode, id: int): (found: Option<UINode>)
    requires root.frame.Some?
    ensures found.Some? ==> found.value.frame.Some? && found.value.frame.value.id == id
  {
    if root.frame.value.id == id then Some(root)
    else First(NotLevelNo, Served(Live, Succ(Live, root)), id)
  }

  function Inspect(root: UINode, id: int): Option<UINode> {
    First(AnyFrame, Served(Plain, [root]), id)
  }

  // ----- The searches -----

  /** Checks a list of children while enqueueing them; stops at the first match. */
  method FindFrameNodeByAccessibilityId(id: int, children: seq<UINode>, nodes: seq<UINode>)
      returns (found: Option<UINode>, queue: seq<UINode>)
    ensures found == First(NotLevelNo, children, id)
    ensures found.None? ==> queue == nodes + children
  {
    queue := nodes;
    found := None;
    var i := 0;
    assert children[0..] == children;
    while i < |children|
      invariant i <= |children|
      invariant queue == nodes + children[..i]
      invariant First(NotLevelNo, children, id) == First(NotLevelNo, children[i..], id)
      invariant found.None?
    {
      var child := children[i];
      assert children[i..][0] == child && children[i..][1..] == children[i + 1..];
      if child.frame.Some? && !child.frame.value.levelNo {
        if child.frame.value.id == id {
          return Some(child), queue;
        }
      }
      queue := queue + [child];
      assert children[..i + 1] == children[..i] + [child];
      i := i + 1;
    }
    assert children[..i] == children;
  }

  method GetFramenodeByAccessibilityId(root: Option<UINode>, id: int) returns (found: Option<UINode>)
    requires root.Some? ==> root.value.frame.Some?
    ensures found == if root.None? then None else Find(root.value, id)
  {
    if root.None? {
      return None;
    }
    if root.value.frame.value.id == id {
      return root;
    }
    var nodes := [root.value];
    SearchStart(root.value);
    while nodes != []
      invariant First(NotLevelNo, Unchecked(nodes), id) == Find(root.value, id)
      decreases SizeAll(Live, nodes)
    {
      var current := nodes[0];
      UncheckedStep(nodes, id);
      nodes := nodes[1..];
      var children := if HasVirtual(current) then [current.virtualNode.value] else current.liveChildren;
      found, nodes := FindFrameNodeByAccessibilityId(id, children, nodes);
      if found.Some? {
        return found;
      }
    }
    found := None;
  }

  /** What a queue of nodes that are checked already leaves to be checked. */
  function Unchecked(queue: seq<UINode>): seq<UINode> {
    Served(Live, NextLevel(Live, queue))
  }

  lemma SearchStart(root: UINode)
    ensures Unchecked([root]) == Served(Live, Succ(Live, root))
  {
    assert [root][1..] == [];
    assert Succ(Live, root) + NextLevel(Live, []) == Succ(Live, root);
  }

  /** Serving the front leaves its children, checked as they are enqueued, and what is unchecked after. */
  lemma UncheckedStep(queue: seq<UINode>, id: int)
    requires queue != []
    ensures var children := Succ(Live, queue[0]);
      var rest := queue[1..] + children;
      && SizeAll(Live, rest) < SizeAll(Live, queue)
      && First(NotLevelNo, Unchecked(queue), id) ==
           if First(NotLevelNo, children, id).Some? then First(NotLevelNo, children, id)
           else First(NotLevelNo, Unchecked(rest), id)
  {
    var children := Succ(Live, queue[0]);
    SizeStep(Live, queue[0]);
    SizeAppend(Live, queue[1..], children);
    var later := NextLevel(Live, queue[1..]);
    ServedSplit(Live, children, later);
    NextLevelAppend(Live, queue[1..], children);
    FirstAppend(NotLevelNo, children, Served(Live, later + NextLevel(Live, children)), id);
  }

  lemma ServedFront(queue: seq<UINode>, id: int)
    requires queue != []
    ensures var rest := queue[1..] + Succ(Plain, queue[0]);
      && SizeAll(Plain, rest) < SizeAll(Plain, queue)
      && First(AnyFrame, Served(Plain, queue), id) ==
           if Matches(AnyFrame, queue[0], id) then Some(queue[0]) else First(AnyFrame, Served(Plain, rest), id)
  {
    SizeStep(Plain, queue[0]);
    SizeAppend(Plain, queue[1..], Succ(Plain, queue[0]));
    HeadOfAppend([queue[0]], Served(Plain, queue[1..] + Succ(Plain, queue[0])));
    NothingAround(Served(Plain, queue[1..] + Succ(Plain, queue[0])));
  }

  /** Pushes all children. */
  method PushAll(nodes: seq<UINode>, children: seq<UINode>) returns (queue: seq<UINode>)
    ensures queue == nodes + children
  {
    queue := nodes;
    var i := 0;
    while i < |children|
      invariant i <= |children| && queue == nodes + children[..i]
    {
      PrefixStep(children, i);
      queue := queue + [children[i]];
      i := i + 1;
    }
    assert children[..i] == children;
  }

  method GetInspectorById(root: Option<UINode>, id: int) returns (found: Option<UINode>)
    ensures found == if root.None? then None else Inspect(root.value, id)
  {
    if root.None? {
      return None;
    }
    var nodes := [root.value];
    while nodes != []
      invariant First(AnyFrame, Served(Plain, nodes), id) == Inspect(root.value, id)
      decreases SizeAll(Plain, nodes)
    {
      ServedFront(nodes, id);
      var current := nodes[0];
      nodes := nodes[1..];
      if current.frame.Some? {
        if id == current.frame.value.id {
          return Some(current);
        }
      }
      nodes := PushAll(nodes, current.children);
    }
    found := None;
  }

  // ----- What the search finds -----

  predicate AtDepth(view: View, ns: seq<UINode>, d: nat, m: UINode) {
    m in Level(view, ns, d)
  }

  predicate IsChild(view: View, n: UINode, m: UINode) {
    if view == Plain then m in n.children
    else if n.frame.Some? && n.virtualNode.Some? then m == n.virtualNode.value
    else m in n.liveChildren
  }

  /** A path from one of `ns` down to `m`. */
  predicate DownPath(view: View, path: seq<UINode>, ns: seq<UINode>, m: UINode) {
    && path != [] && path[0] in ns && path[|path| - 1] == m
    && forall i :: 0 <= i < |path| - 1 ==> IsChild(view, path[i], path[i + 1])
  }

  lemma {:induction false} NextLevelMember(view: View, level: seq<UINode>, m: UINode)
    ensures m in NextLevel(view, level) <==> exists n :: n in level && IsChild(view, n, m)
    decreases |level|
  {
    if level != [] {
      NextLevelMember(view, level[1..], m);
      assert forall n :: n in level <==> n == level[0] || n in level[1..];
      if m in Succ(view, level[0]) {
        assert level[0] in level && IsChild(view, level[0], m);
      } else if m in NextLevel(view, level[1..]) {
        var n :| n in level[1..] && IsChild(view, n, m);
        assert n in level;
      }
    }
  }

  lemma {:induction false} DepthHasPath(view: View, ns: seq<UINode>, d: nat, m: UINode) returns (path: seq<UINode>)
    requires AtDepth(view, ns, d, m)
    ensures |path| == d + 1 && DownPath(view, path, ns, m)
    decreases d
  {
    if d == 0 {
      path := [m];
    } else {
      NextLevelMember(view, Level(view, ns, d - 1), m);
      var n :| n in Level(view, ns, d - 1) && IsChild(view, n, m);
      path := DepthHasPath(view, ns, d - 1, n);
      LongerPath(view, path, ns, n, m);
      path := path + [m];
    }
  }

  lemma LongerPath(view: View, path: seq<UINode>, ns: seq<UINode>, n: UINode, m: UINode)
    requires DownPath(view, path, ns, n) && IsChild(view, n, m)
    ensures DownPath(view, path + [m], ns, m)
  {
  }

  lemma {:induction false} PathHasDepth(view: View, path: seq<UINode>, ns: seq<UINode>, m: UINode)
    requires DownPath(view, path, ns, m)
    ensures AtDepth(view, ns, |path| - 1, m)
    decreases |path|
  {
    var d := |path| - 1;
    if d > 0 {
      assert DownPath(view, path[..d], ns, path[d - 1]) && IsChild(view, path[d - 1], path[d]);
      PathHasDepth(view, path[..d], ns, path[d - 1]);
      NextLevelMember(view, Level(view, ns, d - 1), m);
    }
  }

  /** A node is at depth `d` exactly when a path of `d` steps leads down to it. */
  lemma AtDepthIff(view: View, ns: seq<UINode>, d: nat, m: UINode)
    ensures AtDepth(view, ns, d, m) <==> exists path :: |path| == d + 1 && DownPath(view, path, ns, m)
  {
    if AtDepth(view, ns, d, m) {
      var path := DepthHasPath(view, ns, d, m);
    } else if path :| |path| == d + 1 && DownPath(view, path, ns, m) {
      PathHasDepth(view, path, ns, m);
    }
  }

  /** The nodes of the first `d` levels, level by level. */
  function Above(view: View, ns: seq<UINode>, d: nat): seq<UINode> {
    if d == 0 then [] else Above(view, ns, d - 1) + Level(view, ns, d - 1)
  }

  lemma {:induction false} LevelsAreServed(view: View, ns: seq<UINode>, d: nat)
    ensures Served(view, ns) == Above(view, ns, d) + Served(view, Level(view, ns, d))
    decreases d
  {
    if d == 0 {
      NothingAround(Served(view, ns));
    } else {
      LevelsAreServed(view, ns, d - 1);
      ServedLevel(view, Level(view, ns, d - 1));
      Assoc(Above(view, ns, d - 1), Level(view, ns, d - 1), Served(view, Level(view, ns, d)));
    }
  }

  lemma {:induction false} AboveMember(view: View, ns: seq<UINode>, d: nat, m: UINode)
    ensures m in Above(view, ns, d) ==> exists e: nat :: AtDepth(view, ns, e, m)
    ensures |Above(view, ns, d)| >= d || Level(view, ns, d) == []
    decreases d
  {
    if d > 0 {
      AboveMember(view, ns, d - 1, m);
      if m in Level(view, ns, d - 1) {
        assert AtDepth(view, ns, d - 1, m);
      }
    }
  }

  /** The nodes served are the nodes at some depth. */
  lemma ServedMember(view: View, ns: seq<UINode>, m: UINode)
    ensures m in Served(view, ns) <==> exists d: nat :: AtDepth(view, ns, d, m)
  {
    if d: nat :| AtDepth(view, ns, d, m) {
      LevelsAreServed(view, ns, d);
      ServedLevel(view, Level(view, ns, d));
    } else {
      var n := |Served(view, ns)| + 1;
      LevelsAreServed(view, ns, n);
      AboveMember(view, ns, n, m);
      assert Level(view, ns, n) == [];
      assert Served(view, []) == [];
    }
  }

  /** No node above depth `d` matches. */
  ghost predicate NoneAbove(view: View, rule: Rule, ns: seq<UINode>, id: int, d: nat) {
    forall e: nat, m :: e < d && AtDepth(view, ns, e, m) ==> !Matches(rule, m, id)
  }

  ghost predicate NoneAtAnyDepth(view: View, rule: Rule, ns: seq<UINode>, id: int) {
    forall e: nat, m :: AtDepth(view, ns, e, m) ==> !Matches(rule, m, id)
  }

  /** `c` is the leftmost match of level `d`, at place `i`, and no level above has one. */
  ghost predicate LeftmostShallowest(view: View, rule: Rule, ns: seq<UINode>, id: int, d: nat, i: nat, c: UINode) {
    && i < |Level(view, ns, d)| && Level(view, ns, d)[i] == c && Matches(rule, c, id)
    && NoneAbove(view, rule, ns, id, d)
    && forall j :: 0 <= j < i ==> !Matches(rule, Level(view, ns, d)[j], id)
  }

  lemma ServesNoMatchIff(view: View, rule: Rule, ns: seq<UINode>, id: int)
    ensures First(rule, Served(view, ns), id).None? <==> NoneAtAnyDepth(view, rule, ns, id)
  {
    NoFirst(rule, Served(view, ns), id);
    forall m {
      ServedMember(view, ns, m);
    }
    if First(rule, Served(view, ns), id).Some? {
      var d: nat :| AtDepth(view, ns, d, First(rule, Served(view, ns), id).value);
    } else {
      forall e: nat, m | AtDepth(view, ns, e, m)
        ensures !Matches(rule, m, id)
      {
        assert m in Served(view, ns);
      }
    }
  }

  lemma ServesShallowestFirst(view: View, rule: Rule, ns: seq<UINode>, id: int) returns (d: nat, i: nat)
    requires First(rule, Served(view, ns), id).Some?
    ensures LeftmostShallowest(view, rule, ns, id, d, i, First(rule, Served(view, ns), id).value)
  {
    d := LevelOfFirst(view, rule, ns, id, 0);
    i := FirstIndex(rule, Level(view, ns, d), id);
  }

  /** Nothing is found exactly when neither the root nor a frame below it that is not level-No has the id; the root
      itself is found even if it is level-No. */
  lemma FindsNothingIff(root: UINode, id: int)
    requires root.frame.Some?
    ensures Find(root, id).None? <==>
      && root.frame.value.id != id
      && forall d: nat, m :: d > 0 && AtDepth(Live, [root], d, m) && m.frame.Some? && !m.frame.value.levelNo ==>
           m.frame.value.id != id
    ensures root.frame.value.id == id ==> Find(root, id) == Some(root)
  {
    ServesNoMatchIff(Live, NotLevelNo, Succ(Live, root), id);
    forall d: nat, m
      ensures AtDepth(Live, Succ(Live, root), d, m) <==> AtDepth(Live, [root], d + 1, m)
    {
      BelowRoot(Live, root, d);
    }
    forall d: nat, m | d > 0 && AtDepth(Live, [root], d, m)
      ensures AtDepth(Live, Succ(Live, root), d - 1, m)
    {
      BelowRoot(Live, root, d - 1);
    }
  }

  lemma {:induction false} BelowRoot(view: View, root: UINode, d: nat)
    ensures Level(view, [root], d + 1) == Level(view, Succ(view, root), d)
    decreases d
  {
    if d == 0 {
      assert [root][1..] == [];
      NothingAround(Succ(view, root));
      assert Level(view, [root], 1) == NextLevel(view, Level(view, [root], 0));
    } else {
      BelowRoot(view, root, d - 1);
      assert Level(view, [root], d + 1) == NextLevel(view, Level(view, [root], d));
    }
  }

  /** What is found is the leftmost eligible node of the shallowest level that has one. */
  lemma FindsShallowestFirst(root: UINode, id: int) returns (d: nat, i: nat)
    requires root.frame.Some? && root.frame.value.id != id && Find(root, id).Some?
    ensures LeftmostShallowest(Live, NotLevelNo, Succ(Live, root), id, d, i, Find(root, id).value)
  {
    d, i := ServesShallowestFirst(Live, NotLevelNo, Succ(Live, root), id);
  }

  /** The same two facts for the search that looks at nodes as it dequeues them; the root is its level 0. */
  lemma InspectsNothingIff(root: UINode, id: int)
    ensures Inspect(root, id).None? <==>
      forall d: nat, m :: AtDepth(Plain, [root], d, m) && m.frame.Some? ==> m.frame.value.id != id
  {
    ServesNoMatchIff(Plain, AnyFrame, [root], id);
  }

  lemma InspectsShallowestFirst(root: UINode, id: int) returns (d: nat, i: nat)
    requires Inspect(root, id).Some?
    ensures LeftmostShallowest(Plain, AnyFrame, [root], id, d, i, Inspect(root, id).value)
  {
    d, i := ServesShallowestFirst(Plain, AnyFrame, [root], id);
  }

  lemma {:induction false} LevelOfFirst(view: View, rule: Rule, ns: seq<UINode>, id: int, from: nat) returns (d: nat)
    requires First(rule, Served(view, ns), id).Some? && NoneAbove(view, rule, ns, id, from)
    requires First(rule, Served(view, Level(view, ns, from)), id) == First(rule, Served(view, ns), id)
    ensures First(rule, Level(view, ns, d), id) == First(rule, Served(view, ns), id)
    ensures NoneAbove(view, rule, ns, id, d)
    decreases SizeAll(view, Level(view, ns, from))
  {
    FirstOfLevel(view, rule, Level(view, ns, from), id);
    if First(rule, Level(view, ns, from), id).Some? {
      d := from;
    } else {
      NoneAboveNext(view, rule, ns, id, from);
      d := LevelOfFirst(view, rule, ns, id, from + 1);
    }
  }

  lemma {:induction false} FirstOfLevel(view: View, rule: Rule, level: seq<UINode>, id: int)
    ensures var here := First(rule, level, id);
      && First(rule, Served(view, level), id) ==
           (if here.Some? then here else First(rule, Served(view, NextLevel(view, level)), id))
      && (level != [] ==> SizeAll(view, NextLevel(view, level)) < SizeAll(view, level))
      && (level == [] ==> First(rule, Served(view, level), id).None?)
  {
    ServedLevel(view, level);
    FirstAppend(rule, level, Served(view, NextLevel(view, level)), id);
    NextLevelShrinks(view, level);
  }

  lemma NoneAboveNext(view: View, rule: Rule, ns: seq<UINode>, id: int, d: nat)
    requires NoneAbove(view, rule, ns, id, d) && First(rule, Level(view, ns, d), id).None?
    ensures NoneAbove(view, rule, ns, id, d + 1)
  {
    NoFirst(rule, Level(view, ns, d), id);
  }

  // ----- Where the two searches agree -----

  /** No virtual nodes, no hidden frames, and both enumerations alike. */
  predicate Simple(n: UINode) {
    !HasVirtual(n) && n.liveChildren == n.children && (n.frame.Some? ==> !n.frame.value.levelNo)
  }

  lemma {:induction false} SimpleServed(queue: seq<UINode>)
    requires forall m :: m in PreorderAll(Live, queue) ==> Simple(m)
    ensures Served(Live, queue) == Served(Plain, queue)
    ensures forall m :: m in Served(Live, queue) ==> Simple(m)
    decreases SizeAll(Live, queue)
  {
    if queue != [] {
      var n := queue[0];
      assert n in Preorder(Live, n) && n in PreorderAll(Live, queue);
      SizeStep(Live, n);
      SizeAppend(Live, queue[1..], Succ(Live, n));
      PreorderAppend(Live, queue[1..], Succ(Live, n));
      SimpleServed(queue[1..] + Succ(Live, n));
    }
  }

  lemma {:induction false} RulesAgree(ns: seq<UINode>, id: int)
    requires forall m :: m in ns ==> Simple(m)
    ensures First(NotLevelNo, ns, id) == First(AnyFrame, ns, id)
    decreases |ns|
  {
    if ns != [] {
      assert ns[0] in ns;
      RulesAgree(ns[1..], id);
    }
  }

  /** On such trees checking on enqueue and checking on dequeue find the same node. */
  lemma SearchesAgree(root: UINode, id: int)
    requires root.frame.Some? && forall m :: m in Preorder(Live, root) ==> Simple(m)
    ensures Find(root, id) == Inspect(root, id)
  {
    PreorderSingle(Live, root);
    SimpleServed([root]);
    RulesAgree(Served(Live, [root]), id);
    assert [root][1..] + Succ(Live, root) == Succ(Live, root);
    assert Served(Live, [root]) == [root] + Served(Live, Succ(Live, root));
    assert root in Preorder(Live, root);
    assert ([root] + Served(Live, Succ(Live, root)))[1..] == Served(Live, Succ(Live, root));
  }
}

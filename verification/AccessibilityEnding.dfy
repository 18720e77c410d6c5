/** When the dump ends at all: exactly when its lookups never lead from a node back to that node. */
module AccessibilityEnding {
  import opened Prelude
  import opened AccessibilityTree
  import opened AccessibilityDump
  import opened AccessibilityNumbering

  /** One of the child ids `n` is dumped with leads to `m`. */
  ghost predicate LeadsTo(root: UINode, n: UINode, m: UINode, pageId: int)
    requires root.frame.Some? && n.frame.Some?
  {
    exists id :: id in ChildIds(n, pageId) && Lookup(root, id) == Some(m)
  }

  ghost predicate WayStep(root: UINode, way: seq<UINode>, i: int, pageId: int)
    requires root.frame.Some?
  {
    0 <= i < |way| - 1 && way[i].frame.Some? && LeadsTo(root, way[i], way[i + 1], pageId)
  }

  /** A way a dump may take from node to node. */
  ghost predicate Way(root: UINode, way: seq<UINode>, pageId: int)
    requires root.frame.Some?
  {
    && way != [] && (forall i :: 0 <= i < |way| ==> way[i].frame.Some?)
    && forall i :: 0 <= i < |way| - 1 ==> WayStep(root, way, i, pageId)
  }

  predicate Returns(way: seq<UINode>) {
    exists i, j :: 0 <= i < j < |way| && way[i] == way[j]
  }

  /** Some way from `n` comes to the same node twice. */
  ghost predicate ComesBack(root: UINode, n: UINode, pageId: int)
    requires root.frame.Some?
  {
    exists way :: Way(root, way, pageId) && way[0] == n && Returns(way)
  }

  // ----- Long ways use up the depth -----

  lemma {:induction false} UnendedId(root: UINode, ids: seq<int>, pageId: int, depth: nat) returns (id: int)
    requires root.frame.Some? && SearchAll(root, ids, pageId, depth).None?
    ensures id in ids && Search(root, id, pageId, depth).None?
    decreases |ids|
  {
    if Search(root, ids[0], pageId, depth).None? {
      id := ids[0];
    } else {
      id := UnendedId(root, ids[1..], pageId, depth);
    }
  }

  lemma {:induction false} UnendedList(root: UINode, ids: seq<int>, id: int, pageId: int, depth: nat)
    requires root.frame.Some? && id in ids && Search(root, id, pageId, depth).None?
    ensures SearchAll(root, ids, pageId, depth).None?
    decreases |ids|
  {
    if id != ids[0] {
      UnendedList(root, ids[1..], id, pageId, depth);
    }
  }

  lemma TailOfWay(root: UINode, way: seq<UINode>, pageId: int) returns (id: int)
    requires root.frame.Some? && Way(root, way, pageId) && |way| > 1
    ensures Way(root, way[1..], pageId)
    ensures id in ChildIds(way[0], pageId) && Lookup(root, id) == Some(way[1])
  {
    assert WayStep(root, way, 0, pageId);
    id :| id in ChildIds(way[0], pageId) && Lookup(root, id) == Some(way[1]);
    forall i | 0 <= i < |way[1..]| - 1
      ensures WayStep(root, way[1..], i, pageId)
    {
      assert WayStep(root, way, i + 1, pageId);
    }
  }

  lemma {:induction false} LongWayNeedsDepth(root: UINode, elementId: int, way: seq<UINode>, pageId: int, depth: nat)
    requires root.frame.Some? && Way(root, way, pageId) && Lookup(root, elementId) == Some(way[0])
    requires |way| > depth
    ensures Search(root, elementId, pageId, depth) == None
    decreases depth
  {
    if depth > 0 {
      var id := TailOfWay(root, way, pageId);
      LongWayNeedsDepth(root, id, way[1..], pageId, depth - 1);
      UnendedList(root, ChildIds(way[0], pageId), id, pageId, depth - 1);
      SearchStep(root, elementId, way[0], pageId, depth);
    }
  }

  lemma {:induction false} UsedDepthHasWay(root: UINode, elementId: int, pageId: int, depth: nat)
      returns (way: seq<UINode>)
    requires root.frame.Some? && depth > 0 && Search(root, elementId, pageId, depth) == None
    ensures Way(root, way, pageId) && Lookup(root, elementId) == Some(way[0]) && |way| >= depth
    decreases depth
  {
    assert Lookup(root, elementId).Some?;
    var n := Lookup(root, elementId).value;
    way := [n];
    if depth > 1 {
      SearchStep(root, elementId, n, pageId, depth);
      var id := UnendedId(root, ChildIds(n, pageId), pageId, depth - 1);
      var rest := UsedDepthHasWay(root, id, pageId, depth - 1);
      assert LeadsTo(root, n, rest[0], pageId);
      JoinWays(root, [n], rest, pageId);
      way := [n] + rest;
    }
  }

  // ----- Ways that return can be made as long as one likes -----

  lemma JoinWays(root: UINode, a: seq<UINode>, b: seq<UINode>, pageId: int)
    requires root.frame.Some? && Way(root, a, pageId) && Way(root, b, pageId)
    requires LeadsTo(root, a[|a| - 1], b[0], pageId)
    ensures Way(root, a + b, pageId) && (a + b)[0] == a[0] && (a + b)[|a + b| - 1] == b[|b| - 1]
  {
    forall i | 0 <= i < |a + b| - 1
      ensures WayStep(root, a + b, i, pageId)
    {
      JoinedStep(root, a, b, i, pageId);
    }
  }

  lemma JoinedStep(root: UINode, a: seq<UINode>, b: seq<UINode>, i: nat, pageId: int)
    requires root.frame.Some? && Way(root, a, pageId) && Way(root, b, pageId) && i < |a + b| - 1
    requires LeadsTo(root, a[|a| - 1], b[0], pageId)
    ensures WayStep(root, a + b, i, pageId)
  {
    if i < |a| - 1 {
      assert WayStep(root, a, i, pageId);
      assert (a + b)[i] == a[i] && (a + b)[i + 1] == a[i + 1];
    } else if i == |a| - 1 {
      assert (a + b)[i] == a[i] && (a + b)[i + 1] == b[0];
    } else {
      assert WayStep(root, b, i - |a|, pageId);
      assert (a + b)[i] == b[i - |a|] && (a + b)[i + 1] == b[i - |a| + 1];
    }
  }

  lemma PartOfWay(root: UINode, way: seq<UINode>, from: nat, to: nat, pageId: int) returns (part: seq<UINode>)
    requires root.frame.Some? && Way(root, way, pageId) && from < to <= |way|
    ensures Way(root, part, pageId) && part[0] == way[from] && part[|part| - 1] == way[to - 1]
  {
    part := way[from..to];
    forall i | 0 <= i < to - from - 1
      ensures WayStep(root, part, i, pageId)
    {
      assert WayStep(root, way, from + i, pageId);
    }
  }

  /** `round` leads from the end of `way` back to it. */
  ghost predicate RoundTrip(root: UINode, way: seq<UINode>, round: seq<UINode>, pageId: int)
    requires root.frame.Some?
  {
    && Way(root, way, pageId) && Way(root, round, pageId)
    && LeadsTo(root, way[|way| - 1], round[0], pageId) && round[|round| - 1] == way[|way| - 1]
  }

  lemma {:induction false} RoundAndRound(root: UINode, way: seq<UINode>, round: seq<UINode>, pageId: int, length: nat)
      returns (longer: seq<UINode>)
    requires root.frame.Some? && RoundTrip(root, way, round, pageId)
    ensures RoundTrip(root, longer, round, pageId) && longer[0] == way[0] && |longer| > length
    decreases length
  {
    if length == 0 {
      longer := way;
    } else {
      var shorter := RoundAndRound(root, way, round, pageId, length - 1);
      JoinWays(root, shorter, round, pageId);
      longer := shorter + round;
    }
  }

  lemma RoundOf(root: UINode, way: seq<UINode>, pageId: int) returns (start: seq<UINode>, round: seq<UINode>)
    requires root.frame.Some? && Way(root, way, pageId) && Returns(way)
    ensures RoundTrip(root, start, round, pageId) && start[0] == way[0]
  {
    var i: nat, j: nat :| i < j < |way| && way[i] == way[j];
    start := PartOfWay(root, way, 0, j + 1, pageId);
    round := PartOfWay(root, way, i + 1, j + 1, pageId);
    assert WayStep(root, way, i, pageId);
  }

  /** If the lookups of a dump lead from some node back to it, no depth suffices. */
  lemma NeverEnds(root: UINode, elementId: int, way: seq<UINode>, pageId: int, depth: nat)
    requires root.frame.Some? && Way(root, way, pageId) && Lookup(root, elementId) == Some(way[0]) && Returns(way)
    ensures Search(root, elementId, pageId, depth) == None
  {
    var start, round := RoundOf(root, way, pageId);
    var longer := RoundAndRound(root, start, round, pageId, depth);
    LongWayNeedsDepth(root, elementId, longer, pageId, depth);
  }

  // ----- Ways that do not return are short -----

  function Members(ns: seq<UINode>): set<UINode> {
    set n | n in ns
  }

  lemma {:induction false} MembersCount(ns: seq<UINode>)
    ensures |Members(ns)| <= |ns|
    ensures !Returns(ns) ==> |Members(ns)| == |ns|
  {
    if ns != [] {
      var n := |ns| - 1;
      MembersCount(ns[..n]);
      assert ns == ns[..n] + [ns[n]];
      assert Members(ns) == Members(ns[..n]) + {ns[n]};
      if !Returns(ns) {
        assert forall i, j :: 0 <= i < j < n ==> ns[..n][i] == ns[i] && ns[..n][j] == ns[j];
        assert ns[n] !in ns[..n];
      }
    }
  }

  lemma {:induction false} WayStaysInTree(root: UINode, way: seq<UINode>, pageId: int)
    requires root.frame.Some? && Way(root, way, pageId) && way[0] in Preorder(Live, root)
    ensures Members(way) <= Members(Preorder(Live, root))
  {
    forall i | 0 <= i < |way|
      ensures way[i] in Preorder(Live, root)
    {
      if i > 0 {
        assert WayStep(root, way, i - 1, pageId);
        var id :| id in ChildIds(way[i - 1], pageId) && Lookup(root, id) == Some(way[i]);
        FoundIsInTree(root, id);
      }
    }
  }

  lemma SubsetCount(a: set<UINode>, b: set<UINode>)
    requires a <= b
    ensures |a| <= |b|
  {
    assert b == a + (b - a);
  }

  lemma ShortWay(root: UINode, way: seq<UINode>, pageId: int)
    requires root.frame.Some? && Way(root, way, pageId) && way[0] in Preorder(Live, root) && !Returns(way)
    ensures |way| <= |Preorder(Live, root)|
  {
    MembersCount(way);
    MembersCount(Preorder(Live, root));
    WayStaysInTree(root, way, pageId);
    SubsetCount(Members(way), Members(Preorder(Live, root)));
  }

  lemma EndsInTree(root: UINode, elementId: int, pageId: int)
    requires root.frame.Some? && Lookup(root, elementId).Some?
    requires !ComesBack(root, Lookup(root, elementId).value, pageId)
    ensures Search(root, elementId, pageId, |Preorder(Live, root)| + 1).Some?
  {
    var enough := |Preorder(Live, root)| + 1;
    if Search(root, elementId, pageId, enough) == None {
      var way := UsedDepthHasWay(root, elementId, pageId, enough);
      FoundIsInTree(root, elementId);
      assert !Returns(way);
      ShortWay(root, way, pageId);
    }
  }

  /** On any tree: the dump of a found node ends, at some depth, exactly when no way from it comes to the same
      node twice; and then one more than the number of nodes is depth enough. */
  lemma DumpEndsIff(root: UINode, elementId: int, pageId: int)
    requires root.frame.Some? && Lookup(root, elementId).Some?
    ensures var n := Lookup(root, elementId).value;
      && ((exists depth :: Search(root, elementId, pageId, depth).Some?) <==> !ComesBack(root, n, pageId))
      && (!ComesBack(root, n, pageId) ==> Search(root, elementId, pageId, |Preorder(Live, root)| + 1).Some?)
  {
    var n := Lookup(root, elementId).value;
    if way :| Way(root, way, pageId) && way[0] == n && Returns(way) {
      forall depth: nat
        ensures Search(root, elementId, pageId, depth) == None
      {
        NeverEnds(root, elementId, way, pageId, depth);
      }
    } else {
      EndsInTree(root, elementId, pageId);
    }
  }

  // ----- How dumps go wrong -----

  /** A node that lists -1 or the root's id, on any way from the root, makes the dump of the root endless. */
  lemma RepeatedIdNeverEnds(root: UINode, way: seq<UINode>, id: int, pageId: int, depth: nat)
    requires root.frame.Some? && Way(root, way, pageId) && way[0] == root
    requires id in ChildIds(way[|way| - 1], pageId) && id in {-1, root.frame.value.id}
    ensures Search(root, -1, pageId, depth) == None
  {
    var last := way[|way| - 1];
    assert Lookup(root, id) == Some(root) && LeadsTo(root, last, root, pageId);
    assert Way(root, [root], pageId);
    JoinWays(root, way, [root], pageId);
    var back := way + [root];
    assert back[0] == back[|way|];
    NeverEnds(root, -1, back, pageId, depth);
  }

  lemma {:induction false} ChildIdsFit(n: UINode, pageId: int, id: int)
    requires n.frame.Some? && id in ChildIds(n, pageId)
    ensures Fits32(id)
  {
    var kids := Kids(n, pageId);
    IdsLength(kids);
    WithoutRepeatsIff(Ids(kids));
    var i :| 0 <= i < |kids| && Ids(kids)[i] == id;
    NarrowFits(kids[i].frame.value.id);
  }

  /** A node whose id does not fit 32 bits is never reached through a child id, unless it is the root. */
  lemma WideIdIsLost(root: UINode, way: seq<UINode>, pageId: int, i: nat)
    requires root.frame.Some? && Way(root, way, pageId) && 0 < i < |way|
    ensures Fits32(way[i].frame.value.id) || way[i] == root
  {
    assert WayStep(root, way, i - 1, pageId);
    var id :| id in ChildIds(way[i - 1], pageId) && Lookup(root, id) == Some(way[i]);
    ChildIdsFit(way[i - 1], pageId, id);
  }
}

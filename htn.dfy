/** HTN: the hierarchical task network planner. A node tree is built with
    `AddChild`; a goal tree plans by walking it depth first, left to right:
    a leaf joins the plan, an internal node passes to its children only when
    it has no precondition or its precondition holds, and the walk stops at
    the first INTERUPT or GOAL leaf. A goal container keeps named stacks (or
    queues) of goal trees, plans the current tree of each, and pops the trees
    that reached a goal.

    Planning needs the tree to be finite, which the source leaves to the
    builder; here a goal tree carries a ghost `Shape`, a snapshot of the node
    tree that `Mirrors` ties to the heap, and the planner is proved
    against the pure `PlanOf` on that snapshot. Delegates are total functions
    of the node; the effects of the initialize delegates are recorded, node
    by node, in a ghost trace. */
module HTN {
  import opened Wrappers
  import opened Text

  datatype NodeType = DEFAULT | INTERUPT | GOAL

  /** A precondition delegate and its flip flag, evaluated on a node. */
  predicate Passes(pre: string -> bool, flip: bool, name: string)
  {
    if flip then !pre(name) else pre(name)
  }

  class HTNNode {
    var name: string
    var parent: Option<HTNNode>
    var children: seq<HTNNode>
    var nodeType: NodeType
    var precondition: Option<string -> bool>
    var flipPrecon: bool
    var goalTree: Option<HTNGoalTree>

    /** A node with a name and, optionally, a precondition; every node
        starts as a DEFAULT leaf with no parent and no tree. */
    constructor(name: string, precondition: Option<string -> bool>)
      ensures this.name == name && this.precondition == precondition
      ensures parent == None && children == [] && nodeType == DEFAULT
      ensures !flipPrecon && goalTree == None
    {
      this.name := name;
      this.precondition := precondition;
      parent := None;
      children := [];
      nodeType := DEFAULT;
      flipPrecon := false;
      goalTree := None;
    }

    predicate IsLeaf()
      reads this
    {
      |children| < 1
    }

    /** `Precondition`: the delegate's verdict on this node, negated when
        the flip flag is set. The delegate must be present. */
    function Precondition(): (r: bool)
      reads this
      requires precondition.Some?
      ensures r <==> (precondition.value(name) != flipPrecon)
    {
      Passes(precondition.value, flipPrecon, name)
    }

    /** `AddChild`: the node becomes the last child and takes this node as
        its parent; the node is returned. */
    method AddChild(node: HTNNode) returns (r: HTNNode)
      modifies this, node
      ensures r == node && node.parent == Some(this)
      ensures children == old(children) + [node]
      ensures node != this ==> node.children == old(node.children)
      ensures name == old(name) && nodeType == old(nodeType) && precondition == old(precondition)
      ensures flipPrecon == old(flipPrecon) && goalTree == old(goalTree)
      ensures node.name == old(node.name) && node.nodeType == old(node.nodeType)
      ensures node.precondition == old(node.precondition) && node.flipPrecon == old(node.flipPrecon)
      ensures node.goalTree == old(node.goalTree)
    {
      node.parent := Some(this);
      children := children + [node];
      return node;
    }

    /** `GetRoot`: the parent links are followed up to the node without a
        parent. The loop ends only on an acyclic chain, given as a ghost
        witness. */
    method GetRoot(ghost chain: seq<HTNNode>) returns (r: HTNNode)
      requires ParentChain(chain) && chain[0] == this
      ensures r == chain[|chain| - 1] && r.parent == None
    {
      var node := this;
      ghost var i := 0;
      while node.parent.Some?
        invariant 0 <= i < |chain| && node == chain[i]
        invariant i < |chain| - 1 ==> node.parent == Some(chain[i + 1])
        decreases |chain| - i
      {
        node := node.parent.value;
        i := i + 1;
      }
      return node;
    }

    /** `GetPath`: the nodes from the root down to this one; each is the
        parent of the next. */
    method GetPath(ghost chain: seq<HTNNode>) returns (path: seq<HTNNode>)
      requires ParentChain(chain) && chain[0] == this
      ensures path == Reversed(chain)
      ensures |path| == |chain| && path[0] == chain[|chain| - 1] && path[0].parent == None
      ensures path[|path| - 1] == this
      ensures forall i :: 0 <= i < |path| - 1 ==> path[i + 1].parent == Some(path[i])
    {
      path := [];
      var node := Some(this);
      ghost var i := 0;
      while node.Some?
        invariant 0 <= i <= |chain| && path == chain[..i]
        invariant i < |chain| ==> node == Some(chain[i])
        invariant i == |chain| ==> node == None
        decreases |chain| - i
      {
        path := path + [node.value];
        node := node.value.parent;
        i := i + 1;
      }
      assert path == chain;
      path := Reversed(path);
    }

    /** `GetPathDesc`: the names along the path, each followed by ':', with
        the last ':' cut off, that is, the names joined by ':'. */
    method GetPathDesc(ghost chain: seq<HTNNode>) returns (desc: string)
      requires ParentChain(chain) && chain[0] == this
      ensures desc == Join(Names(Reversed(chain)), ':')
    {
      var path := GetPath(chain);
      desc := "";
      var i := 0;
      while i < |path|
        invariant 0 <= i <= |path|
        invariant i == 0 ==> desc == ""
        invariant i > 0 ==> desc == Join(Names(path[..i]), ':') + [':']
      {
        NamesAppend(path[..i], path[i]);
        assert path[..i + 1] == path[..i] + [path[i]];
        if i > 0 {
          JoinAppend(Names(path[..i]), path[i].name, ':');
        }
        desc := desc + path[i].name + [':'];
        i := i + 1;
      }
      assert path[..i] == path;
      desc := desc[..|desc| - 1];
    }
  }

  /** `chain` is this node's parent chain: each node's parent is the next,
      and the last node has none. */
  ghost predicate ParentChain(chain: seq<HTNNode>)
    reads set n | n in chain
  {
    |chain| > 0 &&
    (forall i :: 0 <= i < |chain| - 1 ==> chain[i].parent == Some(chain[i + 1])) &&
    chain[|chain| - 1].parent == None
  }

  /** A node has at most one parent chain, so `GetRoot` and `GetPath` do
      not depend on the witness. */
  lemma {:induction false} ChainUnique(c1: seq<HTNNode>, c2: seq<HTNNode>)
    requires ParentChain(c1) && ParentChain(c2) && c1[0] == c2[0]
    ensures c1 == c2
    decreases |c1|
  {
    if |c1| > 1 {
      assert c1[0].parent == Some(c1[1]);
      assert |c2| > 1;
      assert ParentChain(c1[1..]) && ParentChain(c2[1..]);
      ChainUnique(c1[1..], c2[1..]);
      assert c1 == [c1[0]] + c1[1..] && c2 == [c2[0]] + c2[1..];
    } else {
      ChainHead(c1);
      ChainHead(c2);
    }
  }

  /** A parent chain goes on past its first node exactly when that node
      has a parent. */
  lemma ChainHead(c: seq<HTNNode>)
    requires ParentChain(c)
    ensures |c| > 1 <==> c[0].parent.Some?
  {
    if |c| > 1 {
      assert c[0].parent == Some(c[1]);
    }
  }

  function Reversed<T>(s: seq<T>): (r: seq<T>)
    ensures |r| == |s| && forall i :: 0 <= i < |s| ==> r[i] == s[|s| - 1 - i]
  {
    if s == [] then [] else Reversed(s[1..]) + [s[0]]
  }

  function Names(nodes: seq<HTNNode>): (r: seq<string>)
    reads set n | n in nodes
    ensures |r| == |nodes| && forall i :: 0 <= i < |nodes| ==> r[i] == nodes[i].name
  {
    if nodes == [] then [] else Names(nodes[..|nodes| - 1]) + [nodes[|nodes| - 1].name]
  }

  lemma NamesAppend(nodes: seq<HTNNode>, n: HTNNode)
    ensures Names(nodes + [n]) == Names(nodes) + [n.name]
  {
  }

  /** Joining one more part adds the separator and the part. */
  lemma {:induction false} JoinAppend(parts: seq<string>, p: string, sep: char)
    requires parts != []
    ensures Join(parts + [p], sep) == Join(parts, sep) + [sep] + p
  {
    if |parts| == 1 {
      assert (parts + [p])[1..] == [p];
    } else {
      assert (parts + [p])[1..] == parts[1..] + [p];
      JoinAppend(parts[1..], p, sep);
    }
  }

  /** A snapshot of a node tree: each node with its type, precondition and
      flip flag, and the snapshots of its children. */
  datatype Shape = Shape(node: HTNNode, name: string, nodeType: NodeType, pre: Option<string -> bool>, flip: bool,
                         kids: seq<Shape>)

  /** The heap agrees with the snapshot on the nodes `ns`: same names,
      types, preconditions, flip flags and children, all the way down. */
  ghost predicate Mirrors(s: Shape, ns: set<HTNNode>)
    reads ns`name, ns`nodeType, ns`precondition, ns`flipPrecon, ns`children
    decreases s
  {
    s.node in ns &&
    s.node.name == s.name && s.node.nodeType == s.nodeType && s.node.precondition == s.pre &&
    s.node.flipPrecon == s.flip && |s.node.children| == |s.kids| &&
    forall i :: 0 <= i < |s.kids| ==> s.node.children[i] == s.kids[i].node && Mirrors(s.kids[i], ns)
  }

  /** Whether planning passes through an internal node. */
  predicate Opens(s: Shape)
  {
    s.pre.None? || Passes(s.pre.value, s.flip, s.name)
  }

  /** The plan of a subtree and the type it stops on (DEFAULT when it
      does not stop). */
  function PlanOf(s: Shape): (seq<HTNNode>, NodeType)
    decreases s
  {
    if s.kids == [] then ([s.node], s.nodeType)
    else if Opens(s) then PlanSeq(s.kids)
    else ([], DEFAULT)
  }

  /** The plans of sibling subtrees, left to right, up to the first that
      stops. */
  function PlanSeq(ts: seq<Shape>): (seq<HTNNode>, NodeType)
    decreases ts
  {
    if ts == [] then ([], DEFAULT)
    else
      var a := PlanSeq(ts[..|ts| - 1]);
      if a.1 != DEFAULT then a
      else
        var b := PlanOf(ts[|ts| - 1]);
        (a.0 + b.0, b.1)
  }

  /** The leaves of a subtree, left to right. */
  function Leaves(s: Shape): seq<HTNNode>
    decreases s
  {
    if s.kids == [] then [s.node] else LeavesSeq(s.kids)
  }

  function LeavesSeq(ts: seq<Shape>): seq<HTNNode>
    decreases ts
  {
    if ts == [] then [] else LeavesSeq(ts[..|ts| - 1]) + Leaves(ts[|ts| - 1])
  }

  /** The nodes of a subtree in pre-order. */
  function PreOrder(s: Shape): seq<HTNNode>
    decreases s
  {
    [s.node] + PreOrderSeq(s.kids)
  }

  function PreOrderSeq(ts: seq<Shape>): seq<HTNNode>
    decreases ts
  {
    if ts == [] then [] else PreOrderSeq(ts[..|ts| - 1]) + PreOrder(ts[|ts| - 1])
  }

  /** Once the siblings up to `j` stop, later siblings add nothing. */
  /** One more sibling after a prefix that did not stop. */
  lemma PlanSeqStep(ts: seq<Shape>, i: nat)
    requires i < |ts| && PlanSeq(ts[..i]).1 == DEFAULT
    ensures PlanSeq(ts[..i + 1]) == (PlanSeq(ts[..i]).0 + PlanOf(ts[i]).0, PlanOf(ts[i]).1)
  {
    assert ts[..i + 1][..i] == ts[..i];
  }

  lemma {:induction false} PlanSeqStopped(ts: seq<Shape>, j: nat)
    requires j <= |ts| && PlanSeq(ts[..j]).1 != DEFAULT
    ensures PlanSeq(ts) == PlanSeq(ts[..j])
    decreases |ts|
  {
    if j < |ts| {
      assert ts[..|ts| - 1][..j] == ts[..j];
      PlanSeqStopped(ts[..|ts| - 1], j);
    } else {
      assert ts[..j] == ts;
    }
  }

  /** Only leaves enter a plan. */
  lemma {:induction false} PlanFromLeaves(s: Shape)
    ensures forall n :: n in PlanOf(s).0 ==> n in Leaves(s)
    decreases s
  {
    if s.kids != [] && Opens(s) {
      PlanSeqFromLeaves(s.kids);
    }
  }

  lemma {:induction false} PlanSeqFromLeaves(ts: seq<Shape>)
    ensures forall n :: n in PlanSeq(ts).0 ==> n in LeavesSeq(ts)
    decreases ts
  {
    if ts != [] {
      PlanSeqFromLeaves(ts[..|ts| - 1]);
      PlanFromLeaves(ts[|ts| - 1]);
    }
  }

  /** Under a mirrored snapshot, the leaves are nodes without children. */
  lemma {:induction false} LeavesAreLeaves(s: Shape, ns: set<HTNNode>)
    requires Mirrors(s, ns)
    ensures forall n :: n in Leaves(s) ==> n.IsLeaf()
    decreases s
  {
    if s.kids != [] {
      LeavesSeqAreLeaves(s.kids, ns);
    }
  }

  lemma {:induction false} LeavesSeqAreLeaves(ts: seq<Shape>, ns: set<HTNNode>)
    requires forall i :: 0 <= i < |ts| ==> Mirrors(ts[i], ns)
    ensures forall n :: n in LeavesSeq(ts) ==> n.IsLeaf()
    decreases ts
  {
    if ts != [] {
      LeavesSeqAreLeaves(ts[..|ts| - 1], ns);
      LeavesAreLeaves(ts[|ts| - 1], ns);
    }
  }

  /** The plan stops exactly at its first INTERUPT or GOAL leaf: every
      earlier entry is DEFAULT, and a plan that stops ends with a leaf of
      the type it stops on. */
  predicate StopsAtFirst(r: (seq<HTNNode>, NodeType), types: map<HTNNode, NodeType>)
  {
    (forall i :: 0 <= i < |r.0| && (i < |r.0| - 1 || r.1 == DEFAULT) ==>
       r.0[i] in types && types[r.0[i]] == DEFAULT) &&
    (r.1 != DEFAULT ==> |r.0| > 0 && r.0[|r.0| - 1] in types && types[r.0[|r.0| - 1]] == r.1)
  }

  /** Every node's type in the snapshot is the one recorded in `types`. */
  ghost predicate Typed(s: Shape, types: map<HTNNode, NodeType>)
    decreases s
  {
    s.node in types && types[s.node] == s.nodeType && forall i :: 0 <= i < |s.kids| ==> Typed(s.kids[i], types)
  }

  lemma {:induction false} PlanStops(s: Shape, types: map<HTNNode, NodeType>)
    requires Typed(s, types)
    ensures StopsAtFirst(PlanOf(s), types)
    decreases s
  {
    if s.kids != [] && Opens(s) {
      PlanSeqStops(s.kids, types);
    }
  }

  lemma {:induction false} PlanSeqStops(ts: seq<Shape>, types: map<HTNNode, NodeType>)
    requires forall i :: 0 <= i < |ts| ==> Typed(ts[i], types)
    ensures StopsAtFirst(PlanSeq(ts), types)
    decreases ts
  {
    if ts != [] {
      PlanSeqStops(ts[..|ts| - 1], types);
      PlanStops(ts[|ts| - 1], types);
      var a := PlanSeq(ts[..|ts| - 1]);
      var b := PlanOf(ts[|ts| - 1]);
      if a.1 == DEFAULT {
        var r := (a.0 + b.0, b.1);
        forall i | 0 <= i < |r.0| && (i < |r.0| - 1 || r.1 == DEFAULT)
          ensures r.0[i] in types && types[r.0[i]] == DEFAULT
        {
          if i >= |a.0| {
            assert r.0[i] == b.0[i - |a.0|];
          }
        }
      }
    }
  }

  /** Everything open: each internal node passes its precondition and each
      leaf is DEFAULT. */
  ghost predicate AllOpen(s: Shape)
    decreases s
  {
    if s.kids == [] then s.nodeType == DEFAULT
    else Opens(s) && forall i :: 0 <= i < |s.kids| ==> AllOpen(s.kids[i])
  }

  /** When nothing is closed and nothing stops, the plan is every leaf, left
      to right. */
  lemma {:induction false} PlanAllOpen(s: Shape)
    requires AllOpen(s)
    ensures PlanOf(s) == (Leaves(s), DEFAULT)
    decreases s
  {
    if s.kids != [] {
      PlanSeqAllOpen(s.kids);
    }
  }

  lemma {:induction false} PlanSeqAllOpen(ts: seq<Shape>)
    requires forall i :: 0 <= i < |ts| ==> AllOpen(ts[i])
    ensures PlanSeq(ts) == (LeavesSeq(ts), DEFAULT)
    decreases ts
  {
    if ts != [] {
      PlanSeqAllOpen(ts[..|ts| - 1]);
      PlanAllOpen(ts[|ts| - 1]);
    }
  }

  /** An internal node whose precondition fails hides its whole subtree. */
  lemma ClosedNodeHides(s: Shape)
    requires s.kids != [] && s.pre.Some? && !Passes(s.pre.value, s.flip, s.name)
    ensures PlanOf(s) == ([], DEFAULT)
  {
  }

  class HTNGoalTree {
    const root: HTNNode
    var lastResult: NodeType
    var goalContainer: Option<HTNGoalContainer>
    /** The node tree under `root`, as it stands. */
    ghost const shape: Shape
    /** The nodes of that tree. */
    ghost const nodes: set<HTNNode>
    ghost var initialized: seq<HTNNode>

    /** A tree on a root; the root records the tree. */
    constructor(root: HTNNode, ghost shape: Shape, ghost nodes: set<HTNNode>)
      requires shape.node == root && Mirrors(shape, nodes)
      modifies root`goalTree
      ensures this.shape == shape && this.nodes == nodes && Valid()
      ensures this.root == root && root.goalTree == Some(this)
      ensures lastResult == DEFAULT && goalContainer == None && initialized == []
      ensures root.name == old(root.name) && root.parent == old(root.parent)
      ensures root.children == old(root.children) && root.nodeType == old(root.nodeType)
      ensures root.precondition == old(root.precondition) && root.flipPrecon == old(root.flipPrecon)
    {
      this.root := root;
      lastResult := DEFAULT;
      goalContainer := None;
      this.shape := shape;
      this.nodes := nodes;
      initialized := [];
      new;
      root.goalTree := Some(this);
    }

    /** The tree's snapshot is rooted at its root and mirrors the heap. */
    ghost predicate Valid()
      reads nodes`name, nodes`nodeType, nodes`precondition, nodes`flipPrecon, nodes`children
    {
      shape.node == root && Mirrors(shape, nodes)
    }

    /** `Init`: every node is initialized once, in pre-order. */
    method Init()
      requires Valid()
      modifies this`initialized
      ensures initialized == old(initialized) + PreOrder(shape) && Valid()
    {
      InitNode(root, shape, nodes);
    }

    method InitNode(node: HTNNode, ghost s: Shape, ghost ns: set<HTNNode>)
      requires s.node == node && Mirrors(s, ns)
      modifies this`initialized
      ensures initialized == old(initialized) + PreOrder(s)
      decreases s
    {
      initialized := initialized + [node];
      var i := 0;
      while i < |node.children|
        invariant 0 <= i <= |s.kids|
        invariant Mirrors(s, ns)
        invariant initialized == old(initialized) + [node] + PreOrderSeq(s.kids[..i])
      {
        InitNode(node.children[i], s.kids[i], ns);
        assert s.kids[..i + 1][..i] == s.kids[..i];
        i := i + 1;
      }
      assert s.kids[..i] == s.kids;
    }

    /** `Plan`: the plan of the whole tree; the type it stopped on is kept
        as the last result. */
    method Plan() returns (goal: seq<HTNNode>)
      requires Valid()
      modifies this`lastResult
      ensures goal == PlanOf(shape).0 && lastResult == PlanOf(shape).1 && Valid()
    {
      var res;
      goal, res := PlanNode([], root, shape, nodes);
      assert [] + PlanOf(shape).0 == PlanOf(shape).0;
      lastResult := res;
    }

    /** `_Plan`: the subtree's plan is appended to `output`. */
    static method PlanNode(output: seq<HTNNode>, node: HTNNode, ghost s: Shape, ghost ns: set<HTNNode>)
      returns (out: seq<HTNNode>, res: NodeType)
      requires s.node == node && Mirrors(s, ns)
      ensures out == output + PlanOf(s).0 && res == PlanOf(s).1
      decreases s, 1
    {
      if node.IsLeaf() {
        return output + [node], node.nodeType;
      } else if node.precondition.None? || node.Precondition() {
        out, res := PlanKids(output, node, s, ns);
        return;
      }
      return output, DEFAULT;
    }

    /** The loop of `_Plan` over an open node's children: each child's plan
        is appended until one stops. */
    static method PlanKids(output: seq<HTNNode>, node: HTNNode, ghost s: Shape, ghost ns: set<HTNNode>)
      returns (out: seq<HTNNode>, res: NodeType)
      requires s.node == node && Mirrors(s, ns)
      ensures out == output + PlanSeq(s.kids).0 && res == PlanSeq(s.kids).1
      decreases s, 0
    {
      out := output;
      var i := 0;
      while i < |node.children|
        invariant 0 <= i <= |s.kids|
        invariant out == output + PlanSeq(s.kids[..i]).0 && PlanSeq(s.kids[..i]).1 == DEFAULT
      {
        assert s.node.children[i] == s.kids[i].node && Mirrors(s.kids[i], ns);
        var r;
        out, r := PlanNode(out, node.children[i], s.kids[i], ns);
        PlanSeqStep(s.kids, i);
        if r != DEFAULT {
          PlanSeqStopped(s.kids, i + 1);
          return out, r;
        }
        i := i + 1;
      }
      assert s.kids[..i] == s.kids;
      return out, DEFAULT;
    }
  }

  /** The test tree: root over a flipped precondition node `p1` (over
      `a1`) and a leaf `a2`; `p1`'s delegate always holds. */
  function TestShape(root: HTNNode, p1: HTNNode, a1: HTNNode, a2: HTNNode): Shape
  {
    Shape(root, "root", DEFAULT, None, false, [
      Shape(p1, "p1", DEFAULT, Some(EvenCounter), true, [Shape(a1, "a1", DEFAULT, None, false, [])]),
      Shape(a2, "a2", DEFAULT, None, false, [])])
  }

  /** The test tree's precondition: a counter of 0 is even. */
  function EvenCounter(name: string): bool
  {
    var num := 0;
    num % 2 == 0
  }

  /** The test tree plans `[a2]` and does not stop: the flip turns `p1`'s
      passing delegate into a failing precondition. */
  lemma TestTreePlan(root: HTNNode, p1: HTNNode, a1: HTNNode, a2: HTNNode)
    ensures PlanOf(TestShape(root, p1, a1, a2)) == ([a2], DEFAULT)
  {
    var s := TestShape(root, p1, a1, a2);
    assert !Opens(s.kids[0]);
    assert PlanOf(s.kids[0]) == ([], DEFAULT);
    assert PlanOf(s.kids[1]) == ([a2], DEFAULT);
    var first := s.kids[..1];
    assert first[..|first| - 1] == [] && first[|first| - 1] == s.kids[0];
    assert PlanSeq(first).0 == [] + [] && PlanSeq(first).1 == DEFAULT;
    assert s.kids[..|s.kids| - 1] == first && s.kids[|s.kids| - 1] == s.kids[1];
    assert PlanSeq(s.kids).0 == [] + [a2] == [a2] && PlanSeq(s.kids).1 == DEFAULT;
    assert PlanOf(s) == PlanSeq(s.kids);
  }

  /** `CreateTestTree`: builds the test tree. */
  method CreateTestTree() returns (tree: HTNGoalTree)
    ensures fresh(tree) && tree.Valid() && tree.lastResult == DEFAULT
    ensures exists p1, a1, a2 :: tree.shape == TestShape(tree.root, p1, a1, a2)
  {
    var root := new HTNNode("root", None);
    var p1 := new HTNNode("p1", Some(EvenCounter));
    var a1 := new HTNNode("a1", None);
    var a2 := new HTNNode("a2", None);
    p1.flipPrecon := true;
    var r := root.AddChild(p1);
    r := root.AddChild(a2);
    r := p1.AddChild(a1);
    ghost var s := TestShape(root, p1, a1, a2);
    ghost var ns := {root, p1, a1, a2};
    assert Mirrors(s.kids[0].kids[0], ns) && Mirrors(s.kids[1], ns);
    assert Mirrors(s.kids[0], ns);
    tree := new HTNGoalTree(root, s, ns);
  }

  /** Planning the test tree gives the single action `a2` and a DEFAULT
      last result. */
  method PlanTestTree() returns (plan: seq<HTNNode>)
    ensures |plan| == 1 && plan[0].name == "a2"
  {
    var tree := CreateTestTree();
    plan := tree.Plan();
    ghost var p1, a1, a2 :| tree.shape == TestShape(tree.root, p1, a1, a2);
    TestTreePlan(tree.root, p1, a1, a2);
    assert tree.shape.kids[1].node == a2 && Mirrors(tree.shape.kids[1], tree.nodes);
  }

  datatype ContainerType = STACK | QUEUE

  /** `HTNGoalTreeContainer`: a stack or a queue of goal trees, `trees` in
      push order. A stack hands out the newest tree, a queue the oldest. */
  datatype GoalTreeContainer = GoalTreeContainer(kind: ContainerType, trees: seq<HTNGoalTree>)
  {
    function Count(): nat
    {
      |trees|
    }

    function Push(t: HTNGoalTree): (c: GoalTreeContainer)
      ensures c.kind == kind && c.Count() == Count() + 1
    {
      GoalTreeContainer(kind, trees + [t])
    }

    function Peek(): HTNGoalTree
      requires Count() > 0
    {
      if kind == STACK then trees[|trees| - 1] else trees[0]
    }

    /** `Remove`: the tree `Peek` shows, and the container without it. */
    function Remove(): (r: (HTNGoalTree, GoalTreeContainer))
      requires Count() > 0
      ensures r.0 == Peek() && r.1.kind == kind && r.1.Count() == Count() - 1
      ensures multiset(r.1.trees) + multiset{r.0} == multiset(trees)
    {
      if kind == STACK then
        assert trees == trees[..|trees| - 1] + [trees[|trees| - 1]];
        (trees[|trees| - 1], GoalTreeContainer(kind, trees[..|trees| - 1]))
      else
        assert trees == [trees[0]] + trees[1..];
        (trees[0], GoalTreeContainer(kind, trees[1..]))
    }
  }

  /** A stack hands back the tree just pushed, and removing it undoes the
      push. */
  lemma StackIsLifo(c: GoalTreeContainer, t: HTNGoalTree)
    requires c.kind == STACK
    ensures c.Push(t).Peek() == t && c.Push(t).Remove() == (t, c)
  {
    assert (c.trees + [t])[..|c.trees|] == c.trees;
  }

  /** A queue hands out its oldest tree whatever is pushed behind it, and
      removing commutes with a later push. */
  lemma QueueIsFifo(c: GoalTreeContainer, t: HTNGoalTree)
    requires c.kind == QUEUE
    ensures c.Count() == 0 ==> c.Push(t).Peek() == t
    ensures c.Count() > 0 ==> c.Push(t).Peek() == c.Peek() && c.Push(t).Remove().1 == c.Remove().1.Push(t)
  {
    if c.Count() > 0 {
      assert (c.trees + [t])[1..] == c.trees[1..] + [t];
    }
  }

  /** The stacks after pushing `t` on `stack`, a new container of kind
      `kind` when there is none yet. */
  function PushTo(stacks: map<string, GoalTreeContainer>, stack: string, t: HTNGoalTree, kind: ContainerType)
    : (r: map<string, GoalTreeContainer>)
    ensures r.Keys == stacks.Keys + {stack} && r[stack].Count() > 0
    ensures forall k :: k in stacks && k != stack ==> r[k] == stacks[k]
  {
    stacks[stack := (if stack in stacks then stacks[stack] else GoalTreeContainer(kind, [])).Push(t)]
  }

  /** The stacks after one `PopTree(stack)`: a container left empty is
      dropped, and an unknown stack changes nothing. */
  function PopFrom(stacks: map<string, GoalTreeContainer>, stack: string): (r: map<string, GoalTreeContainer>)
    ensures r.Keys <= stacks.Keys
    ensures forall k :: k in stacks && k != stack ==> k in r && r[k] == stacks[k]
    ensures stack in r <==> stack in stacks && stacks[stack].Count() > 1
    ensures stack in r ==> r[stack] == stacks[stack].Remove().1
  {
    if stack !in stacks then stacks
    else if stacks[stack].Count() <= 1 then stacks - {stack}
    else stacks[stack := stacks[stack].Remove().1]
  }

  /** Popping right after a push onto a stack-kind container gives the
      stacks back as they were. */
  lemma PopUndoesPush(stacks: map<string, GoalTreeContainer>, stack: string, t: HTNGoalTree, kind: ContainerType)
    requires stack in stacks ==> stacks[stack].kind == STACK && stacks[stack].Count() > 0
    requires stack !in stacks ==> kind == STACK
    ensures PushTo(stacks, stack, t, kind)[stack].Peek() == t
    ensures PopFrom(PushTo(stacks, stack, t, kind), stack) == stacks
  {
    var c := if stack in stacks then stacks[stack] else GoalTreeContainer(kind, []);
    StackIsLifo(c, t);
    var r := PopFrom(PushTo(stacks, stack, t, kind), stack);
    if stack in stacks {
      assert r == stacks[stack := c];
    } else {
      assert r == stacks;
    }
  }

  /** The stacks after popping each of `pops` once. */
  function PopAll(stacks: map<string, GoalTreeContainer>, pops: set<string>): (r: map<string, GoalTreeContainer>)
    ensures forall k :: k in stacks && k !in pops ==> k in r && r[k] == stacks[k]
    ensures forall k :: k in r ==> k in stacks
    ensures NoEmptyStack(stacks) ==> NoEmptyStack(r)
  {
    map k | k in stacks && !(k in pops && stacks[k].Count() <= 1) ::
      if k in pops then stacks[k].Remove().1 else stacks[k]
  }

  /** Popping one more stack extends `PopAll` by that stack. */
  lemma PopAllStep(stacks: map<string, GoalTreeContainer>, pops: set<string>, k: string)
    requires k !in pops
    ensures PopFrom(PopAll(stacks, pops), k) == PopAll(stacks, pops + {k})
  {
    var a := PopFrom(PopAll(stacks, pops), k);
    var b := PopAll(stacks, pops + {k});
    assert a.Keys == b.Keys;
    forall j | j in a ensures a[j] == b[j] {
    }
  }

  /** The goal-complete events for the stacks `order`, in that order. */
  function Events(order: seq<string>, pops: map<string, HTNGoalTree>): (r: seq<(string, HTNGoalTree)>)
    requires forall k :: k in order ==> k in pops
    ensures |r| == |order| && forall i :: 0 <= i < |order| ==> r[i] == (order[i], pops[order[i]])
  {
    if order == [] then [] else Events(order[..|order| - 1], pops) + [(order[|order| - 1], pops[order[|order| - 1]])]
  }

  lemma EventsAppend(order: seq<string>, k: string, pops: map<string, HTNGoalTree>)
    requires forall j :: j in order ==> j in pops
    requires k in pops
    ensures Events(order + [k], pops) == Events(order, pops) + [(k, pops[k])]
  {
    assert (order + [k])[..|order|] == order;
  }

  /** Every stack present holds at least one tree. */
  ghost predicate NoEmptyStack(stacks: map<string, GoalTreeContainer>)
  {
    forall k :: k in stacks ==> stacks[k].Count() > 0
  }

  /** Pushing and popping keep every present stack non-empty. */
  lemma StacksStayNonEmpty(stacks: map<string, GoalTreeContainer>, stack: string, t: HTNGoalTree,
                           kind: ContainerType, pops: set<string>)
    requires NoEmptyStack(stacks)
    ensures NoEmptyStack(PushTo(stacks, stack, t, kind))
    ensures NoEmptyStack(PopFrom(stacks, stack))
    ensures NoEmptyStack(PopAll(stacks, pops))
  {
  }

  /** The tree each stack hands out. */
  function TopTrees(stacks: map<string, GoalTreeContainer>): (r: map<string, HTNGoalTree>)
    requires NoEmptyStack(stacks)
    ensures r.Keys == stacks.Keys
    ensures forall k :: k in stacks ==> r[k] == stacks[k].Peek()
  {
    map k | k in stacks :: stacks[k].Peek()
  }

  /** The non-empty plans of the trees of the stacks in `keys`. */
  ghost function PlanMap(trees: map<string, HTNGoalTree>, keys: set<string>): map<string, seq<HTNNode>>
  {
    map k | k in keys && k in trees && PlanOf(trees[k].shape).0 != [] :: PlanOf(trees[k].shape).0
  }

  /** The trees of the stacks in `keys` whose plan stops on a GOAL. */
  ghost function GoalMap(trees: map<string, HTNGoalTree>, keys: set<string>): map<string, HTNGoalTree>
  {
    map k | k in keys && k in trees && PlanOf(trees[k].shape).1 == GOAL :: trees[k]
  }

  lemma PlanMapStep(trees: map<string, HTNGoalTree>, keys: set<string>, k: string)
    requires k in trees && k !in keys
    ensures PlanMap(trees, keys + {k}) ==
            if PlanOf(trees[k].shape).0 != [] then PlanMap(trees, keys)[k := PlanOf(trees[k].shape).0]
            else PlanMap(trees, keys)
    ensures GoalMap(trees, keys + {k}) ==
            if PlanOf(trees[k].shape).1 == GOAL then GoalMap(trees, keys)[k := trees[k]] else GoalMap(trees, keys)
  {
  }

  function Wrap<V>(m: map<string, V>): (r: Option<map<string, V>>)
    ensures r.None? <==> |m| == 0
    ensures r.Some? ==> r.value == m
  {
    if |m| == 0 then None else Some(m)
  }

  /** The stack definitions: one table shared by every container (a static
      dictionary, which is null until the first container is built). */
  class StackDefs {
    var table: Option<map<string, ContainerType>>

    /** Before any container exists there is no table. */
    constructor()
      ensures table == None
    {
      table := None;
    }
  }

  /** A definition added through one container reaches a container built
      afterwards: the second sees "q" as a queue and still sees "default". */
  method DefinitionsAreShared() returns (kind: ContainerType, fallback: ContainerType)
    ensures kind == QUEUE && fallback == STACK
  {
    var defs := new StackDefs();
    var a := new HTNGoalContainer(defs);
    a.AddDef("q", QUEUE);
    var b := new HTNGoalContainer(defs);
    kind := b.GetDef("q");
    fallback := b.GetDef("default");
  }

  class HTNGoalContainer {
    var goalStacks: map<string, GoalTreeContainer>
    var goalStackFeeder: map<string, seq<HTNGoalTree>>
    var isFirstGoalAdded: bool
    var toPopTree: Option<map<string, HTNGoalTree>>
    /** The shared definitions every container reads and writes. */
    const stackDef: StackDefs
    /** What `OnGoalCompleteEvent` was fired with, in order, by the most
        recent `CleanUpGoals` call. */
    ghost var completed: seq<(string, HTNGoalTree)>

    /** A new container holds nothing. The first container creates the
        shared table with only "default", a stack; a later one leaves the
        table as it is, definitions added through other containers
        included. */
    constructor(defs: StackDefs)
      modifies defs
      ensures goalStacks == map[] && goalStackFeeder == map[] && !isFirstGoalAdded
      ensures toPopTree == None && completed == [] && stackDef == defs
      ensures old(defs.table).None? ==> defs.table == Some(map["default" := STACK])
      ensures old(defs.table).Some? ==> defs.table == old(defs.table)
      ensures Valid() && !IsEmpty()
    {
      goalStacks := map[];
      goalStackFeeder := map[];
      isFirstGoalAdded := false;
      toPopTree := None;
      stackDef := defs;
      completed := [];
      if defs.table.None? {
        defs.table := Some(map["default" := STACK]);
      }
    }

    ghost predicate Valid()
      reads this
    {
      NoEmptyStack(goalStacks)
    }

    predicate IsEmpty()
      reads this
    {
      isFirstGoalAdded && goalStacks == map[]
    }

    predicate IsStackEmpty(stack: string)
      reads this
    {
      stack !in goalStacks || goalStacks[stack].Count() < 1
    }

    /** The kind a new container for `stack` gets: its definition, or a
        stack when there is none. */
    function GetDef(stack: string): ContainerType
      reads this, stackDef
    {
      if stackDef.table.Some? && stack in stackDef.table.value then stackDef.table.value[stack] else STACK
    }

    /** `AddDef`: defines (or redefines) the kind of a stack in the shared
        table, for every container. With no table, which a built container
        never sees, the source throws and nothing is recorded. */
    method AddDef(stack: string, stackType: ContainerType)
      modifies stackDef
      ensures old(stackDef.table).Some? ==> stackDef.table == Some(old(stackDef.table.value)[stack := stackType])
      ensures old(stackDef.table).None? ==> stackDef.table == None
    {
      if stackDef.table.Some? {
        stackDef.table := Some(stackDef.table.value[stack := stackType]);
      }
    }

    /** `Clear`: every stack and feeder is dropped; the flag that a goal was
        once added stays, so the container is then empty exactly when one
        was. */
    method Clear()
      modifies this`goalStacks, this`goalStackFeeder
      ensures goalStacks == map[] && goalStackFeeder == map[]
      ensures Valid() && (IsEmpty() <==> isFirstGoalAdded)
    {
      goalStacks := map[];
      goalStackFeeder := map[];
    }

    /** `AddGoalTree`: the tree is pushed on the named stack, which is
        created with its defined kind when missing; the tree is linked to
        this container and initialized. */
    method AddGoalTree(stack: string, goalTree: HTNGoalTree)
      requires goalTree.Valid()
      modifies this`goalStacks, this`isFirstGoalAdded, goalTree`goalContainer, goalTree`initialized
      ensures goalStacks == PushTo(old(goalStacks), stack, goalTree, old(GetDef(stack)))
      ensures isFirstGoalAdded && !IsEmpty() && !IsStackEmpty(stack)
      ensures goalTree.goalContainer == Some(this) && goalTree.Valid()
      ensures goalTree.initialized == old(goalTree.initialized) + PreOrder(goalTree.shape)
      ensures old(Valid()) ==> Valid()
    {
      ghost var pushed := PushTo(goalStacks, stack, goalTree, GetDef(stack));
      if stack !in goalStacks {
        goalStacks := goalStacks[stack := GoalTreeContainer(GetDef(stack), [])];
      }
      goalStacks := goalStacks[stack := goalStacks[stack].Push(goalTree)];
      assert goalStacks == pushed;
      goalTree.goalContainer := Some(this);
      isFirstGoalAdded := true;
      goalTree.Init();
    }

    /** `FeedGoalTree`: the tree joins the tail of the named feeder, which
        is created when missing. */
    method FeedGoalTree(stack: string, goalTree: HTNGoalTree)
      modifies this`goalStackFeeder
      ensures goalStackFeeder == old(goalStackFeeder)[stack :=
                (if stack in old(goalStackFeeder) then old(goalStackFeeder[stack]) else []) + [goalTree]]
    {
      if stack !in goalStackFeeder {
        goalStackFeeder := goalStackFeeder[stack := []];
      }
      goalStackFeeder := goalStackFeeder[stack := goalStackFeeder[stack] + [goalTree]];
    }

    /** The tree `FeedStack(stack)` would move, if any. */
    function FeedHead(stack: string): set<HTNGoalTree>
      reads this
    {
      if stack in goalStackFeeder && |goalStackFeeder[stack]| > 0 then {goalStackFeeder[stack][0]} else {}
    }

    /** `FeedStack`: the oldest tree of the named feeder moves onto the
        stack; with no feeder, or an empty one, nothing changes and the
        result is false. */
    method FeedStack(stack: string) returns (fed: bool)
      requires stack in goalStackFeeder && |goalStackFeeder[stack]| > 0 ==> goalStackFeeder[stack][0].Valid()
      modifies this`goalStacks, this`goalStackFeeder, this`isFirstGoalAdded
      modifies FeedHead(stack)`goalContainer, FeedHead(stack)`initialized
      ensures fed <==> stack in old(goalStackFeeder) && |old(goalStackFeeder[stack])| > 0
      ensures !fed ==> goalStacks == old(goalStacks) && goalStackFeeder == old(goalStackFeeder) &&
                       isFirstGoalAdded == old(isFirstGoalAdded)
      ensures fed ==>
                goalStackFeeder == old(goalStackFeeder)[stack := old(goalStackFeeder[stack][1..])] &&
                goalStacks == PushTo(old(goalStacks), stack, old(goalStackFeeder[stack][0]), old(GetDef(stack))) &&
                isFirstGoalAdded
      ensures old(Valid()) ==> Valid()
    {
      if stack !in goalStackFeeder {
        return false;
      }
      if |goalStackFeeder[stack]| < 1 {
        return false;
      }
      var gt := goalStackFeeder[stack][0];
      goalStackFeeder := goalStackFeeder[stack := goalStackFeeder[stack][1..]];
      AddGoalTree(stack, gt);
      return true;
    }

    /** `PopTree`: the tree the named stack hands out is removed and
        returned, and a stack left empty is dropped. An unknown stack is an
        error: nothing changes and there is no tree. */
    method PopTree(stack: string) returns (r: Option<HTNGoalTree>)
      modifies this`goalStacks
      ensures stack !in old(goalStacks) ==> r == None && goalStacks == old(goalStacks)
      ensures stack in old(goalStacks) && old(goalStacks[stack].Count()) < 1 ==> r == None
      ensures stack in old(goalStacks) && old(goalStacks[stack].Count()) > 0 ==>
                r == Some(old(goalStacks[stack].Peek()))
      ensures goalStacks == PopFrom(old(goalStacks), stack)
      ensures old(Valid()) ==> Valid()
    {
      if stack !in goalStacks {
        return None;
      }
      var goalStack := goalStacks[stack];
      if goalStack.Count() < 1 {
        goalStacks := goalStacks - {stack};
        return None;
      }
      var removed := goalStack.Remove();
      goalStack := removed.1;
      goalStacks := goalStacks[stack := goalStack];
      if goalStack.Count() < 1 {
        goalStacks := goalStacks - {stack};
      }
      return Some(removed.0);
    }

    /** The trees currently handed out by the stacks. */
    function Tops(): set<HTNGoalTree>
      reads this
      requires Valid()
    {
      TopTrees(goalStacks).Values
    }

    /** `Plan`: the current tree of every stack plans (none is removed). A
        stack is mapped to its plan when the plan is non-empty, and there is
        no map when no stack is; the stacks whose tree stopped on a GOAL are
        recorded, with their trees, for popping. */
    method Plan() returns (goal: Option<map<string, seq<HTNNode>>>)
      requires Valid()
      requires forall t :: t in Tops() ==> t.Valid()
      modifies this`toPopTree, Tops()`lastResult
      ensures forall t :: t in Tops() ==> t.Valid()
      ensures forall k :: k in goalStacks ==> goalStacks[k].Peek().lastResult == PlanOf(goalStacks[k].Peek().shape).1
      ensures goal == Wrap(PlanMap(TopTrees(goalStacks), goalStacks.Keys))
      ensures toPopTree == Wrap(GoalMap(TopTrees(goalStacks), goalStacks.Keys))
    {
      var tops := TopTrees(goalStacks);
      ghost var stacks := goalStacks;
      var plans, pops := PlanTops(tops);
      assert goalStacks == stacks && tops == TopTrees(goalStacks);
      toPopTree := Wrap(pops);
      goal := Wrap(plans);
    }

    /** The loop of `Plan` over the stacks' trees: each tree plans once. */
    static method PlanTops(tops: map<string, HTNGoalTree>)
      returns (plans: map<string, seq<HTNNode>>, pops: map<string, HTNGoalTree>)
      requires forall t :: t in tops.Values ==> t.Valid()
      modifies tops.Values`lastResult
      ensures forall t :: t in tops.Values ==> t.Valid()
      ensures forall k :: k in tops ==> tops[k].lastResult == PlanOf(tops[k].shape).1
      ensures plans == PlanMap(tops, tops.Keys) && pops == GoalMap(tops, tops.Keys)
    {
      var keys := tops.Keys;
      ghost var done: set<string> := {};
      plans := map[];
      pops := map[];
      while keys != {}
        invariant keys + done == tops.Keys && keys !! done
        invariant forall t :: t in tops.Values ==> t.Valid()
        invariant forall k :: k in done ==> tops[k].lastResult == PlanOf(tops[k].shape).1
        invariant plans == PlanMap(tops, done) && pops == GoalMap(tops, done)
        decreases keys
      {
        var key :| key in keys;
        var goalTree := tops[key];
        assert goalTree in tops.Values;
        var res := goalTree.Plan();
        PlanMapStep(tops, done, key);
        if goalTree.lastResult == GOAL {
          pops := pops[key := goalTree];
        }
        if |res| > 0 {
          plans := plans[key := res];
        }
        keys := keys - {key};
        done := done + {key};
      }
    }

    /** `CleanUpGoals`: each stack recorded by the last `Plan` is popped
        once and the goal-complete event fired with the stack and its tree;
        `order` is the order the stacks were visited in, each once. The
        record is kept, so a second call pops again. */
    method CleanUpGoals() returns (ghost order: seq<string>)
      modifies this`goalStacks, this`completed
      ensures toPopTree.None? ==> goalStacks == old(goalStacks) && completed == []
      ensures toPopTree.Some? ==>
                goalStacks == PopAll(old(goalStacks), toPopTree.value.Keys) &&
                (forall k :: k in order <==> k in toPopTree.value) &&
                (forall i, j :: 0 <= i < j < |order| ==> order[i] != order[j]) &&
                completed == Events(order, toPopTree.value)
      ensures old(Valid()) ==> Valid()
    {
      order := [];
      completed := [];
      if toPopTree.Some? {
        var pops := toPopTree.value;
        var keys := pops.Keys;
        ghost var done: set<string> := {};
        assert PopAll(goalStacks, {}) == goalStacks;
        while keys != {}
          invariant keys + done == pops.Keys && keys !! done
          invariant goalStacks == PopAll(old(goalStacks), done)
          invariant forall k :: k in order <==> k in done
          invariant forall i, j :: 0 <= i < j < |order| ==> order[i] != order[j]
          invariant completed == Events(order, pops)
          decreases keys
        {
          var pop :| pop in keys;
          PopAllStep(old(goalStacks), done, pop);
          var popped := PopTree(pop);
          EventsAppend(order, pop, pops);
          completed := completed + [(pop, pops[pop])];
          order := order + [pop];
          keys := keys - {pop};
          done := done + {pop};
        }
      }
    }
  }
}

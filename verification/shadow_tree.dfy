/**
 * The copy-on-write patcher of the render tree (cxx/shadowTree/ShadowTreeManager.cpp):
 * from a batch of per-family prop updates it computes which children of which ancestors
 * must be re-pointed, clones exactly those root-to-target paths and shares everything else.
 */
module ShadowTree {
  import opened Wrappers
  import opened Js
  import opened Styles

  /**
   * Host props. `Cloned(base, raw)` stands for the host's props-cloning primitive applied
   * to the node's previous props and a raw props blob; `Base` is any props the host built.
   */
  datatype Props = Base(id: nat) | Cloned(base: Props, raw: Dynamic)

  /** The host's per-node state, carried over untouched by every clone. */
  datatype NodeState = NodeState(id: nat)

  /** An immutable render-tree node. */
  datatype Node = Node(family: Family, props: Props, state: NodeState, children: seq<Node>)

  /** A drained batch: family -> new raw props (DNull means "clear"). */
  type Updates = map<Family, Dynamic>

  /** Ancestor family -> indices of its children that must be replaced by clones. */
  type AffectedNodes = map<Family, set<nat>>

  // ---------------------------------------------------------------------------
  // Positions in a tree

  /** `path` is a sequence of child indices that exists below `n`. */
  predicate ValidPath(n: Node, path: seq<nat>)
    decreases |path|
  {
    path == [] || (path[0] < |n.children| && ValidPath(n.children[path[0]], path[1..]))
  }

  /** The node reached from `n` by following `path`. */
  function NodeAt(n: Node, path: seq<nat>): Node
    requires ValidPath(n, path)
    decreases |path|
  {
    if path == [] then n else NodeAt(n.children[path[0]], path[1..])
  }

  /** Every node of the subtree rooted at `n`, `n` included. */
  ghost function Nodes(n: Node): set<Node>
    decreases n
  {
    {n} + set i, m | 0 <= i < |n.children| && m in Nodes(n.children[i]) :: m
  }

  /** No two distinct nodes of the tree share a family (the host guarantees it). */
  ghost predicate UniqueFamilies(root: Node)
  {
    forall a, b :: a in Nodes(root) && b in Nodes(root) && a.family == b.family ==> a == b
  }

  // ---------------------------------------------------------------------------
  // getAncestors

  /** The index path from `n` to the first node (in pre-order) whose family is `f`. */
  function Locate(n: Node, f: Family): Option<seq<nat>>
    decreases n, 1
  {
    if n.family == f then Some([]) else LocateIn(n, 0, f)
  }

  /** Locate among the children of `n` from index `i` on. */
  function LocateIn(n: Node, i: nat, f: Family): Option<seq<nat>>
    decreases n, 0, |n.children| - i
  {
    if i >= |n.children| then None
    else
      match Locate(n.children[i], f)
      case Some(p) => Some([i] + p)
      case None => LocateIn(n, i + 1, f)
  }

  lemma {:induction false} LocateValid(n: Node, f: Family)
    ensures Locate(n, f).Some? ==> ValidPath(n, Locate(n, f).value) && NodeAt(n, Locate(n, f).value).family == f
    decreases n, 1
  {
    if n.family != f {
      LocateInValid(n, 0, f);
    }
  }

  lemma {:induction false} LocateInValid(n: Node, i: nat, f: Family)
    ensures LocateIn(n, i, f).Some? ==> ValidPath(n, LocateIn(n, i, f).value) && NodeAt(n, LocateIn(n, i, f).value).family == f
    decreases n, 0, |n.children| - i
  {
    if i < |n.children| {
      LocateValid(n.children[i], f);
      match Locate(n.children[i], f)
      case Some(p) =>
        assert ([i] + p)[1..] == p;
      case None =>
        LocateInValid(n, i + 1, f);
    }
  }

  /** The (parent, child index) steps of a valid path, from `n` downwards. */
  function ChainOf(n: Node, path: seq<nat>): (chain: seq<(Node, nat)>)
    requires ValidPath(n, path)
    ensures |chain| == |path|
    decreases |path|
  {
    if path == [] then [] else [(n, path[0])] + ChainOf(n.children[path[0]], path[1..])
  }

  /**
   * The ancestors of the node of family `f` within `root`: each parent on the way down
   * with the index of the child to follow. Empty when `f` is the root or is not in the tree.
   */
  function Ancestors(root: Node, f: Family): seq<(Node, nat)>
  {
    match Locate(root, f)
    case None => []
    case Some(p) => LocateValid(root, f); ChainOf(root, p)
  }

  // ---------------------------------------------------------------------------
  // findAffectedNodes

  /** The (parent family, child index) steps of an ancestor chain. */
  function ChainSteps(chain: seq<(Node, nat)>): set<(Family, nat)>
  {
    set j | 0 <= j < |chain| :: (chain[j].0.family, chain[j].1)
  }

  /** The steps of the ancestor chains of all the given families. */
  function Steps(root: Node, fams: set<Family>): set<(Family, nat)>
  {
    set f, s | f in fams && s in ChainSteps(Ancestors(root, f)) :: s
  }

  /** The parent families of a set of steps. */
  function Parents(steps: set<(Family, nat)>): set<Family>
  {
    set s | s in steps :: s.0
  }

  /** Groups steps by parent family. */
  function Group(steps: set<(Family, nat)>): AffectedNodes
  {
    map p | p in Parents(steps) :: set s | s in steps && s.0 == p :: s.1
  }

  /** A family is a key of the grouping iff it is the parent of some step, with those indices. */
  lemma GroupSpec(steps: set<(Family, nat)>)
    ensures forall p :: p in Group(steps) <==> exists i :: (p, i) in steps
    ensures forall p, i :: p in Group(steps) ==> (i in Group(steps)[p] <==> (p, i) in steps)
  {
    forall p, i | (p, i) in steps ensures p in Group(steps) {
      var s := (p, i);
      assert s in steps;
    }
  }

  /** What findAffectedNodes computes: every ancestor family with the indices to re-point. */
  function Affected(root: Node, updates: Updates): AffectedNodes
  {
    Group(Steps(root, updates.Keys))
  }

  /** try_emplace(p, {}): adds an empty index set for `p` unless `p` already has one. */
  function TryEmplace(m: AffectedNodes, p: Family): (r: AffectedNodes)
    ensures p in r
  {
    if p in m then m else m[p := {}]
  }

  /** The map after try_emplace(p, {}) and the insertion of `i` into p's set. */
  function Insert(m: AffectedNodes, p: Family, i: nat): AffectedNodes
  {
    var e := TryEmplace(m, p);
    e[p := e[p] + {i}]
  }

  /** The index set of one family in the grouping. */
  function IndicesOf(steps: set<(Family, nat)>, q: Family): set<nat>
  {
    set s | s in steps && s.0 == q :: s.1
  }

  lemma IndicesInsert(steps: set<(Family, nat)>, p: Family, i: nat, q: Family)
    ensures IndicesOf(steps + {(p, i)}, q) == if q == p then IndicesOf(steps, q) + {i} else IndicesOf(steps, q)
  {
    var a, b := IndicesOf(steps + {(p, i)}, q), IndicesOf(steps, q);
    forall j | j in a ensures j in b || (q == p && j == i) {
      var s :| s in steps + {(p, i)} && s.0 == q && s.1 == j;
      if s != (p, i) {
        assert s in steps;
      }
    }
    forall j | j in b ensures j in a {
      var s :| s in steps && s.0 == q && s.1 == j;
      assert s in steps + {(p, i)};
    }
    if q == p {
      assert (p, i) in steps + {(p, i)};
    }
  }

  lemma GroupInsert(steps: set<(Family, nat)>, p: Family, i: nat)
    ensures Group(steps + {(p, i)}) == Insert(Group(steps), p, i)
  {
    var g := Group(steps);
    var a := Group(steps + {(p, i)});
    var b := Insert(g, p, i);
    assert p in a by {
      assert (p, i) in steps + {(p, i)};
    }
    forall q | q in a && q != p ensures q in g {
      var s :| s in steps + {(p, i)} && s.0 == q;
      assert s in steps;
    }
    forall q | q in g ensures q in a {
      var s :| s in steps && s.0 == q;
      assert s in steps + {(p, i)};
    }
    assert a.Keys == b.Keys;
    forall q | q in a ensures a[q] == b[q] {
      IndicesInsert(steps, p, i, q);
      assert a[q] == IndicesOf(steps + {(p, i)}, q);
      if q in g {
        assert g[q] == IndicesOf(steps, q);
      } else {
        forall s | s in steps ensures s.0 != q {
          assert s.0 in Parents(steps);
        }
        assert IndicesOf(steps, q) == {};
      }
    }
  }

  lemma ChainStepsSuffix(chain: seq<(Node, nat)>, k: nat)
    requires 0 < k <= |chain|
    ensures ChainSteps(chain[k - 1..]) == ChainSteps(chain[k..]) + {(chain[k - 1].0.family, chain[k - 1].1)}
  {
    var a := ChainSteps(chain[k - 1..]);
    var b := ChainSteps(chain[k..]) + {(chain[k - 1].0.family, chain[k - 1].1)};
    forall s | s in a ensures s in b {
      var j :| 0 <= j < |chain[k - 1..]| && s == (chain[k - 1..][j].0.family, chain[k - 1..][j].1);
      if j > 0 {
        assert chain[k - 1..][j] == chain[k..][j - 1];
      }
    }
    forall s | s in b ensures s in a {
      if s in ChainSteps(chain[k..]) {
        var j :| 0 <= j < |chain[k..]| && s == (chain[k..][j].0.family, chain[k..][j].1);
        assert chain[k..][j] == chain[k - 1..][j + 1];
      } else {
        assert chain[k - 1..][0] == chain[k - 1];
      }
    }
  }

  lemma StepsAdd(root: Node, done: set<Family>, f: Family)
    ensures Steps(root, done + {f}) == Steps(root, done) + ChainSteps(Ancestors(root, f))
  {
  }

  /**
   * For every updated family, walks its ancestor chain and records, per parent family, the
   * index of the child on the way to the updated node.
   */
  method FindAffectedNodes(root: Node, updates: Updates) returns (affected: AffectedNodes)
    ensures affected == Affected(root, updates)
    ensures forall p :: p in affected <==>
      exists f, j :: f in updates && 0 <= j < |Ancestors(root, f)| && Ancestors(root, f)[j].0.family == p
    ensures forall f, j :: f in updates && 0 <= j < |Ancestors(root, f)| ==>
      Ancestors(root, f)[j].0.family in affected && Ancestors(root, f)[j].1 in affected[Ancestors(root, f)[j].0.family]
  {
    affected := map[];
    var todo := updates.Keys;
    ghost var done: set<Family> := {};
    while todo != {}
      invariant todo + done == updates.Keys && todo !! done
      invariant affected == Group(Steps(root, done))
      decreases todo
    {
      var family :| family in todo;
      var familyAncestors := Ancestors(root, family);
      var k := |familyAncestors|;
      ghost var seen := Steps(root, done);
      assert familyAncestors[k..] == [];
      while k > 0
        invariant 0 <= k <= |familyAncestors|
        invariant seen == Steps(root, done) + ChainSteps(familyAncestors[k..])
        invariant affected == Group(seen)
      {
        ChainStepsSuffix(familyAncestors, k);
        k := k - 1;
        var (parentNode, index) := familyAncestors[k];
        var parentFamily := parentNode.family;
        GroupInsert(seen, parentFamily, index);
        affected := TryEmplace(affected, parentFamily);
        affected := affected[parentFamily := affected[parentFamily] + {index}];
        seen := seen + {(parentFamily, index)};
      }
      assert familyAncestors[k..] == familyAncestors;
      StepsAdd(root, done, family);
      assert seen == Steps(root, done + {family});
      done := done + {family};
      todo := todo - {family};
    }
    AffectedOnChains(root, updates);
  }

  /** The keys of the affected map are exactly the parent families on the ancestor chains. */
  lemma AffectedOnChains(root: Node, updates: Updates)
    ensures forall p :: p in Affected(root, updates) <==>
      exists f, j :: f in updates && 0 <= j < |Ancestors(root, f)| && Ancestors(root, f)[j].0.family == p
    ensures forall f, j :: f in updates && 0 <= j < |Ancestors(root, f)| ==>
      Ancestors(root, f)[j].0.family in Affected(root, updates)
      && Ancestors(root, f)[j].1 in Affected(root, updates)[Ancestors(root, f)[j].0.family]
  {
    var affected := Affected(root, updates);
    GroupSpec(Steps(root, updates.Keys));
    forall p | p in affected
      ensures exists f, j :: f in updates && 0 <= j < |Ancestors(root, f)| && Ancestors(root, f)[j].0.family == p
    {
      var i :| (p, i) in Steps(root, updates.Keys);
      var f, s :| f in updates.Keys && s in ChainSteps(Ancestors(root, f)) && s == (p, i);
      var j :| 0 <= j < |Ancestors(root, f)| && s == (Ancestors(root, f)[j].0.family, Ancestors(root, f)[j].1);
    }
    forall f, j | f in updates && 0 <= j < |Ancestors(root, f)|
      ensures Ancestors(root, f)[j].0.family in affected && Ancestors(root, f)[j].1 in affected[Ancestors(root, f)[j].0.family]
    {
      var s := (Ancestors(root, f)[j].0.family, Ancestors(root, f)[j].1);
      assert s in ChainSteps(Ancestors(root, f));
      assert s in Steps(root, updates.Keys);
    }
  }

  // ---------------------------------------------------------------------------
  // computeUpdatedProps

  /** The props fragment handed to the host clone: keep the old props, or use new ones. */
  datatype PropsFragment = Placeholder | NewProps(props: Props)

  /**
   * A node without a pending update keeps its props; otherwise the host clones its props
   * from the update alone (a null update stands for an empty object), never merged with
   * earlier raw props.
   */
  function ComputeUpdatedProps(n: Node, updates: Updates): (r: PropsFragment)
    ensures r.Placeholder? <==> n.family !in updates
    ensures n.family in updates && updates[n.family] == DNull ==> r == NewProps(Cloned(n.props, DObject([])))
    ensures n.family in updates && updates[n.family] != DNull ==> r == NewProps(Cloned(n.props, updates[n.family]))
  {
    if n.family !in updates then Placeholder
    else
      var newProps := if updates[n.family] == DNull then DObject([]) else updates[n.family];
      NewProps(Cloned(n.props, newProps))
  }

  /** The props a clone of `n` carries. */
  function PropsAfter(n: Node, updates: Updates): Props
  {
    match ComputeUpdatedProps(n, updates)
    case Placeholder => n.props
    case NewProps(p) => p
  }

  // ---------------------------------------------------------------------------
  // cloneShadowTree

  /** The copy-on-write clone of `n`: affected children are replaced by their clones. */
  function Clone(n: Node, updates: Updates, affected: AffectedNodes): Node
    decreases n
  {
    var children :=
      if n.family in affected then
        seq(|n.children|, i requires 0 <= i < |n.children| =>
          if i in affected[n.family] then Clone(n.children[i], updates, affected) else n.children[i])
      else n.children;
    Node(n.family, PropsAfter(n, updates), n.state, children)
  }

  /** Every affected index names an existing child, wherever its family occurs below `n`. */
  ghost predicate InRange(n: Node, affected: AffectedNodes)
  {
    forall m :: m in Nodes(n) && m.family in affected ==>
      forall i :: i in affected[m.family] ==> i < |m.children|
  }

  lemma ChildNodes(n: Node, i: nat)
    requires i < |n.children|
    ensures Nodes(n.children[i]) <= Nodes(n)
  {
    forall m | m in Nodes(n.children[i]) ensures m in Nodes(n) {
      assert m in set j, m' | 0 <= j < |n.children| && m' in Nodes(n.children[j]) :: m';
    }
  }

  /**
   * Copies the children list of `n`, replaces every affected index by the recursive clone
   * of that child, and clones `n` with the new children and its updated props.
   */
  method CloneShadowTree(n: Node, updates: Updates, affected: AffectedNodes) returns (r: Node)
    requires InRange(n, affected)
    ensures r == Clone(n, updates, affected)
    ensures r.family == n.family && r.state == n.state && |r.children| == |n.children|
    ensures forall i :: 0 <= i < |n.children| && (n.family !in affected || i !in affected[n.family]) ==>
      r.children[i] == n.children[i]
    ensures r.props == (if n.family in updates then Cloned(n.props, if updates[n.family] == DNull then DObject([]) else updates[n.family]) else n.props)
    decreases n
  {
    var children := n.children;
    if n.family in affected {
      var indices := affected[n.family];
      var todo := indices;
      while todo != {}
        invariant todo <= indices
        invariant |children| == |n.children|
        invariant forall i :: 0 <= i < |children| ==>
          children[i] == if i in indices && i !in todo then Clone(n.children[i], updates, affected) else n.children[i]
        decreases todo
      {
        var index :| index in todo;
        assert n in Nodes(n);
        ChildNodes(n, index);
        var child := CloneShadowTree(children[index], updates, affected);
        children := children[index := child];
        todo := todo - {index};
      }
    }
    var updatedProps := ComputeUpdatedProps(n, updates);
    r := Node(n.family, if updatedProps.Placeholder? then n.props else updatedProps.props, n.state, children);
  }

  // ---------------------------------------------------------------------------
  // What the clone shares and what it replaces

  /** Every step of the path from `n` along `path` is an affected (family, index) pair. */
  ghost predicate OnAffectedPath(n: Node, path: seq<nat>, affected: AffectedNodes)
    requires ValidPath(n, path)
  {
    forall j :: 0 <= j < |path| ==>
      ChainOf(n, path)[j].0.family in affected && ChainOf(n, path)[j].1 in affected[ChainOf(n, path)[j].0.family]
  }

  lemma ChainOfTail(n: Node, path: seq<nat>)
    requires ValidPath(n, path) && path != []
    ensures ChainOf(n, path)[0] == (n, path[0])
    ensures forall j :: 0 <= j < |path| - 1 ==> ChainOf(n, path)[j + 1] == ChainOf(n.children[path[0]], path[1..])[j]
  {
  }

  /** The clone has the same shape: the same positions, families, states and child counts. */
  lemma {:induction false} CloneKeepsShape(n: Node, updates: Updates, affected: AffectedNodes, path: seq<nat>)
    requires ValidPath(n, path)
    ensures ValidPath(Clone(n, updates, affected), path)
    ensures NodeAt(Clone(n, updates, affected), path).family == NodeAt(n, path).family
    ensures NodeAt(Clone(n, updates, affected), path).state == NodeAt(n, path).state
    ensures |NodeAt(Clone(n, updates, affected), path).children| == |NodeAt(n, path).children|
    decreases |path|
  {
    if path != [] {
      var c := Clone(n, updates, affected);
      var i := path[0];
      var child := n.children[i];
      if n.family in affected && i in affected[n.family] {
        assert c.children[i] == Clone(child, updates, affected);
        CloneKeepsShape(child, updates, affected, path[1..]);
      } else {
        assert c.children[i] == child;
      }
    }
  }

  /** Along a path whose every step is affected, the clone holds the clone of the original node. */
  lemma {:induction false} CloneOnPath(n: Node, updates: Updates, affected: AffectedNodes, path: seq<nat>)
    requires ValidPath(n, path)
    requires OnAffectedPath(n, path, affected)
    ensures ValidPath(Clone(n, updates, affected), path)
    ensures NodeAt(Clone(n, updates, affected), path) == Clone(NodeAt(n, path), updates, affected)
    decreases |path|
  {
    if path != [] {
      ChainOfTail(n, path);
      var i := path[0];
      var child := n.children[i];
      assert Clone(n, updates, affected).children[i] == Clone(child, updates, affected);
      assert OnAffectedPath(child, path[1..], affected) by {
        forall j | 0 <= j < |path| - 1
          ensures ChainOf(child, path[1..])[j].0.family in affected
            && ChainOf(child, path[1..])[j].1 in affected[ChainOf(child, path[1..])[j].0.family]
        {
          assert ChainOf(n, path)[j + 1] == ChainOf(child, path[1..])[j];
        }
      }
      CloneOnPath(child, updates, affected, path[1..]);
    }
  }

  /**
   * Off the affected paths nothing is copied: once a step of the path is not affected,
   * the clone holds the original node itself.
   */
  lemma {:induction false} CloneSharesOffPath(n: Node, updates: Updates, affected: AffectedNodes, path: seq<nat>)
    requires ValidPath(n, path)
    requires !OnAffectedPath(n, path, affected)
    ensures ValidPath(Clone(n, updates, affected), path)
    ensures NodeAt(Clone(n, updates, affected), path) == NodeAt(n, path)
    decreases |path|
  {
    ChainOfTail(n, path);
    var i := path[0];
    var child := n.children[i];
    if n.family in affected && i in affected[n.family] {
      assert Clone(n, updates, affected).children[i] == Clone(child, updates, affected);
      assert !OnAffectedPath(child, path[1..], affected) by {
        var j :| 0 <= j < |path| && !(ChainOf(n, path)[j].0.family in affected
          && ChainOf(n, path)[j].1 in affected[ChainOf(n, path)[j].0.family]);
        assert j > 0;
        assert ChainOf(n, path)[j] == ChainOf(child, path[1..])[j - 1];
      }
      CloneSharesOffPath(child, updates, affected, path[1..]);
    } else {
      assert Clone(n, updates, affected).children[i] == child;
    }
  }

  // ---------------------------------------------------------------------------
  // findAffectedNodes and cloneShadowTree together

  /** The steps of a valid path stay inside the tree and name existing children. */
  lemma {:induction false} ChainInTree(n: Node, path: seq<nat>)
    requires ValidPath(n, path)
    ensures forall j :: 0 <= j < |path| ==>
      ChainOf(n, path)[j].0 in Nodes(n) && ChainOf(n, path)[j].1 < |ChainOf(n, path)[j].0.children|
    decreases |path|
  {
    if path != [] {
      ChainOfTail(n, path);
      var child := n.children[path[0]];
      ChainInTree(child, path[1..]);
      ChildNodes(n, path[0]);
    }
  }

  /** A family that is the root, or is absent from the tree, has no ancestors. */
  lemma NoAncestors(root: Node, f: Family)
    requires root.family == f || Locate(root, f).None?
    ensures Ancestors(root, f) == []
  {
  }

  /** An updated family with no ancestors contributes nothing to the affected map. */
  lemma AbsentFamilyContributesNothing(root: Node, updates: Updates, f: Family, raw: Dynamic)
    requires Ancestors(root, f) == []
    ensures Affected(root, updates[f := raw]) == Affected(root, updates - {f})
  {
    assert Steps(root, updates[f := raw].Keys) == Steps(root, (updates - {f}).Keys) by {
      assert updates[f := raw].Keys == (updates - {f}).Keys + {f};
      StepsAdd(root, (updates - {f}).Keys, f);
    }
  }

  /** With unique families, every index the affected map holds names an existing child. */
  lemma AffectedInRange(root: Node, updates: Updates)
    requires UniqueFamilies(root)
    ensures InRange(root, Affected(root, updates))
  {
    var affected := Affected(root, updates);
    GroupSpec(Steps(root, updates.Keys));
    forall m, i | m in Nodes(root) && m.family in affected && i in affected[m.family]
      ensures i < |m.children|
    {
      assert (m.family, i) in Steps(root, updates.Keys);
      var f, s :| f in updates.Keys && s in ChainSteps(Ancestors(root, f)) && s == (m.family, i);
      var j :| 0 <= j < |Ancestors(root, f)| && s == (Ancestors(root, f)[j].0.family, Ancestors(root, f)[j].1);
      LocateValid(root, f);
      var path := Locate(root, f).value;
      ChainInTree(root, path);
      assert Ancestors(root, f)[j] == ChainOf(root, path)[j];
    }
  }

  /**
   * Every updated family that is in the tree receives its new props: the node at its
   * position in the patched tree is the clone of the original one, with updated props.
   */
  lemma UpdateReachesTarget(root: Node, updates: Updates, f: Family)
    requires f in updates && Locate(root, f).Some?
    ensures ValidPath(Transaction(root, updates), Locate(root, f).value)
    ensures var path := (LocateValid(root, f); Locate(root, f).value);
      var target := NodeAt(root, path);
      var patched := NodeAt(Transaction(root, updates), path);
      patched.family == f && patched.state == target.state && |patched.children| == |target.children|
      && patched.props == Cloned(target.props, if updates[f] == DNull then DObject([]) else updates[f])
  {
    LocateValid(root, f);
    var path := Locate(root, f).value;
    var affected := Affected(root, updates);
    AffectedOnChains(root, updates);
    assert Ancestors(root, f) == ChainOf(root, path);
    assert OnAffectedPath(root, path, affected);
    CloneOnPath(root, updates, affected, path);
  }

  /** The new root a commit installs: the copy-on-write patch of the old root. */
  function Transaction(root: Node, updates: Updates): Node
  {
    Clone(root, updates, Affected(root, updates))
  }

  /** An empty batch patches nothing: the transaction returns the same tree. */
  lemma {:induction false} EmptyBatchIsIdentity(root: Node)
    ensures Transaction(root, map[]) == root
  {
    assert Steps(root, {}) == {};
    assert Affected(root, map[]) == map[];
  }
}

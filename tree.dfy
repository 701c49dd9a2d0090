/** The node objects and their methods (`TreeNode` and `DataNode`): a heap of nodes that
    the link operations update in place, and the walks over it (`path`, `search_down`,
    `is_parental_to`). */
module Tree {
  import opened Fragments
  import opened Nodes
  import opened Forest
  import opened Search

  /** Every `DataNode` object built so far. A `Ref` names one of them by its position. */
  class NodeHeap {
    var nodes: seq<DataNode>
    /** Ranks witnessing that parent links have no cycle. */
    ghost var rank: seq<nat>

    ghost predicate Valid()
      reads this
    {
      Wf(nodes, rank)
    }

    constructor ()
      ensures Valid() && nodes == [] && rank == []
    {
      nodes := [];
      rank := [];
    }

    /** `DataNode(slice, title)`: a fresh node with no links, given rank `level`. */
    method New(f: Fragment, title: string, ghost level: nat) returns (r: Ref)
      requires Valid()
      modifies this
      ensures Valid()
      ensures r == |old(nodes)| && nodes == old(nodes) + [MakeNode(f, title)]
      ensures rank == old(rank) + [level]
    {
      WfExtend(nodes, rank, MakeNode(f, title), level);
      r := |nodes|;
      nodes := nodes + [MakeNode(f, title)];
      rank := rank + [level];
    }

    /** `bisect.bisect_right` over a sorted children list, comparing with `__lt__`:
        the position after every entry not later than `c` and before every later one. */
    method BisectRight(cs: seq<Ref>, c: Ref) returns (lo: nat)
      requires Insertable(nodes, cs, c) && Sorted(nodes, cs)
      ensures lo <= |cs|
      ensures forall j | 0 <= j < lo :: Time(nodes, cs[j]) <= Time(nodes, c)
      ensures forall j | lo <= j < |cs| :: Time(nodes, c) < Time(nodes, cs[j])
    {
      lo := 0;
      var hi := |cs|;
      while lo < hi
        invariant 0 <= lo <= hi <= |cs|
        invariant forall j | 0 <= j < lo :: Time(nodes, cs[j]) <= Time(nodes, c)
        invariant forall j | hi <= j < |cs| :: Time(nodes, c) < Time(nodes, cs[j])
      {
        var mid := (lo + hi) / 2;
        if Before(nodes[c], nodes[cs[mid]]) {
          hi := mid;
        } else {
          lo := mid + 1;
        }
      }
    }

    /** `bisect.insort(p.children, c)`: `c` goes in at the bisect-right position. */
    method Insort(p: Ref, c: Ref)
      requires p < |nodes| && Insertable(nodes, nodes[p].children, c) && Sorted(nodes, nodes[p].children)
      modifies this
      ensures rank == old(rank)
      ensures nodes == old(nodes)[p := old(nodes)[p].(children := InsortRight(old(nodes), old(nodes)[p].children, c))]
    {
      var cs := nodes[p].children;
      var i := BisectRight(cs, c);
      if cs != [] {
        InsortSplit(nodes, cs, c, i);
      } else {
        assert cs[..i] + [c] + cs[i..] == [c];
      }
      nodes := nodes[p := nodes[p].(children := cs[..i] + [c] + cs[i..])];
    }

    /** `p.assign_child(c)`: inserts `c` into `p`'s children, then sets `c`'s parent. */
    method AssignChild(p: Ref, c: Ref)
      requires Valid() && p < |nodes| && c < |nodes|
      requires nodes[c].parent == None && rank[p] < rank[c]
      requires Insertable(nodes, nodes[p].children, c)
      requires forall d | d in nodes[p].children :: nodes[d].id != nodes[c].id
      modifies this
      ensures Valid() && rank == old(rank)
      ensures nodes == Attach(old(nodes), p, c)
    {
      AttachKeepsWf(nodes, rank, p, c);
      assert ChildrenOrdered(nodes, p);
      Insort(p, c);
      nodes := nodes[c := nodes[c].(parent := Some(p))];
    }

    /** `c.assign_parent(p)`: sets `c`'s parent, then inserts `c` into `p`'s children. */
    method AssignParent(c: Ref, p: Ref)
      requires Valid() && p < |nodes| && c < |nodes|
      requires nodes[c].parent == None && rank[p] < rank[c]
      requires Insertable(nodes, nodes[p].children, c)
      requires forall d | d in nodes[p].children :: nodes[d].id != nodes[c].id
      modifies this
      ensures Valid() && rank == old(rank)
      ensures nodes == Attach(old(nodes), p, c)
    {
      AttachKeepsWf(nodes, rank, p, c);
      ParentFirst(nodes, p, c);
      assert ChildrenOrdered(nodes, p);
      SameKeysSameOrder(nodes, nodes[c := nodes[c].(parent := Some(p))], nodes[p].children);
      nodes := nodes[c := nodes[c].(parent := Some(p))];
      Insort(p, c);
    }

    /** `path()`: walks up from `n`, prepending the 1-based position (by `list.index`,
        so by id) of the node among its parent's children wherever the parent branches. */
    method Path(n: Ref) returns (path: seq<int>)
      requires Valid() && n < |nodes|
      ensures path == PathTo(nodes, rank, n)
    {
      path := [];
      var node: Ref := n;
      while nodes[node].parent.Some?
        invariant node < |nodes|
        invariant PathTo(nodes, rank, n) == PathTo(nodes, rank, node) + path
        decreases rank[node]
      {
        var q := nodes[node].parent.value;
        var cs := nodes[q].children;
        PathStep(nodes, rank, n, node, path);
        IndexOfChild(nodes, rank, q, node);
        ghost var entry := ParentEntry(nodes, rank, q, node);
        if |cs| > 1 {
          assert entry == [IndexById(nodes, cs, nodes[node].id) + 1];
          path := [IndexById(nodes, cs, nodes[node].id) + 1] + path;
        } else {
          assert entry == [];
          assert entry + path == path;
        }
        assert PathTo(nodes, rank, n) == PathTo(nodes, rank, q) + path;
        node := q;
      }
    }

    /** `path_and_title()`: the node's path with its conversation's title. */
    method PathAndTitle(n: Ref) returns (path: seq<int>, title: string)
      requires Valid() && n < |nodes|
      ensures path == PathTo(nodes, rank, n) && title == nodes[n].title
    {
      path := Path(n);
      title := nodes[n].title;
    }

    /** `search_down(s)`: the node itself when it matches, then each child's search in
        children order. */
    method SearchDown(x: Ref, s: string) returns (results: seq<Ref>)
      requires Valid() && x < |nodes|
      ensures results == Found(nodes, PreOrder(nodes, rank, x), s)
      decreases Top(rank) - rank[x]
    {
      ghost var ns, rk := nodes, rank;
      results := if Matches(nodes[x], s) then [x] else [];
      var cs := nodes[x].children;
      ChildrenOf(ns, rk, x);
      SearchStart(ns, rk, x, s);
      for i := 0 to |cs|
        invariant results == Found(ns, [x] + PreOrderEach(ns, rk, x, cs[..i]), s)
      {
        assert rk[x] < rk[cs[i]];
        var found := SearchDown(cs[i], s);
        SearchStep(ns, rk, x, cs, i, s);
        results := results + found;
      }
      assert cs[..|cs|] == cs;
    }

    /** `is_parental_to` as evidently intended: whether a strict ancestor of `other` is
        equal to `node` under `__eq__` (same id). The walk stops at the root. */
    method IsParentalTo(node: Ref, other: Ref) returns (b: bool)
      requires Valid() && node < |nodes| && other < |nodes|
      ensures b <==> exists a | a in Spine(nodes, rank, other) :: SameNode(nodes[a], nodes[node])
    {
      var cur: Ref := other;
      ghost var above: seq<Ref> := [];
      while nodes[cur].parent.Some?
        invariant cur < |nodes|
        invariant Spine(nodes, rank, other) == Spine(nodes, rank, cur) + above
        invariant forall a | a in above :: a < |nodes| && !SameNode(nodes[a], nodes[node])
        decreases rank[cur]
      {
        var q := nodes[cur].parent.value;
        assert Spine(nodes, rank, cur) == Spine(nodes, rank, q) + [q];
        if SameNode(nodes[q], nodes[node]) {
          assert q in Spine(nodes, rank, other);
          return true;
        }
        above := [q] + above;
        cur := q;
      }
      assert Spine(nodes, rank, other) == above;
      return false;
    }
  }

  /** A value an `is_parental_to` variable can hold: `None` or a node. */
  datatype PyValue = PyNone | PyNode(r: Ref)

  datatype PyError = AttributeError

  datatype Result<T> = Ok(value: T) | Err(error: PyError)

  /** Python's `x == y` on these values with `DataNode.__eq__` as written: it reads
      `other.id`, which `None` lacks. `None == node` falls back to the reflected
      `node.__eq__(None)` and raises too. */
  function PyEq(ns: seq<DataNode>, x: PyValue, y: PyValue): (r: Result<bool>)
    requires (x.PyNode? ==> x.r < |ns|) && (y.PyNode? ==> y.r < |ns|)
    ensures r.Err? <==> x.PyNode? != y.PyNode?
    ensures r.Ok? && x.PyNode? ==> (r.value <==> SameNode(ns[x.r], ns[y.r]))
  {
    match (x, y)
    case (PyNone, PyNone) => Ok(true)
    case (PyNode(a), PyNode(b)) => Ok(ns[a].id == ns[b].id)
    case _ => Err(AttributeError)
  }

  /** Python's `x != y`: the inherited `__ne__` negates `__eq__`, raising where it raises. */
  function PyNe(ns: seq<DataNode>, x: PyValue, y: PyValue): (r: Result<bool>)
    requires (x.PyNode? ==> x.r < |ns|) && (y.PyNode? ==> y.r < |ns|)
    ensures r.Err? <==> PyEq(ns, x, y).Err?
    ensures r.Ok? ==> r.value == !PyEq(ns, x, y).value
  {
    match PyEq(ns, x, y)
    case Ok(b) => Ok(!b)
    case Err(e) => Err(e)
  }

  /** `other.is_parental_to` as written, up to its first loop test `node != None` with
      `node == other`: on a node that test raises, on `None` the loop is skipped and the
      call returns `None` (here `Ok(None)`). The test never yields `True`, so the loop
      body is unreachable. */
  function ParentalAsWritten(ns: seq<DataNode>, self: Ref, other: PyValue): (r: Result<Option<bool>>)
    requires self < |ns| && (other.PyNode? ==> other.r < |ns|)
    ensures other.PyNode? ==> r == Err(AttributeError)
    ensures other == PyNone ==> r == Ok(None)
  {
    match PyNe(ns, other, PyNone)
    case Err(e) => Err(e)
    case Ok(more) => if !more then Ok(None) else assert false; Ok(None)
  }

  /** A root `a` with one child `b`. */
  ghost function RootAndChild(): seq<DataNode> {
    [ DataNode("a", "t", None, ["b"], "", None, None, [1]),
      DataNode("b", "t", Some("a"), [], "", None, Some(0), []) ]
  }

  lemma RootAndChildWf()
    ensures Wf(RootAndChild(), [0, 1])
  {
    var ns := RootAndChild();
    RootAndChildLinked();
    assert ns[0].id != ns[1].id;
    assert ChildrenOrdered(ns, 0) && ChildrenOrdered(ns, 1);
  }

  lemma RootAndChildLinked()
    ensures Authored(RootAndChild()) && Linked(RootAndChild())
  {
    var ns := RootAndChild();
    assert ns[0].children == [1] && ns[1].children == [];
    assert forall q, c | 0 <= q < |ns| && c in ns[q].children :: q == 0 && c == 1;
  }

  /** `a` is a strict ancestor of `b`, yet `a.is_parental_to(b)` as written raises on its
      first loop test. */
  lemma IsParentalToRaises()
    ensures var ns := RootAndChild();
      && Wf(ns, [0, 1])
      && ParentalAsWritten(ns, 0, PyNode(1)) == Err(AttributeError)
      && 0 in Spine(ns, [0, 1], 1) && SameNode(ns[0], ns[0])
  {
    var ns := RootAndChild();
    RootAndChildWf();
    assert Spine(ns, [0, 1], 1) == Spine(ns, [0, 1], 0) + [0];
  }
}

/** The heap of all nodes built so far, read as a forest: the links between nodes, what
    keeps them consistent, and the two link operations (`assign_child`, `assign_parent`)
    as one state change. */
module Forest {
  import opened Fragments
  import opened Nodes

  /** The invariant every heap of nodes keeps.
      `rank` witnesses that parent links have no cycle: a parent ranks below its child. */
  ghost predicate Wf(ns: seq<DataNode>, rank: seq<nat>) {
    && |rank| == |ns|
    && Authored(ns)
    && (forall r | 0 <= r < |ns| && ns[r].parent.Some? ::
          ns[r].parent.value < |ns| && rank[ns[r].parent.value] < rank[r])
    && Linked(ns)
    && (forall q | 0 <= q < |ns| :: ChildrenOrdered(ns, q))
  }

  /** A node without a message has the empty author. */
  ghost predicate Authored(ns: seq<DataNode>) {
    forall r | 0 <= r < |ns| :: !ns[r].IsValid() ==> ns[r].author == ""
  }

  /** Parent and child links agree: `c` is among `q`'s children exactly when `q` is `c`'s parent. */
  ghost predicate Linked(ns: seq<DataNode>) {
    && (forall q, c {:trigger c in ns[q].children} | 0 <= q < |ns| && c in ns[q].children ::
          c < |ns| && ns[c].parent == Some(q))
    && (forall c | 0 <= c < |ns| && ns[c].parent.Some? ::
          ns[c].parent.value < |ns| && c in ns[ns[c].parent.value].children)
  }

  /** The children of `q` are sorted by creation time and carry distinct ids. */
  ghost predicate ChildrenOrdered(ns: seq<DataNode>, q: Ref)
    requires q < |ns|
  {
    DistinctIds(ns, ns[q].children) && Sorted(ns, ns[q].children)
  }

  /** The largest rank: no walk down the forest can go beyond it. */
  ghost function Top(rank: seq<nat>): (t: nat)
    ensures forall i | 0 <= i < |rank| :: rank[i] <= t
  {
    if rank == [] then 0
    else
      var t := Top(rank[1..]);
      assert forall i | 1 <= i < |rank| :: rank[i] == rank[1..][i - 1];
      if rank[0] > t then rank[0] else t
  }

  /** The heap after linking `c` under `p`: `c`'s parent becomes `p` and `c` is inserted
      into `p`'s children at its sorted position. Nothing else changes. */
  ghost function Attach(ns: seq<DataNode>, p: Ref, c: Ref): seq<DataNode>
    requires p < |ns| && p != c && Insertable(ns, ns[p].children, c)
  {
    ns[p := ns[p].(children := InsortRight(ns, ns[p].children, c))][c := ns[c].(parent := Some(p))]
  }

  /** What `Attach` changes, field by field. */
  lemma AttachFields(ns: seq<DataNode>, p: Ref, c: Ref)
    requires p < |ns| && c < |ns| && p != c && Insertable(ns, ns[p].children, c)
    ensures var ns' := Attach(ns, p, c);
      && |ns'| == |ns|
      && ns'[p].children == InsortRight(ns, ns[p].children, c) && ns'[p].parent == ns[p].parent
      && ns'[c].parent == Some(p) && ns'[c].children == ns[c].children
      && (forall x | 0 <= x < |ns| && x != p && x != c :: ns'[x] == ns[x])
      && (forall x | 0 <= x < |ns| :: ns'[x].id == ns[x].id && ns'[x].body == ns[x].body && ns'[x].author == ns[x].author)
      && (forall x | 0 <= x < |ns| :: ns'[x].(parent := None, children := []) == ns[x].(parent := None, children := []))
  {
  }

  lemma AttachKeepsLinks(ns: seq<DataNode>, rank: seq<nat>, p: Ref, c: Ref)
    requires Wf(ns, rank) && p < |ns| && c < |ns|
    requires ns[c].parent == None && rank[p] < rank[c]
    requires Insertable(ns, ns[p].children, c)
    ensures Linked(Attach(ns, p, c))
  {
    var ns' := Attach(ns, p, c);
    AttachFields(ns, p, c);
    forall q, r | 0 <= q < |ns'| && r in ns'[q].children
      ensures r < |ns'| && ns'[r].parent == Some(q)
    {
      if q == p {
        assert r == c || r in ns[p].children;
      } else {
        assert ns'[q].children == ns[q].children;
        if r == c {
          assert false;
        }
      }
    }
    forall r | 0 <= r < |ns'| && ns'[r].parent.Some?
      ensures ns'[r].parent.value < |ns'| && r in ns'[ns'[r].parent.value].children
    {
      if r != c {
        var q := ns[r].parent.value;
        assert ns'[r].parent == ns[r].parent && r in ns[q].children;
        if q != p {
          assert ns'[q].children == ns[q].children;
        }
      }
    }
  }

  lemma AttachKeepsOrder(ns: seq<DataNode>, rank: seq<nat>, p: Ref, c: Ref)
    requires Wf(ns, rank) && p < |ns| && c < |ns| && p != c
    requires Insertable(ns, ns[p].children, c)
    requires forall d | d in ns[p].children :: ns[d].id != ns[c].id
    ensures var ns' := Attach(ns, p, c);
      forall q | 0 <= q < |ns'| :: ChildrenOrdered(ns', q)
  {
    var ns' := Attach(ns, p, c);
    AttachFields(ns, p, c);
    assert ChildrenOrdered(ns, p);
    InsortSorted(ns, ns[p].children, c);
    InsortDistinct(ns, ns[p].children, c);
    forall q | 0 <= q < |ns'| ensures ChildrenOrdered(ns', q) {
      var ds := ns'[q].children;
      if q != p {
        assert ds == ns[q].children;
        assert ChildrenOrdered(ns, q);
      }
      SameKeysSameOrder(ns, ns', ds);
    }
  }

  /** Sortedness and distinct ids depend only on the nodes' ids and bodies. */
  lemma SameKeysSameOrder(ns: seq<DataNode>, ns': seq<DataNode>, ds: seq<Ref>)
    requires |ns| <= |ns'|
    requires forall x | 0 <= x < |ns| :: ns'[x].id == ns[x].id && ns'[x].body == ns[x].body
    requires DistinctIds(ns, ds) && Sorted(ns, ds)
    ensures DistinctIds(ns', ds) && Sorted(ns', ds)
  {
    if |ds| > 1 {
      assert Keyed(ns', ds);
      assert forall i, j | 0 <= i < j < |ds| :: Time(ns', ds[i]) == Time(ns, ds[i]) && Time(ns', ds[j]) == Time(ns, ds[j]);
    }
  }

  /** Linking an unattached node under a parent of lower rank, when the insert needs no
      comparison with a keyless node and no sibling has the same id, keeps the heap
      well formed: in particular the parent's children stay sorted. */
  lemma AttachKeepsWf(ns: seq<DataNode>, rank: seq<nat>, p: Ref, c: Ref)
    requires Wf(ns, rank) && p < |ns| && c < |ns|
    requires ns[c].parent == None && rank[p] < rank[c]
    requires Insertable(ns, ns[p].children, c)
    requires forall d | d in ns[p].children :: ns[d].id != ns[c].id
    ensures Wf(Attach(ns, p, c), rank)
  {
    var ns' := Attach(ns, p, c);
    AttachFields(ns, p, c);
    AttachKeepsLinks(ns, rank, p, c);
    AttachKeepsOrder(ns, rank, p, c);
  }

  /** Every child of `x` is in the heap and has `x` as its parent. */
  lemma ChildrenOf(ns: seq<DataNode>, rank: seq<nat>, x: Ref)
    requires Wf(ns, rank) && x < |ns|
    ensures forall i | 0 <= i < |ns[x].children| ::
      ns[x].children[i] < |ns| && ns[ns[x].children[i]].parent == Some(x)
  {
    forall i | 0 <= i < |ns[x].children|
      ensures ns[x].children[i] < |ns| && ns[ns[x].children[i]].parent == Some(x)
    {
      assert ns[x].children[i] in ns[x].children;
    }
  }

  /** Adding a fresh node with no links keeps the heap well formed. */
  lemma WfExtend(ns: seq<DataNode>, rank: seq<nat>, n: DataNode, level: nat)
    requires Wf(ns, rank)
    requires n.parent == None && n.children == [] && (!n.IsValid() ==> n.author == "")
    ensures Wf(ns + [n], rank + [level])
  {
    var ns' := ns + [n];
    forall q | 0 <= q < |ns'| ensures ChildrenOrdered(ns', q) {
      if q < |ns| {
        assert ChildrenOrdered(ns, q);
        SameKeysSameOrder(ns, ns', ns[q].children);
      }
    }
  }

  /** Which children list `c` is inserted into does not depend on parent pointers:
      setting `c`'s parent first leaves the insertion unchanged. */
  lemma {:induction false} InsortIgnoresLinks(ns: seq<DataNode>, ns': seq<DataNode>, cs: seq<Ref>, c: Ref)
    requires |ns'| == |ns| && forall x | 0 <= x < |ns| :: ns'[x].body == ns[x].body
    requires Insertable(ns, cs, c)
    ensures Insertable(ns', cs, c) && InsortRight(ns', cs, c) == InsortRight(ns, cs, c)
    decreases |cs|
  {
    if cs != [] {
      assert Keyed(ns', cs);
      assert Keyed(ns, cs[1..]) by {
        forall i | 0 <= i < |cs[1..]| ensures cs[1..][i] < |ns| && ns[cs[1..][i]].IsValid() {
          assert cs[1..][i] == cs[i + 1];
        }
      }
      InsortIgnoresLinks(ns, ns', cs[1..], c);
    }
  }

  /** `assign_parent` sets the parent before inserting, `assign_child` after: both end in `Attach`. */
  lemma ParentFirst(ns: seq<DataNode>, p: Ref, c: Ref)
    requires p < |ns| && c < |ns| && p != c && Insertable(ns, ns[p].children, c)
    ensures var ns1 := ns[c := ns[c].(parent := Some(p))];
      Insertable(ns1, ns1[p].children, c) &&
      ns1[p := ns1[p].(children := InsortRight(ns1, ns1[p].children, c))] == Attach(ns, p, c)
  {
    var ns1 := ns[c := ns[c].(parent := Some(p))];
    InsortIgnoresLinks(ns, ns1, ns[p].children, c);
  }

  /** The root reached by following parent links up from `r`. */
  ghost function RootOf(ns: seq<DataNode>, rank: seq<nat>, r: Ref): (root: Ref)
    requires Wf(ns, rank) && r < |ns|
    ensures root < |ns| && ns[root].parent == None
    decreases rank[r]
  {
    match ns[r].parent
    case None => r
    case Some(q) => RootOf(ns, rank, q)
  }

  /** The strict ancestors of `r`, from the root down to `r`'s parent. */
  ghost function Spine(ns: seq<DataNode>, rank: seq<nat>, r: Ref): (s: seq<Ref>)
    requires Wf(ns, rank) && r < |ns|
    ensures forall a | a in s :: a < |ns|
    ensures forall i | 0 <= i < |s| :: s[i] < |ns|
    decreases rank[r]
  {
    match ns[r].parent
    case None => []
    case Some(q) => Spine(ns, rank, q) + [q]
  }

  /** `list.index` under id equality: the first entry whose id is `id`. */
  function IndexById(ns: seq<DataNode>, cs: seq<Ref>, id: Id): (i: nat)
    requires forall j | 0 <= j < |cs| :: cs[j] < |ns|
    requires exists j | 0 <= j < |cs| :: ns[cs[j]].id == id
    ensures i < |cs| && ns[cs[i]].id == id
    ensures forall j | 0 <= j < i :: ns[cs[j]].id != id
  {
    if ns[cs[0]].id == id then 0
    else
      assert exists j | 0 <= j < |cs[1..]| :: ns[cs[1..][j]].id == id by {
        var j :| 0 <= j < |cs| && ns[cs[j]].id == id;
        assert cs[1..][j - 1] == cs[j];
      }
      1 + IndexById(ns, cs[1..], id)
  }

  /** Where a node sits among its siblings: with distinct sibling ids, the first entry
      carrying its id is the node itself. */
  lemma IndexOfChild(ns: seq<DataNode>, rank: seq<nat>, q: Ref, n: Ref)
    requires Wf(ns, rank) && q < |ns| && n < |ns| && ns[n].parent == Some(q)
    ensures var cs := ns[q].children;
      (forall j | 0 <= j < |cs| :: cs[j] < |ns|) &&
      (exists j | 0 <= j < |cs| :: ns[cs[j]].id == ns[n].id) &&
      cs[IndexById(ns, cs, ns[n].id)] == n
  {
    var cs := ns[q].children;
    assert n in cs;
    var k :| 0 <= k < |cs| && cs[k] == n;
    assert ChildrenOrdered(ns, q);
  }

  /** The source's `path()`: read from the root down, the 1-based position of the branch
      taken at each strict ancestor that has more than one child. */
  ghost function PathTo(ns: seq<DataNode>, rank: seq<nat>, r: Ref): seq<int>
    requires Wf(ns, rank) && r < |ns|
    decreases rank[r]
  {
    match ns[r].parent
    case None => []
    case Some(q) =>
      IndexOfChild(ns, rank, q, r);
      PathTo(ns, rank, q) +
        (if |ns[q].children| > 1 then [IndexById(ns, ns[q].children, ns[r].id) + 1] else [])
  }

  /** One step of `path()`'s walk: moving from `node` to its parent prepends the entry
      recorded there. */
  lemma PathStep(ns: seq<DataNode>, rank: seq<nat>, n: Ref, node: Ref, path: seq<int>)
    requires Wf(ns, rank) && n < |ns| && node < |ns| && ns[node].parent.Some?
    requires PathTo(ns, rank, n) == PathTo(ns, rank, node) + path
    ensures var q := ns[node].parent.value;
      && q < |ns| && rank[q] < rank[node]
      && PathTo(ns, rank, n) == PathTo(ns, rank, q) + (ParentEntry(ns, rank, q, node) + path)
  {
    var q := ns[node].parent.value;
    var entry := ParentEntry(ns, rank, q, node);
    Regroup(PathTo(ns, rank, n), PathTo(ns, rank, node), path, PathTo(ns, rank, q), entry);
  }

  lemma Regroup<T>(a: seq<T>, b: seq<T>, c: seq<T>, d: seq<T>, e: seq<T>)
    requires a == b + c && b == d + e
    ensures a == d + (e + c)
  {
  }

  /** The entry `path()` records at parent `q` of `n`: its 1-based position when `q`
      branches, nothing otherwise. */
  ghost function ParentEntry(ns: seq<DataNode>, rank: seq<nat>, q: Ref, n: Ref): (entry: seq<int>)
    requires Wf(ns, rank) && q < |ns| && n < |ns| && ns[n].parent == Some(q)
    ensures var cs := ns[q].children;
      && (|cs| <= 1 <==> entry == [])
      && (|cs| > 1 ==> |entry| == 1 && 1 <= entry[0] <= |cs| && cs[entry[0] - 1] == n)
    ensures PathTo(ns, rank, n) == PathTo(ns, rank, q) + entry
  {
    var cs := ns[q].children;
    IndexOfChild(ns, rank, q, n);
    if |cs| > 1 then [IndexById(ns, cs, ns[n].id) + 1] else []
  }
}

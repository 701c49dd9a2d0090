/** The descent `build_text` makes from a node along a list of branch choices, the text
    it collects, and how that descent undoes `path()`. */
module Branch {
  import opened Fragments
  import opened Nodes
  import opened Forest

  /** Python's `cs[j]` on a list of length `n`: a negative `j` counts from the end. */
  function PyIndex(n: nat, j: int): (r: Option<nat>)
    ensures r.Some? <==> 0 - n <= j < n
    ensures r.Some? ==> r.value < n && r.value == if j >= 0 then j else n + j
  {
    if 0 <= j < n then Some(j) else if 0 - n <= j < 0 then Some((n + j) as nat) else None
  }

  /** One step down: stop at a leaf; at a branch point use the next path entry (1-based)
      or, with the path used up, the last child; otherwise take the only child. */
  datatype Move = Stop | Down(child: Ref, rest: seq<int>) | OutOfRange(rest: seq<int>)

  function Next(ns: seq<DataNode>, x: Ref, path: seq<int>): (m: Move)
    requires x < |ns|
    ensures m.Down? ==> m.child in ns[x].children
  {
    var cs := ns[x].children;
    if |cs| == 0 then Stop
    else if |cs| > 1 then
      if |path| > 0 then
        match PyIndex(|cs|, path[0] - 1)
        case Some(j) => Down(cs[j], path[1..])
        case None => OutOfRange(path[1..])
      else Down(cs[|cs| - 1], path)
    else Down(cs[0], path)
  }

  /** The nodes a descent visits, whether it stopped on an index out of range, and the
      path entries it left unused. */
  datatype Descent = Descent(visited: seq<Ref>, failed: bool, rest: seq<int>)

  ghost function Descend(ns: seq<DataNode>, rank: seq<nat>, x: Ref, path: seq<int>): (d: Descent)
    requires Wf(ns, rank) && x < |ns|
    ensures |d.visited| > 0 && d.visited[0] == x
    ensures forall i | 0 <= i < |d.visited| :: d.visited[i] < |ns|
    decreases Top(rank) - rank[x]
  {
    match Next(ns, x, path)
    case Stop => Descent([x], false, path)
    case OutOfRange(rest) => Descent([x], true, rest)
    case Down(c, rest) =>
      assert c < |ns| && ns[c].parent == Some(x);
      var d := Descend(ns, rank, c, rest);
      Descent([x] + d.visited, d.failed, d.rest)
  }

  /** A step down is one node of the descent, followed by the descent from the child. */
  lemma DescendDown(ns: seq<DataNode>, rank: seq<nat>, x: Ref, path: seq<int>)
    requires Wf(ns, rank) && x < |ns| && Next(ns, x, path).Down?
    ensures var m := Next(ns, x, path);
      && m.child < |ns| && rank[x] < rank[m.child]
      && var e := Descend(ns, rank, m.child, m.rest);
         Descend(ns, rank, x, path) == Descent([x] + e.visited, e.failed, e.rest)
  {
    var c := Next(ns, x, path).child;
    assert c < |ns| && ns[c].parent == Some(x);
  }

  /** The text one node adds: user and assistant messages under a header, nothing else. */
  function Line(n: DataNode): string
    requires n.IsValid() || n.author == ""
  {
    if n.author == "user" then "User:\n" + n.body.value.content + "\n\n"
    else if n.author == "assistant" then "Assistant:\n" + n.body.value.content + "\n\n"
    else ""
  }

  /** The text `build_text` collects from the nodes `vs`, in order. */
  ghost function Render(ns: seq<DataNode>, vs: seq<Ref>): string
    requires Authored(ns) && forall i | 0 <= i < |vs| :: vs[i] < |ns|
  {
    if vs == [] then "" else Line(ns[vs[0]]) + Render(ns, vs[1..])
  }

  /** One more node adds its line to the text. */
  lemma RenderSnoc(ns: seq<DataNode>, vs: seq<Ref>, x: Ref)
    requires Authored(ns) && x < |ns| && forall i | 0 <= i < |vs| :: vs[i] < |ns|
    ensures forall i | 0 <= i < |vs + [x]| :: (vs + [x])[i] < |ns|
    ensures Render(ns, vs + [x]) == Render(ns, vs) + Line(ns[x])
  {
    RenderAppend(ns, vs, [x]);
    assert Render(ns, [x]) == Line(ns[x]) + Render(ns, []);
  }

  /** Descending from `n`'s root along `n`'s path followed by `tail` passes through `n`'s
      ancestors and then continues exactly as a descent from `n` with `tail`. */
  ghost predicate ArrivesAt(ns: seq<DataNode>, rank: seq<nat>, n: Ref, tail: seq<int>)
    requires Wf(ns, rank) && n < |ns|
  {
    var e := Descend(ns, rank, n, tail);
    Descend(ns, rank, RootOf(ns, rank, n), PathTo(ns, rank, n) + tail) ==
      Descent(Spine(ns, rank, n) + e.visited, e.failed, e.rest)
  }

  /** Descending along `path()` from the root arrives at the node with exactly the entries
      that followed the path still unused: `path()` records every branch choice and only
      those. */
  lemma {:induction false} PathRoundTrip(ns: seq<DataNode>, rank: seq<nat>, n: Ref, tail: seq<int>)
    requires Wf(ns, rank) && n < |ns|
    ensures ArrivesAt(ns, rank, n, tail)
    decreases rank[n]
  {
    match ns[n].parent
    case None =>
      assert PathTo(ns, rank, n) + tail == tail;
      assert Spine(ns, rank, n) == [];
      var e := Descend(ns, rank, n, tail);
      assert [] + e.visited == e.visited;
    case Some(q) =>
      var entry := ParentEntry(ns, rank, q, n);
      PathRoundTrip(ns, rank, q, entry + tail);
      RoundTripStep(ns, rank, q, n, tail);
  }

  lemma RoundTripStep(ns: seq<DataNode>, rank: seq<nat>, q: Ref, n: Ref, tail: seq<int>)
    requires Wf(ns, rank) && q < |ns| && n < |ns| && ns[n].parent == Some(q)
    requires ArrivesAt(ns, rank, q, ParentEntry(ns, rank, q, n) + tail)
    ensures ArrivesAt(ns, rank, n, tail)
  {
    var entry := ParentEntry(ns, rank, q, n);
    SameDescentFromRoot(ns, rank, q, n, tail);
    DescendThroughParent(ns, rank, q, n, tail);
    RegroupDescent(Descend(ns, rank, RootOf(ns, rank, n), PathTo(ns, rank, n) + tail),
      Descend(ns, rank, q, entry + tail), Descend(ns, rank, n, tail), Spine(ns, rank, q), q);
    assert Spine(ns, rank, n) == Spine(ns, rank, q) + [q];
  }

  /** `n`'s root and path, extended by `tail`, are `q`'s root and path extended by `n`'s entry and `tail`. */
  lemma SameDescentFromRoot(ns: seq<DataNode>, rank: seq<nat>, q: Ref, n: Ref, tail: seq<int>)
    requires Wf(ns, rank) && q < |ns| && n < |ns| && ns[n].parent == Some(q)
    ensures Descend(ns, rank, RootOf(ns, rank, n), PathTo(ns, rank, n) + tail) ==
      Descend(ns, rank, RootOf(ns, rank, q), PathTo(ns, rank, q) + (ParentEntry(ns, rank, q, n) + tail))
  {
    RootOfChild(ns, rank, q, n);
    PathOfChild(ns, rank, q, n, tail);
  }

  lemma RootOfChild(ns: seq<DataNode>, rank: seq<nat>, q: Ref, n: Ref)
    requires Wf(ns, rank) && q < |ns| && n < |ns| && ns[n].parent == Some(q)
    ensures RootOf(ns, rank, n) == RootOf(ns, rank, q)
  {
  }

  lemma PathOfChild(ns: seq<DataNode>, rank: seq<nat>, q: Ref, n: Ref, tail: seq<int>)
    requires Wf(ns, rank) && q < |ns| && n < |ns| && ns[n].parent == Some(q)
    ensures PathTo(ns, rank, n) + tail == PathTo(ns, rank, q) + (ParentEntry(ns, rank, q, n) + tail)
  {
    var entry := ParentEntry(ns, rank, q, n);
    var p := PathTo(ns, rank, n);
    Regroup(p + tail, p, tail, PathTo(ns, rank, q), entry);
  }

  lemma RegroupDescent(d: Descent, eq: Descent, e: Descent, sq: seq<Ref>, q: Ref)
    requires d == Descent(sq + eq.visited, eq.failed, eq.rest)
    requires eq == Descent([q] + e.visited, e.failed, e.rest)
    ensures d == Descent((sq + [q]) + e.visited, e.failed, e.rest)
  {
    assert sq + ([q] + e.visited) == (sq + [q]) + e.visited;
  }

  /** At `n`'s parent, a descent consumes exactly the entry `path()` recorded there and
      moves on to `n`. */
  lemma DescendThroughParent(ns: seq<DataNode>, rank: seq<nat>, q: Ref, n: Ref, tail: seq<int>)
    requires Wf(ns, rank) && q < |ns| && n < |ns| && ns[n].parent == Some(q)
    ensures var e := Descend(ns, rank, n, tail);
      Descend(ns, rank, q, ParentEntry(ns, rank, q, n) + tail) == Descent([q] + e.visited, e.failed, e.rest)
  {
    var cs := ns[q].children;
    var entry := ParentEntry(ns, rank, q, n);
    IndexOfChild(ns, rank, q, n);
    assert n in cs;
    if |cs| > 1 {
      assert (entry + tail)[0] == IndexById(ns, cs, ns[n].id) + 1;
      assert (entry + tail)[1..] == tail;
    } else {
      assert entry + tail == tail;
    }
    assert Next(ns, q, entry + tail) == Down(n, tail);
  }

  /** Following `path()` from the root reaches the node itself. */
  lemma PathReachesNode(ns: seq<DataNode>, rank: seq<nat>, n: Ref)
    requires Wf(ns, rank) && n < |ns|
    ensures n in Descend(ns, rank, RootOf(ns, rank, n), PathTo(ns, rank, n)).visited
  {
    PathRoundTrip(ns, rank, n, []);
    assert ArrivesAt(ns, rank, n, []);
    assert PathTo(ns, rank, n) + [] == PathTo(ns, rank, n);
    var d := Descend(ns, rank, RootOf(ns, rank, n), PathTo(ns, rank, n));
    assert d.visited[|Spine(ns, rank, n)|] == n;
  }

  /** The ancestors at which `path()` records an entry: those with more than one child. */
  ghost function BranchPoints(ns: seq<DataNode>, rank: seq<nat>, r: Ref): (bs: seq<Ref>)
    requires Wf(ns, rank) && r < |ns|
    ensures forall i | 0 <= i < |bs| :: bs[i] < |ns| && |ns[bs[i]].children| > 1
    decreases rank[r]
  {
    match ns[r].parent
    case None => []
    case Some(q) => BranchPoints(ns, rank, q) + (if |ns[q].children| > 1 then [q] else [])
  }

  /** `path()` has one entry per branching ancestor, root first, each a valid 1-based
      position among that ancestor's children; branching ancestors are ancestors. */
  lemma {:induction false} PathShape(ns: seq<DataNode>, rank: seq<nat>, n: Ref)
    requires Wf(ns, rank) && n < |ns|
    ensures var p := PathTo(ns, rank, n);
            var bs := BranchPoints(ns, rank, n);
            && |p| == |bs|
            && (forall i | 0 <= i < |p| :: 1 <= p[i] <= |ns[bs[i]].children|)
            && (forall b | b in bs :: b in Spine(ns, rank, n))
    decreases rank[n]
  {
    match ns[n].parent
    case None =>
    case Some(q) =>
      PathShape(ns, rank, q);
      IndexOfChild(ns, rank, q, n);
  }

  /** A root, or a node none of whose ancestors branches, has the empty path. */
  lemma {:induction false} PathUnbranched(ns: seq<DataNode>, rank: seq<nat>, n: Ref)
    requires Wf(ns, rank) && n < |ns|
    requires forall a | a in Spine(ns, rank, n) :: |ns[a].children| <= 1
    ensures PathTo(ns, rank, n) == []
    decreases rank[n]
  {
    match ns[n].parent
    case None =>
    case Some(q) =>
      assert Spine(ns, rank, n) == Spine(ns, rank, q) + [q];
      PathUnbranched(ns, rank, q);
  }

  /** The text of a walk is the text of its first part followed by the text of the rest. */
  lemma {:induction false} RenderAppend(ns: seq<DataNode>, a: seq<Ref>, b: seq<Ref>)
    requires Authored(ns)
    requires forall i | 0 <= i < |a| :: a[i] < |ns|
    requires forall i | 0 <= i < |b| :: b[i] < |ns|
    ensures forall i | 0 <= i < |a + b| :: (a + b)[i] < |ns|
    ensures Render(ns, a + b) == Render(ns, a) + Render(ns, b)
    decreases |a|
  {
    assert forall i | 0 <= i < |a + b| :: (a + b)[i] < |ns| by {
      forall i | 0 <= i < |a + b| ensures (a + b)[i] < |ns| {
        if i < |a| { assert (a + b)[i] == a[i]; } else { assert (a + b)[i] == b[i - |a|]; }
      }
    }
    if a != [] {
      RenderAppend(ns, a[1..], b);
      TailOfAppend(a, b);
    } else {
      assert a + b == b;
    }
  }

  /** A descent that does not fail stops at a leaf. One that fails stopped at a branch
      point, on the last path entry it used, which names no child there (the `IndexError`). */
  lemma {:induction false} DescendStops(ns: seq<DataNode>, rank: seq<nat>, x: Ref, path: seq<int>)
    requires Wf(ns, rank) && x < |ns|
    ensures var d := Descend(ns, rank, x, path);
      var last := d.visited[|d.visited| - 1];
      && (!d.failed ==> ns[last].children == [])
      && (d.failed ==> |ns[last].children| > 1)
      && (d.failed ==> |d.rest| < |path| && PyIndex(|ns[last].children|, path[|path| - |d.rest| - 1] - 1).None?)
    decreases Top(rank) - rank[x]
  {
    DescendFails(ns, rank, x, path);
    match Next(ns, x, path)
    case Stop =>
    case OutOfRange(rest) =>
    case Down(c, rest) =>
      assert c < |ns| && ns[c].parent == Some(x);
      DescendStops(ns, rank, c, rest);
      var e := Descend(ns, rank, c, rest);
      var d := Descend(ns, rank, x, path);
      assert d.visited == [x] + e.visited;
      assert d.visited[|d.visited| - 1] == e.visited[|e.visited| - 1];
  }

  /** A failed descent ends on the node whose branch choice was out of range: the last
      path entry it used names no child of that node. */
  lemma {:induction false} DescendFails(ns: seq<DataNode>, rank: seq<nat>, x: Ref, path: seq<int>)
    requires Wf(ns, rank) && x < |ns|
    ensures var d := Descend(ns, rank, x, path);
      var last := d.visited[|d.visited| - 1];
      d.failed ==> |d.rest| < |path| && PyIndex(|ns[last].children|, path[|path| - |d.rest| - 1] - 1).None?
    decreases Top(rank) - rank[x]
  {
    var d := Descend(ns, rank, x, path);
    match Next(ns, x, path)
    case Stop =>
    case OutOfRange(rest) =>
      assert d == Descent([x], true, path[1..]);
    case Down(c, rest) =>
      assert c < |ns| && ns[c].parent == Some(x);
      DescendFails(ns, rank, c, rest);
      var e := Descend(ns, rank, c, rest);
      assert d == Descent([x] + e.visited, e.failed, e.rest);
      assert d.visited[|d.visited| - 1] == e.visited[|e.visited| - 1];
      if e.failed && rest != path {
        assert rest == path[1..];
        assert rest[|rest| - |e.rest| - 1] == path[|path| - |e.rest| - 1];
      }
  }

  /** The entries a descent leaves unused are a suffix of its path. */
  lemma {:induction false} DescendConsumes(ns: seq<DataNode>, rank: seq<nat>, x: Ref, path: seq<int>)
    requires Wf(ns, rank) && x < |ns|
    ensures var d := Descend(ns, rank, x, path);
      |d.rest| <= |path| && d.rest == path[|path| - |d.rest|..]
    decreases Top(rank) - rank[x]
  {
    match Next(ns, x, path)
    case Stop =>
    case OutOfRange(rest) =>
    case Down(c, rest) =>
      assert c < |ns| && ns[c].parent == Some(x);
      DescendConsumes(ns, rank, c, rest);
      var e := Descend(ns, rank, c, rest);
      if rest != path {
        assert rest == path[1..];
        assert path[1..][|path[1..]| - |e.rest|..] == path[|path| - |e.rest|..];
      }
  }

  /** Each node of `vs` after the first is the last child of the node before it. */
  ghost predicate AlongLast(ns: seq<DataNode>, vs: seq<Ref>) {
    forall i | 0 <= i < |vs| - 1 ::
      vs[i] < |ns| && |ns[vs[i]].children| > 0 && vs[i + 1] == ns[vs[i]].children[|ns[vs[i]].children| - 1]
  }

  lemma AlongLastCons(ns: seq<DataNode>, x: Ref, vs: seq<Ref>)
    requires AlongLast(ns, vs) && vs != [] && x < |ns|
    requires |ns[x].children| > 0 && vs[0] == ns[x].children[|ns[x].children| - 1]
    ensures AlongLast(ns, [x] + vs)
  {
    var ws := [x] + vs;
    forall i | 0 <= i < |ws| - 1
      ensures ws[i] < |ns| && |ns[ws[i]].children| > 0 && ws[i + 1] == ns[ws[i]].children[|ns[ws[i]].children| - 1]
    {
      if i > 0 {
        assert ws[i] == vs[i - 1] && ws[i + 1] == vs[i];
      }
    }
  }

  /** With no path left the descent takes last (or only) children down to a leaf and
      cannot fail. */
  lemma {:induction false} DescendWithoutPath(ns: seq<DataNode>, rank: seq<nat>, x: Ref)
    requires Wf(ns, rank) && x < |ns|
    ensures var d := Descend(ns, rank, x, []);
      !d.failed && d.rest == [] && AlongLast(ns, d.visited)
    decreases Top(rank) - rank[x]
  {
    match Next(ns, x, [])
    case Stop =>
    case Down(c, rest) =>
      assert c < |ns| && ns[c].parent == Some(x) && rest == [];
      DescendWithoutPath(ns, rank, c);
      var e := Descend(ns, rank, c, []);
      AlongLastCons(ns, x, e.visited);
  }

  /** Following `n`'s path from its root and then `tail`, the text is the conversation up to
      and including `n`, then what the descent from `n` adds. */
  lemma TextThroughNode(ns: seq<DataNode>, rank: seq<nat>, n: Ref, tail: seq<int>)
    requires Wf(ns, rank) && n < |ns|
    ensures var d := Descend(ns, rank, RootOf(ns, rank, n), PathTo(ns, rank, n) + tail);
      var e := Descend(ns, rank, n, tail);
      && d.failed == e.failed && d.rest == e.rest
      && Render(ns, d.visited) == Render(ns, Spine(ns, rank, n)) + Render(ns, e.visited)
  {
    PathRoundTrip(ns, rank, n, tail);
    assert ArrivesAt(ns, rank, n, tail);
    var e := Descend(ns, rank, n, tail);
    var sp := Spine(ns, rank, n);
    assert forall i | 0 <= i < |sp| :: sp[i] < |ns| by {
      forall i | 0 <= i < |sp| ensures sp[i] < |ns| { assert sp[i] in sp; }
    }
    RenderAppend(ns, sp, e.visited);
  }
}

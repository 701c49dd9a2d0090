/** The state `build_tree`'s worklist keeps for one conversation: which fragments have
    a node (`done`), how those nodes are linked, and what is still queued. */
module Builder {
  import opened Fragments
  import opened Nodes
  import opened Forest

  /** Nodes from `base` on are exactly those built for the keys of `done`, each from its
      own fragment, and each ranked at its id's depth. */
  ghost predicate Built(ns: seq<DataNode>, rank: seq<nat>, base: nat, m: map<Id, Fragment>,
                        title: string, done: map<Id, Ref>)
  {
    && |ns| == |rank| && |ns| == base + |done|
    && (forall k {:trigger done[k]} | k in done ::
          && k in m && base <= done[k] < |ns| && ns[done[k]].id == k
          && ns[done[k]].(parent := None, children := []) == MakeNode(m[k], title)
          && rank[done[k]] == Levels(m)[k])
    && (forall r | base <= r < |ns| :: ns[r].id in done && done[ns[r].id] == r)
  }

  /** The parent pointer the fragment of `k` calls for, once its parent has a node. */
  ghost function LinkedParent(m: map<Id, Fragment>, done: map<Id, Ref>, k: Id): Option<Ref> {
    if k in m && ParentKey(m[k]).Some? && ParentKey(m[k]).value in done then Some(done[ParentKey(m[k]).value])
    else None
  }

  /** Every built node outside `except` points to the node of its fragment's parent. */
  ghost predicate Mirrors(ns: seq<DataNode>, m: map<Id, Fragment>, done: map<Id, Ref>, except: seq<Id>)
  {
    && (forall k | k in done && k !in except :: k in m && done[k] < |ns|)
    && (forall k {:trigger LinkedParent(m, done, k)} | k in done && k !in except ::
          done[k] < |ns| && ns[done[k]].parent == LinkedParent(m, done, k))
  }

  /** The built nodes for ids in `ids` are not linked to a parent yet. */
  ghost predicate Pending(ns: seq<DataNode>, done: map<Id, Ref>, ids: seq<Id>) {
    forall k | k in done && k in ids :: done[k] < |ns| && ns[done[k]].parent == None
  }

  /** Nodes before `base`, built earlier, have their parents before `base` too. */
  ghost predicate OlderClosed(ns: seq<DataNode>, base: nat) {
    forall r | 0 <= r < base && r < |ns| && ns[r].parent.Some? :: ns[r].parent.value < base
  }

  /** The queue holds each id once, only ids of the mapping, none of them done. */
  ghost predicate QueueOk(queue: seq<Id>, m: map<Id, Fragment>, done: map<Id, Ref>) {
    NoDup(queue) && forall x | x in queue :: x in m && x !in done
  }

  /** Every id a done fragment refers to is done or queued. */
  ghost predicate Reached(m: map<Id, Fragment>, done: map<Id, Ref>, queue: seq<Id>) {
    forall k {:trigger m[k].children} | k in done && k in m ::
      && (ParentKey(m[k]).Some? ==> ParentKey(m[k]).value in done || ParentKey(m[k]).value in queue)
      && (forall c | c in m[k].children :: c in done || c in queue)
  }

  /** The build state of one conversation while the built nodes of `waiting` still wait
      for their parent links: nodes built as their fragments say, older nodes untouched,
      every other built node linked to its parent's node. */
  ghost predicate Stage(ns: seq<DataNode>, rank: seq<nat>, base: nat, cv: Export,
                        done: map<Id, Ref>, waiting: seq<Id>)
  {
    && Built(ns, rank, base, cv.mapping, cv.title, done) && OlderClosed(ns, base)
    && Mirrors(ns, cv.mapping, done, waiting) && Pending(ns, done, waiting)
  }

  /** A fragment is never its own parent or its own child. */
  lemma NotOwnRelative(cv: Export, k: Id)
    requires k in cv.mapping
    ensures ParentKey(cv.mapping[k]) != Some(k) && k !in cv.mapping[k].children
  {
    LevelsRanked(cv.mapping);
  }

  /** A child fragment ranks above its parent. */
  lemma LevelBelowChild(cv: Export, k: Id, c: Id)
    requires k in cv.mapping && c in cv.mapping[k].children
    ensures c in cv.mapping && ParentKey(cv.mapping[c]) == Some(k) && Levels(cv.mapping)[k] < Levels(cv.mapping)[c]
  {
    LevelsRanked(cv.mapping);
  }

  /** The children of a built node are the built nodes of its fragment's children that
      are already linked. */
  lemma ChildrenOfBuilt(ns: seq<DataNode>, rank: seq<nat>, base: nat, cv: Export,
                        done: map<Id, Ref>, except: seq<Id>, x: Id)
    requires Wf(ns, rank) && OlderClosed(ns, base)
    requires Built(ns, rank, base, cv.mapping, cv.title, done)
    requires Mirrors(ns, cv.mapping, done, except) && Pending(ns, done, except)
    requires x in done
    ensures forall r | r in ns[done[x]].children ::
      && base <= r < |ns| && ns[r].id in done && done[ns[r].id] == r && ns[r].id !in except
      && ns[r].id in cv.mapping[x].children
      && (ns[r].IsValid() <==> cv.mapping[ns[r].id].message.Some?)
  {
    var m := cv.mapping;
    forall r | r in ns[done[x]].children
      ensures base <= r < |ns| && ns[r].id in done && done[ns[r].id] == r && ns[r].id !in except
      ensures ns[r].id in m[x].children
      ensures ns[r].IsValid() <==> m[ns[r].id].message.Some?
    {
      assert r < |ns| && ns[r].parent == Some(done[x]);
      var k := ns[r].id;
      assert k in done && done[k] == r;
      assert LinkedParent(m, done, k) == Some(done[x]);
      var p := ParentKey(m[k]).value;
      assert ns[done[p]].id == p && ns[done[x]].id == x;
    }
  }

  /** Under a fragment with two or more children every child has a message, so the node
      of fragment `k` can join the linked children of `x`'s node: the insertion compares
      only keyed nodes and no sibling has its id. */
  lemma CanLinkUnder(ns: seq<DataNode>, rank: seq<nat>, base: nat, cv: Export,
                     done: map<Id, Ref>, except: seq<Id>, x: Id, k: Id)
    requires Wf(ns, rank) && OlderClosed(ns, base)
    requires Built(ns, rank, base, cv.mapping, cv.title, done)
    requires Mirrors(ns, cv.mapping, done, except) && Pending(ns, done, except)
    requires x in done && k in done && k in cv.mapping[x].children && k in except
    ensures Insertable(ns, ns[done[x]].children, done[k])
    ensures forall d | d in ns[done[x]].children :: ns[d].id != ns[done[k]].id
  {
    var m := cv.mapping;
    var cs := ns[done[x]].children;
    ChildrenOfBuilt(ns, rank, base, cv, done, except, x);
    if cs != [] {
      assert cs[0] in cs;
      BranchingChildrenHaveMessages(cv, x, ns[cs[0]].id, k);
      assert ns[done[k]].body == MakeNode(m[k], cv.title).body;
      ChildrenKeyed(ns, m, x, cs);
    }
  }

  /** Children whose fragments all carry a message are all valid nodes. */
  lemma ChildrenKeyed(ns: seq<DataNode>, m: map<Id, Fragment>, x: Id, cs: seq<Ref>)
    requires x in m && forall c | c in m[x].children :: c in m && m[c].message.Some?
    requires forall r | r in cs ::
      && r < |ns| && ns[r].id in m[x].children && (ns[r].IsValid() <==> m[ns[r].id].message.Some?)
    ensures Keyed(ns, cs)
  {
    forall i | 0 <= i < |cs| ensures cs[i] < |ns| && ns[cs[i]].IsValid() {
      assert cs[i] in cs;
    }
  }

  lemma BranchingChildrenHaveMessages(cv: Export, x: Id, k1: Id, k2: Id)
    requires x in cv.mapping
    requires k1 in cv.mapping[x].children && k2 in cv.mapping[x].children && k1 != k2
    ensures forall c | c in cv.mapping[x].children :: c in cv.mapping && cv.mapping[c].message.Some?
  {
    var cs := cv.mapping[x].children;
    var i :| 0 <= i < |cs| && cs[i] == k1;
    var j :| 0 <= j < |cs| && cs[j] == k2;
    assert i != j && |cs| > 1;
  }

  /** Linking `c` under `p` changes neither node's own fields. */
  lemma AttachKeepsBuilt(ns: seq<DataNode>, rank: seq<nat>, base: nat, m: map<Id, Fragment>,
                         title: string, done: map<Id, Ref>, p: Ref, c: Ref)
    requires Built(ns, rank, base, m, title, done) && OlderClosed(ns, base)
    requires p < |ns| && c < |ns| && p != c && Insertable(ns, ns[p].children, c) && base <= c
    ensures Built(Attach(ns, p, c), rank, base, m, title, done) && OlderClosed(Attach(ns, p, c), base)
  {
    AttachFields(ns, p, c);
  }

  /** Linking the pending node of `k` to the node its fragment calls for takes `k` off the
      pending list. */
  lemma AttachKeepsMirrors(ns: seq<DataNode>, m: map<Id, Fragment>, done: map<Id, Ref>,
                           k: Id, rest: seq<Id>, p: Ref)
    requires Mirrors(ns, m, done, [k] + rest) && Pending(ns, done, [k] + rest)
    requires k in done && k in m && k !in rest && done[k] < |ns| && p < |ns| && p != done[k]
    requires Insertable(ns, ns[p].children, done[k])
    requires LinkedParent(m, done, k) == Some(p)
    requires forall k1, k2 | k1 in done && k2 in done && k1 != k2 :: done[k1] != done[k2]
    ensures Mirrors(Attach(ns, p, done[k]), m, done, rest) && Pending(Attach(ns, p, done[k]), done, rest)
  {
    AttachFields(ns, p, done[k]);
    forall j | j in done && j !in rest && j != k ensures LinkedParent(m, done, j) == LinkedParent(m, done, j) {
      assert j !in [k] + rest;
    }
  }

  /** A fresh node for `curr` joins `done`; it and the built nodes of its fragment's
      children wait for their links. */
  lemma AfterNew(ns: seq<DataNode>, rank: seq<nat>, base: nat, cv: Export,
                 done: map<Id, Ref>, curr: Id, node: Ref)
    requires Stage(ns, rank, base, cv, done, [])
    requires curr in cv.mapping && curr !in done && node == |ns|
    ensures Stage(ns + [MakeNode(cv.mapping[curr], cv.title)], rank + [Levels(cv.mapping)[curr]], base, cv,
                  done[curr := node], [curr] + cv.mapping[curr].children)
  {
    NewBuilt(ns, rank, base, cv.mapping, cv.title, done, curr);
    NewMirrors(ns, cv, done, curr);
    NewPending(ns, cv, done, curr);
  }

  lemma NewBuilt(ns: seq<DataNode>, rank: seq<nat>, base: nat, m: map<Id, Fragment>, title: string,
                 done: map<Id, Ref>, curr: Id)
    requires Built(ns, rank, base, m, title, done) && OlderClosed(ns, base)
    requires curr in m && curr !in done && m[curr].id == curr
    ensures var ns' := ns + [MakeNode(m[curr], title)];
      && Built(ns', rank + [Levels(m)[curr]], base, m, title, done[curr := |ns|])
      && OlderClosed(ns', base)
  {
    var ns' := ns + [MakeNode(m[curr], title)];
    var after: map<Id, Ref> := done[curr := |ns|];
    forall r | base <= r < |ns'| ensures ns'[r].id in after && after[ns'[r].id] == r {
      if r < |ns| {
        assert ns[r].id in done;
      }
    }
  }

  lemma NewMirrors(ns: seq<DataNode>, cv: Export, done: map<Id, Ref>, curr: Id)
    requires Mirrors(ns, cv.mapping, done, [])
    requires curr in cv.mapping && curr !in done
    ensures Mirrors(ns + [MakeNode(cv.mapping[curr], cv.title)], cv.mapping, done[curr := |ns|],
                    [curr] + cv.mapping[curr].children)
  {
    var m := cv.mapping;
    var ns' := ns + [MakeNode(m[curr], cv.title)];
    var after: map<Id, Ref> := done[curr := |ns|];
    var except := [curr] + m[curr].children;
    forall k | k in after && k !in except
      ensures k in m && after[k] < |ns'| && ns'[after[k]].parent == LinkedParent(m, after, k)
    {
      assert k != curr && k in done && k !in [];
      assert after[k] == done[k] && ns'[done[k]] == ns[done[k]];
      var pk := ParentKey(m[k]);
      if pk.Some? {
        assert pk.value != curr;
        assert pk.value in after <==> pk.value in done;
        if pk.value in done {
          assert after[pk.value] == done[pk.value];
        }
      }
      assert LinkedParent(m, after, k) == LinkedParent(m, done, k);
    }
  }

  lemma NewPending(ns: seq<DataNode>, cv: Export, done: map<Id, Ref>, curr: Id)
    requires Mirrors(ns, cv.mapping, done, [])
    requires curr in cv.mapping && curr !in done
    ensures Pending(ns + [MakeNode(cv.mapping[curr], cv.title)], done[curr := |ns|],
                    [curr] + cv.mapping[curr].children)
  {
    var m := cv.mapping;
    var ns' := ns + [MakeNode(m[curr], cv.title)];
    var after: map<Id, Ref> := done[curr := |ns|];
    var except := [curr] + m[curr].children;
    forall k | k in after && k in except
      ensures after[k] < |ns'| && ns'[after[k]].parent == None
    {
      if k != curr {
        assert k in m[curr].children && ParentKey(m[k]) == Some(curr);
        assert k in done && k !in [];
        assert LinkedParent(m, done, k) == None;
      }
    }
  }

  /** The node of `k` has no node to link to yet: it leaves the pending list as it is. */
  lemma Unlinked(ns: seq<DataNode>, m: map<Id, Fragment>, done: map<Id, Ref>, k: Id, rest: seq<Id>)
    requires Mirrors(ns, m, done, [k] + rest) && Pending(ns, done, [k] + rest)
    requires k in m && (k in done ==> LinkedParent(m, done, k) == None)
    ensures Mirrors(ns, m, done, rest) && Pending(ns, done, rest)
  {
  }

  /** One round of the worklist keeps every id that a done fragment refers to done or
      queued: `curr` has left the queue for `done`, and its own relatives are handled. */
  lemma ReachedStep(m: map<Id, Fragment>, built: map<Id, Ref>, after: map<Id, Ref>, curr: Id, node: Ref,
                    q0: seq<Id>, queue: seq<Id>)
    requires after == built[curr := node] && curr in m
    requires Reached(m, built, [curr] + q0)
    requires forall x | x in q0 :: x in queue
    requires ParentKey(m[curr]).Some? ==> ParentKey(m[curr]).value in after || ParentKey(m[curr]).value in queue
    requires forall c | c in m[curr].children :: c in after || c in queue
    ensures Reached(m, after, queue)
  {
    forall k | k in after && k in m && k != curr
      ensures ParentKey(m[k]).Some? ==> ParentKey(m[k]).value in after || ParentKey(m[k]).value in queue
      ensures forall c | c in m[k].children :: c in after || c in queue
    {
      assert k in built;
    }
  }

  /** The nodes built for a closed set of fragments form the tree the mapping describes:
      a node has a parent exactly when its fragment has a parent id, every child fragment's
      node is among its parent node's children, and those children are nothing else. */
  lemma BuiltTreeMirrors(ns: seq<DataNode>, rank: seq<nat>, base: nat, cv: Export,
                         done: map<Id, Ref>)
    requires Wf(ns, rank) && OlderClosed(ns, base)
    requires Built(ns, rank, base, cv.mapping, cv.title, done)
    requires Mirrors(ns, cv.mapping, done, []) && Closed(cv.mapping, done.Keys)
    ensures forall k | k in done :: k in cv.mapping && done[k] < |ns|
    ensures forall k | k in done :: ns[done[k]].parent == None <==> ParentKey(cv.mapping[k]) == None
    ensures forall k, c | k in done && c in cv.mapping[k].children :: c in done && done[c] in ns[done[k]].children
    ensures forall k, r | k in done && r in ns[done[k]].children ::
      r < |ns| && ns[r].id in cv.mapping[k].children && done[ns[r].id] == r
  {
    BuiltChildrenKeyed(ns, rank, base, cv, done);
    BuiltChildren(ns, rank, cv, done);
    BuiltParents(ns, cv, done);
  }

  /** Each child of a built node is the node of one of its fragment's child ids. */
  lemma BuiltChildrenKeyed(ns: seq<DataNode>, rank: seq<nat>, base: nat, cv: Export, done: map<Id, Ref>)
    requires Wf(ns, rank) && OlderClosed(ns, base)
    requires Built(ns, rank, base, cv.mapping, cv.title, done) && Mirrors(ns, cv.mapping, done, [])
    ensures forall k, r | k in done && r in ns[done[k]].children ::
      r < |ns| && ns[r].id in cv.mapping[k].children && done[ns[r].id] == r
  {
    forall k | k in done
      ensures forall r | r in ns[done[k]].children :: r < |ns| && ns[r].id in cv.mapping[k].children && done[ns[r].id] == r
    {
      ChildrenOfBuilt(ns, rank, base, cv, done, [], k);
    }
  }

  lemma BuiltParents(ns: seq<DataNode>, cv: Export, done: map<Id, Ref>)
    requires Mirrors(ns, cv.mapping, done, []) && Closed(cv.mapping, done.Keys)
    ensures forall k | k in done ::
      k in cv.mapping && done[k] < |ns| && (ns[done[k]].parent == None <==> ParentKey(cv.mapping[k]) == None)
  {
    forall k | k in done
      ensures k in cv.mapping && done[k] < |ns| && (ns[done[k]].parent == None <==> ParentKey(cv.mapping[k]) == None)
    {
      assert k !in [] && ns[done[k]].parent == LinkedParent(cv.mapping, done, k);
    }
  }

  lemma BuiltChildren(ns: seq<DataNode>, rank: seq<nat>, cv: Export, done: map<Id, Ref>)
    requires Wf(ns, rank) && Mirrors(ns, cv.mapping, done, []) && Closed(cv.mapping, done.Keys)
    ensures forall k, c | k in done && c in cv.mapping[k].children :: c in done && done[c] in ns[done[k]].children
  {
    forall k, c | k in done && c in cv.mapping[k].children ensures c in done && done[c] in ns[done[k]].children {
      LinkedUnderParent(cv, done, k, c);
      assert ns[done[c]].parent == Some(done[k]) by {
        assert c !in [];
      }
      ChildLinked(ns, rank, done[k], done[c]);
    }
  }

  lemma LinkedUnderParent(cv: Export, done: map<Id, Ref>, k: Id, c: Id)
    requires Closed(cv.mapping, done.Keys) && k in done && k in cv.mapping
    requires c in cv.mapping[k].children
    ensures c in done && c in cv.mapping && LinkedParent(cv.mapping, done, c) == Some(done[k])
  {
  }

  lemma ChildLinked(ns: seq<DataNode>, rank: seq<nat>, p: Ref, c: Ref)
    requires Wf(ns, rank) && p < |ns| && c < |ns| && ns[c].parent == Some(p)
    ensures c in ns[p].children
  {
  }

  /** A built root for `cv`: a parentless node of `cv`'s title, made from a fragment of
      `cv` that names no parent. */
  ghost predicate RootFor(ns: seq<DataNode>, r: Ref, cv: Export) {
    && r < |ns| && ns[r].parent == None && ns[r].title == cv.title
    && ns[r].id in cv.mapping && ParentKey(cv.mapping[ns[r].id]) == None
    && ns[r].(parent := None, children := []) == MakeNode(cv.mapping[ns[r].id], cv.title)
  }

  /** A built node's parent is a built node too. */
  lemma ParentOfBuilt(ns: seq<DataNode>, rank: seq<nat>, base: nat, cv: Export,
                      done: map<Id, Ref>, r: Ref)
    requires Stage(ns, rank, base, cv, done, [])
    requires base <= r < |ns| && ns[r].parent.Some?
    ensures base <= ns[r].parent.value < |ns|
  {
    var m := cv.mapping;
    var k := ns[r].id;
    assert k in done && done[k] == r && k !in [];
    assert ns[r].parent == LinkedParent(m, done, k);
    var pk := ParentKey(m[k]).value;
    assert pk in done && ns[r].parent.value == done[pk];
  }

  /** The root the walk up reaches is a built node whose fragment names no parent. */
  lemma BuiltRoot(ns: seq<DataNode>, rank: seq<nat>, base: nat, cv: Export,
                  done: map<Id, Ref>, root: Ref)
    requires Built(ns, rank, base, cv.mapping, cv.title, done)
    requires Mirrors(ns, cv.mapping, done, []) && Closed(cv.mapping, done.Keys)
    requires base <= root < |ns| && ns[root].parent == None
    ensures RootFor(ns, root, cv)
  {
    var k := ns[root].id;
    assert k in done && done[k] == root && k !in [] && LinkedParent(cv.mapping, done, k) == None;
    assert ns[root].(parent := None, children := []).title == MakeNode(cv.mapping[k], cv.title).title;
  }

  /** The walk up from a node of the conversation stays among its nodes. */
  lemma {:induction false} RootOfBuilt(ns: seq<DataNode>, rank: seq<nat>, base: nat, cv: Export,
                                       done: map<Id, Ref>, r: Ref)
    requires Wf(ns, rank) && Stage(ns, rank, base, cv, done, [])
    requires base <= r < |ns|
    ensures base <= RootOf(ns, rank, r)
    decreases rank[r]
  {
    if ns[r].parent.Some? {
      ParentOfBuilt(ns, rank, base, cv, done, r);
      RootOfBuilt(ns, rank, base, cv, done, ns[r].parent.value);
    }
  }

  /** A parentless node of a conversation whose fragments are all built is the node of
      a fragment that names no parent. */
  lemma ParentlessBuilt(ns: seq<DataNode>, rank: seq<nat>, base: nat, cv: Export,
                        done: map<Id, Ref>, r: Ref)
    requires Stage(ns, rank, base, cv, done, []) && done.Keys == cv.mapping.Keys
    requires base <= r < |ns| && ns[r].parent == None
    ensures var k := ns[r].id; k in cv.mapping && done[k] == r && ParentKey(cv.mapping[k]) == None
  {
    var m := cv.mapping;
    var k := ns[r].id;
    assert k in done && done[k] == r && k !in [];
    assert LinkedParent(m, done, k) == None;
  }

  /** Once every fragment of a connected record is built, the walk up from any of its
      nodes ends at the same root, and that root is the record's only parentless node. */
  lemma SameRoot(ns: seq<DataNode>, rank: seq<nat>, base: nat, cv: Export,
                 done: map<Id, Ref>, root: Ref, r: Ref)
    requires Wf(ns, rank) && Stage(ns, rank, base, cv, done, [])
    requires Connected(cv.mapping) && done.Keys == cv.mapping.Keys
    requires base <= root < |ns| && ns[root].parent == None
    requires base <= r < |ns|
    ensures RootOf(ns, rank, r) == root
    ensures ns[r].parent == None ==> r == root
  {
    var t := RootOf(ns, rank, r);
    RootOfBuilt(ns, rank, base, cv, done, r);
    ParentlessBuilt(ns, rank, base, cv, done, t);
    ParentlessBuilt(ns, rank, base, cv, done, root);
    OneRootFragment(cv, ns[t].id, ns[root].id);
  }

  /** The node just made for `curr` can join the built node of its parent fragment: the
      link `assign_child` makes is allowed, and it is the one `curr`'s fragment calls for. */
  lemma ParentLinkable(ns: seq<DataNode>, rank: seq<nat>, base: nat, cv: Export,
                       built: map<Id, Ref>, after: map<Id, Ref>, curr: Id, node: Ref, pid: Id)
    requires Wf(ns, rank)
    requires node == |ns| - 1 && curr in cv.mapping && curr !in built && after == built[curr := node]
    requires pid in built && cv.mapping[curr].parent == Some(pid)
    requires Stage(ns, rank, base, cv, after, [curr] + cv.mapping[curr].children)
    ensures var p := built[pid];
      && base <= p < node && ns[node].parent == None && rank[p] < rank[node]
      && Insertable(ns, ns[p].children, node) && (forall d | d in ns[p].children :: ns[d].id != ns[node].id)
      && curr in after && after[curr] == node && curr !in cv.mapping[curr].children
      && LinkedParent(cv.mapping, after, curr) == Some(p)
  {
    var m := cv.mapping;
    var except := [curr] + m[curr].children;
    assert curr in after && after[curr] == node;
    NotOwnRelative(cv, curr);
    assert ParentKey(m[curr]) == Some(pid) && pid != curr;
    var p := built[pid];
    assert pid in after && after[pid] == p && base <= p < |ns| && p != node;
    assert rank[p] < rank[node] by {
      var level := Levels(cv.mapping);
      LevelsRanked(cv.mapping);
      assert rank[p] == level[pid] && rank[node] == level[curr];
      assert level[pid] < level[curr];
    }
    assert ns[node].parent == None by {
      assert curr in except;
    }
    CanLinkUnder(ns, rank, base, cv, after, except, pid, curr);
  }

  /** The already built node of child fragment `cids[i]` can join the node just made for
      `curr`: the link `assign_parent` makes is allowed, and it is the one the child's
      fragment calls for. */
  lemma ChildLinkable(ns: seq<DataNode>, rank: seq<nat>, base: nat, cv: Export,
                      built: map<Id, Ref>, after: map<Id, Ref>, curr: Id, node: Ref, cids: seq<Id>, i: nat)
    requires Wf(ns, rank)
    requires node == |ns| - 1 && curr in cv.mapping && curr !in built && after == built[curr := node]
    requires cids == cv.mapping[curr].children && i < |cids| && cids[i] in built
    requires Stage(ns, rank, base, cv, after, cids[i..])
    ensures var c := built[cids[i]];
      && base <= c < node && ns[c].parent == None && rank[node] < rank[c]
      && Insertable(ns, ns[node].children, c) && (forall d | d in ns[node].children :: ns[d].id != ns[c].id)
      && cids[i..] == [cids[i]] + cids[i + 1..] && cids[i] !in cids[i + 1..]
      && cids[i] in after && after[cids[i]] == c
      && LinkedParent(cv.mapping, after, cids[i]) == Some(node)
  {
    var m := cv.mapping;
    var cid := cids[i];
    NotOwnRelative(cv, curr);
    LevelBelowChild(cv, curr, cid);
    HeadTail(cids, i);
    NoDupAfter(cids, i);
    assert curr in after && after[curr] == node && ns[node].id == curr;
    assert cid != curr && cid in after && after[cid] == built[cid];
    var c := built[cid];
    assert base <= c < |ns| && ns[c].id == cid;
    assert c != node;
    assert rank[node] < rank[c] by {
      var level := Levels(cv.mapping);
      assert rank[node] == level[curr] && rank[c] == level[cid];
    }
    assert ns[c].parent == None by {
      assert cid in cids[i..];
    }
    CanLinkUnder(ns, rank, base, cv, after, cids[i..], curr, cid);
  }

  /** Linking the pending node `c` of `k` under the node `p` its fragment calls for keeps
      the build state, with `k` no longer pending, and leaves the nodes made before `base`
      alone. */
  lemma AttachKeepsStage(ns: seq<DataNode>, rank: seq<nat>, base: nat, cv: Export,
                         done: map<Id, Ref>, k: Id, rest: seq<Id>, p: Ref, c: Ref)
    requires Stage(ns, rank, base, cv, done, [k] + rest)
    requires k in done && done[k] == c && k !in rest
    requires base <= p < |ns| && p != c
    requires Insertable(ns, ns[p].children, c)
    requires LinkedParent(cv.mapping, done, k) == Some(p)
    ensures Stage(Attach(ns, p, c), rank, base, cv, done, rest)
    ensures forall x | 0 <= x < base :: Attach(ns, p, c)[x] == ns[x]
  {
    AttachFields(ns, p, c);
    AttachKeepsBuilt(ns, rank, base, cv.mapping, cv.title, done, p, c);
    assert forall k1, k2 | k1 in done && k2 in done && k1 != k2 :: done[k1] != done[k2] by {
      forall k1, k2 | k1 in done && k2 in done && k1 != k2 ensures done[k1] != done[k2] {
        assert ns[done[k1]].id == k1 && ns[done[k2]].id == k2;
      }
    }
    AttachKeepsMirrors(ns, cv.mapping, done, k, rest, p);
  }

  /** Once every child id has been looked at, none waits for a link, the queue is the
      whole loop's result, and each child is built or queued. */
  lemma AllHandled(ns: seq<DataNode>, rank: seq<nat>, base: nat, cv: Export, built: map<Id, Ref>,
                   done: map<Id, Ref>, cids: seq<Id>, q0: seq<Id>, queue: seq<Id>)
    requires Stage(ns, rank, base, cv, done, cids[|cids|..])
    requires built.Keys <= done.Keys && forall c | c in cids :: c in cv.mapping
    requires queue == QueueChildren(cids[..|cids|], built, q0)
    ensures Stage(ns, rank, base, cv, done, [])
    ensures queue == QueueChildren(cids, built, q0)
    ensures forall c | c in cids :: c in done || c in queue
  {
    assert cids[|cids|..] == [];
    assert cids[..|cids|] == cids;
    forall c | c in cids
      ensures c in done || c in queue
    {
      assert c != "";
    }
  }

  /** Building a fragment not built yet leaves fewer to build. */
  lemma Shrinks(m: map<Id, Fragment>, built: map<Id, Ref>, curr: Id, r: Ref)
    requires curr in m && curr !in built
    ensures m.Keys - built[curr := r].Keys < m.Keys - built.Keys
  {
    assert curr in m.Keys - built.Keys;
  }

  /** Taking `curr` off the front of the queue: it is a fragment not built yet, and the
      rest of the queue stays valid once `curr` is built. */

  lemma Dequeue(m: map<Id, Fragment>, built: map<Id, Ref>, curr: Id, queue: seq<Id>, r: Ref)
    requires QueueOk([curr] + queue, m, built)
    ensures curr in m && curr !in built && curr !in queue
    ensures QueueOk(queue, m, built[curr := r])
  {
    var q := [curr] + queue;
    assert q[0] == curr && curr in q;
    NoDupCons(curr, queue);
    assert forall x | x in queue :: x in q;
  }

  /** Queueing a fragment that is neither built nor queued keeps the queue valid. */
  lemma Enqueue(m: map<Id, Fragment>, done: map<Id, Ref>, queue: seq<Id>, x: Id)
    requires QueueOk(queue, m, done) && x in m && x !in done && x !in queue
    ensures QueueOk(queue + [x], m, done)
  {
    NoDupSnoc(queue, x);
    assert forall y | y in queue + [x] :: y == x || y in queue;
  }

  /** A child fragment not built yet: its id is a fragment of the mapping that has no
      node, and it leaves the pending list without a link. */
  lemma ChildUnbuilt(ns: seq<DataNode>, cv: Export, built: map<Id, Ref>, after: map<Id, Ref>,
                     curr: Id, node: Ref, cids: seq<Id>, i: nat)
    requires curr in cv.mapping && curr !in built && after == built[curr := node]
    requires cids == cv.mapping[curr].children && i < |cids| && cids[i] !in built
    requires Mirrors(ns, cv.mapping, after, cids[i..]) && Pending(ns, after, cids[i..])
    ensures cids[i] in cv.mapping && cids[i] !in after && cids[i] != ""
    ensures Mirrors(ns, cv.mapping, after, cids[i + 1..]) && Pending(ns, after, cids[i + 1..])
  {
    var cid := cids[i];
    HeadTail(cids, i);
    NotOwnRelative(cv, curr);
    assert cid in cids;
    Unlinked(ns, cv.mapping, after, cid, cids[i + 1..]);
  }

  /** The queue after a turn's parent test: the fragment's parent id is appended when it
      is truthy and neither built nor queued. */
  function QueueParent(f: Fragment, built: map<Id, Ref>, queue: seq<Id>): (r: seq<Id>)
    ensures |queue| <= |r| <= |queue| + 1 && r[..|queue|] == queue
    ensures forall x | x in r :: x in queue || ParentKey(f) == Some(x)
    ensures forall x :: ParentKey(f) == Some(x) && x !in built ==> x in r
  {
    match ParentKey(f)
    case Some(p) => if p !in built && p !in queue then queue + [p] else queue
    case None => queue
  }

  /** The queue after a turn's loop over child ids `cs`, in child order: each id neither
      built nor queued by then, and truthy, is appended. */
  function QueueChildren(cs: seq<Id>, built: map<Id, Ref>, queue: seq<Id>): (r: seq<Id>)
    ensures |queue| <= |r| && r[..|queue|] == queue
    ensures forall x | x in r :: x in queue || x in cs
    ensures forall x | x in cs && x !in built && x != "" :: x in r
  {
    if cs == [] then queue
    else
      var c := cs[|cs| - 1];
      var q := QueueChildren(cs[..|cs| - 1], built, queue);
      assert cs == cs[..|cs| - 1] + [c];
      assert forall x | x in cs :: x in cs[..|cs| - 1] || x == c;
      if c !in built && c !in q && c != "" then q + [c] else q
  }

  /** The queue after a whole turn for `curr`: its parent id, then its child ids. */
  function QueueTurn(m: map<Id, Fragment>, built: map<Id, Ref>, curr: Id, queue: seq<Id>): (r: seq<Id>)
    requires curr in m
    ensures |queue| <= |r| && r[..|queue|] == queue
    ensures forall x | x in r :: x in queue || ParentKey(m[curr]) == Some(x) || x in m[curr].children
  {
    QueueChildren(m[curr].children, built, QueueParent(m[curr], built, queue))
  }

  /** Looking at one more child id extends the loop over the ones before it. */
  lemma QueueChildrenStep(cs: seq<Id>, i: nat, built: map<Id, Ref>, queue: seq<Id>, q: seq<Id>)
    requires i < |cs| && q == QueueChildren(cs[..i], built, queue)
    ensures (if cs[i] !in built && cs[i] !in q && cs[i] != "" then q + [cs[i]] else q)
      == QueueChildren(cs[..i + 1], built, queue)
  {
    assert cs[..i + 1][..i] == cs[..i] && cs[..i + 1][i] == cs[i];
  }

  /** Every set of ids closed under links that holds `seed` holds `ids` too: `ids` lies
      within the part of the mapping reachable from `seed`. */
  ghost predicate Confined(m: map<Id, Fragment>, seed: Id, ids: set<Id>) {
    forall s: set<Id> | seed in s && Closed(m, s) :: ids <= s
  }

  /** One turn keeps the built and queued ids within reach of the seed: `curr` was in
      reach, and it queues only its own relatives. */
  lemma ConfinedStep(m: map<Id, Fragment>, seed: Id, done: map<Id, Ref>, curr: Id, node: Ref,
                     q0: seq<Id>, queue: seq<Id>)
    requires curr in m && Confined(m, seed, done.Keys + set x | x in [curr] + q0)
    requires queue == QueueTurn(m, done, curr, q0)
    ensures Confined(m, seed, done[curr := node].Keys + set x | x in queue)
  {
    forall s: set<Id> | seed in s && Closed(m, s)
      ensures done[curr := node].Keys + (set x | x in queue) <= s
    {
      assert curr in [curr] + q0;
      assert forall x | x in q0 :: x in [curr] + q0;
      assert curr in s && m[curr].children == m[curr].children;
      forall x | x in queue
        ensures x in s
      {
      }
    }
  }

  /** The nodes `done` gives the fragments of one record form the tree the mapping
      describes, whatever else the heap holds: the fragments reachable from the record's
      first key and no others, each with a node made from it, each node pointing to the
      node of its fragment's parent, and each node's children exactly the nodes of its
      fragment's child ids. */
  ghost predicate Shaped(ns: seq<DataNode>, cv: Export, done: map<Id, Ref>) {
    var m := cv.mapping;
    && cv.keys[0] in done && Closed(m, done.Keys) && Confined(m, cv.keys[0], done.Keys)
    && (forall k {:trigger done[k]} | k in done ::
          && k in m && done[k] < |ns| && ns[done[k]].id == k
          && ns[done[k]].(parent := None, children := []) == MakeNode(m[k], cv.title))
    && (forall k | k in done :: ns[done[k]].parent == LinkedParent(m, done, k))
    && (forall k, c | k in done && c in m[k].children :: c in done && done[c] in ns[done[k]].children)
    && (forall k, r | k in done && r in ns[done[k]].children ::
          r < |ns| && ns[r].id in m[k].children && done[ns[r].id] == r)
  }

  /** The nodes from `lo` up to `hi` are exactly those `done` names, one per id. */
  ghost predicate Spans(ns: seq<DataNode>, lo: nat, hi: nat, done: map<Id, Ref>) {
    && lo + |done| == hi <= |ns|
    && (forall k {:trigger done[k]} | k in done :: lo <= done[k] < hi)
    && (forall r | lo <= r < hi :: ns[r].id in done && done[ns[r].id] == r)
  }

  /** `root` is the root of the whole tree built for `cv` in the nodes from `lo` up to
      `hi`: those nodes are the tree, one node for each fragment reachable from the first
      key (for a connected record, every fragment) and for no other, and `root` is the
      node of the fragment the climb from the first key ends at. */
  ghost predicate TreeFor(ns: seq<DataNode>, lo: nat, hi: nat, root: Ref, cv: Export) {
    exists done: map<Id, Ref> ::
      && Shaped(ns, cv, done)
      && Spans(ns, lo, hi, done)
      && (Connected(cv.mapping) ==> done.Keys == cv.mapping.Keys)
      && Summit(cv.mapping, cv.keys[0], |cv.mapping|) in done
      && root == done[Summit(cv.mapping, cv.keys[0], |cv.mapping|)]
  }

  /** The nodes from `lo` on are the tree for `cv` and nothing else, and `root`, made
      among them, is the root the record's tree hangs from. */
  ghost predicate Grown(ns: seq<DataNode>, lo: nat, root: Ref, cv: Export) {
    lo <= root && RootFor(ns, root, cv) && TreeFor(ns, lo, |ns|, root, cv)
  }

  /** The walk up from a built node ends at the node of the fragment its fragment's
      climb ends at. */
  lemma {:induction false} RootIsSummit(ns: seq<DataNode>, rank: seq<nat>, base: nat, cv: Export,
                                        done: map<Id, Ref>, k: Id)
    requires Wf(ns, rank) && Stage(ns, rank, base, cv, done, [])
    requires Closed(cv.mapping, done.Keys) && k in done
    ensures Summit(cv.mapping, k, |cv.mapping|) in done
    ensures RootOf(ns, rank, done[k]) == done[Summit(cv.mapping, k, |cv.mapping|)]
    decreases rank[done[k]]
  {
    var m := cv.mapping;
    assert k !in [] && ns[done[k]].parent == LinkedParent(m, done, k);
    if ParentKey(m[k]).Some? {
      var p := ParentKey(m[k]).value;
      assert p in done;
      RootIsSummit(ns, rank, base, cv, done, p);
      assert Acyclic(m);
      AcyclicAt(m, k);
      SummitShared(m, p, k);
    } else {
      assert Summit(m, k, |m|) == k;
    }
  }

  /** A finished build of a record from its first key is the tree `TreeFor` describes,
      rooted where the walk up from the first key's node ends. */
  lemma TreeForBuilt(ns: seq<DataNode>, rank: seq<nat>, base: nat, cv: Export,
                     done: map<Id, Ref>, root: Ref)
    requires Wf(ns, rank) && Stage(ns, rank, base, cv, done, [])
    requires Closed(cv.mapping, done.Keys) && Confined(cv.mapping, cv.keys[0], done.Keys)
    requires cv.keys[0] in done && root == RootOf(ns, rank, done[cv.keys[0]])
    ensures TreeFor(ns, base, |ns|, root, cv)
    ensures Connected(cv.mapping) ==> done.Keys == cv.mapping.Keys
  {
    var m := cv.mapping;
    BuiltTreeMirrors(ns, rank, base, cv, done);
    RootIsSummit(ns, rank, base, cv, done, cv.keys[0]);
    forall k | k in done
      ensures ns[done[k]].parent == LinkedParent(m, done, k)
    {
      assert k !in [];
    }
    if Connected(m) {
      ClosedCovers(m, done.Keys);
    }
    assert Shaped(ns, cv, done);
    assert Spans(ns, base, |ns|, done);
  }

  /** Nodes added after the ones `done` names, with those left as they were, keep the
      shape. */
  lemma ShapedKept(ns: seq<DataNode>, ns': seq<DataNode>, cv: Export, done: map<Id, Ref>)
    requires |ns| <= |ns'| && forall x | 0 <= x < |ns| :: ns'[x] == ns[x]
    requires Shaped(ns, cv, done)
    ensures Shaped(ns', cv, done)
  {
    var m := cv.mapping;
    forall k | k in done
      ensures done[k] < |ns| && ns'[done[k]] == ns[done[k]]
    {
    }
    forall k, r | k in done && r in ns'[done[k]].children
      ensures r < |ns'| && ns'[r].id in m[k].children && done[ns'[r].id] == r
    {
      assert r in ns[done[k]].children && r < |ns| && ns'[r] == ns[r];
    }
  }

  /** Nodes added after `hi`, with those before it left as they were, keep the span. */
  lemma SpansKept(ns: seq<DataNode>, ns': seq<DataNode>, lo: nat, hi: nat, done: map<Id, Ref>)
    requires |ns| <= |ns'| && forall x | 0 <= x < |ns| :: ns'[x] == ns[x]
    requires Spans(ns, lo, hi, done)
    ensures Spans(ns', lo, hi, done)
  {
    forall r | lo <= r < hi
      ensures ns'[r] == ns[r]
    {
    }
  }

  /** What the walk up from the first key's node finds once the worklist is empty: a
      root for the record, at the top of the tree `TreeFor` describes, and for a connected
      record the one root every node of the record leads up to. */
  lemma BuildFinished(ns: seq<DataNode>, rank: seq<nat>, base: nat, cv: Export,
                      done: map<Id, Ref>, root: Ref)
    requires Wf(ns, rank) && Stage(ns, rank, base, cv, done, [])
    requires Closed(cv.mapping, done.Keys) && Confined(cv.mapping, cv.keys[0], done.Keys)
    requires cv.keys[0] in done && root == RootOf(ns, rank, done[cv.keys[0]]) && base <= root
    ensures RootFor(ns, root, cv) && TreeFor(ns, base, |ns|, root, cv)
    ensures Connected(cv.mapping) ==> done.Keys == cv.mapping.Keys
    ensures Connected(cv.mapping) ==> forall r | base <= r < |ns| :: RootOf(ns, rank, r) == root
  {
    TreeForBuilt(ns, rank, base, cv, done, root);
    BuiltRoot(ns, rank, base, cv, done, root);
    if Connected(cv.mapping) {
      AllSameRoot(ns, rank, base, cv, done, root);
    }
  }

  /** `SameRoot` for every node of the record. */
  lemma AllSameRoot(ns: seq<DataNode>, rank: seq<nat>, base: nat, cv: Export,
                    done: map<Id, Ref>, root: Ref)
    requires Wf(ns, rank) && Stage(ns, rank, base, cv, done, [])
    requires Connected(cv.mapping) && done.Keys == cv.mapping.Keys
    requires base <= root < |ns| && ns[root].parent == None
    ensures forall r | base <= r < |ns| :: RootOf(ns, rank, r) == root
  {
    forall r | base <= r < |ns|
      ensures RootOf(ns, rank, r) == root
    {
      SameRoot(ns, rank, base, cv, done, root, r);
    }
  }
}

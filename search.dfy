/** What `search_down` computes, as reference definitions: substring containment, the
    pre-order listing of a subtree, and the part of a listing a search reports. */
module Search {
  import opened Fragments
  import opened Nodes
  import opened Forest

  /** `s` sits in `text` starting at offset `i`. */
  predicate OccursAt(text: string, s: string, i: nat) {
    i + |s| <= |text| && text[i..i + |s|] == s
  }

  /** Python's `s in text` on strings: `s` occurs in `text` at some offset. */
  function Contains(text: string, s: string): (b: bool)
    ensures b <==> exists i: nat :: OccursAt(text, s, i)
    decreases |text|
  {
    if |s| > |text| then false
    else if text[..|s|] == s then assert OccursAt(text, s, 0); true
    else
      var b := Contains(text[1..], s);
      assert b ==> exists i: nat :: OccursAt(text, s, i) by {
        if b {
          var i: nat :| OccursAt(text[1..], s, i);
          assert text[1..][i..i + |s|] == text[i + 1..i + 1 + |s|];
          assert OccursAt(text, s, i + 1);
        }
      }
      assert (exists i: nat :: OccursAt(text, s, i)) ==> b by {
        if exists i: nat :: OccursAt(text, s, i) {
          var i: nat :| OccursAt(text, s, i);
          assert i > 0;
          assert text[1..][i - 1..i - 1 + |s|] == text[i..i + |s|];
          assert OccursAt(text[1..], s, i - 1);
        }
      }
      b
  }

  /** A node `search_down` reports: valid, with `s` in its content. */
  predicate Matches(n: DataNode, s: string) {
    n.IsValid() && Contains(n.body.value.content, s)
  }

  /** The subtree of `x` in pre-order: `x`, then each child's subtree in children order. */
  ghost function PreOrder(ns: seq<DataNode>, rank: seq<nat>, x: Ref): (vs: seq<Ref>)
    requires Wf(ns, rank) && x < |ns|
    ensures |vs| > 0 && vs[0] == x
    ensures forall i | 0 <= i < |vs| :: vs[i] < |ns|
    decreases Top(rank) - rank[x], 1, 0
  {
    ChildrenOf(ns, rank, x);
    [x] + PreOrderEach(ns, rank, x, ns[x].children)
  }

  /** The subtrees of `cs`, children of `x`, one after the other. */
  ghost function PreOrderEach(ns: seq<DataNode>, rank: seq<nat>, x: Ref, cs: seq<Ref>): (vs: seq<Ref>)
    requires Wf(ns, rank) && x < |ns|
    requires forall i | 0 <= i < |cs| :: cs[i] < |ns| && ns[cs[i]].parent == Some(x)
    ensures forall i | 0 <= i < |vs| :: vs[i] < |ns|
    decreases Top(rank) - rank[x], 0, |cs|
  {
    if cs == [] then []
    else
      var c := cs[|cs| - 1];
      assert rank[x] < rank[c];
      PreOrderEach(ns, rank, x, cs[..|cs| - 1]) + PreOrder(ns, rank, c)
  }

  /** The entries of `vs` a search for `s` keeps, in their order. */
  function Found(ns: seq<DataNode>, vs: seq<Ref>, s: string): (r: seq<Ref>)
    requires forall i | 0 <= i < |vs| :: vs[i] < |ns|
    ensures forall i | 0 <= i < |r| :: r[i] < |ns| && Matches(ns[r[i]], s)
    ensures forall v | v in vs :: v in r <==> Matches(ns[v], s)
    ensures forall v | v in r :: v in vs
  {
    if vs == [] then []
    else
      var r := Found(ns, vs[..|vs| - 1], s);
      var v := vs[|vs| - 1];
      assert forall w | w in vs :: w == v || w in vs[..|vs| - 1];
      if Matches(ns[v], s) then r + [v] else r
  }

  /** Searching two listings one after the other finds what searching their concatenation finds. */
  lemma {:induction false} FoundAppend(ns: seq<DataNode>, a: seq<Ref>, b: seq<Ref>, s: string)
    requires forall i | 0 <= i < |a| :: a[i] < |ns|
    requires forall i | 0 <= i < |b| :: b[i] < |ns|
    ensures forall i | 0 <= i < |a + b| :: (a + b)[i] < |ns|
    ensures Found(ns, a + b, s) == Found(ns, a, s) + Found(ns, b, s)
    decreases |b|
  {
    assert forall i | 0 <= i < |a + b| :: (a + b)[i] < |ns| by {
      forall i | 0 <= i < |a + b| ensures (a + b)[i] < |ns| {
        if i >= |a| { assert (a + b)[i] == b[i - |a|]; }
      }
    }
    if b == [] {
      assert a + b == a;
    } else {
      var b' := b[..|b| - 1];
      FoundAppend(ns, a, b', s);
      assert (a + b)[..|a + b| - 1] == a + b';
    }
  }

  /** Before any child is searched, a search from `x` has found `x` itself if it matches. */
  lemma SearchStart(ns: seq<DataNode>, rank: seq<nat>, x: Ref, s: string)
    requires Wf(ns, rank) && x < |ns|
    ensures Found(ns, [x] + PreOrderEach(ns, rank, x, ns[x].children[..0]), s) ==
      if Matches(ns[x], s) then [x] else []
  {
    ChildrenOf(ns, rank, x);
    assert [x] + PreOrderEach(ns, rank, x, ns[x].children[..0]) == [x];
    assert [x][..0] == [];
  }

  /** Searching one more child appends that child's search. */
  lemma SearchStep(ns: seq<DataNode>, rank: seq<nat>, x: Ref, cs: seq<Ref>, i: nat, s: string)
    requires Wf(ns, rank) && x < |ns| && i < |cs|
    requires forall j | 0 <= j < |cs| :: cs[j] < |ns| && ns[cs[j]].parent == Some(x)
    ensures Found(ns, [x] + PreOrderEach(ns, rank, x, cs[..i + 1]), s) ==
      Found(ns, [x] + PreOrderEach(ns, rank, x, cs[..i]), s) + Found(ns, PreOrder(ns, rank, cs[i]), s)
  {
    var each := PreOrderEach(ns, rank, x, cs[..i]);
    var sub := PreOrder(ns, rank, cs[i]);
    assert [x] + PreOrderEach(ns, rank, x, cs[..i + 1]) == ([x] + each) + sub by {
      EachSnoc(ns, rank, x, cs, i);
    }
    assert Found(ns, ([x] + each) + sub, s) == Found(ns, [x] + each, s) + Found(ns, sub, s) by {
      FoundAppend(ns, [x] + each, sub, s);
    }
  }

  lemma EachSnoc(ns: seq<DataNode>, rank: seq<nat>, x: Ref, cs: seq<Ref>, i: nat)
    requires Wf(ns, rank) && x < |ns| && i < |cs|
    requires forall j | 0 <= j < |cs| :: cs[j] < |ns| && ns[cs[j]].parent == Some(x)
    ensures PreOrderEach(ns, rank, x, cs[..i + 1]) == PreOrderEach(ns, rank, x, cs[..i]) + PreOrder(ns, rank, cs[i])
  {
    assert cs[..i + 1][..i] == cs[..i];
  }

  /** A child's subtree lies inside the listing of its siblings' subtrees. */
  lemma {:induction false} EachMembers(ns: seq<DataNode>, rank: seq<nat>, x: Ref, cs: seq<Ref>, r: Ref)
    requires Wf(ns, rank) && x < |ns|
    requires forall i | 0 <= i < |cs| :: cs[i] < |ns| && ns[cs[i]].parent == Some(x)
    ensures r in PreOrderEach(ns, rank, x, cs) <==>
      exists i | 0 <= i < |cs| :: r in PreOrder(ns, rank, cs[i])
    decreases |cs|
  {
    if cs != [] {
      var cs' := cs[..|cs| - 1];
      EachMembers(ns, rank, x, cs', r);
      if exists i | 0 <= i < |cs| :: r in PreOrder(ns, rank, cs[i]) {
        var i :| 0 <= i < |cs| && r in PreOrder(ns, rank, cs[i]);
        if i < |cs| - 1 { assert cs'[i] == cs[i]; }
      }
      if exists i | 0 <= i < |cs'| :: r in PreOrder(ns, rank, cs'[i]) {
        var i :| 0 <= i < |cs'| && r in PreOrder(ns, rank, cs'[i]);
        assert cs[i] == cs'[i];
      }
    }
  }

  /** A node's children are all in its subtree listing, with their own subtrees. */
  lemma ChildSubtree(ns: seq<DataNode>, rank: seq<nat>, x: Ref, c: Ref, r: Ref)
    requires Wf(ns, rank) && x < |ns| && c < |ns| && ns[c].parent == Some(x)
    requires r in PreOrder(ns, rank, c)
    ensures r in PreOrder(ns, rank, x)
  {
    var cs := ns[x].children;
    ChildrenOf(ns, rank, x);
    assert c in cs;
    var i :| 0 <= i < |cs| && cs[i] == c;
    EachMembers(ns, rank, x, cs, r);
  }

  /** Subtrees nest: a node listed under `q`, itself listed under `x`, is listed under `x`. */
  lemma {:induction false} PreOrderTrans(ns: seq<DataNode>, rank: seq<nat>, x: Ref, q: Ref, r: Ref)
    requires Wf(ns, rank) && x < |ns| && q < |ns|
    requires q in PreOrder(ns, rank, x) && r in PreOrder(ns, rank, q)
    ensures r in PreOrder(ns, rank, x)
    decreases Top(rank) - rank[x]
  {
    if q != x {
      var cs := ns[x].children;
      ChildrenOf(ns, rank, x);
      EachMembers(ns, rank, x, cs, q);
      var i :| 0 <= i < |cs| && q in PreOrder(ns, rank, cs[i]);
      assert rank[x] < rank[cs[i]];
      PreOrderTrans(ns, rank, cs[i], q, r);
      ChildSubtree(ns, rank, x, cs[i], r);
    }
  }

  /** An ancestor's parent is an ancestor too. */
  lemma {:induction false} SpineUpward(ns: seq<DataNode>, rank: seq<nat>, r: Ref, a: Ref)
    requires Wf(ns, rank) && r < |ns| && a < |ns|
    requires a in Spine(ns, rank, r) && ns[a].parent.Some?
    ensures ns[a].parent.value in Spine(ns, rank, r)
    decreases rank[r]
  {
    var q := ns[r].parent.value;
    assert Spine(ns, rank, r) == Spine(ns, rank, q) + [q];
    if a != q {
      SpineUpward(ns, rank, q, a);
    }
  }

  /** The pre-order listing of `x` holds exactly `x` and the nodes `x` is an ancestor of. */
  lemma {:induction false} PreOrderIsSubtree(ns: seq<DataNode>, rank: seq<nat>, x: Ref, r: Ref)
    requires Wf(ns, rank) && x < |ns| && r < |ns|
    ensures r in PreOrder(ns, rank, x) <==> r == x || x in Spine(ns, rank, r)
    decreases Top(rank) - rank[x]
  {
    if r in PreOrder(ns, rank, x) && r != x {
      var cs := ns[x].children;
      ChildrenOf(ns, rank, x);
      EachMembers(ns, rank, x, cs, r);
      var i :| 0 <= i < |cs| && r in PreOrder(ns, rank, cs[i]);
      var c := cs[i];
      assert rank[x] < rank[c];
      PreOrderIsSubtree(ns, rank, c, r);
      if r == c {
        assert Spine(ns, rank, c) == Spine(ns, rank, x) + [x];
      } else {
        SpineUpward(ns, rank, r, c);
      }
    }
    if x in Spine(ns, rank, r) {
      UnderAncestor(ns, rank, x, r);
    }
  }

  lemma {:induction false} UnderAncestor(ns: seq<DataNode>, rank: seq<nat>, x: Ref, r: Ref)
    requires Wf(ns, rank) && x < |ns| && r < |ns|
    requires x in Spine(ns, rank, r)
    ensures r in PreOrder(ns, rank, x)
    decreases rank[r]
  {
    var q := ns[r].parent.value;
    assert Spine(ns, rank, r) == Spine(ns, rank, q) + [q];
    assert r in PreOrder(ns, rank, r);
    if x == q {
      ChildSubtree(ns, rank, x, r, r);
    } else {
      UnderAncestor(ns, rank, x, q);
      ChildSubtree(ns, rank, q, r, r);
      PreOrderTrans(ns, rank, x, q, r);
    }
  }

  /** A search from `x` reports exactly the matching nodes of `x`'s subtree. */
  lemma SearchFindsSubtreeMatches(ns: seq<DataNode>, rank: seq<nat>, x: Ref, s: string, r: Ref)
    requires Wf(ns, rank) && x < |ns| && r < |ns|
    ensures r in Found(ns, PreOrder(ns, rank, x), s) <==>
      Matches(ns[r], s) && (r == x || x in Spine(ns, rank, r))
  {
    PreOrderIsSubtree(ns, rank, x, r);
  }

  /** The searches of several trees, one after the other. */
  ghost function FoundInAll(ns: seq<DataNode>, rank: seq<nat>, trees: seq<Ref>, s: string): (r: seq<Ref>)
    requires Wf(ns, rank) && forall i | 0 <= i < |trees| :: trees[i] < |ns|
    ensures forall i | 0 <= i < |r| :: r[i] < |ns|
  {
    if trees == [] then []
    else
      var t := trees[|trees| - 1];
      FoundInAll(ns, rank, trees[..|trees| - 1], s) + Found(ns, PreOrder(ns, rank, t), s)
  }

  /** Searching all trees reports a node exactly when it matches and lies in one of the trees. */
  lemma {:induction false} FoundInAllMembers(ns: seq<DataNode>, rank: seq<nat>, trees: seq<Ref>, s: string, r: Ref)
    requires Wf(ns, rank) && forall i | 0 <= i < |trees| :: trees[i] < |ns|
    requires r < |ns|
    ensures r in FoundInAll(ns, rank, trees, s) <==>
      Matches(ns[r], s) && exists t | t in trees :: r == t || t in Spine(ns, rank, r)
    decreases |trees|
  {
    if trees != [] {
      var ts := trees[..|trees| - 1];
      var t := trees[|trees| - 1];
      FoundInAllMembers(ns, rank, ts, s, r);
      SearchFindsSubtreeMatches(ns, rank, t, s, r);
      assert forall u | u in trees :: u == t || u in ts;
      assert forall u | u in ts :: u in trees;
    }
  }
}

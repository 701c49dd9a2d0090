/** One reconstructed message node (`DataNode`) and the order its siblings are kept in. */
module Nodes {
  import opened Fragments

  /** A node handle: the node's position in the heap of all nodes built so far. */
  type Ref = nat

  /** The content and ordering key a node has only when its fragment carried a message. */
  datatype Body = Body(content: string, createTime: int)

  /** A node: the fields copied from its fragment, its content when valid, and its links.
      `parent` is a back-reference; `children` is kept sorted by creation time. */
  datatype DataNode = DataNode(
    id: Id,
    title: string,
    parentId: Option<Id>,
    childrenIds: seq<Id>,
    author: string,
    body: Option<Body>,
    parent: Option<Ref>,
    children: seq<Ref>)
  {
    /** The node's `valid` flag: its fragment carried a message. */
    predicate IsValid() {
      body.Some?
    }
  }

  /** The `DataNode` constructor: copies the ids, and reads author, content and creation
      time only when the fragment has a message; no links are made yet. */
  function MakeNode(f: Fragment, title: string): (n: DataNode)
    ensures n.id == f.id && n.title == title
    ensures n.parentId == f.parent && n.childrenIds == f.children
    ensures n.IsValid() <==> f.message.Some?
    ensures !n.IsValid() ==> n.author == ""
    ensures n.IsValid() ==>
      n.author == f.message.value.role &&
      n.body.value == Body(f.message.value.content, f.message.value.createTime)
    ensures n.parent == None && n.children == []
  {
    match f.message
    case None => DataNode(f.id, title, f.parent, f.children, "", None, None, [])
    case Some(msg) =>
      DataNode(f.id, title, f.parent, f.children, msg.role, Some(Body(msg.content, msg.createTime)), None, [])
  }

  /** Node equality as the source defines it (`__eq__`): by id only. */
  predicate SameNode(a: DataNode, b: DataNode) {
    a.id == b.id
  }

  /** The source's `__lt__`: compares creation times, which only valid nodes have. */
  predicate Before(a: DataNode, b: DataNode)
    requires a.IsValid() && b.IsValid()
  {
    a.body.value.createTime < b.body.value.createTime
  }

  /** Every node of `cs` is in the heap and has a creation time. */
  ghost predicate Keyed(ns: seq<DataNode>, cs: seq<Ref>) {
    forall i | 0 <= i < |cs| :: cs[i] < |ns| && ns[cs[i]].IsValid()
  }

  function Time(ns: seq<DataNode>, r: Ref): int
    requires r < |ns| && ns[r].IsValid()
  {
    ns[r].body.value.createTime
  }

  /** A children list in ascending creation-time order. A single child needs no key. */
  ghost predicate Sorted(ns: seq<DataNode>, cs: seq<Ref>) {
    |cs| <= 1 ||
    (Keyed(ns, cs) && forall i, j | 0 <= i < j < |cs| :: Time(ns, cs[i]) <= Time(ns, cs[j]))
  }

  /** No two entries of `cs` carry the same id (so no entry appears twice). */
  ghost predicate DistinctIds(ns: seq<DataNode>, cs: seq<Ref>) {
    forall i, j | 0 <= i < j < |cs| :: cs[i] < |ns| && cs[j] < |ns| && ns[cs[i]].id != ns[cs[j]].id
  }

  /** Inserting `c` needs no comparison (empty list) or compares only keyed nodes;
      anywhere else the source's `insort` raises. */
  ghost predicate Insertable(ns: seq<DataNode>, cs: seq<Ref>, c: Ref) {
    c < |ns| && (|cs| > 0 ==> ns[c].IsValid() && Keyed(ns, cs))
  }

  /** Reference definition of `insort` (insort-right) into a sorted list: `c` goes after
      every entry whose time is not greater than its own. */
  ghost function InsortRight(ns: seq<DataNode>, cs: seq<Ref>, c: Ref): (r: seq<Ref>)
    requires Insertable(ns, cs, c)
    ensures |r| == |cs| + 1
    ensures forall x :: x in r <==> x == c || x in cs
    ensures r[0] == c || (|cs| > 0 && r[0] == cs[0])
    decreases |cs|
  {
    if cs == [] then [c]
    else if Time(ns, c) < Time(ns, cs[0]) then [c] + cs
    else
      assert cs == [cs[0]] + cs[1..];
      [cs[0]] + InsortRight(ns, cs[1..], c)
  }

  lemma SortedTail(ns: seq<DataNode>, cs: seq<Ref>)
    requires |cs| > 0 && Sorted(ns, cs)
    ensures Sorted(ns, cs[1..])
  {
    if |cs| > 2 {
      forall i, j | 0 <= i < j < |cs| - 1
        ensures Time(ns, cs[1..][i]) <= Time(ns, cs[1..][j])
      {
        assert cs[1..][i] == cs[i + 1] && cs[1..][j] == cs[j + 1];
      }
    }
  }

  lemma SortedCons(ns: seq<DataNode>, x: Ref, cs: seq<Ref>)
    requires x < |ns| && ns[x].IsValid() && Keyed(ns, cs) && Sorted(ns, cs)
    requires |cs| > 0 && Time(ns, x) <= Time(ns, cs[0])
    ensures Sorted(ns, [x] + cs)
  {
    var s := [x] + cs;
    assert Keyed(ns, s) by {
      forall i | 0 <= i < |s| ensures s[i] < |ns| && ns[s[i]].IsValid() {
        if i > 0 { assert s[i] == cs[i - 1]; }
      }
    }
    forall i, j | 0 <= i < j < |s| ensures Time(ns, s[i]) <= Time(ns, s[j]) {
      if i > 0 {
        assert s[i] == cs[i - 1] && s[j] == cs[j - 1];
      } else if j > 1 {
        assert s[j] == cs[j - 1] && cs[0] == s[1];
      }
    }
  }

  /** Insertion keeps a children list sorted. */
  lemma {:induction false} InsortSorted(ns: seq<DataNode>, cs: seq<Ref>, c: Ref)
    requires Insertable(ns, cs, c) && Sorted(ns, cs)
    ensures Sorted(ns, InsortRight(ns, cs, c))
    decreases |cs|
  {
    if cs == [] {
    } else if Time(ns, c) < Time(ns, cs[0]) {
      SortedCons(ns, c, cs);
    } else {
      var tail := InsortRight(ns, cs[1..], c);
      SortedTail(ns, cs);
      InsortSorted(ns, cs[1..], c);
      if tail[0] != c {
        assert tail[0] == cs[1];
      }
      assert Keyed(ns, tail) by {
        forall i | 0 <= i < |tail| ensures tail[i] < |ns| && ns[tail[i]].IsValid() {
          assert tail[i] in tail;
          if tail[i] != c {
            var k :| 0 <= k < |cs[1..]| && cs[1..][k] == tail[i];
            assert cs[k + 1] == tail[i];
          }
        }
      }
      SortedCons(ns, cs[0], tail);
    }
  }

  /** The sorted insertion is exactly the split of the old list at the bisect-right point:
      every earlier child keeps its relative order and `c` lands after all equal keys. */
  lemma {:induction false} InsortSplit(ns: seq<DataNode>, cs: seq<Ref>, c: Ref, i: nat)
    requires Insertable(ns, cs, c) && ns[c].IsValid() && Keyed(ns, cs)
    requires i <= |cs|
    requires forall j | 0 <= j < i :: Time(ns, cs[j]) <= Time(ns, c)
    requires forall j | i <= j < |cs| :: Time(ns, c) < Time(ns, cs[j])
    ensures InsortRight(ns, cs, c) == cs[..i] + [c] + cs[i..]
    decreases |cs|
  {
    if cs == [] {
    } else if i == 0 {
      assert cs[..0] + [c] + cs[0..] == [c] + cs;
    } else {
      InsortSplit(ns, cs[1..], c, i - 1);
      assert cs[1..][..i - 1] == cs[1..i] && cs[1..][i - 1..] == cs[i..];
      assert cs[..i] == [cs[0]] + cs[1..i];
    }
  }

  lemma DistinctCons(ns: seq<DataNode>, x: Ref, cs: seq<Ref>)
    requires x < |ns| && DistinctIds(ns, cs)
    requires forall d | d in cs :: d < |ns| && ns[d].id != ns[x].id
    ensures DistinctIds(ns, [x] + cs)
  {
    var s := [x] + cs;
    forall i, j | 0 <= i < j < |s| ensures s[i] < |ns| && s[j] < |ns| && ns[s[i]].id != ns[s[j]].id {
      assert s[j] == cs[j - 1] && cs[j - 1] in cs;
      if i > 0 {
        assert s[i] == cs[i - 1];
        assert ns[cs[i - 1]].id != ns[cs[j - 1]].id;
      } else {
        assert ns[x].id != ns[cs[j - 1]].id;
      }
    }
    assert forall i, j | 0 <= i < j < |s| :: s[i] < |ns| && s[j] < |ns| && ns[s[i]].id != ns[s[j]].id;
    assert DistinctIds(ns, s);
  }

  lemma DistinctTail(ns: seq<DataNode>, cs: seq<Ref>)
    requires |cs| > 0 && DistinctIds(ns, cs)
    ensures DistinctIds(ns, cs[1..])
    ensures forall d | d in cs[1..] :: d < |ns| && ns[d].id != ns[cs[0]].id
  {
    forall i, j | 0 <= i < j < |cs| - 1
      ensures cs[1..][i] < |ns| && cs[1..][j] < |ns| && ns[cs[1..][i]].id != ns[cs[1..][j]].id
    {
      assert cs[1..][i] == cs[i + 1] && cs[1..][j] == cs[j + 1];
    }
    forall d | d in cs[1..] ensures d < |ns| && ns[d].id != ns[cs[0]].id {
      var k :| 0 <= k < |cs[1..]| && cs[1..][k] == d;
      assert cs[k + 1] == d;
    }
  }

  /** Inserting a node whose id no sibling has keeps the siblings' ids distinct. */
  lemma {:induction false} InsortDistinct(ns: seq<DataNode>, cs: seq<Ref>, c: Ref)
    requires Insertable(ns, cs, c) && DistinctIds(ns, cs)
    requires forall d | d in cs :: d < |ns| && ns[d].id != ns[c].id
    ensures DistinctIds(ns, InsortRight(ns, cs, c))
    decreases |cs|
  {
    if cs == [] {
    } else if Time(ns, c) < Time(ns, cs[0]) {
      DistinctCons(ns, c, cs);
    } else {
      var tail := InsortRight(ns, cs[1..], c);
      DistinctTail(ns, cs);
      InsortDistinct(ns, cs[1..], c);
      assert forall d | d in tail :: d < |ns| && ns[d].id != ns[cs[0]].id;
      DistinctCons(ns, cs[0], tail);
    }
  }
}

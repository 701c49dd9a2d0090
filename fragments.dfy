/** The exported archive as the tree builder receives it: conversation records whose
    `mapping` sends a fragment id to the fragment (its parent id, its child ids and an
    optional message payload). Loading and parsing the archive file are not modelled. */
module Fragments {

  datatype Option<+T> = None | Some(value: T)

  type Id = string

  /** The parts of a fragment's `message` payload the builder reads: the author's role,
      the first content part and the creation time (only ever compared, so an `int`). */
  datatype Message = Message(role: string, content: string, createTime: int)

  /** One entry of a conversation's mapping. `message` is `None` when the export holds
      nothing there or a falsy value (null, an empty object). */
  datatype Fragment = Fragment(id: Id, parent: Option<Id>, children: seq<Id>, message: Option<Message>)

  /** A conversation record: its title, the mapping's keys in their stored order, and the mapping. */
  datatype Conversation = Conversation(title: string, keys: seq<Id>, mapping: map<Id, Fragment>)

  /** The parent id when it is truthy (neither absent nor the empty string). */
  function ParentKey(f: Fragment): (p: Option<Id>)
    ensures p.Some? <==> f.parent.Some? && f.parent.value != ""
    ensures p.Some? ==> p.value == f.parent.value
  {
    if f.parent.Some? && f.parent.value != "" then f.parent else None
  }

  /** No element occurs twice in `s`: the first does not recur, and neither does any later one. */
  predicate NoDup<T(==)>(s: seq<T>) {
    |s| <= 1 || (s[0] !in s[1..] && NoDup(s[1..]))
  }

  /** Taking the first element off a list without duplicates. */
  lemma NoDupCons<T>(x: T, s: seq<T>)
    requires NoDup([x] + s)
    ensures x !in s && NoDup(s)
  {
    assert ([x] + s)[1..] == s;
  }

  /** Appending an element the list does not hold keeps it free of duplicates. */
  lemma {:induction false} NoDupSnoc<T>(s: seq<T>, x: T)
    requires NoDup(s) && x !in s
    ensures NoDup(s + [x])
    decreases |s|
  {
    if s != [] {
      NoDupSnoc(s[1..], x);
      assert (s + [x])[1..] == s[1..] + [x];
    }
  }

  /** In a list without duplicates, an element does not occur again after its position. */
  lemma {:induction false} NoDupAfter<T>(s: seq<T>, i: nat)
    requires NoDup(s) && i < |s|
    ensures s[i] !in s[i + 1..]
    decreases i
  {
    if i > 0 {
      NoDupAfter(s[1..], i - 1);
      assert s[1..][i - 1] == s[i] && s[1..][i..] == s[i + 1..];
    }
  }

  /** A witness that following parent links in `m` can never come back to where it started. */
  ghost predicate Ranked(m: map<Id, Fragment>, level: map<Id, nat>) {
    && m.Keys <= level.Keys
    && forall k {:trigger ParentKey(m[k])} | k in m && ParentKey(m[k]).Some? && ParentKey(m[k]).value in m ::
         level[ParentKey(m[k]).value] < level[k]
  }

  /** How many parent links lead up from `k` to a fragment that names no parent (or to an
      id outside the mapping), counting at most `fuel` of them. */
  ghost function Depth(m: map<Id, Fragment>, k: Id, fuel: nat): nat
    decreases fuel
  {
    if fuel == 0 || k !in m then 0
    else match ParentKey(m[k])
      case None => 0
      case Some(p) => 1 + Depth(m, p, fuel - 1)
  }

  /** Counting the links up from any fragment reaches one that names no parent in fewer
      links than there are fragments: parent links never come back to where they started. */
  ghost predicate Acyclic(m: map<Id, Fragment>) {
    forall k | k in m :: Depth(m, k, |m|) < |m|
  }

  /** Without a cycle, the climb from a fragment ends before its fuel runs out. */
  lemma AcyclicAt(m: map<Id, Fragment>, k: Id)
    requires Acyclic(m) && k in m
    ensures Depth(m, k, |m|) < |m|
  {
  }

  /** A count that ends before its fuel runs out does not change with more fuel. */
  lemma {:induction false} DepthStable(m: map<Id, Fragment>, k: Id, fuel: nat)
    requires Depth(m, k, fuel) < fuel
    ensures Depth(m, k, fuel + 1) == Depth(m, k, fuel)
    decreases fuel
  {
    if k in m && ParentKey(m[k]).Some? {
      DepthStable(m, ParentKey(m[k]).value, fuel - 1);
    }
  }

  /** Each fragment's depth, counted with one step of fuel per fragment. */
  ghost function Levels(m: map<Id, Fragment>): (level: map<Id, nat>)
    ensures level.Keys == m.Keys
  {
    map k | k in m :: Depth(m, k, |m|)
  }

  /** Without a cycle, every fragment lies deeper than its parent. */
  lemma LevelsRanked(m: map<Id, Fragment>)
    requires Acyclic(m)
    ensures Ranked(m, Levels(m))
  {
    forall k | k in m && ParentKey(m[k]).Some? && ParentKey(m[k]).value in m
      ensures Levels(m)[ParentKey(m[k]).value] < Levels(m)[k]
    {
      var p := ParentKey(m[k]).value;
      assert Depth(m, k, |m|) == 1 + Depth(m, p, |m| - 1);
      DepthStable(m, p, |m| - 1);
    }
  }

  /** The shape of an export the builder handles: a non-empty mapping whose keys are the
      fragments' ids, every referenced id present, parent and child links that agree, no
      child listed twice, placeholders (fragments without a message) never among
      siblings, and no cycle of parent links. */
  ghost predicate WellFormed(cv: Conversation) {
    var m := cv.mapping;
    && |cv.keys| > 0
    && (forall k :: k in cv.keys <==> k in m)
    && (forall k | k in m :: k != "" && m[k].id == k)
    && (forall k, c {:trigger c in m[k].children} | k in m && c in m[k].children :: c in m && ParentKey(m[c]) == Some(k))
    && (forall k {:trigger ParentKey(m[k])} | k in m && ParentKey(m[k]).Some? ::
          ParentKey(m[k]).value in m && k in m[ParentKey(m[k]).value].children)
    && (forall k | k in m :: NoDup(m[k].children))
    && (forall k, c {:trigger c in m[k].children} | k in m && c in m[k].children && |m[k].children| > 1 ::
          m[c].message.Some?)
    && Acyclic(m)
  }

  /** A conversation record of the shape the builder handles. */
  type Export = cv: Conversation | WellFormed(cv)
    witness Conversation("", ["root"], map["root" := Fragment("root", None, [], None)])

  /** `ids` holds, with every fragment, the ids it refers to. */
  ghost predicate Closed(m: map<Id, Fragment>, ids: set<Id>) {
    forall k {:trigger m[k].children} | k in ids && k in m ::
      && (ParentKey(m[k]).Some? ==> ParentKey(m[k]).value in ids)
      && (forall c | c in m[k].children :: c in ids)
  }

  /** Every fragment of `m` can be reached from every other one through parent and child links. */
  ghost predicate Connected(m: map<Id, Fragment>) {
    forall ids: set<Id> | ids <= m.Keys && ids != {} && Closed(m, ids) :: ids == m.Keys
  }

  /** In a connected mapping, a non-empty set of ids closed under links holds every id. */
  lemma ClosedCovers(m: map<Id, Fragment>, ids: set<Id>)
    requires Connected(m) && ids <= m.Keys && ids != {} && Closed(m, ids)
    ensures ids == m.Keys
  {
  }

  /** The fragment reached by following parent ids up from `k`, taking at most `fuel` of them. */
  ghost function Summit(m: map<Id, Fragment>, k: Id, fuel: nat): Id
    decreases fuel
  {
    if fuel == 0 || k !in m then k
    else match ParentKey(m[k])
      case None => k
      case Some(p) => Summit(m, p, fuel - 1)
  }

  /** A climb that ends before its fuel runs out does not change with more fuel. */
  lemma {:induction false} SummitStable(m: map<Id, Fragment>, k: Id, fuel: nat)
    requires Depth(m, k, fuel) < fuel
    ensures Summit(m, k, fuel + 1) == Summit(m, k, fuel)
    decreases fuel
  {
    if k in m && ParentKey(m[k]).Some? {
      SummitStable(m, ParentKey(m[k]).value, fuel - 1);
    }
  }

  /** The climb from a fragment of a record ends at a fragment that names no parent. */
  lemma {:induction false} SummitIsRoot(cv: Export, k: Id, fuel: nat)
    requires k in cv.mapping && Depth(cv.mapping, k, fuel) < fuel
    ensures var s := Summit(cv.mapping, k, fuel);
      s in cv.mapping && ParentKey(cv.mapping[s]) == None
    decreases fuel
  {
    var m := cv.mapping;
    if ParentKey(m[k]).Some? {
      var p := ParentKey(m[k]).value;
      assert p in m && Summit(m, k, fuel) == Summit(m, p, fuel - 1);
      SummitIsRoot(cv, p, fuel - 1);
    } else {
      assert Summit(m, k, fuel) == k;
    }
  }

  /** A fragment and its parent climb to the same fragment. */
  lemma SummitShared(m: map<Id, Fragment>, k: Id, c: Id)
    requires c in m && ParentKey(m[c]) == Some(k) && Depth(m, c, |m|) < |m|
    ensures Summit(m, c, |m|) == Summit(m, k, |m|)
  {
    var n := |m|;
    assert Summit(m, c, n) == Summit(m, k, n - 1);
    assert Depth(m, c, n) == 1 + Depth(m, k, n - 1);
    SummitStable(m, k, n - 1);
  }

  /** The fragments whose climb ends at `a` are closed under parent and child links. */
  lemma BelowClosed(cv: Export, a: Id)
    ensures Closed(cv.mapping, set k | k in cv.mapping && Summit(cv.mapping, k, |cv.mapping|) == a)
  {
    var m := cv.mapping;
    var below := set k | k in m && Summit(m, k, |m|) == a;
    forall k | k in below && k in m
      ensures ParentKey(m[k]).Some? ==> ParentKey(m[k]).value in below
      ensures forall c | c in m[k].children :: c in below
    {
      if ParentKey(m[k]).Some? {
        assert Depth(m, k, |m|) < |m|;
        SummitShared(m, ParentKey(m[k]).value, k);
      }
      forall c | c in m[k].children
        ensures c in below
      {
        assert c in m && ParentKey(m[c]) == Some(k);
        assert Depth(m, c, |m|) < |m|;
        SummitShared(m, k, c);
      }
    }
  }

  /** A connected record has only one fragment that names no parent: the fragments whose
      climb ends at one such fragment are closed under links, so they are all of them. */
  lemma OneRootFragment(cv: Export, a: Id, b: Id)
    requires Connected(cv.mapping)
    requires a in cv.mapping && ParentKey(cv.mapping[a]) == None
    requires b in cv.mapping && ParentKey(cv.mapping[b]) == None
    ensures a == b
  {
    var m := cv.mapping;
    var below := set k | k in m && Summit(m, k, |m|) == a;
    assert a in below;
    BelowClosed(cv, a);
    ClosedCovers(m, below);
    assert b in below;
  }

  /** A connected record has exactly one fragment that names no parent. */
  lemma OneRoot(cv: Export)
    requires Connected(cv.mapping)
    ensures exists r | r in cv.mapping ::
      ParentKey(cv.mapping[r]) == None && forall k | k in cv.mapping && ParentKey(cv.mapping[k]) == None :: k == r
  {
    var m := cv.mapping;
    var k := cv.keys[0];
    assert Depth(m, k, |m|) < |m|;
    SummitIsRoot(cv, k, |m|);
    var r := Summit(m, k, |m|);
    forall k' | k' in m && ParentKey(m[k']) == None
      ensures k' == r
    {
      OneRootFragment(cv, k', r);
    }
  }

  /** A list from position `i` on is its entry at `i` followed by the rest. A step stated
      once for any list, so that callers avoid a costly equality of record lists. */
  lemma HeadTail<T>(s: seq<T>, i: nat)
    requires i < |s|
    ensures s[i..] == [s[i]] + s[i + 1..]
  {
  }

  /** A non-empty list is its front followed by its last entry (a proof step, as above). */
  lemma FrontLast<T>(s: seq<T>)
    requires s != []
    ensures s[..|s| - 1] + [s[|s| - 1]] == s
  {
  }

  /** Dropping the head of a concatenation drops it from its first part (a proof step, as above). */
  lemma TailOfAppend<T>(a: seq<T>, b: seq<T>)
    requires a != []
    ensures (a + b)[1..] == a[1..] + b && (a + b)[0] == a[0]
  {
  }
}

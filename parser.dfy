/** `ChatDataParser`: the loaded conversation records, the trees built from them so far,
    and the operations over those trees (`build_tree`, `build_all_trees`,
    `search_for_string`, `build_text`). */
module Parser {
  import opened Fragments
  import opened Nodes
  import opened Forest
  import opened Branch
  import opened Search
  import opened Tree
  import opened Builder

  /** An argument of `build_tree`: a conversation title or a conversation record. */
  datatype Arg = ByTitle(title: string) | Raw(cv: Export)

  /** How a call binds `build_tree`'s parameters: the `append` flag and the rest. */
  datatype BuildCall = BuildCall(append: bool, args: seq<Arg>)

  /** The first argument of `build_text`: a title or a node to start from. */
  datatype Target = TitleOf(title: string) | Start(r: Ref)

  /** What `build_text` yields: the collected text, or the `IndexError` it raises when a
      path entry is no position among the children. */
  datatype Text = Text(s: string) | IndexError

  /** The position of the first record titled `t`, if any. */
  function FirstTitled(contents: seq<Conversation>, t: string): (r: Option<nat>)
    ensures r.Some? ==> r.value < |contents| && contents[r.value].title == t
    ensures r.Some? ==> forall j | 0 <= j < r.value :: contents[j].title != t
    ensures r.None? ==> forall j | 0 <= j < |contents| :: contents[j].title != t
  {
    if contents == [] then None
    else if contents[0].title == t then Some(0)
    else
      match FirstTitled(contents[1..], t)
      case None => None
      case Some(j) => Some(j + 1)
  }

  /** The conversation an argument stands for: a record itself, or the first record
      with that title (none when no record has it). */
  function Resolve(contents: seq<Export>, arg: Arg): (r: Option<Export>)
    ensures arg.Raw? ==> r == Some(arg.cv)
    ensures arg.ByTitle? && r.Some? ==> r.value in contents && r.value.title == arg.title
    ensures arg.ByTitle? ==> (r.None? <==> forall j | 0 <= j < |contents| :: contents[j].title != arg.title)
    ensures arg.ByTitle? && r.Some? ==> exists i | 0 <= i < |contents| ::
      r.value == contents[i] && forall j | 0 <= j < i :: contents[j].title != arg.title
  {
    match arg
    case Raw(cv) => Some(cv)
    case ByTitle(t) =>
      match FirstTitled(contents, t)
      case None => None
      case Some(i) => Some(contents[i])
  }

  /** The conversations a call builds, in argument order: titles no record has are skipped. */
  function Resolved(contents: seq<Export>, args: seq<Arg>): (cvs: seq<Export>)
    ensures |cvs| <= |args|
  {
    if args == [] then []
    else
      var init := Resolved(contents, args[..|args| - 1]);
      assert forall s | s in args[..|args| - 1] :: s in args;
      match Resolve(contents, args[|args| - 1])
      case None => init
      case Some(cv) => init + [cv]
  }

  /** Whether some tree of `trees` equals `r` under `__eq__` (the same id). */
  predicate Listed(ns: seq<DataNode>, trees: seq<Ref>, r: Ref)
    requires r < |ns| && forall i | 0 <= i < |trees| :: trees[i] < |ns|
  {
    exists i | 0 <= i < |trees| :: ns[trees[i]].id == ns[r].id
  }

  /** `if append and not root in self.trees: self.trees.append(root)`. */
  function Enlist(ns: seq<DataNode>, trees: seq<Ref>, x: Ref, append: bool): (r: seq<Ref>)
    requires x < |ns| && forall i | 0 <= i < |trees| :: trees[i] < |ns|
    ensures forall i | 0 <= i < |r| :: r[i] < |ns|
  {
    if append && !Listed(ns, trees, x) then trees + [x] else trees
  }

  /** The trees list after registering each of `roots` in turn. */
  ghost function Register(ns: seq<DataNode>, trees: seq<Ref>, roots: seq<Ref>, append: bool): (r: seq<Ref>)
    requires forall i | 0 <= i < |trees| :: trees[i] < |ns|
    requires forall i | 0 <= i < |roots| :: roots[i] < |ns|
    ensures forall i | 0 <= i < |r| :: r[i] < |ns|
    decreases |roots|
  {
    if roots == [] then trees
    else Enlist(ns, Register(ns, trees, roots[..|roots| - 1], append), roots[|roots| - 1], append)
  }

  /** Registration only appends, and only roots it was given; without `append` it
      changes nothing. */
  lemma {:induction false} RegisterAppends(ns: seq<DataNode>, trees: seq<Ref>, roots: seq<Ref>, append: bool)
    requires forall i | 0 <= i < |trees| :: trees[i] < |ns|
    requires forall i | 0 <= i < |roots| :: roots[i] < |ns|
    ensures var r := Register(ns, trees, roots, append);
      && |trees| <= |r| && r[..|trees|] == trees
      && (forall x | x in r[|trees|..] :: x in roots)
      && (!append ==> r == trees)
    decreases |roots|
  {
    if roots != [] {
      var init := roots[..|roots| - 1];
      var x := roots[|roots| - 1];
      RegisterAppends(ns, trees, init, append);
      var r0 := Register(ns, trees, init, append);
      assert forall y | y in init :: y in roots;
      if append && !Listed(ns, r0, x) {
        assert (r0 + [x])[..|trees|] == r0[..|trees|];
        assert (r0 + [x])[|trees|..] == r0[|trees|..] + [x];
      }
    }
  }

  /** With `append`, every registered root is listed afterwards (by id), and no two
      listed trees come to share an id. */
  lemma {:induction false} RegisterLists(ns: seq<DataNode>, trees: seq<Ref>, roots: seq<Ref>)
    requires forall i | 0 <= i < |trees| :: trees[i] < |ns|
    requires forall i | 0 <= i < |roots| :: roots[i] < |ns|
    ensures var r := Register(ns, trees, roots, true);
      && (forall x | x in roots :: Listed(ns, r, x))
      && (DistinctIds(ns, trees) ==> DistinctIds(ns, r))
    decreases |roots|
  {
    if roots != [] {
      var init := roots[..|roots| - 1];
      var x := roots[|roots| - 1];
      RegisterLists(ns, trees, init);
      var r0 := Register(ns, trees, init, true);
      assert forall y | y in roots :: y == x || y in init;
      if !Listed(ns, r0, x) {
        var r := r0 + [x];
        forall y | y in roots ensures Listed(ns, r, y) {
          if y == x {
            assert r[|r0|] == x;
          } else {
            var k :| 0 <= k < |r0| && ns[r0[k]].id == ns[y].id;
            assert r[k] == r0[k];
          }
        }
      }
    }
  }

  /** Registration looks only at the ids of the nodes it is given, so it is the same on
      any heap that keeps those ids. */
  lemma {:induction false} RegisterKeepsIds(ns: seq<DataNode>, ns': seq<DataNode>, trees: seq<Ref>, roots: seq<Ref>, append: bool)
    requires |ns| <= |ns'| && forall x | 0 <= x < |ns| :: ns'[x].id == ns[x].id
    requires forall i | 0 <= i < |trees| :: trees[i] < |ns|
    requires forall i | 0 <= i < |roots| :: roots[i] < |ns|
    ensures Register(ns', trees, roots, append) == Register(ns, trees, roots, append)
    decreases |roots|
  {
    if roots != [] {
      RegisterKeepsIds(ns, ns', trees, roots[..|roots| - 1], append);
      var r0 := Register(ns, trees, roots[..|roots| - 1], append);
      assert Listed(ns', r0, roots[|roots| - 1]) == Listed(ns, r0, roots[|roots| - 1]);
    }
  }

  /** The last tree of `trees` titled `t`, if any. */
  ghost function LastTitled(ns: seq<DataNode>, trees: seq<Ref>, t: string): (r: Option<Ref>)
    requires forall i | 0 <= i < |trees| :: trees[i] < |ns|
    ensures r.Some? ==> r.value in trees && ns[r.value].title == t
    ensures r.None? <==> forall i | 0 <= i < |trees| :: ns[trees[i]].title != t
    ensures r.Some? ==> exists i | 0 <= i < |trees| ::
      trees[i] == r.value && forall j | i < j < |trees| :: ns[trees[j]].title != t
  {
    if trees == [] then None
    else
      var last := trees[|trees| - 1];
      if ns[last].title == t then Some(last)
      else
        var r := LastTitled(ns, trees[..|trees| - 1], t);
        assert forall i | 0 <= i < |trees| - 1 :: trees[..|trees| - 1][i] == trees[i];
        r
  }

  /** `ns'` extends `ns` and keeps every node of `ns` as it was. */
  ghost predicate Extends(ns: seq<DataNode>, ns': seq<DataNode>) {
    |ns| <= |ns'| && forall x | 0 <= x < |ns| :: ns'[x] == ns[x]
  }

  /** `ns` keeps the first `base` nodes of `ns0` as they were. */
  ghost predicate Keeps(ns0: seq<DataNode>, ns: seq<DataNode>, base: nat) {
    base <= |ns0| && base <= |ns| && forall x | 0 <= x < base :: ns[x] == ns0[x]
  }

  /** `Keeps` composes; stated apart so that the callers' proofs stay small. */
  lemma KeepsTrans(ns0: seq<DataNode>, ns1: seq<DataNode>, ns2: seq<DataNode>, base: nat)
    requires Keeps(ns0, ns1, base) && Keeps(ns1, ns2, base)
    ensures Keeps(ns0, ns2, base)
  {
  }

  /** Nodes made later leave the registered trees as they were: roots with distinct ids.
      Stated apart so that the callers' proofs stay small. */
  lemma TreesKept(ns: seq<DataNode>, ns': seq<DataNode>, trees: seq<Ref>)
    requires Extends(ns, ns')
    requires forall i | 0 <= i < |trees| :: trees[i] < |ns| && ns[trees[i]].parent == None
    requires DistinctIds(ns, trees)
    ensures forall i | 0 <= i < |trees| :: trees[i] < |ns'| && ns'[trees[i]].parent == None
    ensures DistinctIds(ns', trees)
  {
  }

  /** How `build_all_trees` binds `build_tree(self, append=True, *args)` when it passes
      every record positionally: the first record lands in `append` (a non-empty record
      is truthy) and only the others are built. */
  function BindAll(contents: seq<Export>): (call: BuildCall)
    ensures call.append
    ensures |call.args| == if contents == [] then 0 else |contents| - 1
    ensures forall i | 0 <= i < |call.args| :: call.args[i] == Raw(contents[i + 1])
  {
    if contents == [] then BuildCall(true, [])
    else BuildCall(true, AllRaw(contents[1..]))
  }

  /** Every record as a positional argument. */
  function AllRaw(contents: seq<Export>): (args: seq<Arg>)
    ensures |args| == |contents|
    ensures forall i | 0 <= i < |args| :: args[i] == Raw(contents[i])
  {
    seq(|contents|, i requires 0 <= i < |contents| => Raw(contents[i]))
  }

  /** Record arguments resolve to themselves, in order. */
  lemma {:induction false} ResolvedRaw(contents: seq<Export>, cvs: seq<Export>)
    ensures Resolved(contents, AllRaw(cvs)) == cvs
    decreases |cvs|
  {
    if cvs != [] {
      var args := AllRaw(cvs);
      var n := |cvs| - 1;
      ResolvedRaw(contents, cvs[..n]);
      AllRawFront(cvs);
      ResolvedSnoc(contents, args, n);
      assert args[..n + 1] == args;
      FrontLast(cvs);
    }
  }

  /** The records passed before the last one: a proof step, stated apart to keep `ResolvedRaw` small. */
  lemma AllRawFront(cvs: seq<Export>)
    requires cvs != []
    ensures AllRaw(cvs)[..|cvs| - 1] == AllRaw(cvs[..|cvs| - 1])
  {
  }

  /** `build_all_trees` as written builds every record but the first; binding the records
      to `*args` alone builds them all. */
  lemma BuildAllSkipsFirst(contents: seq<Export>)
    requires contents != []
    ensures Resolved(contents, BindAll(contents).args) == contents[1..]
    ensures Resolved(contents, AllRaw(contents)) == contents
    ensures contents[0] !in contents[1..] ==> contents[0] !in Resolved(contents, BindAll(contents).args)
  {
    assert BindAll(contents).args == AllRaw(contents[1..]);
    ResolvedRaw(contents, contents[1..]);
    ResolvedRaw(contents, contents);
  }

  /** `roots` are the roots of the trees made for `cvs`, one each and in order. The tree
      for `cvs[i]` is the nodes from `bounds[i]` up to `bounds[i + 1]`, so the nodes from
      the first bound up to the last are those trees and nothing else. */
  ghost predicate Made(ns: seq<DataNode>, bounds: seq<nat>, roots: seq<Ref>, cvs: seq<Export>) {
    && |roots| == |cvs| && |bounds| == |roots| + 1
    && (forall i {:trigger roots[i]} | 0 <= i < |roots| :: bounds[i] <= roots[i] < bounds[i + 1] && roots[i] < |ns|)
    && (forall i {:trigger RootFor(ns, roots[i], cvs[i])} | 0 <= i < |roots| :: RootFor(ns, roots[i], cvs[i]))
    && (forall i {:trigger TreeFor(ns, bounds[i], bounds[i + 1], roots[i], cvs[i])} | 0 <= i < |roots| ::
          TreeFor(ns, bounds[i], bounds[i + 1], roots[i], cvs[i]))
  }

  /** A tree once built stays the same tree as later nodes are made. */
  lemma TreeForKept(ns: seq<DataNode>, ns': seq<DataNode>, lo: nat, hi: nat, root: Ref, cv: Export)
    requires Extends(ns, ns') && TreeFor(ns, lo, hi, root, cv)
    ensures TreeFor(ns', lo, hi, root, cv)
  {
    var m := cv.mapping;
    var done :| && Shaped(ns, cv, done)
                && Spans(ns, lo, hi, done)
                && (Connected(m) ==> done.Keys == m.Keys)
                && Summit(m, cv.keys[0], |m|) in done
                && root == done[Summit(m, cv.keys[0], |m|)];
    ShapedKept(ns, ns', cv, done);
    SpansKept(ns, ns', lo, hi, done);
  }

  /** One more argument adds its conversation, if it resolves, to those built. */
  lemma ResolvedSnoc(contents: seq<Export>, args: seq<Arg>, i: nat)
    requires i < |args|
    ensures Resolve(contents, args[i]).None? ==> Resolved(contents, args[..i + 1]) == Resolved(contents, args[..i])
    ensures Resolve(contents, args[i]).Some? ==>
      Resolved(contents, args[..i + 1]) == Resolved(contents, args[..i]) + [Resolve(contents, args[i]).value]
  {
    assert args[..i + 1][..i] == args[..i];
  }

  /** Roots made earlier stay what they were as later nodes are made, and the tree made
      for one more conversation, from the end of the others on, joins them. */
  lemma MadeStep(ns: seq<DataNode>, ns': seq<DataNode>, bounds: seq<nat>, roots: seq<Ref>, cvs: seq<Export>,
                 r: Ref, cv: Export, bounds': seq<nat>, roots': seq<Ref>, cvs': seq<Export>)
    requires Extends(ns, ns') && |bounds| == |roots| + 1 && bounds[|roots|] == |ns|
    requires Made(ns, bounds, roots, cvs)
    requires Grown(ns', |ns|, r, cv)
    requires bounds' == bounds + [|ns'|] && roots' == roots + [r] && cvs' == cvs + [cv]
    ensures |bounds'| == |roots'| + 1 && bounds'[0] == bounds[0] && bounds'[|roots'|] == |ns'|
    ensures Made(ns', bounds', roots', cvs')
  {
    MadeKept(ns, ns', bounds, roots, cvs);
    MadeSnoc(ns', bounds, roots, cvs, r, cv, |ns'|);
  }

  /** The trees made so far stay made as later nodes are made. */
  lemma MadeKept(ns: seq<DataNode>, ns': seq<DataNode>, bounds: seq<nat>, roots: seq<Ref>, cvs: seq<Export>)
    requires Extends(ns, ns') && Made(ns, bounds, roots, cvs)
    ensures Made(ns', bounds, roots, cvs)
  {
    forall i | 0 <= i < |roots|
      ensures RootFor(ns', roots[i], cvs[i])
    {
      assert RootFor(ns, roots[i], cvs[i]) && ns'[roots[i]] == ns[roots[i]];
    }
    forall i | 0 <= i < |roots|
      ensures TreeFor(ns', bounds[i], bounds[i + 1], roots[i], cvs[i])
    {
      TreeForKept(ns, ns', bounds[i], bounds[i + 1], roots[i], cvs[i]);
    }
  }

  /** The trees made lie one after another, so every bound lies between the first and
      the last. */
  lemma MadeWithin(ns: seq<DataNode>, bounds: seq<nat>, roots: seq<Ref>, cvs: seq<Export>)
    requires |bounds| == |roots| + 1 && Made(ns, bounds, roots, cvs)
    ensures forall i | 0 <= i <= |roots| :: bounds[0] <= bounds[i] <= bounds[|roots|]
  {
    forall i | 0 <= i < |roots|
      ensures bounds[i] < bounds[i + 1]
    {
      assert bounds[i] <= roots[i];
    }
    BoundsRise(bounds, |roots|);
  }

  /** The trees made for every record after the first, as `build_all_trees` makes them:
      the tree for `contents[i + 1]` is the one at `i`. */
  lemma MadeFromSecond(ns: seq<DataNode>, bounds: seq<nat>, roots: seq<Ref>, contents: seq<Export>)
    requires contents != [] && |bounds| == |roots| + 1 && Made(ns, bounds, roots, contents[1..])
    ensures forall i {:trigger roots[i]} | 0 <= i < |roots| ::
      && bounds[0] <= bounds[i] <= roots[i] < bounds[i + 1] <= bounds[|roots|]
      && RootFor(ns, roots[i], contents[i + 1])
      && TreeFor(ns, bounds[i], bounds[i + 1], roots[i], contents[i + 1])
  {
    MadeWithin(ns, bounds, roots, contents[1..]);
    forall i {:trigger roots[i]} | 0 <= i < |roots|
      ensures bounds[0] <= bounds[i] <= roots[i] < bounds[i + 1] <= bounds[|roots|]
      ensures RootFor(ns, roots[i], contents[i + 1])
      ensures TreeFor(ns, bounds[i], bounds[i + 1], roots[i], contents[i + 1])
    {
      assert contents[1..][i] == contents[i + 1];
      assert RootFor(ns, roots[i], contents[1..][i]);
      assert TreeFor(ns, bounds[i], bounds[i + 1], roots[i], contents[1..][i]);
    }
  }

  /** Bounds that rise from each to the next rise from the first to every one, and from
      every one to the last. */
  lemma {:induction false} BoundsRise(bounds: seq<nat>, n: nat)
    requires |bounds| == n + 1 && forall i | 0 <= i < n :: bounds[i] < bounds[i + 1]
    ensures forall i | 0 <= i <= n :: bounds[0] <= bounds[i] <= bounds[n]
  {
    if n > 0 {
      var front := bounds[..n];
      assert forall i | 0 <= i < n - 1 :: front[i] < front[i + 1];
      BoundsRise(front, n - 1);
      assert forall i | 0 <= i <= n - 1 :: bounds[i] == front[i];
    }
  }

  /** One more tree joins those made (a proof step, stated apart to keep `MadeStep` small). */
  lemma MadeSnoc(ns: seq<DataNode>, bounds: seq<nat>, roots: seq<Ref>, cvs: seq<Export>, r: Ref, cv: Export, hi: nat)
    requires Made(ns, bounds, roots, cvs)
    requires bounds[|roots|] <= r < hi && RootFor(ns, r, cv) && TreeFor(ns, bounds[|roots|], hi, r, cv)
    ensures Made(ns, bounds + [hi], roots + [r], cvs + [cv])
  {
    forall i | 0 <= i < |roots| + 1
      ensures (bounds + [hi])[i] <= (roots + [r])[i] < (bounds + [hi])[i + 1]
      ensures RootFor(ns, (roots + [r])[i], (cvs + [cv])[i])
      ensures TreeFor(ns, (bounds + [hi])[i], (bounds + [hi])[i + 1], (roots + [r])[i], (cvs + [cv])[i])
    {
      MadeAt(bounds, roots, cvs, r, cv, hi, i);
      MadeAt(bounds, roots, cvs, r, cv, hi, i + 1);
    }
  }

  /** An entry of the lists of bounds, roots and records keeps its place as one more is
      appended to each. */
  lemma MadeAt(bounds: seq<nat>, roots: seq<Ref>, cvs: seq<Export>, r: Ref, cv: Export, hi: nat, i: nat)
    requires i <= |roots| + 1 && |roots| == |cvs| && |bounds| == |roots| + 1
    ensures i < |roots| ==> (roots + [r])[i] == roots[i] && (cvs + [cv])[i] == cvs[i]
    ensures i == |roots| ==> (roots + [r])[i] == r && (cvs + [cv])[i] == cv
    ensures i <= |roots| ==> (bounds + [hi])[i] == bounds[i]
    ensures i == |roots| + 1 ==> (bounds + [hi])[i] == hi
  {
  }

  /** Registering one more root, made after the others, registers the others first, as
      they were registered before it was made. */
  lemma RegisterStep(ns: seq<DataNode>, ns': seq<DataNode>, trees: seq<Ref>, roots: seq<Ref>, x: Ref, append: bool)
    requires Extends(ns, ns') && x < |ns'|
    requires forall i | 0 <= i < |trees| :: trees[i] < |ns|
    requires forall i | 0 <= i < |roots| :: roots[i] < |ns|
    ensures forall i | 0 <= i < |roots + [x]| :: (roots + [x])[i] < |ns'|
    ensures Register(ns', trees, roots + [x], append) == Enlist(ns', Register(ns, trees, roots, append), x, append)
  {
    RegisterKeepsIds(ns, ns', trees, roots, append);
    assert (roots + [x])[..|roots|] == roots;
  }

  /** One turn of `build_tree`'s loop that builds a tree keeps what the loop knows of
      the registered trees: the heap only grows, and `trees` is the registration of the
      roots so far. */
  lemma TreeStep(ns00: seq<DataNode>, ns0: seq<DataNode>, ns1: seq<DataNode>, trees0: seq<Ref>,
                 before: seq<Ref>, after: seq<Ref>, bounds: seq<nat>, roots: seq<Ref>, cvs: seq<Export>,
                 r: Ref, roots': seq<Ref>, append: bool)
    requires Extends(ns00, ns0) && Extends(ns0, ns1)
    requires forall i | 0 <= i < |trees0| :: trees0[i] < |ns00|
    requires Made(ns0, bounds, roots, cvs) && before == Register(ns0, trees0, roots, append)
    requires r < |ns1| && after == Enlist(ns1, before, r, append) && roots' == roots + [r]
    ensures Extends(ns00, ns1)
    ensures forall i | 0 <= i < |roots'| :: roots'[i] < |ns1|
    ensures after == Register(ns1, trees0, roots', append)
  {
    forall i | 0 <= i < |roots|
      ensures roots[i] < |ns0|
    {
      assert RootFor(ns0, roots[i], cvs[i]);
    }
    RegisterStep(ns0, ns1, trees0, roots, r, append);
  }

  /** Registering a root keeps the registered trees' ids distinct. */
  lemma EnlistDistinct(ns: seq<DataNode>, trees: seq<Ref>, x: Ref, append: bool)
    requires x < |ns| && forall i | 0 <= i < |trees| :: trees[i] < |ns|
    requires DistinctIds(ns, trees)
    ensures DistinctIds(ns, Enlist(ns, trees, x, append))
  {
    if append && !Listed(ns, trees, x) {
      var r := trees + [x];
      forall i, j | 0 <= i < j < |r|
        ensures ns[r[i]].id != ns[r[j]].id
      {
        if j == |trees| {
          assert r[i] == trees[i] && r[j] == x;
        } else {
          assert r[i] == trees[i] && r[j] == trees[j];
        }
      }
    }
  }

  /** The node `build_text` starts from: the last registered tree with the title, or the
      node it is given. */
  ghost function StartOf(ns: seq<DataNode>, trees: seq<Ref>, target: Target): (r: Option<Ref>)
    requires forall i | 0 <= i < |trees| :: trees[i] < |ns|
    requires target.Start? ==> target.r < |ns|
    ensures r.Some? ==> r.value < |ns|
  {
    match target
    case TitleOf(t) => LastTitled(ns, trees, t)
    case Start(r) => Some(r)
  }

  /** What `build_text` returns, and what is left of the caller's `path` list after it:
      the empty text when no tree has the title; otherwise the text of the nodes the
      descent visits, or `IndexError` when it meets an entry that is no position. */
  ghost function TextFor(ns: seq<DataNode>, rank: seq<nat>, trees: seq<Ref>, target: Target, path: seq<int>): (seq<int>, Text)
    requires Wf(ns, rank) && forall i | 0 <= i < |trees| :: trees[i] < |ns|
    requires target.Start? ==> target.r < |ns|
  {
    match StartOf(ns, trees, target)
    case None => (path, Text(""))
    case Some(x) => TextFrom(ns, rank, x, path)
  }

  /** What `build_text` returns from node `x` on, and the path entries it leaves. */
  ghost function TextFrom(ns: seq<DataNode>, rank: seq<nat>, x: Ref, path: seq<int>): (seq<int>, Text)
    requires Wf(ns, rank) && x < |ns|
  {
    var d := Descend(ns, rank, x, path);
    if d.failed then (d.rest, IndexError) else (d.rest, Text(Render(ns, d.visited)))
  }

  /** A descent that has visited `seen` and continues as `e`. */
  ghost function After(seen: seq<Ref>, e: Descent): Descent {
    Descent(seen + e.visited, e.failed, e.rest)
  }

  /** One visited node moves from the descent to what was seen: a proof step for `Compose`'s loop. */
  lemma AfterStep(seen: seq<Ref>, x: Ref, e: Descent)
    ensures After(seen, Descent([x] + e.visited, e.failed, e.rest)) == After(seen + [x], e)
  {
    assert seen + ([x] + e.visited) == (seen + [x]) + e.visited;
  }

  /** `build_text(title, path)` with the title and the path `path_and_title()` gives for a
      node `n` of the last tree of that title: the conversation from the root down to `n`,
      then on along last children down to a leaf; every path entry is used. */
  lemma TextAlongPath(ns: seq<DataNode>, rank: seq<nat>, trees: seq<Ref>, n: Ref)
    requires Wf(ns, rank) && n < |ns| && forall i | 0 <= i < |trees| :: trees[i] < |ns|
    requires LastTitled(ns, trees, ns[n].title) == Some(RootOf(ns, rank, n))
    ensures var e := Descend(ns, rank, n, []);
      TextFor(ns, rank, trees, TitleOf(ns[n].title), PathTo(ns, rank, n)) ==
        ([], Text(Render(ns, Spine(ns, rank, n)) + Render(ns, e.visited)))
  {
    var p := PathTo(ns, rank, n);
    assert p + [] == p;
    TextThroughNode(ns, rank, n, []);
    DescendWithoutPath(ns, rank, n);
    assert TextFor(ns, rank, trees, TitleOf(ns[n].title), p) == TextFrom(ns, rank, RootOf(ns, rank, n), p);
  }

  /** The loop over `self.contents` for a title argument: the first record with that title. */
  method FindByTitle(contents: seq<Conversation>, t: string) returns (found: Option<nat>)
    ensures found == FirstTitled(contents, t)
  {
    found := None;
    var i := 0;
    while i < |contents|
      invariant 0 <= i <= |contents|
      invariant forall j | 0 <= j < i :: contents[j].title != t
    {
      if contents[i].title == t {
        found := Some(i);
        return;
      }
      i := i + 1;
    }
  }

  class ChatDataParser {
    /** The loaded export: one record per conversation. */
    const contents: seq<Export>
    /** The roots registered by `build_tree`. */
    var trees: seq<Ref>
    /** The `DataNode` objects created so far. */
    const heap: NodeHeap

    /** The heap is consistent, every registered tree is a root of it, and no two
        registered trees share an id. */
    ghost predicate Valid()
      reads this, heap
    {
      && heap.Valid()
      && (forall i | 0 <= i < |trees| :: trees[i] < |heap.nodes| && heap.nodes[trees[i]].parent == None)
      && DistinctIds(heap.nodes, trees)
    }

    /** The parser over loaded `contents`, with no trees yet. */
    constructor (contents: seq<Export>)
      ensures Valid() && this.contents == contents && trees == [] && fresh(heap) && heap.nodes == []
    {
      this.contents := contents;
      trees := [];
      heap := new NodeHeap();
    }

    /** `root in self.trees`: some registered tree has `r`'s id. */
    method IsListed(r: Ref) returns (b: bool)
      requires Valid() && r < |heap.nodes|
      ensures b == Listed(heap.nodes, trees, r)
    {
      b := false;
      for i := 0 to |trees|
        invariant !b
        invariant forall j | 0 <= j < i :: heap.nodes[trees[j]].id != heap.nodes[r].id
      {
        if heap.nodes[trees[i]].id == heap.nodes[r].id {
          return true;
        }
      }
    }

    /** An argument of `build_tree` resolved: a record stands for itself, a title for the
        first record with it; `None` where the call reports the title missing and moves on. */
    method ResolveArg(arg: Arg) returns (cv: Option<Export>)
      ensures cv == Resolve(contents, arg)
    {
      match arg
      case Raw(c) =>
        cv := Some(c);
      case ByTitle(t) =>
        var found := FindByTitle(contents, t);
        cv := if found.Some? then Some(contents[found.value]) else None;
    }

    /** `build_tree(append, *args)`: builds a tree for each argument that resolves, in
        order, and returns their roots; with `append` each root whose id no registered tree
        has is registered. Nodes made earlier are left as they were. */
    method BuildTree(call: BuildCall) returns (roots: seq<Ref>, ghost bounds: seq<nat>)
      requires Valid()
      modifies this, heap
      ensures Valid() && Extends(old(heap.nodes), heap.nodes)
      ensures |bounds| == |roots| + 1 && bounds[0] == |old(heap.nodes)| && bounds[|roots|] == |heap.nodes|
      ensures Made(heap.nodes, bounds, roots, Resolved(contents, call.args))
      ensures trees == Register(heap.nodes, old(trees), roots, call.append)
    {
      ghost var ns00, trees0 := heap.nodes, trees;
      ghost var ns, cvs: seq<Export> := ns00, [];
      roots, bounds := [], [|ns00|];
      for i := 0 to |call.args|
        invariant Valid() && ns == heap.nodes && Extends(ns00, ns)
        invariant cvs == Resolved(contents, call.args[..i])
        invariant |bounds| == |roots| + 1 && bounds[0] == |ns00| && bounds[|roots|] == |ns|
        invariant Made(ns, bounds, roots, cvs)
        invariant trees == Register(ns, trees0, roots, call.append)
      {
        roots, bounds, cvs, ns := BuildStep(call, i, ns00, trees0, roots, bounds, cvs);
      }
      assert call.args[..|call.args|] == call.args;
    }

    /** One turn of `build_tree`'s loop: the argument at `i` is built, if it resolves, and
        its root joins those made and registered so far. */
    method BuildStep(call: BuildCall, i: nat, ghost ns00: seq<DataNode>, ghost trees0: seq<Ref>,
                     roots: seq<Ref>, ghost bounds: seq<nat>, ghost cvs: seq<Export>)
      returns (roots': seq<Ref>, ghost bounds': seq<nat>, ghost cvs': seq<Export>, ghost ns: seq<DataNode>)
      requires i < |call.args| && (forall j | 0 <= j < |trees0| :: trees0[j] < |ns00|)
      requires Valid() && Extends(ns00, heap.nodes)
      requires cvs == Resolved(contents, call.args[..i])
      requires |bounds| == |roots| + 1 && bounds[0] == |ns00| && bounds[|roots|] == |heap.nodes|
      requires Made(heap.nodes, bounds, roots, cvs)
      requires trees == Register(heap.nodes, trees0, roots, call.append)
      modifies this, heap
      ensures Valid() && ns == heap.nodes && Extends(ns00, ns)
      ensures cvs' == Resolved(contents, call.args[..i + 1])
      ensures |bounds'| == |roots'| + 1 && bounds'[0] == |ns00| && bounds'[|roots'|] == |ns|
      ensures Made(ns, bounds', roots', cvs')
      ensures trees == Register(ns, trees0, roots', call.append)
    {
      ResolvedSnoc(contents, call.args, i);
      ghost var ns0, before := heap.nodes, trees;
      var root;
      ghost var ns1;
      root, ns1 := BuildArg(call.args[i], call.append);
      roots', bounds', cvs' := roots, bounds, cvs;
      if root.Some? {
        ghost var after, cv := trees, Resolve(contents, call.args[i]).value;
        ghost var hi: seq<nat> := [|ns1|];
        roots', bounds', cvs' := roots + [root.value], bounds + hi, cvs + [cv];
        MadeStep(ns0, ns1, bounds, roots, cvs, root.value, cv, bounds', roots', cvs');
        TreeStep(ns00, ns0, ns1, trees0, before, after, bounds, roots, cvs, root.value, roots', call.append);
      }
      ns := heap.nodes;
    }

    /** One argument of `build_tree`'s loop: resolved, then, unless it is a title no
        record has, built and registered; the root is what the call appends to `roots`. */
    method BuildArg(arg: Arg, append: bool) returns (root: Option<Ref>, ghost ns: seq<DataNode>)
      requires Valid()
      modifies this, heap
      ensures Valid() && ns == heap.nodes && Extends(old(heap.nodes), ns)
      ensures root.Some? <==> Resolve(contents, arg).Some?
      ensures root.None? ==> ns == old(heap.nodes) && trees == old(trees)
      ensures root.Some? ==>
        && Grown(ns, |old(heap.nodes)|, root.value, Resolve(contents, arg).value)
        && trees == Enlist(ns, old(trees), root.value, append)
    {
      var cv := ResolveArg(arg);
      if cv.None? {
        return None, heap.nodes;
      }
      var r;
      r, ns := BuildRoot(cv.value);
      Enroll(r, append);
      root := Some(r);
    }

    /** The tree for one conversation, built: its root and the heap after it. */
    method BuildRoot(cv: Export) returns (root: Ref, ghost ns: seq<DataNode>)
      requires Valid()
      modifies heap
      ensures Valid() && ns == heap.nodes && Extends(old(heap.nodes), ns)
      ensures Grown(ns, |old(heap.nodes)|, root, cv)
    {
      ghost var done, rank;
      root, done, ns, rank := BuildConversation(cv);
    }

    /** `if append and not root in self.trees: self.trees.append(root)`. */
    method Enroll(root: Ref, append: bool)
      requires Valid() && root < |heap.nodes| && heap.nodes[root].parent == None
      modifies this
      ensures Valid() && trees == Enlist(heap.nodes, old(trees), root, append)
    {
      var listed := IsListed(root);
      EnlistDistinct(heap.nodes, trees, root, append);
      if append && !listed {
        trees := trees + [root];
      }
    }

    /** `build_all_trees()`, which calls `build_tree(*self.contents)`: the first record
        binds to `append`, so each later record is built and registered, and the first is
        not built. */
    method BuildAllTrees() returns (ghost roots: seq<Ref>, ghost bounds: seq<nat>)
      requires Valid()
      modifies this, heap
      ensures Valid() && Extends(old(heap.nodes), heap.nodes)
      ensures |roots| == if contents == [] then 0 else |contents| - 1
      ensures |bounds| == |roots| + 1 && bounds[0] == |old(heap.nodes)| && bounds[|roots|] == |heap.nodes|
      ensures Made(heap.nodes, bounds, roots, if contents == [] then [] else contents[1..])
      ensures trees == Register(heap.nodes, old(trees), roots, true)
    {
      var rs;
      rs, bounds := BuildTree(BindAll(contents));
      roots := rs;
      if contents != [] {
        BuildAllSkipsFirst(contents);
      }
    }

    /** `search_for_string(s)`: every registered tree's search, in registration order. */
    method SearchForString(s: string) returns (results: seq<Ref>)
      requires Valid()
      ensures results == FoundInAll(heap.nodes, heap.rank, trees, s)
    {
      results := [];
      for i := 0 to |trees|
        invariant results == FoundInAll(heap.nodes, heap.rank, trees[..i], s)
      {
        var found := heap.SearchDown(trees[i], s);
        assert trees[..i + 1][..i] == trees[..i];
        results := results + found;
      }
      assert trees[..|trees|] == trees;
    }

    /** The loop over `self.trees` for a title: the last registered tree with it. */
    method FindTree(t: string) returns (found: Option<Ref>)
      requires Valid()
      ensures found == LastTitled(heap.nodes, trees, t)
    {
      found := None;
      for i := 0 to |trees|
        invariant found == LastTitled(heap.nodes, trees[..i], t)
      {
        assert trees[..i + 1][..i] == trees[..i];
        if heap.nodes[trees[i]].title == t {
          found := Some(trees[i]);
        }
      }
      assert trees[..|trees|] == trees;
    }

    /** `build_text(tree, path)`, with `rest` what the caller's `path` list holds after the
        call's `pop(0)`s: from the start node down, the text of each user and assistant
        message, taking at each branch point the child the next entry names (1-based, as
        Python indexes it) or the last child once the entries run out. */
    method BuildText(target: Target, path: seq<int>) returns (rest: seq<int>, t: Text)
      requires Valid() && (target.Start? ==> target.r < |heap.nodes|)
      ensures (rest, t) == TextFor(heap.nodes, heap.rank, trees, target, path)
    {
      var start: Ref;
      match target {
        case TitleOf(title) =>
          var found := FindTree(title);
          if found.None? {
            return path, Text("");
          }
          start := found.value;
        case Start(r) =>
          start := r;
      }
      rest, t := Compose(start, path);
    }

    /** The `while True` loop of `build_text` from `start`: collects the text of each node
        and moves to the child the path picks, until a leaf or an entry out of range. */
    method Compose(start: Ref, path: seq<int>) returns (rest: seq<int>, t: Text)
      requires heap.Valid() && start < |heap.nodes|
      ensures (rest, t) == TextFrom(heap.nodes, heap.rank, start, path)
    {
      ghost var ns, rank := heap.nodes, heap.rank;
      var text := "";
      var x: Ref := start;
      rest := path;
      ghost var seen: seq<Ref> := [];
      while true
        invariant x < |ns| && forall i | 0 <= i < |seen| :: seen[i] < |ns|
        invariant Descend(ns, rank, start, path) == After(seen, Descend(ns, rank, x, rest))
        invariant text == Render(ns, seen)
        decreases Top(rank) - rank[x]
      {
        RenderSnoc(ns, seen, x);
        text := text + Line(heap.nodes[x]);
        var move := Next(heap.nodes, x, rest);
        match move
        case Stop =>
          seen := seen + [x];
          break;
        case OutOfRange(r) =>
          return r, IndexError;
        case Down(c, r) =>
          DescendDown(ns, rank, x, rest);
          AfterStep(seen, x, Descend(ns, rank, c, r));
          seen := seen + [x];
          x, rest := c, r;
      }
      t := Text(text);
    }

    /** One pass of `build_tree`'s loop body for a conversation record: the worklist
        walk over the mapping from its first key, creating a node per fragment reached
        and linking each to the nodes already made for its parent and children, then the
        walk up to the root of the first key's node. Nodes made earlier are untouched. */
    method BuildConversation(cv: Export) returns (root: Ref, ghost done: map<Id, Ref>, ghost ns: seq<DataNode>, ghost rank: seq<nat>)
      requires Valid()
      modifies heap
      ensures Valid() && ns == heap.nodes && rank == heap.rank && Extends(old(heap.nodes), ns)
      ensures Built(ns, rank, |old(heap.nodes)|, cv.mapping, cv.title, done)
      ensures OlderClosed(ns, |old(heap.nodes)|)
      ensures Mirrors(ns, cv.mapping, done, [])
      ensures Closed(cv.mapping, done.Keys) && cv.keys[0] in done
      ensures Confined(cv.mapping, cv.keys[0], done.Keys)
      ensures Connected(cv.mapping) ==> done.Keys == cv.mapping.Keys
      ensures root == RootOf(ns, rank, done[cv.keys[0]])
      ensures Grown(ns, |old(heap.nodes)|, root, cv)
      ensures Connected(cv.mapping) ==> forall r | |old(heap.nodes)| <= r < |ns| :: RootOf(ns, rank, r) == root
    {
      ghost var ns0 := heap.nodes;
      ghost var base := |ns0|;
      var built := Explore(cv);
      done := built;
      ghost var ns1 := heap.nodes;
      assert Extends(ns0, ns1);
      TreesKept(ns0, ns1, trees);
      // `list(done.keys())[0]`: the first key entered is the seed, visited by the first turn
      var start := built[cv.keys[0]];
      root := WalkUp(cv, base, built, start);
      ns, rank := heap.nodes, heap.rank;
      BuildFinished(ns, rank, base, cv, built, root);
    }

    /** The worklist loop of `build_tree`: from the first key, each fragment taken off the
        queue gets a node, linked to the nodes of its built relatives, until nothing is
        queued. Every fragment reachable from the first key is then built. */
    method Explore(cv: Export) returns (done: map<Id, Ref>)
      requires heap.Valid()
      modifies heap
      ensures heap.Valid() && Keeps(old(heap.nodes), heap.nodes, |old(heap.nodes)|)
      ensures Stage(heap.nodes, heap.rank, |old(heap.nodes)|, cv, done, [])
      ensures Closed(cv.mapping, done.Keys) && cv.keys[0] in done
      ensures Confined(cv.mapping, cv.keys[0], done.Keys)
    {
      var m := cv.mapping;
      var seed := cv.keys[0];
      ghost var base := |heap.nodes|;
      var queue := [seed];
      done := map[];
      while queue != []
        invariant heap.Valid() && base <= |heap.nodes| && Keeps(old(heap.nodes), heap.nodes, base)
        invariant Stage(heap.nodes, heap.rank, base, cv, done, [])
        invariant QueueOk(queue, m, done) && Reached(m, done, queue)
        invariant seed in done || seed in queue
        invariant Confined(m, seed, done.Keys + set x | x in queue)
        decreases m.Keys - done.Keys
      {
        var curr := queue[0];
        HeadTail(queue, 0);
        var node;
        var rest := queue[1..];
        node, queue := Visit(cv, base, done, curr, rest);
        ConfinedStep(m, seed, done, curr, node, rest, queue);
        Shrinks(m, done, curr, node);
        done := done[curr := node];
      }
      assert (set x | x in queue) == {};
    }

    /** The `while node.parent` walk from a node of the conversation just built up to the
        root of its tree, which is a node of the same conversation. */
    method WalkUp(cv: Export, ghost base: nat, ghost done: map<Id, Ref>, start: Ref) returns (root: Ref)
      requires heap.Valid() && Stage(heap.nodes, heap.rank, base, cv, done, [])
      requires base <= start < |heap.nodes|
      ensures base <= root < |heap.nodes| && heap.nodes[root].parent == None
      ensures root == RootOf(heap.nodes, heap.rank, start)
    {
      ghost var ns, rank := heap.nodes, heap.rank;
      root := start;
      while heap.nodes[root].parent.Some?
        invariant base <= root < |ns|
        invariant RootOf(ns, rank, root) == RootOf(ns, rank, start)
        decreases rank[root]
      {
        ParentOfBuilt(ns, rank, base, cv, done, root);
        root := heap.nodes[root].parent.value;
      }
    }

    /** One turn of the worklist: the node for `curr` (just taken off the queue) is made,
        linked to the built nodes of its parent and children, and the ids it refers to
        that are neither built nor queued join the queue (falsy ids excepted). */
    method Visit(cv: Export, ghost base: nat, built: map<Id, Ref>,
                 curr: Id, queue: seq<Id>) returns (node: Ref, queue': seq<Id>)
      requires heap.Valid() && base <= |heap.nodes|
      requires Stage(heap.nodes, heap.rank, base, cv, built, [])
      requires QueueOk([curr] + queue, cv.mapping, built) && Reached(cv.mapping, built, [curr] + queue)
      modifies heap
      ensures heap.Valid() && node == |old(heap.nodes)| && |heap.nodes| == node + 1
      ensures Keeps(old(heap.nodes), heap.nodes, base)
      ensures Stage(heap.nodes, heap.rank, base, cv, built[curr := node], [])
      ensures QueueOk(queue', cv.mapping, built[curr := node]) && Reached(cv.mapping, built[curr := node], queue')
      ensures forall x | x in queue :: x in queue'
      ensures queue' == QueueTurn(cv.mapping, built, curr, queue)
    {
      ghost var ns, rank := heap.nodes, heap.rank;
      Dequeue(cv.mapping, built, curr, queue, |ns|);
      node := heap.New(cv.mapping[curr], cv.title, Levels(cv.mapping)[curr]);
      AfterNew(ns, rank, base, cv, built, curr, node);
      ghost var after := built[curr := node];
      ghost var ns1 := heap.nodes;
      assert Keeps(ns, ns1, base);
      queue' := LinkUp(cv, base, built, after, curr, node, queue);
      ghost var up, ns2 := queue', heap.nodes;
      queue' := LinkDown(cv, base, built, after, curr, node, queue');
      assert forall x | x in up :: x in queue';
      KeepsTrans(ns, ns1, ns2, base);
      KeepsTrans(ns, ns2, heap.nodes, base);
      ReachedStep(cv.mapping, built, after, curr, node, queue, queue');
    }

    /** The parent half of a turn: `assign_child` under the parent's node when the parent
        is built, otherwise the parent id is queued unless it is queued already or falsy. */
    method LinkUp(cv: Export, ghost base: nat, built: map<Id, Ref>,
                  ghost after: map<Id, Ref>, curr: Id, node: Ref, queue: seq<Id>) returns (queue': seq<Id>)
      requires heap.Valid()
      requires node == |heap.nodes| - 1 && curr in cv.mapping && curr !in built && after == built[curr := node]
      requires Stage(heap.nodes, heap.rank, base, cv, after, [curr] + cv.mapping[curr].children)
      requires QueueOk(queue, cv.mapping, after)
      modifies heap
      ensures heap.Valid() && heap.rank == old(heap.rank) && |heap.nodes| == |old(heap.nodes)|
      ensures Keeps(old(heap.nodes), heap.nodes, base)
      ensures Stage(heap.nodes, heap.rank, base, cv, after, cv.mapping[curr].children)
      ensures QueueOk(queue', cv.mapping, after) && forall x | x in queue :: x in queue'
      ensures var p := ParentKey(cv.mapping[curr]); p.Some? ==> p.value in after || p.value in queue'
      ensures queue' == QueueParent(cv.mapping[curr], built, queue)
    {
      var pid := cv.mapping[curr].parent;
      queue' := queue;
      ghost var ns, rank := heap.nodes, heap.rank;
      if pid.Some? && pid.value in built {
        // `done[parent_id].assign_child(node)`: the new node joins its built parent
        var p := built[pid.value];
        ParentLinkable(ns, rank, base, cv, built, after, curr, node, pid.value);
        AttachKeepsStage(ns, rank, base, cv, after, curr, cv.mapping[curr].children, p, node);
        heap.AssignChild(p, node);
      } else {
        if pid.Some? && pid.value !in queue && pid.value != "" {
          NotOwnRelative(cv, curr);
          Enqueue(cv.mapping, after, queue, pid.value);
          queue' := queue + [pid.value];
        }
        Unlinked(ns, cv.mapping, after, curr, cv.mapping[curr].children);
      }
    }

    /** The children half of a turn, in child order: each built child is linked under the
        new node with `assign_parent`, each other child id is queued unless it is queued
        already or falsy. */
    method LinkDown(cv: Export, ghost base: nat, built: map<Id, Ref>,
                    ghost after: map<Id, Ref>, curr: Id, node: Ref, queue: seq<Id>) returns (queue': seq<Id>)
      requires heap.Valid()
      requires node == |heap.nodes| - 1 && curr in cv.mapping && curr !in built && after == built[curr := node]
      requires Stage(heap.nodes, heap.rank, base, cv, after, cv.mapping[curr].children)
      requires QueueOk(queue, cv.mapping, after)
      modifies heap
      ensures heap.Valid() && heap.rank == old(heap.rank) && |heap.nodes| == |old(heap.nodes)|
      ensures Keeps(old(heap.nodes), heap.nodes, base)
      ensures Stage(heap.nodes, heap.rank, base, cv, after, [])
      ensures QueueOk(queue', cv.mapping, after) && forall x | x in queue :: x in queue'
      ensures forall c | c in cv.mapping[curr].children :: c in after || c in queue'
      ensures queue' == QueueChildren(cv.mapping[curr].children, built, queue)
    {
      var cids := cv.mapping[curr].children;
      queue' := queue;
      for i := 0 to |cids|
        invariant heap.Valid() && heap.rank == old(heap.rank) && |heap.nodes| == |old(heap.nodes)|
        invariant Keeps(old(heap.nodes), heap.nodes, base)
        invariant Stage(heap.nodes, heap.rank, base, cv, after, cids[i..])
        invariant QueueOk(queue', cv.mapping, after) && forall x | x in queue :: x in queue'
        invariant queue' == QueueChildren(cids[..i], built, queue)
      {
        ghost var q0 := queue';
        ghost var ns0 := heap.nodes;
        queue' := Adopt(cv, base, built, after, curr, node, cids, i, queue');
        KeepsTrans(old(heap.nodes), ns0, heap.nodes, base);
        QueueChildrenStep(cids, i, built, queue, q0);
      }
      ghost var ns := heap.nodes;
      AllHandled(ns, heap.rank, base, cv, built, after, cids, queue, queue');
    }

    /** One child of the new node: linked when built, queued otherwise. */
    method Adopt(cv: Export, ghost base: nat, built: map<Id, Ref>,
                 ghost after: map<Id, Ref>, curr: Id, node: Ref, cids: seq<Id>, i: nat, queue: seq<Id>) returns (queue': seq<Id>)
      requires heap.Valid()
      requires node == |heap.nodes| - 1 && curr in cv.mapping && curr !in built && after == built[curr := node]
      requires cids == cv.mapping[curr].children && i < |cids|
      requires Stage(heap.nodes, heap.rank, base, cv, after, cids[i..])
      requires QueueOk(queue, cv.mapping, after)
      modifies heap
      ensures heap.Valid() && heap.rank == old(heap.rank) && |heap.nodes| == |old(heap.nodes)|
      ensures Keeps(old(heap.nodes), heap.nodes, base)
      ensures Stage(heap.nodes, heap.rank, base, cv, after, cids[i + 1..])
      ensures QueueOk(queue', cv.mapping, after) && forall x | x in queue :: x in queue'
      ensures cids[i] in after || cids[i] in queue'
      ensures queue' == if cids[i] !in built && cids[i] !in queue && cids[i] != "" then queue + [cids[i]] else queue
    {
      var cid := cids[i];
      queue' := queue;
      ghost var ns, rank := heap.nodes, heap.rank;
      if cid in built {
        // `done[child_id].assign_parent(node)`: the built child joins the new node
        var c := built[cid];
        ChildLinkable(ns, rank, base, cv, built, after, curr, node, cids, i);
        AttachKeepsStage(ns, rank, base, cv, after, cid, cids[i + 1..], node, c);
        heap.AssignParent(c, node);
      } else {
        ChildUnbuilt(ns, cv, built, after, curr, node, cids, i);
        if cid !in queue && cid != "" {
          Enqueue(cv.mapping, after, queue, cid);
          queue' := queue + [cid];
        }
      }
    }
  }
}

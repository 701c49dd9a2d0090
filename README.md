# ChatGPT data parser: conversation trees, verified

This project models the core of `data_tree.py`, a parser for exported ChatGPT archives.

An export holds conversation records. Each record has a title and a `mapping` from fragment id to fragment. A fragment has a parent id, child ids and an optional message. The parser does three things:

- **Rebuilds each conversation's message tree.** `ChatDataParser.build_tree` runs a worklist over the mapping. It creates one `DataNode` per fragment it reaches and links parent and child in whichever order they turn up (`assign_child` / `assign_parent`). Each children list is kept sorted by creation time with `bisect.insort`. It then walks up from the first node to the root.
- **Searches the trees.** `search_for_string` concatenates each registered tree's pre-order `search_down`.
- **Writes out one branch.** `build_text` descends from a root, choosing a child at each branch point from a path of 1-based indices (the last child once the path runs out). It collects `User:` / `Assistant:` text on the way. `path()` computes the path that leads to a given node.

Modules, one per file:

- **`Fragments`** (`fragments.dfy`): the export's records. It also defines `WellFormed` and the `Export` subset type, which is the shape of record the builder handles.
- **`Nodes`** (`nodes.dfy`): the `DataNode` value, its constructor, `__eq__` / `__lt__`, and the reference definition of insort-right.
- **`Forest`** (`forest.dfy`): the heap of nodes as a sequence addressed by `Ref` (a position), and the invariant `Wf`:
  - parent and child links agree;
  - children lists are sorted and id-distinct;
  - parent links have no cycle. A ghost `rank` is the witness.

  It also holds `Attach` (one link step), `RootOf`, `Spine` (the strict ancestors, root first) and `PathTo`, the value `path()` returns.
- **`Search`** (`search.dfy`): the pre-order and the search results as functions.
- **`Branch`** (`branch.dfy`): `build_text`'s descent as a function `Descend`, and the round trip between `path()` and that descent.
- **`Tree`** (`tree.dfy`): class `NodeHeap`. Its methods update the heap in place: `AssignChild`, `AssignParent`, `Insort`. It also has the loops `Path`, `SearchDown` and `IsParentalTo`.
- **`Builder`** (`builder.dfy`): the invariants of `build_tree`'s worklist, and the lemmas that keep them.
- **`Parser`** (`parser.dfy`): class `ChatDataParser`, which holds `contents`, the registered `trees` and the heap. It has `BuildTree`, `BuildAllTrees`, `SearchForString` and `BuildText`. The build methods are proved to make, for each record, the whole tree its mapping describes and nothing else (`TreeFor`: the nodes made for the record are one node per fragment reachable from the first key, linked as the fragments say, under the root the walk up reaches). `SearchForString` and `BuildText` are proved against specification functions (`FoundInAll`, `TextFor`).

Where the source's behaviour departs from what its docstrings say, the model follows the code:

- **`build_all_trees` skips the first record.** Its docstring (data_tree.py:218) says "This function builds all trees". But `build_tree(self, append=True, *args)` binds the first record to `append`, so the call builds every record except the first. `BindAll` models that binding. `BuildAllSkipsFirst` proves the consequence.
- **`is_parental_to` always raises.** Its docstring (data_tree.py:95) says it checks whether this node is an ancestor of the other node. As written, it raises on every node argument (see Findings).

## Model

| member | source | states |
|---|---|---|
| Fragments.ParentKey | data_tree.py:193 | A parent id counts only when it is truthy: present and not the empty string |
| Nodes.MakeNode | data_tree.py:59-77 | `id`, `parent_id`, `children_ids` and title are always copied. The node is valid iff the fragment has a message. An invalid node keeps `author == ""` and has no content or time. A valid one takes role, first content part and creation time from the message. No links are made |
| Nodes.InsortRight | data_tree.py:27 | Reference insort: one entry longer, holding exactly the old entries and `c`, with `c` or the old head first |
| Nodes.InsortSorted | data_tree.py:27 | Inserting into a list sorted by creation time keeps it sorted |
| Nodes.InsortSplit | data_tree.py:27 | Insort-right puts `c` after every entry whose time is not later than its own and before every later one, so equal times go after existing ones |
| Nodes.InsortDistinct | data_tree.py:27 | Inserting a node whose id no child has keeps the children's ids distinct |
| Forest.AttachFields | data_tree.py:22-28 | After a link step, `c.parent` is `p` and `p.children` is the insort of `c` into the old list. Every other node and every node's own data are unchanged |
| Forest.AttachKeepsWf | data_tree.py:22-36 | A link step between a parentless node and an earlier-ranked one keeps the heap well formed: links agree, children stay sorted and id-distinct, ranks still rise downward |
| Forest.ParentFirst | data_tree.py:30-36 | Setting the parent before the insert (`assign_parent`) gives the same heap as inserting first (`assign_child`) |
| Forest.RootOf | data_tree.py:204-207 | Following parent links ends at a node without a parent |
| Forest.IndexById | data_tree.py:48 | `list.index` under `__eq__`: the first position whose node has the given id |
| Forest.ParentEntry | data_tree.py:46-48 | The entry recorded at a parent is empty iff the parent has at most one child. Otherwise it is the single 1-based position `p` at which the node sits among the parent's children. A node's path is its parent's path followed by that entry |
| Forest.PathStep | data_tree.py:46-50 | One step up the `path()` walk prepends the parent's entry to what is collected so far |
| Tree.NodeHeap.New | data_tree.py:59-77 | Constructing a node appends exactly that node to the heap; the new node has no links |
| Tree.NodeHeap.BisectRight | data_tree.py:27 | Binary search comparing with `__lt__`: every child before the position is not later than `c` and every child from it on is later |
| Tree.NodeHeap.Insort | data_tree.py:27 | The children list of `p` becomes `InsortRight` of the old list; nothing else changes |
| Tree.NodeHeap.AssignChild | data_tree.py:22-28 | The heap becomes `Attach(old, p, c)` and stays valid |
| Tree.NodeHeap.AssignParent | data_tree.py:30-36 | The heap becomes `Attach(old, p, c)`, the same as `assign_child`, and stays valid |
| Tree.NodeHeap.Path | data_tree.py:38-52 | Returns exactly `PathTo(n)`: the parent-entry loop computes the path function |
| Tree.NodeHeap.PathAndTitle | data_tree.py:110-117 | Returns the node's path and its title |
| Tree.NodeHeap.SearchDown | data_tree.py:119-132 | Returns the matching nodes of the subtree in pre-order: itself first, then each child's search in children order |
| Tree.NodeHeap.IsParentalTo | data_tree.py:93-102 | Corrected `is_parental_to`: true iff some strict ancestor of `other` equals `node` under `__eq__` |
| Tree.PyEq | data_tree.py:79-85 | `__eq__` raises exactly when one side is `None`. On two nodes it compares ids |
| Tree.PyNe | data_tree.py:98 | The inherited `!=` raises where `==` raises, and negates it otherwise |
| Tree.ParentalAsWritten | data_tree.py:93-102 | As written, `is_parental_to` raises on any node argument and returns `None` on `None` |
| Tree.IsParentalToRaises | data_tree.py:93-102 | Two-node tree where `a` is a strict ancestor of `b`, yet the as-written call raises |
| Search.Contains | data_tree.py:126 | Python's `s in text`: true iff `s` occurs at some position of `text` |
| Search.PreOrder | data_tree.py:129-130 | Pre-order visit starts at the node itself |
| Search.Found | data_tree.py:126-127 | Results hold exactly the visited nodes that are valid and contain the query, and nothing else |
| Search.FoundAppend | data_tree.py:130 | Searching a concatenation concatenates the searches (`results += …`) |
| Search.PreOrderIsSubtree | data_tree.py:129-130 | The pre-order of `x` holds exactly `x` and the nodes that have `x` as an ancestor |
| Search.SearchFindsSubtreeMatches | data_tree.py:119-132 | `search_down` from `x` reports `r` iff `r` matches and is `x` or below it |
| Search.FoundInAllMembers | data_tree.py:222-232 | The combined search reports `r` iff `r` matches and lies in some registered tree |
| Branch.PyIndex | data_tree.py:275 | Python's `children[j]`: valid iff `-n <= j < n`. The element chosen is `j` itself when `j >= 0` and `n + j` when it is negative, so the entry `0` (index `-1`) selects the last child |
| Branch.Next | data_tree.py:269-280 | One step of `build_text`'s loop only ever moves to a child of the node |
| Branch.Descend | data_tree.py:255-282 | The descent starts at its node and visits only heap nodes |
| Branch.DescendStops | data_tree.py:269-275 | A descent that succeeds ends at a leaf. One that fails ends at a branch point with two or more children, where the last path entry it used names no child (the `IndexError`) |
| Branch.DescendFails | data_tree.py:271-275 | A failed descent used at least one path entry, and the last one it used, as an index, is out of range for the children of the node it stopped at |
| Branch.DescendConsumes | data_tree.py:274-275 | The descent only pops entries from the front of the path: what is left is a suffix of it |
| Branch.DescendWithoutPath | data_tree.py:276-277 | With an empty path the descent never fails, and each step goes to the last child |
| Branch.RenderAppend | data_tree.py:260-267 | The text of a concatenation of nodes is the concatenation of their texts |
| Branch.RenderSnoc | data_tree.py:260-267 | One more node adds its `User:` / `Assistant:` block, or nothing for other roles |
| Branch.PathRoundTrip | data_tree.py:38-52 | Descending from the root along `path() + tail` passes the node's ancestors, reaches the node, and continues from it with `tail`: `path()` reverses the descent |
| Branch.PathReachesNode | data_tree.py:38-52 | Following `path()` from the root visits the node |
| Branch.PathShape | data_tree.py:46-48 | A path has one entry per branching ancestor, each between 1 and that ancestor's number of children |
| Branch.PathUnbranched | data_tree.py:46-48 | A node with no branching ancestor, a root included, has the empty path |
| Branch.TextThroughNode | data_tree.py:255-282 | The text along `path() + tail` is the ancestors' text followed by the text of the descent from the node |
| Builder.Dequeue | data_tree.py:187 | Popping the queue's head keeps it duplicate-free, within the mapping and disjoint from the built ids |
| Builder.Enqueue | data_tree.py:193-200 | Appending an id that is neither built nor queued keeps the queue duplicate-free |
| Builder.Shrinks | data_tree.py:186-202 | Each turn builds one more id, so the loop ends within the mapping's size |
| Builder.ParentLinkable | data_tree.py:191-192 | When the parent is built, `assign_child` may run: the new node is parentless, ranks below the parent, and no child has its id |
| Builder.ChildLinkable | data_tree.py:197-198 | When a child is built, `assign_parent` may run: the child has no parent yet and its id is new among the node's children |
| Builder.CanLinkUnder | data_tree.py:196-198 | Every built child of a fragment can be inserted under that fragment's node |
| Builder.BuiltTreeMirrors | data_tree.py:186-202 | Once the queue empties, the nodes mirror the mapping. A node lacks a parent iff its fragment names none, and its children are exactly the nodes of its fragment's children |
| Builder.QueueParent | data_tree.py:191-194 | The queue after the parent test: the old queue, in order, with at most the fragment's parent id after it. A truthy parent id that is not built ends up queued |
| Builder.QueueChildren | data_tree.py:196-200 | The queue after the child loop: the old queue, in order, followed only by child ids. Every truthy child id that is not built ends up queued |
| Builder.QueueTurn | data_tree.py:187-200 | A whole turn keeps the old queue as a prefix and appends only the fragment's parent id or child ids |
| Builder.QueueChildrenStep | data_tree.py:197-200 | Looking at one more child id appends it iff it is unbuilt, unqueued and truthy |
| Builder.ConfinedStep | data_tree.py:186-202 | A turn keeps the built and queued ids within every closed set holding the seed |
| Builder.RootIsSummit | data_tree.py:204-207 | The walk up from a built node ends at the node of the fragment reached by following parent ids up from its fragment |
| Builder.TreeForBuilt | data_tree.py:183-207 | A finished worklist walk from the first key builds the tree `TreeFor` describes, rooted where the walk up from the first key's node ends. The nodes it made are exactly that tree: one per fragment reached, each fragment id once (`Spans`). For a connected record every fragment has its node |
| Builder.ShapedKept | data_tree.py:156-212 | Nodes made later leave a conversation's built tree as it was |
| Builder.SpansKept | data_tree.py:156-212 | Nodes made later leave a conversation's nodes where they were, each still the node of its fragment id |
| Builder.BuildFinished | data_tree.py:204-207 | The root the walk up finds is a root for the record at the top of its `TreeFor` tree, which is every node made for the record and no other. For a connected record it is the root every node of the record leads up to |
| Parser.TreeForKept | data_tree.py:156-212 | A conversation's tree stays the same tree as later conversations are built |
| Parser.MadeStep | data_tree.py:164-212 | The trees built so far stay built as one more is built, and the new one, made from the end of the others on, joins them |
| Parser.MadeWithin | data_tree.py:164-212 | The trees are made one after another, so every tree's nodes lie between the first new node and the end of the heap |
| Parser.MadeFromSecond | data_tree.py:216-220 | Under `build_all_trees`, the tree at position `i` is the whole tree of `contents[i + 1]`, made from its own run of new nodes, with its root among them |
| Builder.BuiltRoot | data_tree.py:204-207 | The root reached is a built, parentless node of the conversation's title, made from a fragment that names no parent |
| Parser.FirstTitled | data_tree.py:169-172 | The first record with the title, or none when no record has it |
| Parser.FindByTitle | data_tree.py:169-172 | The loop with `break` returns `FirstTitled` |
| Parser.Resolve | data_tree.py:167-179 | A record stands for itself. A title resolves to the first record with that title (no earlier record has it), and to none iff no record has it |
| Parser.ResolvedSnoc | data_tree.py:164-176 | An argument that resolves adds its record to those built, and one that does not (`continue`) adds nothing |
| Parser.RegisterAppends | data_tree.py:209-210 | Registering only appends, and only given roots; without `append` the list is unchanged |
| Parser.RegisterLists | data_tree.py:209-210 | After registering with `append`, every root built is in the list under `__eq__`, and ids stay distinct |
| Parser.EnlistDistinct | data_tree.py:209-210 | The `not root in self.trees` test keeps registered ids distinct |
| Parser.LastTitled | data_tree.py:244-246 | A registered tree with the title after which no registered tree has it, so the last match; none iff no registered tree has the title |
| Parser.BindAll | data_tree.py:220 | `build_tree(*self.contents)` binds the first record to `append` (truthy) and the rest to `*args` |
| Parser.ResolvedRaw | data_tree.py:220 | Records passed as arguments are built in their own order |
| Parser.BuildAllSkipsFirst | data_tree.py:216-220 | The bound call builds exactly `contents[1..]`, and the first record not at all (when it does not recur), while passing every record to `*args` would build them all |
| Parser.TextAlongPath | data_tree.py:234-282 | `build_text(title, path())` for a node of the last tree with that title uses the whole path. It yields the text from the root through the node, then along last children to a leaf |
| Parser.ChatDataParser.constructor | data_tree.py:154 | A new parser has no trees and an empty heap |
| Parser.ChatDataParser.IsListed | data_tree.py:209 | `root in self.trees` is true iff some registered tree has the root's id |
| Parser.ChatDataParser.ResolveArg | data_tree.py:167-179 | Returns `Resolve` of the argument |
| Parser.ChatDataParser.BuildTree | data_tree.py:156-214 | Earlier nodes are kept. The roots are those of the resolving arguments' conversations, in order, each the root of that record's whole tree (`Made`, which holds `TreeFor`). The new nodes are those trees one after another and nothing else. `trees` is the registration of those roots |
| Parser.ChatDataParser.BuildStep | data_tree.py:164-212 | One loop turn keeps `BuildTree`'s loop invariants for one more argument |
| Parser.ChatDataParser.BuildArg | data_tree.py:165-212 | An unresolved title changes nothing. Otherwise the new nodes are exactly the record's whole tree (`TreeFor`), and its new root is enlisted |
| Parser.ChatDataParser.BuildRoot | data_tree.py:181-207 | Builds, on top of the existing heap, the record's tree: a node for each fragment reachable from the first key and for no other, each made from its fragment, with the parent pointer and children its fragment names. It makes no other node and none twice: each fragment id has exactly one new node. It returns the root the walk up reaches (`Grown`, which holds `TreeFor`) |
| Parser.ChatDataParser.Enroll | data_tree.py:209-210 | `trees` becomes `Enlist` of the root, and stays id-distinct |
| Parser.ChatDataParser.BuildAllTrees | data_tree.py:216-220 | Builds the whole tree (`TreeFor`) of each record but the first, in order, one after another, with no other new node, and registers their roots with `append` |
| Fragments.OneRootFragment | data_tree.py:204-207 | In a connected record, two fragments that both name no parent are the same fragment |
| Fragments.OneRoot | data_tree.py:204-207 | A connected record has exactly one fragment that names no parent |
| Builder.SameRoot | data_tree.py:204-207 | Once every fragment of a connected record is built, the walk up from any of its nodes reaches the same root, and no other of its nodes is parentless |
| Parser.ChatDataParser.BuildConversation | data_tree.py:181-207 | Every id reached gets exactly one node mirroring its fragment. The reached ids are closed under links and lie within every closed set holding the seed, so they are exactly the fragments reachable from the first key; for a connected mapping, all of them. The root is the root above the seed's node and tops the tree `TreeFor` describes, which is every node the call made. For a connected mapping, the walk up from every new node ends at that same root |
| Parser.ChatDataParser.Explore | data_tree.py:183-202 | The worklist loop ends with every reached id built and linked and earlier nodes untouched. The seed and the ids referenced from built fragments are all built, and nothing outside the seed's reach is (the built and queued ids stay within every closed set holding the seed) |
| Parser.ChatDataParser.Visit | data_tree.py:187-202 | One turn builds the popped id's node, links it, and keeps the queue invariants. The new queue is the old one followed, in order, by the ids the turn queues (`QueueTurn`) |
| Parser.ChatDataParser.LinkUp | data_tree.py:191-194 | A built parent adopts the node. An unbuilt, truthy, unqueued parent id is queued: the new queue is `QueueParent` of the old one |
| Parser.ChatDataParser.LinkDown | data_tree.py:196-200 | Every child id is either built (and then linked under the node) or queued afterwards. The new queue is `QueueChildren` of the old one: the unbuilt, unqueued, truthy child ids appended in child order |
| Parser.ChatDataParser.Adopt | data_tree.py:197-200 | One child id: a built child is linked under the node, an unbuilt one is queued. The queue gains that id at its end iff it is unbuilt, unqueued and truthy, and is otherwise unchanged |
| Parser.ChatDataParser.WalkUp | data_tree.py:204-207 | The `while root.parent` walk returns `RootOf` the seed's node, a parentless node |
| Parser.ChatDataParser.SearchForString | data_tree.py:222-232 | Returns `FoundInAll`, the concatenated per-tree searches in registration order |
| Parser.ChatDataParser.FindTree | data_tree.py:244-246 | The lookup loop returns `LastTitled` |
| Parser.ChatDataParser.BuildText | data_tree.py:234-282 | Returns `TextFor`. For an unknown title: `""` with the path untouched. Otherwise: the descent's text, or `IndexError`, with what is left of the path |
| Parser.ChatDataParser.Compose | data_tree.py:255-282 | The descent loop returns `TextFrom`: the rendered visited nodes, or `IndexError` on a bad index |

## Left out

- **Loading the archive.** `ChatDataParser.__init__` checks the file, opens it and parses the JSON (data_tree.py:140-149). Here the parser is constructed from records already in memory.
- **The warning on empty contents** (data_tree.py:151-152). The source prints it and goes on constructing the parser; the model's constructor accepts empty `contents` in the same way.
- **Messages printed on a failed lookup** (data_tree.py:175, 249). The model keeps only their effect: the argument is skipped, or the empty text is returned.
- **`__repr__`** (data_tree.py:104-108). It is debug formatting only.
- **The `abc` machinery and `TreeNode.__init__`'s optional links** (data_tree.py:7-20). Every node here is created without links, which is how the core creates them.
- **`__eq__` against a string** (data_tree.py:83-84). No operation of the core compares a node with a string.
- **The identity check that Python's `in` performs before `==`.** Equality by id decides the same cases here.
- **Floating-point creation times.** A creation time is an `int`, because the source only ever compares times.
- **Records excluded by `WellFormed`, the precondition behind `Export`.** Every record of `contents` must satisfy it, even one that is never built (such as the first record under `build_all_trees`); the source accepts such a record as long as it is not built. What the source does with each excluded shape:
  - an empty mapping: `list(...keys())[0]` raises `IndexError` (data_tree.py:183);
  - a referenced id missing from the mapping: `KeyError` (data_tree.py:189);
  - a key that differs from its fragment's `id`: `done` and the links go by keys (data_tree.py:191, 197, 202), while `__eq__` compares `id` fields (data_tree.py:85). So `path()`'s `index` and the `in self.trees` test can match a different node. No exception is raised;
  - the empty string as a key: a node whose parent id is `""` is linked to that key's node once it is built (data_tree.py:191), yet no node queues it (data_tree.py:193, 199). No exception is raised;
  - a fragment without a message among two or more siblings: the comparison in `insort` reads a `create_time` the node lacks and raises `AttributeError` (data_tree.py:27, 91). The model demands this for every fragment of the record, including ones the walk from the first key never reaches;
  - a child id listed twice: if the child's node is built before its parent's, `assign_parent` runs twice and the parent holds the child twice (data_tree.py:197-198, 35-36). If the parent comes first, the repeat is skipped because the id is already queued (data_tree.py:199). Either way it raises only when the child has no message;
  - parent and child links that disagree: each side is linked as it turns up (data_tree.py:191-200), so a node can appear in two children lists or be linked under a parent that does not list it. No exception is raised;
  - a cycle of parent links that the walk up from the first key's node reaches: `while root.parent` does not terminate (data_tree.py:206-207). A cycle elsewhere in the mapping raises nothing, and the call returns normally.
- **Malformed fragments.** A fragment here always has `parent`, `children` and `id`, and a message always has a first content part and an integer creation time. The source raises `KeyError` when one of the three keys is missing (data_tree.py:63-65), before the validity test. It raises `IndexError` on an empty `parts` list (data_tree.py:76). It stores a JSON-null `create_time` (data_tree.py:77), and comparing that node with a sibling then raises `TypeError` (data_tree.py:91).
- **The mapping's key order.** It is given as `keys`, and the seed is its first entry.
- **The in-place consumption of `build_text`'s `path` argument** (`path.pop(0)`). It is returned as `rest`: the entries left unused.
- **Python object identity.** The model uses positions in a heap of nodes, so aliasing between separately held references is not modelled.
- Parser.ChatDataParser.BuildConversation: the order among siblings with equal creation times is not stated. It is the order in which the worklist attached them, since insort places a tie after the existing children. The contract states that each children list is sorted by time (`Wf`) and holds exactly the nodes of the fragment's children.
- Parser.ChatDataParser.BuildAllTrees: the source returns `None`. The roots, and the bounds of each tree's run of nodes, are returned here only as ghost values, to state the contract.
- Parser.ChatDataParser.BuildTree: the bounds of each tree's run of nodes are a ghost result the source does not have; the roots are what `build_tree` returns.

## Findings

| source | as written | input that shows it | evidently intended | confidence | as-written member | corrected member |
|---|---|---|---|---|---|---|
| data_tree.py:93-102 | `while node != None` calls the inherited `__ne__`, which calls `DataNode.__eq__`. That reads `other.id` on `None` and raises `AttributeError`, so the call raises on every node argument and never returns `True` | a root `a` with one child `b`: `a.is_parental_to(b)` raises even though `a` is `b`'s parent | walk `other`'s parent chain and answer whether it reaches `self` | not executed | Tree.IsParentalToRaises | Tree.NodeHeap.IsParentalTo |

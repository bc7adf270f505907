/** `build_tree_from_list` and `tree_to_list`: the level-order list encoding of
    binary trees, with explicit `None` markers for missing children and no
    trailing `None`.

    The builder links `TreeNode` objects one by one. Its objects are modelled
    as the slots of a node store: a reference is a slot index, `NULL` is the
    null reference, and `node.left = TreeNode(v)` appends a slot and writes
    its index into the parent's `left`. `TreeAt` reads the finished store back
    as the `Tree` value a solution receives. */
module TreeCodec {
  import opened Values

  /** One `TreeNode` object: its value and its `left`/`right` references. */
  datatype TreeCell = TreeCell(val: Value, left: int, right: int)

  predicate RefOk(store: seq<TreeCell>, j: int, c: int) {
    c == NULL || j < c < |store|
  }

  /** Every reference points to a later slot, so the store is acyclic. */
  predicate Linked(store: seq<TreeCell>) {
    forall j | 0 <= j < |store| :: RefOk(store, j, store[j].left) && RefOk(store, j, store[j].right)
  }

  /** The tree reachable from slot `j`. */
  function TreeAt(store: seq<TreeCell>, j: int): Tree
    requires Linked(store) && 0 <= j < |store|
    decreases |store| - j
  {
    var cell := store[j];
    Node(cell.val,
         if cell.left == NULL then Nil else TreeAt(store, cell.left),
         if cell.right == NULL then Nil else TreeAt(store, cell.right))
  }

  // ---------------------------------------------------------------------
  // Counting the entries that are not None

  /** How many of `nodes[..n]` are not `None`. */
  function PresentBefore(nodes: seq<Value>, n: nat): (c: nat)
    requires n <= |nodes|
    ensures c <= n
  {
    if n == 0 then 0 else PresentBefore(nodes, n - 1) + (if nodes[n - 1] == NoneV then 0 else 1)
  }

  function Present(nodes: seq<Value>): nat {
    PresentBefore(nodes, |nodes|)
  }

  lemma {:induction false} PresentMonotone(nodes: seq<Value>, a: nat, b: nat)
    requires a <= b <= |nodes|
    ensures PresentBefore(nodes, a) <= PresentBefore(nodes, b)
    decreases b - a
  {
    if a < b {
      PresentMonotone(nodes, a, b - 1);
    }
  }

  /** A present entry at `a` is counted before any later position. */
  lemma PresentStrict(nodes: seq<Value>, a: nat, b: nat)
    requires a < b <= |nodes| && nodes[a] != NoneV
    ensures PresentBefore(nodes, a) < PresentBefore(nodes, b)
  {
    PresentMonotone(nodes, a + 1, b);
  }

  /** The count before a position depends only on the entries before it. */
  lemma {:induction false} PresentOfPrefix(nodes: seq<Value>, prefix: seq<Value>, n: nat)
    requires |prefix| <= |nodes| && prefix == nodes[..|prefix|] && n <= |prefix|
    ensures PresentBefore(prefix, n) == PresentBefore(nodes, n)
  {
    if n > 0 {
      PresentOfPrefix(nodes, prefix, n - 1);
    }
  }

  // ---------------------------------------------------------------------
  // The positional reading of a level-order list

  /** The subtree whose root is the entry at position `p`. The `k`-th present
      entry (counting from 0) has its children at positions `2k+1` and `2k+2`:
      every dequeued node takes exactly two positions, in queue order. A
      `None` entry, or a position past the end, is a missing child. The
      requirement `p <= 2k` says that the entry is reached at all. */
  function Subtree(nodes: seq<Value>, p: nat): Tree
    requires p < |nodes| && nodes[p] != NoneV && p <= 2 * PresentBefore(nodes, p)
    decreases |nodes| - p, 1
  {
    var k := PresentBefore(nodes, p);
    Node(nodes[p], Kid(nodes, p, 2 * k + 1), Kid(nodes, p, 2 * k + 2))
  }

  /** The child at position `c` of the entry at `p`: missing when `c` is past
      the end or holds `None`. */
  function Kid(nodes: seq<Value>, p: nat, c: nat): Tree
    requires p < |nodes| && nodes[p] != NoneV && p < c <= 2 * PresentBefore(nodes, p) + 2
    decreases |nodes| - p, 0
  {
    if c < |nodes| && nodes[c] != NoneV then
      PresentMonotone(nodes, p + 1, c);
      Subtree(nodes, c)
    else Nil
  }

  /** The tree a level-order list denotes: none for an empty list or a `None`
      root. */
  function Decode(nodes: seq<Value>): Tree {
    if |nodes| == 0 || nodes[0] == NoneV then Nil else Subtree(nodes, 0)
  }

  /** The slot that the child entry at position `c` lands in, or `NULL`. */
  function ChildRef(nodes: seq<Value>, c: nat): int {
    if c < |nodes| && nodes[c] != NoneV then PresentBefore(nodes, c) else NULL
  }

  /** The store holds, in slot `j`, the `j`-th present entry (at position
      `pos[j]`), linked to its children as `Subtree` reads them. */
  ghost predicate Built(nodes: seq<Value>, store: seq<TreeCell>, pos: seq<nat>) {
    && |store| == |pos|
    && (forall j | 0 <= j < |store| ::
          && pos[j] < |nodes| && nodes[pos[j]] != NoneV
          && PresentBefore(nodes, pos[j]) == j && pos[j] <= 2 * j
          && store[j].val == nodes[pos[j]]
          && store[j].left == ChildRef(nodes, 2 * j + 1)
          && store[j].right == ChildRef(nodes, 2 * j + 2))
  }

  /** Two present entries with the same count are the same entry. */
  lemma SameCountSamePosition(nodes: seq<Value>, a: nat, b: nat)
    requires a < |nodes| && b < |nodes| && nodes[a] != NoneV && nodes[b] != NoneV
    requires PresentBefore(nodes, a) == PresentBefore(nodes, b)
    ensures a == b
  {
    if a < b {
      PresentStrict(nodes, a, b);
    } else if b < a {
      PresentStrict(nodes, b, a);
    }
  }

  /** A built store whose references stay inside it reads back as `Subtree`. */
  lemma {:induction false} BuiltReadsAsSubtree(nodes: seq<Value>, store: seq<TreeCell>, pos: seq<nat>, j: nat)
    requires Built(nodes, store, pos) && Linked(store) && j < |store|
    ensures TreeAt(store, j) == Subtree(nodes, pos[j])
    decreases |store| - j, 1
  {
    BuiltReadsAsKid(nodes, store, pos, j, 2 * j + 1);
    BuiltReadsAsKid(nodes, store, pos, j, 2 * j + 2);
  }

  /** The same for one child reference of slot `j`. */
  lemma {:induction false} BuiltReadsAsKid(nodes: seq<Value>, store: seq<TreeCell>, pos: seq<nat>, j: nat, c: nat)
    requires Built(nodes, store, pos) && Linked(store) && j < |store|
    requires c == 2 * j + 1 || c == 2 * j + 2
    ensures var ref := ChildRef(nodes, c);
      (if ref == NULL then Nil else TreeAt(store, ref)) == Kid(nodes, pos[j], c)
    decreases |store| - j, 0
  {
    var ref := ChildRef(nodes, c);
    if ref != NULL {
      assert ref == store[j].left || ref == store[j].right;
      SameCountSamePosition(nodes, pos[ref], c);
      BuiltReadsAsSubtree(nodes, store, pos, ref);
    }
  }

  function Cut(nodes: seq<Value>, i: nat): nat {
    if i < |nodes| then i else |nodes|
  }

  /** Slot `j` holds the `j`-th present entry, found at `pos[j]`, and every
      present entry among the first `cut` positions has a slot. */
  ghost predicate Slots(nodes: seq<Value>, store: seq<TreeCell>, pos: seq<nat>, cut: nat) {
    && cut <= |nodes| && |store| == |pos| == PresentBefore(nodes, cut)
    && forall j | 0 <= j < |store| ::
         && pos[j] < cut && nodes[pos[j]] != NoneV
         && PresentBefore(nodes, pos[j]) == j && pos[j] <= 2 * j
         && store[j].val == nodes[pos[j]]
  }

  /** The first `lefts` slots have their left child linked, the first
      `rights` their right child; the other references are still null. */
  ghost predicate Links(nodes: seq<Value>, store: seq<TreeCell>, lefts: nat, rights: nat) {
    forall j | 0 <= j < |store| ::
      && store[j].left == (if j < lefts then ChildRef(nodes, 2 * j + 1) else NULL)
      && store[j].right == (if j < rights then ChildRef(nodes, 2 * j + 2) else NULL)
  }

  /** Half an iteration of the builder's loop when the entry at `i` is
      missing: nothing is attached, and position `i` is done. */
  lemma SkipStep(nodes: seq<Value>, store: seq<TreeCell>, pos: seq<nat>, d: nat, i: nat, isLeft: bool)
    requires Slots(nodes, store, pos, Cut(nodes, i)) && d < |store|
    requires i == (if isLeft then 2 * d + 1 else 2 * d + 2)
    requires Links(nodes, store, if isLeft then d else d + 1, d)
    requires !(i < |nodes| && nodes[i] != NoneV)
    ensures Slots(nodes, store, pos, Cut(nodes, i + 1))
    ensures Links(nodes, store, d + 1, if isLeft then d else d + 1)
  {
    assert PresentBefore(nodes, Cut(nodes, i + 1)) == PresentBefore(nodes, Cut(nodes, i));
    assert ChildRef(nodes, i) == NULL;
  }

  lemma SlotsGrow(nodes: seq<Value>, store: seq<TreeCell>, pos: seq<nat>, i: nat, store': seq<TreeCell>, pos': seq<nat>)
    requires Slots(nodes, store, pos, Cut(nodes, i)) && i < |nodes| && nodes[i] != NoneV && i <= 2 * |store|
    requires |store'| == |store| + 1 && pos' == pos + [i] && store'[|store|].val == nodes[i]
    requires forall j | 0 <= j < |store| :: store'[j].val == store[j].val
    ensures Slots(nodes, store', pos', Cut(nodes, i + 1))
  {
    assert Cut(nodes, i) == i && Cut(nodes, i + 1) == i + 1;
    forall j | 0 <= j < |store'|
      ensures && pos'[j] < i + 1 && nodes[pos'[j]] != NoneV
              && PresentBefore(nodes, pos'[j]) == j && pos'[j] <= 2 * j
              && store'[j].val == nodes[pos'[j]]
    {
      if j < |store| {
        assert pos'[j] == pos[j];
      }
    }
  }

  lemma LinksGrow(nodes: seq<Value>, store: seq<TreeCell>, d: nat, i: nat, isLeft: bool, store': seq<TreeCell>)
    requires d < |store| && i == (if isLeft then 2 * d + 1 else 2 * d + 2)
    requires i < |nodes| && nodes[i] != NoneV && PresentBefore(nodes, i) == |store|
    requires Links(nodes, store, if isLeft then d else d + 1, d)
    requires var s := store + [TreeCell(nodes[i], NULL, NULL)];
      store' == s[d := if isLeft then s[d].(left := |store|) else s[d].(right := |store|)]
    ensures Links(nodes, store', d + 1, if isLeft then d else d + 1)
  {
    assert ChildRef(nodes, i) == |store|;
  }

  /** The queue holds the slots `from`, `from + 1`, ..., `to - 1`, in order. */
  predicate QueueHolds(queue: seq<int>, from: nat, to: nat) {
    from + |queue| == to && forall m | 0 <= m < |queue| :: queue[m] == from + m
  }

  lemma QueuePop(queue: seq<int>, from: nat, to: nat)
    requires QueueHolds(queue, from, to) && queue != []
    ensures queue[0] == from && QueueHolds(queue[1..], from + 1, to)
  {
  }

  lemma QueuePush(queue: seq<int>, from: nat, to: nat)
    requires QueueHolds(queue, from, to)
    ensures QueueHolds(queue + [to], from, to + 1)
  {
  }

  /** Half an iteration of `build_tree_from_list`: when the entry at `i` is
      present, a new node for it becomes the left (or right) child of the
      node at slot `node` and joins the back of the queue. */
  method AttachChild(nodes: seq<Value>, store: seq<TreeCell>, queue: seq<int>, ghost pos: seq<nat>,
                     node: nat, i: nat, isLeft: bool)
    returns (store': seq<TreeCell>, queue': seq<int>, ghost pos': seq<nat>)
    requires Slots(nodes, store, pos, Cut(nodes, i)) && node < |store|
    requires i == (if isLeft then 2 * node + 1 else 2 * node + 2)
    requires Links(nodes, store, if isLeft then node else node + 1, node)
    requires QueueHolds(queue, node + 1, |store|)
    ensures Slots(nodes, store', pos', Cut(nodes, i + 1))
    ensures Links(nodes, store', node + 1, if isLeft then node else node + 1)
    ensures QueueHolds(queue', node + 1, |store'|)
  {
    store', queue', pos' := store, queue, pos;
    if i < |nodes| && nodes[i] != NoneV {
      store' := store + [TreeCell(nodes[i], NULL, NULL)];
      store' := store'[node := if isLeft then store'[node].(left := |store'| - 1) else store'[node].(right := |store'| - 1)];
      QueuePush(queue, node + 1, |store|);
      queue' := queue + [|store'| - 1];
      pos' := pos + [i];
      SlotsGrow(nodes, store, pos, i, store', pos');
      LinksGrow(nodes, store, node, i, isLeft, store');
    } else {
      SkipStep(nodes, store, pos, node, i, isLeft);
    }
  }

  /** `build_tree_from_list(nodes)`: a queue of the nodes still to be given
      children and an index `i` into `nodes` that moves two positions per
      dequeued node. */
  method BuildTreeFromList(nodes: seq<Value>) returns (store: seq<TreeCell>, root: int)
    ensures root == NULL <==> |nodes| == 0 || nodes[0] == NoneV
    ensures root == NULL ==> store == []
    ensures root != NULL ==> root == 0 && 0 < |store| && Linked(store) && TreeAt(store, 0) == Decode(nodes)
    ensures |store| <= Present(nodes)
    ensures forall j | 0 <= j < |store| :: store[j].val != NoneV
  {
    if |nodes| == 0 || nodes[0] == NoneV {
      return [], NULL;
    }
    store := [TreeCell(nodes[0], NULL, NULL)];
    root := 0;
    var queue: seq<int> := [0];
    var i := 1;
    ghost var dequeued := 0;
    ghost var pos: seq<nat> := [0];
    while |queue| > 0 && i < |nodes|
      invariant i == 2 * dequeued + 1 && i <= |nodes| + 1 && 1 <= |store|
      invariant QueueHolds(queue, dequeued, |store|)
      invariant Slots(nodes, store, pos, Cut(nodes, i))
      invariant Links(nodes, store, dequeued, dequeued)
      decreases |nodes| - i
    {
      QueuePop(queue, dequeued, |store|);
      var node := queue[0];
      queue := queue[1..];
      store, queue, pos := AttachChild(nodes, store, queue, pos, node, i, true);
      i := i + 1;
      store, queue, pos := AttachChild(nodes, store, queue, pos, node, i, false);
      i := i + 1;
      dequeued := dequeued + 1;
    }
    FinishBuild(nodes, store, pos, dequeued, i);
  }

  /** When the builder's loop stops, the nodes still queued lie past the end
      of the list and get no children: the store is complete. */
  lemma FinishBuild(nodes: seq<Value>, store: seq<TreeCell>, pos: seq<nat>, d: nat, i: nat)
    requires i == 2 * d + 1 && i <= |nodes| + 1 && 1 <= |store| && d <= |store|
    requires d < |store| ==> i >= |nodes|
    requires Slots(nodes, store, pos, Cut(nodes, i)) && Links(nodes, store, d, d)
    ensures Linked(store) && TreeAt(store, 0) == Subtree(nodes, pos[0]) && pos[0] == 0
    ensures |store| <= Present(nodes)
    ensures forall j | 0 <= j < |store| :: store[j].val != NoneV
  {
    var cut := Cut(nodes, i);
    forall j | 0 <= j < |store|
      ensures store[j].left == ChildRef(nodes, 2 * j + 1) && store[j].right == ChildRef(nodes, 2 * j + 2)
    {
    }
    assert Built(nodes, store, pos);
    forall j | 0 <= j < |store|
      ensures RefOk(store, j, store[j].left) && RefOk(store, j, store[j].right)
    {
      ChildRefInside(nodes, pos[j], j, 2 * j + 1, cut);
      ChildRefInside(nodes, pos[j], j, 2 * j + 2, cut);
    }
    BuiltReadsAsSubtree(nodes, store, pos, 0);
    PresentMonotone(nodes, cut, |nodes|);
  }

  /** The child at position `c` of the `j`-th present entry (at `p`) lands in
      a later slot, and inside the first `cut` positions when it lies there. */
  lemma ChildRefInside(nodes: seq<Value>, p: nat, j: nat, c: nat, cut: nat)
    requires p < |nodes| && nodes[p] != NoneV && PresentBefore(nodes, p) == j && p < c
    requires cut <= |nodes| && (c < cut || c >= |nodes|)
    ensures ChildRef(nodes, c) == NULL || j < ChildRef(nodes, c) < PresentBefore(nodes, cut)
  {
    if c < |nodes| && nodes[c] != NoneV {
      PresentStrict(nodes, p, c);
      PresentStrict(nodes, c, cut);
    }
  }

  // ---------------------------------------------------------------------
  // The level-order reading of a tree

  /** Number of positions a subtree takes in the untrimmed level-order
      sequence: one per node and one per missing child. */
  function Size(t: Tree): nat {
    match t
    case Nil => 1
    case Node(_, l, r) => 1 + Size(l) + Size(r)
  }

  function QueueSize(queue: seq<Tree>): nat {
    if queue == [] then 0 else Size(queue[0]) + QueueSize(queue[1..])
  }

  lemma {:induction false} QueueSizeAppend(a: seq<Tree>, b: seq<Tree>)
    ensures QueueSize(a + b) == QueueSize(a) + QueueSize(b)
  {
    if a == [] {
      assert a + b == b;
    } else {
      assert (a + b)[1..] == a[1..] + b;
      QueueSizeAppend(a[1..], b);
    }
  }

  /** What a dequeued entry appends to the queue: both children of a node,
      nothing for a missing one. */
  function Children(t: Tree): seq<Tree> {
    match t
    case Nil => []
    case Node(_, l, r) => [l, r]
  }

  /** Replacing an entry by its children removes exactly its own position. */
  lemma ChildrenSize(t: Tree)
    ensures QueueSize(Children(t)) + 1 == Size(t)
  {
    if t.Node? {
      var one, two := [t.right], [t.left, t.right];
      assert one[1..] == [];
      assert QueueSize(one) == Size(t.right);
      assert two[1..] == one;
      assert QueueSize(two) == Size(t.left) + QueueSize(one);
    }
  }

  /** Every entry dequeued, in order, by a breadth-first walk that starts
      from `queue`. */
  function Items(queue: seq<Tree>): seq<Tree>
    decreases QueueSize(queue)
  {
    if queue == [] then []
    else
      QueueSizeAppend(queue[1..], Children(queue[0]));
      ChildrenSize(queue[0]);
      [queue[0]] + Items(queue[1..] + Children(queue[0]))
  }

  lemma {:induction false} ValsAppend(a: seq<Tree>, b: seq<Tree>)
    ensures Vals(a + b) == Vals(a) + Vals(b)
  {
  }

  /** The list entry of a dequeued entry: the node's value, `None` for a
      missing child. */
  function ValueOf(t: Tree): Value {
    if t.Nil? then NoneV else t.val
  }

  function Vals(items: seq<Tree>): (vs: seq<Value>)
    ensures |vs| == |items|
    ensures forall k | 0 <= k < |items| :: vs[k] == ValueOf(items[k])
  {
    seq(|items|, k requires 0 <= k < |items| => ValueOf(items[k]))
  }

  /** The list without its trailing `None` entries. */
  function Trim(s: seq<Value>): (r: seq<Value>)
    ensures |r| <= |s| && r == s[..|r|]
    ensures r == [] || r[|r| - 1] != NoneV
    ensures forall k | |r| <= k < |s| :: s[k] == NoneV
  {
    if s != [] && s[|s| - 1] == NoneV then Trim(s[..|s| - 1]) else s
  }

  /** The list `tree_to_list` returns: the level-order walk with `None` for
      each missing child, trailing `None` entries removed. */
  function Encode(t: Tree): seq<Value> {
    if t == Nil then [] else Trim(Vals(Items([t])))
  }

  /** One dequeue of the walk: the first entry's list entry, then the walk
      of the rest with its children queued. */
  lemma WalkStep(queue: seq<Tree>)
    requires queue != []
    ensures Vals(Items(queue)) == [ValueOf(queue[0])] + Vals(Items(queue[1..] + Children(queue[0])))
    ensures QueueSize(queue[1..] + Children(queue[0])) < QueueSize(queue)
  {
    var rest := queue[1..] + Children(queue[0]);
    QueueSizeAppend(queue[1..], Children(queue[0]));
    ChildrenSize(queue[0]);
    ItemsUnfold(queue);
    ValsAppend([queue[0]], Items(rest));
    assert Vals([queue[0]]) == [ValueOf(queue[0])];
  }

  /** One dequeued entry moves its value from the rest of the walk to the
      output. */
  lemma WalkInvariantStep(result: seq<Value>, queue: seq<Tree>, walk: seq<Value>)
    requires queue != [] && result + Vals(Items(queue)) == walk
    ensures (result + [ValueOf(queue[0])]) + Vals(Items(queue[1..] + Children(queue[0]))) == walk
  {
    WalkStep(queue);
    var rest := Vals(Items(queue[1..] + Children(queue[0])));
    assert (result + [ValueOf(queue[0])]) + rest == result + ([ValueOf(queue[0])] + rest);
  }

  /** Popping one trailing `None` leaves the trimmed list unchanged. */
  lemma TrimPop(s: seq<Value>)
    requires s != [] && s[|s| - 1] == NoneV
    ensures Trim(s[..|s| - 1]) == Trim(s)
  {
  }

  /** `tree_to_list(root)`: a breadth-first walk that appends the value of
      every node and `None` for every missing child, then pops the trailing
      `None` entries. */
  method TreeToList(root: Tree) returns (result: seq<Value>)
    ensures result == Encode(root)
    ensures result == [] || result[|result| - 1] != NoneV
  {
    if root == Nil {
      return [];
    }
    result := [];
    var queue := [root];
    ghost var walk := Vals(Items([root]));
    while queue != []
      invariant result + Vals(Items(queue)) == walk
      decreases QueueSize(queue)
    {
      var node := queue[0];
      WalkStep(queue);
      WalkInvariantStep(result, queue, walk);
      ghost var next := queue[1..] + Children(node);
      queue := queue[1..];
      if node.Node? {
        result := result + [node.val];
        queue := queue + [node.left, node.right];
      } else {
        result := result + [NoneV];
      }
      assert queue == next;
    }
    assert result + [] == result;
    ghost var full := result;
    while result != [] && result[|result| - 1] == NoneV
      invariant Trim(result) == Trim(full)
    {
      TrimPop(result);
      result := result[..|result| - 1];
    }
  }

  // ---------------------------------------------------------------------
  // Round trip: the positional reading undoes the level-order walk

  /** A tree none of whose nodes holds `None` (a `None` value would read
      back as a missing child). */
  predicate AllPresent(t: Tree) {
    match t
    case Nil => true
    case Node(v, l, r) => v != NoneV && AllPresent(l) && AllPresent(r)
  }

  /** How many of `items[..n]` are nodes rather than missing children. */
  function NodeCount(items: seq<Tree>, n: nat): (c: nat)
    requires n <= |items|
    ensures c <= n
  {
    if n == 0 then 0 else NodeCount(items, n - 1) + (if items[n - 1].Node? then 1 else 0)
  }

  lemma ItemsUnfold(queue: seq<Tree>)
    requires queue != []
    ensures Items(queue) == [queue[0]] + Items(queue[1..] + Children(queue[0]))
    ensures QueueSize(queue[1..] + Children(queue[0])) < QueueSize(queue)
  {
    QueueSizeAppend(queue[1..], Children(queue[0]));
    ChildrenSize(queue[0]);
  }

  lemma {:induction false} NodeCountCons(a: Tree, items: seq<Tree>, n: nat)
    requires 1 <= n <= |items| + 1
    ensures NodeCount([a] + items, n) == (if a.Node? then 1 else 0) + NodeCount(items, n - 1)
  {
    if n > 1 {
      NodeCountCons(a, items, n - 1);
      assert ([a] + items)[n - 1] == items[n - 2];
    }
  }

  /** The walk dequeues the initial queue first. */
  lemma {:induction false} ItemsPrefix(queue: seq<Tree>)
    ensures |Items(queue)| >= |queue|
    ensures forall k | 0 <= k < |queue| :: Items(queue)[k] == queue[k]
    decreases QueueSize(queue)
  {
    if queue != [] {
      var rest := queue[1..] + Children(queue[0]);
      ItemsUnfold(queue);
      ItemsPrefix(rest);
      forall k | 1 <= k < |queue| ensures Items(queue)[k] == queue[k] {
        assert Items(queue)[k] == Items(rest)[k - 1] == rest[k - 1];
      }
    }
  }

  /** Every entry of the walk is reached: before position `p`, the initial
      queue and two children per node dequeued so far fill at least `p + 1`
      positions. */
  lemma {:induction false} ItemsReached(queue: seq<Tree>, p: nat)
    requires p < |Items(queue)|
    ensures p < |queue| + 2 * NodeCount(Items(queue), p)
    decreases QueueSize(queue)
  {
    if p > 0 {
      var rest := queue[1..] + Children(queue[0]);
      ItemsUnfold(queue);
      ItemsReached(rest, p - 1);
      NodeCountCons(queue[0], Items(rest), p);
    }
  }

  /** The children of the node dequeued at `p` are dequeued at positions
      `|queue| + 2k` and `|queue| + 2k + 1`, where `k` counts the nodes
      dequeued before it. */
  lemma {:induction false} ItemsKids(queue: seq<Tree>, p: nat)
    requires p < |Items(queue)| && Items(queue)[p].Node?
    ensures var k := NodeCount(Items(queue), p);
      && |queue| + 2 * k + 1 < |Items(queue)|
      && Items(queue)[|queue| + 2 * k] == Items(queue)[p].left
      && Items(queue)[|queue| + 2 * k + 1] == Items(queue)[p].right
    decreases QueueSize(queue)
  {
    if p == 0 {
      ItemsKidsOfFirst(queue);
    } else {
      var rest := queue[1..] + Children(queue[0]);
      var x, y := Items(queue), Items(rest);
      ItemsUnfold(queue);
      assert x == [queue[0]] + y;
      ItemsKids(rest, p - 1);
      NodeCountCons(queue[0], y, p);
      KidsStep(queue[0], |queue|, x, y, p, |rest|, NodeCount(y, p - 1), NodeCount(x, p));
    }
  }

  /** The children of the first entry follow the rest of the initial queue. */
  lemma ItemsKidsOfFirst(queue: seq<Tree>)
    requires queue != [] && queue[0].Node?
    ensures |queue| + 1 < |Items(queue)|
    ensures Items(queue)[|queue|] == queue[0].left
    ensures Items(queue)[|queue| + 1] == queue[0].right
  {
    var rest := queue[1..] + Children(queue[0]);
    var x, y := Items(queue), Items(rest);
    ItemsUnfold(queue);
    assert x == [queue[0]] + y;
    assert |rest| == |queue| + 1;
    ItemsPrefix(rest);
    assert x[|queue|] == y[|queue| - 1] == rest[|queue| - 1];
    assert x[|queue| + 1] == y[|queue|] == rest[|queue|];
  }

  /** Putting one entry `a` in front of a walk shifts a node and its two
      children by one position alike, and moves the children's positions by
      the change in queue length and node count. */
  lemma KidsStep(a: Tree, n: nat, x: seq<Tree>, y: seq<Tree>, p: nat, m: nat, k': nat, k: nat)
    requires x == [a] + y && 0 < p <= |y| && y[p - 1].Node?
    requires m + 2 * k' + 1 < |y| && y[m + 2 * k'] == y[p - 1].left && y[m + 2 * k' + 1] == y[p - 1].right
    requires m == n - 1 + |Children(a)| && k == (if a.Node? then 1 else 0) + k'
    ensures n + 2 * k + 1 < |x| && x[n + 2 * k] == x[p].left && x[n + 2 * k + 1] == x[p].right
  {
    assert n + 2 * k == m + 2 * k' + 1;
  }

  lemma {:induction false} ItemsAllPresent(queue: seq<Tree>)
    requires forall k | 0 <= k < |queue| :: AllPresent(queue[k])
    ensures forall k | 0 <= k < |Items(queue)| :: AllPresent(Items(queue)[k])
    decreases QueueSize(queue)
  {
    if queue != [] {
      var rest := queue[1..] + Children(queue[0]);
      ItemsUnfold(queue);
      assert forall k | 0 <= k < |rest| :: AllPresent(rest[k]) by {
        forall k | 0 <= k < |rest| ensures AllPresent(rest[k]) {
          if k < |queue| - 1 {
            assert rest[k] == queue[k + 1];
          }
        }
      }
      ItemsAllPresent(rest);
    }
  }

  /** With no `None` values, nodes are exactly the present list entries. */
  lemma {:induction false} NodeCountIsPresent(items: seq<Tree>, n: nat)
    requires n <= |items| && forall k | 0 <= k < |items| :: AllPresent(items[k])
    ensures NodeCount(items, n) == PresentBefore(Vals(items), n)
  {
    if n > 0 {
      NodeCountIsPresent(items, n - 1);
    }
  }

  /** The node dequeued at `p` in walk `x` (with values `u`) has its value at
      `p` and its children at the two positions `Subtree` reads. */
  ghost predicate NodeAt(x: seq<Tree>, u: seq<Value>, p: nat) {
    && |u| == |x| && p < |x| && x[p].Node?
    && u[p] == x[p].val && u[p] != NoneV && p <= 2 * PresentBefore(u, p)
    && 2 * PresentBefore(u, p) + 2 < |u|
    && x[2 * PresentBefore(u, p) + 1] == x[p].left
    && x[2 * PresentBefore(u, p) + 2] == x[p].right
    && (u[2 * PresentBefore(u, p) + 1] != NoneV <==> x[2 * PresentBefore(u, p) + 1].Node?)
    && (u[2 * PresentBefore(u, p) + 2] != NoneV <==> x[2 * PresentBefore(u, p) + 2].Node?)
  }

  /** In the untrimmed walk of `t`, the node dequeued at `p` has its value
      at `p` and its children at the two positions `Subtree` reads. */
  lemma WalkPosition(t: Tree, p: nat)
    requires AllPresent(t)
    requires p < |Items([t])| && Items([t])[p].Node?
    ensures var x := Items([t]); var u := Vals(x); var k := PresentBefore(u, p);
      && u[p] == x[p].val && u[p] != NoneV && p <= 2 * k && 2 * k + 2 < |u|
      && x[2 * k + 1] == x[p].left && x[2 * k + 2] == x[p].right
      && (u[2 * k + 1] != NoneV <==> x[2 * k + 1].Node?)
      && (u[2 * k + 2] != NoneV <==> x[2 * k + 2].Node?)
  {
    var x := Items([t]);
    ItemsAllPresent([t]);
    ItemsReached([t], p);
    NodeCountIsPresent(x, p);
    ItemsKids([t], p);
  }

  ghost predicate WalkFacts(x: seq<Tree>, u: seq<Value>) {
    forall q {:trigger NodeAt(x, u, q)} | 0 <= q < |x| && x[q].Node? :: NodeAt(x, u, q)
  }

  /** Reading a walk positionally gives back, at every node position, the
      node dequeued there. */
  lemma {:induction false} SubtreeOfNodes(x: seq<Tree>, u: seq<Value>, p: nat)
    requires WalkFacts(x, u) && NodeAt(x, u, p)
    ensures Subtree(u, p) == x[p]
    decreases |x| - p, 1
  {
    var k := PresentBefore(u, p);
    var n := x[p];
    KidOfNodes(x, u, p, 2 * k + 1, n.left);
    KidOfNodes(x, u, p, 2 * k + 2, n.right);
    SubtreeFromKids(u, p, n);
  }

  /** The same for one child position of the node dequeued at `p`. */
  lemma {:induction false} KidOfNodes(x: seq<Tree>, u: seq<Value>, p: nat, c: nat, child: Tree)
    requires WalkFacts(x, u) && NodeAt(x, u, p)
    requires c == 2 * PresentBefore(u, p) + 1 || c == 2 * PresentBefore(u, p) + 2
    requires x[c] == child
    ensures Kid(u, p, c) == child
    decreases |x| - p, 0
  {
    if child.Node? {
      assert NodeAt(x, u, c);
      SubtreeOfNodes(x, u, c);
    }
  }

  /** The untrimmed walk of a tree without `None` values reads back
      positionally, node by node. */
  lemma SubtreeOfWalk(t: Tree, p: nat)
    requires AllPresent(t)
    requires p < |Items([t])| && Items([t])[p].Node?
    ensures var u := Vals(Items([t]));
      && u[p] != NoneV && p <= 2 * PresentBefore(u, p)
      && Subtree(u, p) == Items([t])[p]
  {
    var x := Items([t]);
    var u := Vals(x);
    forall q | 0 <= q < |x| && x[q].Node? ensures NodeAt(x, u, q) {
      WalkPosition(t, q);
      var k := PresentBefore(u, q);
      assert |u| == |x| && q < |x| && x[q].Node?;
      assert u[q] == x[q].val && u[q] != NoneV;
      assert q <= 2 * k && 2 * k + 2 < |u|;
      assert x[2 * k + 1] == x[q].left;
      assert x[2 * k + 2] == x[q].right;
      assert u[2 * k + 1] != NoneV <==> x[2 * k + 1].Node?;
      assert u[2 * k + 2] != NoneV <==> x[2 * k + 2].Node?;
    }
    assert NodeAt(x, u, p);
    SubtreeOfNodes(x, u, p);
  }

  /** A node reads back once its value and both child readings match. */
  lemma SubtreeFromKids(u: seq<Value>, p: nat, n: Tree)
    requires p < |u| && u[p] != NoneV && p <= 2 * PresentBefore(u, p) && n.Node?
    requires u[p] == n.val
    requires 2 * PresentBefore(u, p) + 2 < |u|
    requires Kid(u, p, 2 * PresentBefore(u, p) + 1) == n.left
    requires Kid(u, p, 2 * PresentBefore(u, p) + 2) == n.right
    ensures Subtree(u, p) == n
  {
  }

  /** Dropping trailing `None` entries changes no subtree. */
  lemma {:induction false} SubtreeOfTrimmed(nodes: seq<Value>, prefix: seq<Value>, p: nat)
    requires |prefix| <= |nodes| && prefix == nodes[..|prefix|]
    requires forall k | |prefix| <= k < |nodes| :: nodes[k] == NoneV
    requires p < |prefix| && prefix[p] != NoneV && p <= 2 * PresentBefore(nodes, p)
    ensures p <= 2 * PresentBefore(prefix, p) && Subtree(prefix, p) == Subtree(nodes, p)
    decreases |prefix| - p, 1
  {
    PresentOfPrefix(nodes, prefix, p);
    var k := PresentBefore(nodes, p);
    KidOfTrimmed(nodes, prefix, p, 2 * k + 1);
    KidOfTrimmed(nodes, prefix, p, 2 * k + 2);
  }

  lemma {:induction false} KidOfTrimmed(nodes: seq<Value>, prefix: seq<Value>, p: nat, c: nat)
    requires |prefix| <= |nodes| && prefix == nodes[..|prefix|]
    requires forall k | |prefix| <= k < |nodes| :: nodes[k] == NoneV
    requires p < |prefix| && prefix[p] != NoneV && PresentBefore(prefix, p) == PresentBefore(nodes, p)
    requires p < c <= 2 * PresentBefore(nodes, p) + 2
    ensures Kid(prefix, p, c) == Kid(nodes, p, c)
    decreases |prefix| - p, 0
  {
    if c < |prefix| && prefix[c] != NoneV {
      PresentMonotone(nodes, p + 1, c);
      SubtreeOfTrimmed(nodes, prefix, c);
    } else if c < |nodes| {
      assert nodes[c] == NoneV;
    }
  }

  /** `build_tree_from_list(tree_to_list(t))` rebuilds `t`, for every tree
      whose values are not `None`. */
  lemma DecodeEncode(t: Tree)
    requires AllPresent(t)
    ensures Decode(Encode(t)) == t
  {
    if t != Nil {
      var x := Items([t]);
      var u := Vals(x);
      ItemsPrefix([t]);
      SubtreeOfWalk(t, 0);
      SubtreeOfTrimmed(u, Trim(u), 0);
    }
  }

  /** Every node the builder creates holds a present entry. */
  lemma {:induction false} SubtreeAllPresent(nodes: seq<Value>, p: nat)
    requires p < |nodes| && nodes[p] != NoneV && p <= 2 * PresentBefore(nodes, p)
    ensures AllPresent(Subtree(nodes, p))
    decreases |nodes| - p, 1
  {
    var k := PresentBefore(nodes, p);
    KidAllPresent(nodes, p, 2 * k + 1);
    KidAllPresent(nodes, p, 2 * k + 2);
  }

  lemma {:induction false} KidAllPresent(nodes: seq<Value>, p: nat, c: nat)
    requires p < |nodes| && nodes[p] != NoneV && p < c <= 2 * PresentBefore(nodes, p) + 2
    ensures AllPresent(Kid(nodes, p, c))
    decreases |nodes| - p, 0
  {
    if c < |nodes| && nodes[c] != NoneV {
      PresentMonotone(nodes, p + 1, c);
      SubtreeAllPresent(nodes, c);
    }
  }

  /** Re-encoding is stable: `tree_to_list(build_tree_from_list(tree_to_list(t)))
      == tree_to_list(t)`, and a list read as a tree and written back reads
      as the same tree again. */
  lemma EncodeStable(t: Tree, nodes: seq<Value>)
    requires AllPresent(t)
    ensures Encode(Decode(Encode(t))) == Encode(t)
    ensures Decode(Encode(Decode(nodes))) == Decode(nodes)
  {
    DecodeEncode(t);
    if |nodes| > 0 && nodes[0] != NoneV {
      SubtreeAllPresent(nodes, 0);
    }
    DecodeEncode(Decode(nodes));
  }

  /** The same round trip through the two methods and the node store. */
  method TreeRoundTrip(t: Tree) returns (first: seq<Value>, second: seq<Value>)
    requires AllPresent(t)
    ensures first == Encode(t) && second == first
  {
    first := TreeToList(t);
    var store, root := BuildTreeFromList(first);
    var rebuilt := if root == NULL then Nil else TreeAt(store, root);
    DecodeEncode(t);
    second := TreeToList(rebuilt);
  }
}

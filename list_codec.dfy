/** `build_list_from_array` and `list_to_array`: a Python list and a singly
    linked chain of `ListNode` objects.

    As for trees, the builder's objects are the slots of a node store: a
    reference is a slot index and `NULL` the null reference. `ChainAt` reads
    the finished store back as the `Chain` value a solution receives. */
module ListCodec {
  import opened Values

  /** One `ListNode` object: its value and its `next` reference. */
  datatype ListCell = ListCell(val: Value, next: int)

  /** Every `next` reference points to a later slot, so the chain ends. */
  predicate Chained(cells: seq<ListCell>) {
    forall j | 0 <= j < |cells| :: cells[j].next == NULL || j < cells[j].next < |cells|
  }

  /** The chain reachable from slot `j`. */
  function ChainAt(cells: seq<ListCell>, j: int): Chain
    requires Chained(cells) && 0 <= j < |cells|
    decreases |cells| - j
  {
    Link(cells[j].val, if cells[j].next == NULL then End else ChainAt(cells, cells[j].next))
  }

  /** The chain holding the elements of `a` in order. */
  function FromSeq(a: seq<Value>): Chain {
    if a == [] then End else Link(a[0], FromSeq(a[1..]))
  }

  /** The values along a chain, in order. */
  function Elements(c: Chain): seq<Value> {
    match c
    case End => []
    case Link(v, next) => [v] + Elements(next)
  }

  /** `build_list_from_array(arr)`: the head node holds `arr[0]`, and each
      further element is linked behind the current last node. */
  method BuildListFromArray(arr: seq<Value>) returns (cells: seq<ListCell>, head: int)
    ensures head == NULL <==> arr == []
    ensures |cells| == |arr|
    ensures head != NULL ==> head == 0 && Chained(cells) && ChainAt(cells, 0) == FromSeq(arr)
  {
    if arr == [] {
      return [], NULL;
    }
    cells := [ListCell(arr[0], NULL)];
    head := 0;
    var current := 0;
    var k := 1;
    while k < |arr|
      invariant 1 <= k <= |arr| && |cells| == k && current == k - 1
      invariant forall j | 0 <= j < k :: cells[j].val == arr[j] && cells[j].next == (if j + 1 < k then j + 1 else NULL)
    {
      cells := cells + [ListCell(arr[k], NULL)];
      cells := cells[current := cells[current].(next := |cells| - 1)];
      current := |cells| - 1;
      k := k + 1;
    }
    ChainIsSuffix(arr, cells, 0);
  }

  /** A store linking slot `j` to slot `j + 1` holds, from slot `j`, the
      elements of `arr` from position `j`. */
  lemma {:induction false} ChainIsSuffix(arr: seq<Value>, cells: seq<ListCell>, j: nat)
    requires |cells| == |arr| && j < |arr|
    requires forall i | 0 <= i < |arr| :: cells[i].val == arr[i] && cells[i].next == (if i + 1 < |arr| then i + 1 else NULL)
    ensures Chained(cells) && ChainAt(cells, j) == FromSeq(arr[j..])
    decreases |arr| - j
  {
    if j + 1 < |arr| {
      ChainIsSuffix(arr, cells, j + 1);
      assert arr[j..][1..] == arr[j + 1..];
    } else {
      assert arr[j..][1..] == [];
    }
  }

  /** `list_to_array(head)`: walk the `next` references and collect the
      values. */
  method ListToArray(head: Chain) returns (result: seq<Value>)
    ensures result == Elements(head)
  {
    result := [];
    var current := head;
    while current.Link?
      invariant result + Elements(current) == Elements(head)
      decreases current
    {
      assert Elements(current) == [current.val] + Elements(current.next);
      result := result + [current.val];
      current := current.next;
    }
  }

  /** `list_to_array(build_list_from_array(a)) == a`; the chain has one node
      per element. */
  lemma {:induction false} ElementsFromSeq(a: seq<Value>)
    ensures Elements(FromSeq(a)) == a
    ensures |Elements(FromSeq(a))| == |a|
  {
    if a != [] {
      ElementsFromSeq(a[1..]);
    }
  }

  /** The other direction: rebuilding a chain from its elements gives the
      same chain. */
  lemma {:induction false} FromSeqElements(c: Chain)
    ensures FromSeq(Elements(c)) == c
  {
    if c.Link? {
      FromSeqElements(c.next);
      assert ([c.val] + Elements(c.next))[1..] == Elements(c.next);
    }
  }

  /** The same round trip through the two methods and the node store. */
  method ListRoundTrip(arr: seq<Value>) returns (result: seq<Value>)
    ensures result == arr
  {
    var cells, head := BuildListFromArray(arr);
    var chain := if head == NULL then End else ChainAt(cells, head);
    ElementsFromSeq(arr);
    result := ListToArray(chain);
  }
}

/** The values the harness moves around: what a parsed literal line yields, and
    the tree and linked-list objects it builds for (or receives from) a solution. */
module Values {

  /** The null reference in a node store, whose references are slot indices. */
  const NULL: int := -1

  datatype Option<T> = None | Some(value: T)

  /** An operation that either produces a value or raises; `Err` carries the
      text of the exception. */
  datatype Result<T> = Ok(value: T) | Err(error: string)

  /** A dynamically typed value. `NoneV` is the null value; `TreeRef` and
      `ListRef` are references to a `TreeNode` and a `ListNode` object, seen
      as the finite structures reachable from them. */
  datatype Value =
    | Int(i: int)
    | Float(r: real)
    | Bool(b: bool)
    | Str(s: string)
    | NoneV
    | List(items: seq<Value>)
    | TreeRef(root: Tree)
    | ListRef(head: Chain)

  /** The object graph below a `TreeNode`; `Nil` is an absent child. */
  datatype Tree = Nil | Node(val: Value, left: Tree, right: Tree)

  /** The object graph from a `ListNode` onwards; `End` is the absent successor. */
  datatype Chain = End | Link(val: Value, next: Chain)

  /** `isinstance(v, int)`: a `bool` is an `int` too. */
  predicate IsPyInt(v: Value) {
    v.Int? || v.Bool?
  }

  /** Truth value of `v` as `if not v` tests it; tree and list nodes are
      plain objects, hence always true. */
  predicate Truthy(v: Value) {
    match v
    case Int(i) => i != 0
    case Float(r) => r != 0.0
    case Bool(b) => b
    case Str(s) => s != ""
    case NoneV => false
    case List(items) => items != []
    case TreeRef(_) => true
    case ListRef(_) => true
  }

  /** A value a literal can denote: no tree or list node anywhere inside. */
  predicate IsLiteral(v: Value) {
    match v
    case TreeRef(_) => false
    case ListRef(_) => false
    case List(items) => forall k | 0 <= k < |items| :: IsLiteral(items[k])
    case _ => true
  }
}

/** Calling the solution: choosing the method, converting the case's
    arguments by parameter name, the in-place fallback, normalising results,
    replaying a design-class case and dispatching a case to one of the two
    paths.

    The solution class is an oracle: what the harness learns by reflection
    (`__name__`, `dir`, `inspect.signature`) is data, and constructing an
    object or calling one of its methods is a function that either returns
    or raises. */
module Invocation {
  import opened Values
  import opened Text
  import TreeCodec
  import ListCodec

  /** What a method call gives back: the object's state after the call, the
      return value, and the first argument as it is after the call (a
      solution may rewrite a list argument in place). */
  datatype Reply<S> = Reply(state: S, result: Value, firstArg: Value)

  /** The solution class. `members` is `dir(cls)` (sorted by name);
      `signature(m)` the parameter names of method `m`, `self` first;
      `construct(args)` is `cls(*args)`; `invoke(obj, m, args)` is
      `getattr(obj, m)(*args)`. `Err` carries the text of the exception. */
  datatype Solution<!S> = Solution(
    className: string,
    members: seq<string>,
    signature: string -> Result<seq<string>>,
    construct: seq<Value> -> Result<S>,
    invoke: (S, string, seq<Value>) -> Result<Reply<S>>)

  /** The `(success, result)` pair both test paths return. */
  datatype Outcome = Outcome(success: bool, result: Value)

  // ---------------------------------------------------------------------
  // Method selection

  /** A name that does not start with `_`. */
  predicate IsPublic(name: string) {
    !(|name| > 0 && name[0] == '_')
  }

  /** `[m for m in names if not m.startswith('_')][0]`, if there is one: a
      public name with no public name before it. */
  function FirstPublicName(names: seq<string>): (r: Option<string>)
    ensures r.Some? ==> IsPublic(r.value)
    ensures r.Some? ==>
      exists i | 0 <= i < |names| :: names[i] == r.value && forall k | 0 <= k < i :: !IsPublic(names[k])
    ensures r.None? <==> forall k | 0 <= k < |names| :: !IsPublic(names[k])
  {
    if names == [] then None
    else if IsPublic(names[0]) then Some(names[0])
    else
      var r := FirstPublicName(names[1..]);
      assert r.Some? ==> exists i | 0 <= i < |names| :: names[i] == r.value && forall k | 0 <= k < i :: !IsPublic(names[k]) by {
        if r.Some? {
          var j :| 0 <= j < |names| - 1 && names[1..][j] == r.value && forall k | 0 <= k < j :: !IsPublic(names[1..][k]);
          assert names[j + 1] == r.value;
          forall k | 0 <= k < j + 1 ensures !IsPublic(names[k]) {
            if k > 0 {
              assert names[k] == names[1..][k - 1];
            }
          }
        }
      }
      r
  }

  /** `a <= b` on Python strings: code points compared left to right, a
      proper prefix first. */
  predicate LexLe(a: string, b: string) {
    if a == [] then true
    else if b == [] then false
    else if a[0] != b[0] then a[0] < b[0]
    else LexLe(a[1..], b[1..])
  }

  lemma {:induction false} LexLeReflexive(a: string)
    ensures LexLe(a, a)
  {
    if a != [] {
      LexLeReflexive(a[1..]);
    }
  }

  predicate SortedNames(names: seq<string>) {
    forall i, j | 0 <= i < j < |names| :: LexLe(names[i], names[j])
  }

  /** `dir()` lists names in sorted order, so the method chosen is the
      alphabetically least public name, not the first one declared. */
  lemma {:induction false} FirstPublicIsLeast(names: seq<string>)
    requires SortedNames(names)
    ensures var r := FirstPublicName(names);
      r.Some? ==> forall k | 0 <= k < |names| && IsPublic(names[k]) :: LexLe(r.value, names[k])
  {
    if names != [] {
      if IsPublic(names[0]) {
        LexLeReflexive(names[0]);
      } else {
        var tail := names[1..];
        FirstPublicIsLeast(tail);
        forall k | 0 <= k < |names| && IsPublic(names[k])
          ensures LexLe(FirstPublicName(names).value, names[k])
        {
          assert names[k] == tail[k - 1];
        }
      }
    }
  }

  /** What `detect_method_signature` reports. */
  datatype Signature = NoMethod | Method(name: string, params: seq<string>)

  /** `list(sig.parameters.keys())[1:]`: the parameter names after `self`. */
  function DropSelf(names: seq<string>): seq<string> {
    if names == [] then [] else names[1..]
  }

  /** `detect_method_signature()`: the first public member and its parameter
      names after `self`; `inspect.signature` may raise. */
  function DetectSignature<S>(sol: Solution<S>): (r: Result<Signature>)
    ensures r == Ok(NoMethod) <==> forall k | 0 <= k < |sol.members| :: !IsPublic(sol.members[k])
    ensures r.Ok? && r.value.Method? ==>
      && FirstPublicName(sol.members) == Some(r.value.name)
      && sol.signature(r.value.name).Ok?
      && r.value.params == DropSelf(sol.signature(r.value.name).value)
    ensures FirstPublicName(sol.members).Some? ==>
      (r.Err? <==> sol.signature(FirstPublicName(sol.members).value).Err?)
  {
    match FirstPublicName(sol.members)
    case None => Ok(NoMethod)
    case Some(name) =>
      match sol.signature(name)
      case Err(e) => Err(e)
      case Ok(ps) => Ok(Method(name, DropSelf(ps)))
  }

  // ---------------------------------------------------------------------
  // Argument conversion

  /** The name `type(v).__name__` gives in error messages. */
  function TypeName(v: Value): string {
    match v
    case Int(_) => "int"
    case Float(_) => "float"
    case Bool(_) => "bool"
    case Str(_) => "str"
    case NoneV => "NoneType"
    case List(_) => "list"
    case TreeRef(_) => "TreeNode"
    case ListRef(_) => "ListNode"
  }

  function NotSubscriptable(v: Value): string {
    "'" + TypeName(v) + "' object is not subscriptable"
  }

  /** The elements of a string as indexing yields them: one-character
      strings. */
  function Chars(s: string): (r: seq<Value>)
    ensures |r| == |s| && forall k | 0 <= k < |s| :: r[k] == Str([s[k]])
  {
    seq(|s|, k requires 0 <= k < |s| => Str([s[k]]))
  }

  /** The value `build_tree_from_list` returns for a tree: the root node, or
      `None` for the empty tree. */
  function TreeValue(t: Tree): Value {
    if t == Nil then NoneV else TreeRef(t)
  }

  /** `build_tree_from_list(v)` for a case argument of any type: a false
      value gives `None`; a list is read level by level; a string is indexed
      like a list of one-character strings; anything else cannot be
      indexed. */
  function TreeArg(v: Value): (r: Result<Value>)
    ensures r.Ok? <==> !Truthy(v) || v.List? || v.Str?
    ensures r.Ok? && r.value != NoneV ==> r.value.TreeRef? && r.value.root.Node?
  {
    if !Truthy(v) then Ok(NoneV)
    else match v
      case List(items) => Ok(TreeValue(TreeCodec.Decode(items)))
      case Str(s) => Ok(TreeValue(TreeCodec.Decode(Chars(s))))
      case _ => Err(NotSubscriptable(v))
  }

  /** The argument passed for case element `i` with value `v`, chosen by the
      lower-cased name of parameter `i`. */
  function MarshalArg(params: seq<string>, i: nat, v: Value): Result<Value> {
    if i < |params| then
      var name := Lower(params[i]);
      if Contains(name, "tree") || Contains(name, "root") then TreeArg(v)
      else if Contains(name, "list") && v.List? && |v.items| > 0 && IsPyInt(v.items[0]) then
        Ok(ListRef(ListCodec.FromSeq(v.items)))
      else Ok(v)
    else Ok(v)
  }

  /** The conversion rule ignores the case of the parameter name: a name and
      its lower-case form convert alike (`treeRoot`, `TreeRoot`, `ROOT`). */
  lemma ConversionIgnoresCase(params: seq<string>, i: nat, v: Value)
    requires i < |params|
    ensures MarshalArg(params[i := Lower(params[i])], i, v) == MarshalArg(params, i, v)
  {
    LowerIdempotent(params[i]);
  }

  /** All arguments, in order; the first conversion that raises ends the
      case. */
  function MarshalAll(params: seq<string>, caseData: seq<Value>): Result<seq<Value>> {
    if caseData == [] then Ok([])
    else
      var n := |caseData| - 1;
      match MarshalAll(params, caseData[..n])
      case Err(e) => Err(e)
      case Ok(prefix) =>
        match MarshalArg(params, n, caseData[n])
        case Err(e) => Err(e)
        case Ok(a) => Ok(prefix + [a])
  }

  /** Exactly one argument per case element, in order, each converted by its
      own position's rule; conversion succeeds when every element's does. */
  lemma MarshalShape(params: seq<string>, caseData: seq<Value>)
    ensures MarshalAll(params, caseData).Ok? <==>
      forall i | 0 <= i < |caseData| :: MarshalArg(params, i, caseData[i]).Ok?
    ensures var r := MarshalAll(params, caseData);
      r.Ok? ==> (|r.value| == |caseData| &&
        forall i | 0 <= i < |caseData| :: MarshalArg(params, i, caseData[i]) == Ok(r.value[i]))
  {
    MarshalPointwise(params, caseData);
    if forall i | 0 <= i < |caseData| :: MarshalArg(params, i, caseData[i]).Ok? {
      MarshalOkWhenEach(params, caseData);
    }
  }

  /** One more element: conversion succeeds when the prefix's and the last
      element's do, and appends the last element's argument. */
  lemma MarshalAllSnoc(params: seq<string>, caseData: seq<Value>)
    requires caseData != []
    ensures var n := |caseData| - 1; var r, pre, last := MarshalAll(params, caseData), MarshalAll(params, caseData[..n]), MarshalArg(params, n, caseData[n]);
      && (r.Ok? <==> pre.Ok? && last.Ok?)
      && (r.Ok? ==> r.value == pre.value + [last.value])
  {
  }

  /** Conversion succeeds when every element's conversion does (the other
      direction is `MarshalPointwise`). */
  lemma {:induction false} MarshalOkWhenEach(params: seq<string>, caseData: seq<Value>)
    requires forall i | 0 <= i < |caseData| :: MarshalArg(params, i, caseData[i]).Ok?
    ensures MarshalAll(params, caseData).Ok?
  {
    if caseData != [] {
      var n := |caseData| - 1;
      var pre := caseData[..n];
      forall i | 0 <= i < n ensures MarshalArg(params, i, pre[i]).Ok? {
        assert pre[i] == caseData[i];
      }
      MarshalOkWhenEach(params, pre);
      MarshalAllSnoc(params, caseData);
    }
  }

  lemma {:induction false} MarshalPointwise(params: seq<string>, caseData: seq<Value>)
    ensures var r := MarshalAll(params, caseData);
      r.Ok? ==> (|r.value| == |caseData| &&
        forall i | 0 <= i < |caseData| :: MarshalArg(params, i, caseData[i]) == Ok(r.value[i]))
  {
    if caseData != [] {
      var n := |caseData| - 1;
      var pre := caseData[..n];
      MarshalPointwise(params, pre);
      MarshalAllSnoc(params, caseData);
      var r := MarshalAll(params, caseData);
      if r.Ok? {
        var prefix := MarshalAll(params, pre).value;
        forall i | 0 <= i < |caseData| ensures MarshalArg(params, i, caseData[i]) == Ok(r.value[i]) {
          if i < n {
            assert caseData[i] == pre[i] && r.value[i] == prefix[i];
          }
        }
      }
    }
  }

  /** Elements past the named parameters, and elements whose parameter name
      mentions neither a tree nor a list, are passed unchanged. */
  lemma PassThrough(params: seq<string>, caseData: seq<Value>, i: nat)
    requires i < |caseData| && MarshalAll(params, caseData).Ok?
    requires i >= |params| || !(Contains(Lower(params[i]), "tree") || Contains(Lower(params[i]), "root") || Contains(Lower(params[i]), "list"))
    ensures |MarshalAll(params, caseData).value| == |caseData| && MarshalAll(params, caseData).value[i] == caseData[i]
  {
    MarshalShape(params, caseData);
  }

  /** Once a prefix fails to convert, the whole case fails the same way. */
  lemma {:induction false} MarshalErrPropagates(params: seq<string>, caseData: seq<Value>, n: nat)
    requires n <= |caseData| && MarshalAll(params, caseData[..n]).Err?
    ensures MarshalAll(params, caseData) == MarshalAll(params, caseData[..n])
    decreases |caseData| - n
  {
    if n < |caseData| {
      var m := |caseData| - 1;
      assert caseData[..n + 1][..n] == caseData[..n];
      MarshalErrPropagates(params, caseData, n + 1);
    } else {
      assert caseData[..n] == caseData;
    }
  }

  /** `build_tree_from_list(v)` on a case argument, through the builder. */
  method BuildTreeArg(v: Value) returns (r: Result<Value>)
    ensures r == TreeArg(v)
  {
    if !Truthy(v) {
      return Ok(NoneV);
    }
    var nodes: seq<Value>;
    if v.List? {
      nodes := v.items;
    } else if v.Str? {
      nodes := Chars(v.s);
    } else {
      return Err(NotSubscriptable(v));
    }
    var store, root := TreeCodec.BuildTreeFromList(nodes);
    if root == NULL {
      r := Ok(NoneV);
    } else {
      r := Ok(TreeRef(TreeCodec.TreeAt(store, root)));
    }
  }

  /** The loop of `run_function_test` that fills `args`. */
  method MarshalArgs(params: seq<string>, caseData: seq<Value>) returns (r: Result<seq<Value>>)
    ensures r == MarshalAll(params, caseData)
  {
    var args: seq<Value> := [];
    var i := 0;
    while i < |caseData|
      invariant 0 <= i <= |caseData|
      invariant MarshalAll(params, caseData[..i]) == Ok(args)
    {
      var v := caseData[i];
      var a: Result<Value> := Ok(v);
      if i < |params| {
        var name := Lower(params[i]);
        if Contains(name, "tree") || Contains(name, "root") {
          a := BuildTreeArg(v);
        } else if Contains(name, "list") && v.List? && |v.items| > 0 && IsPyInt(v.items[0]) {
          var cells, head := ListCodec.BuildListFromArray(v.items);
          a := Ok(ListRef(ListCodec.ChainAt(cells, head)));
        }
      }
      assert caseData[..i + 1][..i] == caseData[..i];
      if a.Err? {
        MarshalErrPropagates(params, caseData, i + 1);
        return Err(a.error);
      }
      args := args + [a.value];
      i := i + 1;
    }
    assert caseData[..i] == caseData;
    return Ok(args);
  }

  // ---------------------------------------------------------------------
  // Results

  /** `process_result(v)`: tree and list nodes become Python lists; every
      other value is kept. */
  function ProcessResult(v: Value): (r: Value)
    ensures !r.TreeRef? && !r.ListRef?
    ensures !v.TreeRef? && !v.ListRef? ==> r == v
    ensures v.TreeRef? ==> r == List(TreeCodec.Encode(v.root))
    ensures v.ListRef? ==> r == List(ListCodec.Elements(v.head))
  {
    match v
    case TreeRef(t) => List(TreeCodec.Encode(t))
    case ListRef(c) => List(ListCodec.Elements(c))
    case _ => v
  }

  /** Processing twice is processing once, and an expected value read from a
      file is never changed. */
  lemma ProcessResultIdempotent(v: Value)
    ensures ProcessResult(ProcessResult(v)) == ProcessResult(v)
    ensures IsLiteral(v) ==> ProcessResult(v) == v
  {
  }

  /** Two trees without `None` values that process to the same list are the
      same tree: comparing processed results compares the trees. */
  lemma ProcessTreeInjective(t1: Tree, t2: Tree)
    requires TreeCodec.AllPresent(t1) && TreeCodec.AllPresent(t2)
    requires ProcessResult(TreeRef(t1)) == ProcessResult(TreeRef(t2))
    ensures t1 == t2
  {
    TreeCodec.DecodeEncode(t1);
    TreeCodec.DecodeEncode(t2);
  }

  /** Two chains that process to the same list are the same chain. */
  lemma ProcessListInjective(c1: Chain, c2: Chain)
    requires ProcessResult(ListRef(c1)) == ProcessResult(ListRef(c2))
    ensures c1 == c2
  {
    ListCodec.FromSeqElements(c1);
    ListCodec.FromSeqElements(c2);
  }

  /** A list argument built from a non-empty list of ints and handed back
      unchanged by the solution compares as the original list. */
  lemma ListArgumentEchoes(params: seq<string>, i: nat, items: seq<Value>)
    requires i < |params| && !Contains(Lower(params[i]), "tree") && !Contains(Lower(params[i]), "root")
    requires Contains(Lower(params[i]), "list") && |items| > 0 && IsPyInt(items[0])
    ensures MarshalArg(params, i, List(items)).Ok?
    ensures ProcessResult(MarshalArg(params, i, List(items)).value) == List(items)
  {
    ListCodec.ElementsFromSeq(items);
  }

  /** A tree argument given in the form `tree_to_list` writes, handed back
      unchanged by the solution, compares as the original list. */
  lemma TreeArgumentEchoes(params: seq<string>, i: nat, t: Tree)
    requires i < |params| && Contains(Lower(params[i]), "tree")
    requires TreeCodec.AllPresent(t) && t != Nil
    ensures MarshalArg(params, i, List(TreeCodec.Encode(t))).Ok?
    ensures ProcessResult(MarshalArg(params, i, List(TreeCodec.Encode(t))).value) == List(TreeCodec.Encode(t))
  {
    TreeCodec.DecodeEncode(t);
    TreeArgOfDecodable(TreeCodec.Encode(t));
  }

  /** A list that decodes to a tree is passed as that tree. */
  lemma TreeArgOfDecodable(e: seq<Value>)
    requires TreeCodec.Decode(e) != Nil
    ensures TreeArg(List(e)) == Ok(TreeRef(TreeCodec.Decode(e)))
  {
  }

  /** The value `run_function_test` compares: the return value, or, when the
      method returns `None` and its first argument is a list, that list as
      the call left it (an in-place solution such as `moveZeroes`). */
  function CallResult<S>(args: seq<Value>, reply: Reply<S>): Value {
    if reply.result == NoneV && |args| > 0 && args[0].List? then reply.firstArg else reply.result
  }

  /** `run_function_test(case, expected)`, exceptions as `Err`. */
  function FunctionTest<S>(sol: Solution<S>, caseData: seq<Value>, expected: Value): Result<Outcome> {
    match sol.construct([])
    case Err(e) => Err(e)
    case Ok(obj) =>
      match DetectSignature(sol)
      case Err(e) => Err(e)
      case Ok(NoMethod) => Ok(Outcome(false, Str("No method found")))
      case Ok(Method(name, params)) =>
        if name == "" then Ok(Outcome(false, Str("No method found")))
        else
          match MarshalAll(params, caseData)
          case Err(e) => Err(e)
          case Ok(args) =>
            match sol.invoke(obj, name, args)
            case Err(e) => Err(e)
            case Ok(reply) =>
              var processed := ProcessResult(CallResult(args, reply));
              Ok(Outcome(processed == ProcessResult(expected), processed))
  }

  /** When the solution is built, its method found and called, the verdict
      compares the processed result with the processed expected value; a
      method returning `None` on a case whose first element is a list is
      judged by that list after the call, and otherwise by `None`. */
  lemma FunctionVerdict<S>(sol: Solution<S>, caseData: seq<Value>, expected: Value, obj: S,
                           name: string, params: seq<string>, args: seq<Value>, reply: Reply<S>)
    requires sol.construct([]) == Ok(obj)
    requires DetectSignature(sol) == Ok(Method(name, params)) && name != ""
    requires MarshalAll(params, caseData) == Ok(args)
    requires sol.invoke(obj, name, args) == Ok(reply)
    ensures FunctionTest(sol, caseData, expected).Ok?
    ensures var o := FunctionTest(sol, caseData, expected).value;
      && (o.success <==> o.result == ProcessResult(expected))
      && (IsLiteral(expected) ==> (o.success <==> o.result == expected))
      && (reply.result != NoneV ==> o.result == ProcessResult(reply.result))
      && (reply.result == NoneV && |caseData| > 0 && args[0].List? ==> o.result == ProcessResult(reply.firstArg))
      && (reply.result == NoneV && (args == [] || !args[0].List?) ==> o.result == NoneV)
      && (caseData == [] ==> o.result == ProcessResult(reply.result))
  {
    MarshalShape(params, caseData);
  }

  /** A class without public members fails every function case. */
  lemma NoPublicMethod<S>(sol: Solution<S>, caseData: seq<Value>, expected: Value)
    requires sol.construct([]).Ok?
    requires forall k | 0 <= k < |sol.members| :: !IsPublic(sol.members[k])
    ensures FunctionTest(sol, caseData, expected) == Ok(Outcome(false, Str("No method found")))
  {
  }

  /** `run_function_test` itself: build the object, find the method, fill
      `args`, call, apply the fallback and compare. */
  method RunFunctionTest<S>(sol: Solution<S>, caseData: seq<Value>, expected: Value) returns (r: Result<Outcome>)
    ensures r == FunctionTest(sol, caseData, expected)
  {
    var built := sol.construct([]);
    if built.Err? {
      return Err(built.error);
    }
    var solution := built.value;
    var sig := DetectSignature(sol);
    if sig.Err? {
      return Err(sig.error);
    }
    if sig.value.NoMethod? || sig.value.name == "" {
      return Ok(Outcome(false, Str("No method found")));
    }
    var name, params := sig.value.name, sig.value.params;
    var marshalled := MarshalArgs(params, caseData);
    if marshalled.Err? {
      return Err(marshalled.error);
    }
    var args := marshalled.value;
    var called := sol.invoke(solution, name, args);
    if called.Err? {
      return Err(called.error);
    }
    var result := called.value.result;
    if result == NoneV && |args| > 0 {
      if args[0].List? {
        result := called.value.firstArg;
      }
    }
    var processedResult := ProcessResult(result);
    var processedExpected := ProcessResult(expected);
    return Ok(Outcome(processedResult == processedExpected, processedResult));
  }

  // ---------------------------------------------------------------------
  // Design-class replay

  /** The state of a replay: stopped because a method was called before any
      construction, or running with the current object and the results so
      far. */
  datatype Replayed<S> = Uninitialized | Ran(obj: Option<S>, results: seq<Value>)

  // The texts of the exceptions the replay can raise, as CPython 3.9 and
  // later words them.

  /** The `__module__` of the solution class: `exec` defines it in the
      tester's own globals, whose `__name__` is `__main__` when the tester
      runs as a script. */
  const MainModule := "__main__"

  /** How an error message names the class when calling it. */
  function ConstructorCallee(className: string): string {
    MainModule + "." + className + "()"
  }

  /** How an error message names a bound method when calling it. */
  function MethodCallee(className: string, name: string): string {
    MainModule + "." + className + "." + name + "()"
  }

  function AttributeNameError(name: Value): string {
    "attribute name must be string, not '" + TypeName(name) + "'"
  }

  function NoAttribute(className: string, name: string): string {
    "'" + className + "' object has no attribute '" + name + "'"
  }

  /** `*params`: a list passes its elements, a string its characters; any
      other value raises. */
  function Unpack(callee: string, params: Value): Result<seq<Value>> {
    match params
    case List(items) => Ok(items)
    case Str(s) => Ok(Chars(s))
    case _ => Err(callee + " argument after * must be an iterable, not " + TypeName(params))
  }

  /** One iteration of the replay loop. */
  function ReplayStep<S>(sol: Solution<S>, st: Replayed<S>, name: Value, params: Value): Result<Replayed<S>>
    requires st.Ran?
  {
    if name == Str(sol.className) then
      match Unpack(ConstructorCallee(sol.className), params)
      case Err(e) => Err(e)
      case Ok(args) =>
        match sol.construct(args)
        case Err(e) => Err(e)
        case Ok(o) => Ok(Ran(Some(o), st.results + [NoneV]))
    else if st.obj.None? then Ok(Uninitialized)
    else if !name.Str? then Err(AttributeNameError(name))
    else if name.s !in sol.members then Err(NoAttribute(sol.className, name.s))
    else
      match Unpack(MethodCallee(sol.className, name.s), params)
      case Err(e) => Err(e)
      case Ok(args) =>
        match sol.invoke(st.obj.value, name.s, args)
        case Err(e) => Err(e)
        case Ok(reply) => Ok(Ran(Some(reply.state), st.results + [reply.result]))
  }

  /** The first `n` pairs of `zip(methods, params_list)`, replayed in order. */
  function Replay<S>(sol: Solution<S>, methods: seq<Value>, paramsList: seq<Value>, n: nat): Result<Replayed<S>>
    requires n <= |methods| && n <= |paramsList|
  {
    if n == 0 then Ok(Ran(None, []))
    else
      match Replay(sol, methods, paramsList, n - 1)
      case Err(e) => Err(e)
      case Ok(Uninitialized) => Ok(Uninitialized)
      case Ok(st) => ReplayStep(sol, st, methods[n - 1], paramsList[n - 1])
  }

  /** `[r for r in rs if r is not None]`. */
  function DropNone(vs: seq<Value>): (r: seq<Value>)
    ensures |r| <= |vs|
    ensures forall k | 0 <= k < |r| :: r[k] != NoneV
  {
    if vs == [] then []
    else (if vs[0] == NoneV then [] else [vs[0]]) + DropNone(vs[1..])
  }

  /** Filtering keeps every value other than `None` as often as it occurs. */
  lemma {:induction false} DropNoneCounts(vs: seq<Value>)
    ensures multiset(DropNone(vs)) == multiset(vs)[NoneV := 0]
  {
    if vs != [] {
      DropNoneCounts(vs[1..]);
      assert vs == [vs[0]] + vs[1..];
    }
  }

  /** Filtering keeps the order: each value keeps its place among the
      others, and only `None` disappears. */
  lemma DropNoneKeepsOrder(a: seq<Value>, v: Value, b: seq<Value>)
    ensures DropNone(a + [v] + b) == DropNone(a) + (if v == NoneV then [] else [v]) + DropNone(b)
  {
    var x, y, z := DropNone(a), DropNone([v]), DropNone(b);
    DropNoneAppend(a + [v], b);
    DropNoneAppend(a, [v]);
    DropNoneOne(v);
    assert DropNone(a + [v] + b) == (x + y) + z;
  }

  lemma DropNoneOne(v: Value)
    ensures DropNone([v]) == if v == NoneV then [] else [v]
  {
    assert [v][1..] == [];
  }

  lemma {:induction false} DropNoneAppend(a: seq<Value>, b: seq<Value>)
    ensures DropNone(a + b) == DropNone(a) + DropNone(b)
    decreases |a|
  {
    if a == [] {
      assert a + b == b;
    } else {
      var c := a + b;
      assert c[0] == a[0] && c[1..] == a[1..] + b;
      DropNoneAppend(a[1..], b);
      var h := if a[0] == NoneV then [] else [a[0]];
      assert DropNone(c) == h + DropNone(c[1..]);
      assert DropNone(a) == h + DropNone(a[1..]);
    }
  }

  /** The verdict on a completed replay. */
  function DesignVerdict(results: seq<Value>, expected: Value): Outcome {
    var filtered := DropNone(results);
    var wanted := if expected.List? then DropNone(expected.items) else [expected];
    Outcome(filtered == wanted, List(filtered))
  }

  /** A value other than `None` survives filtering exactly when it was
      there. */
  lemma DropNoneMember(vs: seq<Value>, v: Value)
    requires v != NoneV
    ensures v in DropNone(vs) <==> v in vs
  {
    DropNoneCounts(vs);
    var m := multiset(vs);
    assert m[NoneV := 0][v] == m[v];
    assert v in DropNone(vs) <==> v in multiset(DropNone(vs));
  }

  /** The design path compares raw results: a call that returns a tree or a
      linked list fails the case against any expected literal. */
  lemma DesignNodeResultFails(results: seq<Value>, expected: Value, k: nat)
    requires IsLiteral(expected) && k < |results|
    requires results[k].TreeRef? || results[k].ListRef?
    ensures !DesignVerdict(results, expected).success
  {
    var r := results[k];
    DropNoneMember(results, r);
    if expected.List? {
      DropNoneMember(expected.items, r);
    }
  }

  function Min(a: nat, b: nat): nat {
    if a < b then a else b
  }

  /** `run_design_class_test(case, expected)`, exceptions as `Err`. */
  function DesignTest<S>(sol: Solution<S>, caseData: seq<Value>, expected: Value): Result<Outcome> {
    if |caseData| < 2 then Ok(Outcome(false, Str("Invalid design class test case")))
    else if !caseData[0].List? || !caseData[1].List? then Ok(Outcome(false, Str("Invalid design class test format")))
    else
      var methods, paramsList := caseData[0].items, caseData[1].items;
      match Replay(sol, methods, paramsList, Min(|methods|, |paramsList|))
      case Err(e) => Err(e)
      case Ok(Uninitialized) => Ok(Outcome(false, Str("Object not initialized")))
      case Ok(Ran(_, results)) => Ok(DesignVerdict(results, expected))
  }

  /** A running replay records one result per call, `None` for each
      construction; after the first call is a construction, there is an
      object. */
  lemma {:induction false} ReplayRecords<S>(sol: Solution<S>, methods: seq<Value>, paramsList: seq<Value>, n: nat)
    requires n <= |methods| && n <= |paramsList|
    ensures var r := Replay(sol, methods, paramsList, n);
      r.Ok? && r.value.Ran? ==>
        && |r.value.results| == n
        && (forall i | 0 <= i < n && methods[i] == Str(sol.className) :: r.value.results[i] == NoneV)
        && (n > 0 ==> r.value.obj.Some?)
  {
    if n > 0 {
      ReplayRecords(sol, methods, paramsList, n - 1);
      var prev := Replay(sol, methods, paramsList, n - 1);
      if prev.Ok? && prev.value.Ran? {
        ReplayNext(sol, methods, paramsList, n - 1, prev.value.obj, prev.value.results);
        StepRecords(sol, prev.value, methods[n - 1], paramsList[n - 1]);
        var r := Replay(sol, methods, paramsList, n);
        if r.Ok? && r.value.Ran? {
          forall i | 0 <= i < n && methods[i] == Str(sol.className) ensures r.value.results[i] == NoneV {
            if i < n - 1 {
              assert r.value.results[i] == r.value.results[..n - 1][i];
            }
          }
        }
      } else {
        StepHalted(sol, methods, paramsList, n);
      }
    }
  }

  /** One step of a running replay keeps the results so far, appends one
      more (`None` for a construction), and leaves an object behind. */
  lemma StepRecords<S>(sol: Solution<S>, st: Replayed<S>, name: Value, params: Value)
    requires st.Ran?
    ensures var r := ReplayStep(sol, st, name, params);
      r.Ok? && r.value.Ran? ==>
        && r.value.results[..|st.results|] == st.results
        && |r.value.results| == |st.results| + 1
        && (name == Str(sol.className) ==> r.value.results[|st.results|] == NoneV)
        && r.value.obj.Some?
  {
  }

  /** One step stops the replay exactly when it is a method call and no
      object has been constructed yet. */
  lemma StepUninitializedIff<S>(sol: Solution<S>, st: Replayed<S>, name: Value, params: Value)
    requires st.Ran?
    ensures var r := ReplayStep(sol, st, name, params);
      (r.Ok? && r.value.Uninitialized?) <==> (name != Str(sol.className) && st.obj.None?)
  {
  }

  /** The replay stops with "Object not initialized" exactly when there is a
      call and the first call is not a construction. */
  lemma {:induction false} NotInitializedIff<S>(sol: Solution<S>, methods: seq<Value>, paramsList: seq<Value>, n: nat)
    requires n <= |methods| && n <= |paramsList|
    ensures var r := Replay(sol, methods, paramsList, n);
      (r.Ok? && r.value.Uninitialized?) <==> (n > 0 && methods[0] != Str(sol.className))
  {
    if n > 0 {
      NotInitializedIff(sol, methods, paramsList, n - 1);
      ReplayRecords(sol, methods, paramsList, n - 1);
      var prev := Replay(sol, methods, paramsList, n - 1);
      if prev.Ok? && prev.value.Ran? {
        StepUninitializedIff(sol, prev.value, methods[n - 1], paramsList[n - 1]);
      } else {
        StepHalted(sol, methods, paramsList, n);
      }
    }
  }

  /** A replay that has stopped stays stopped for one more pair. */
  lemma StepHalted<S>(sol: Solution<S>, methods: seq<Value>, paramsList: seq<Value>, n: nat)
    requires 0 < n <= |methods| && n <= |paramsList|
    requires var r := Replay(sol, methods, paramsList, n - 1); r.Err? || r.value.Uninitialized?
    ensures Replay(sol, methods, paramsList, n) == Replay(sol, methods, paramsList, n - 1)
  {
  }

  /** A replay that has stopped stays stopped. */
  lemma {:induction false} ReplayStops<S>(sol: Solution<S>, methods: seq<Value>, paramsList: seq<Value>, i: nat, n: nat)
    requires i <= n <= |methods| && n <= |paramsList|
    requires var r := Replay(sol, methods, paramsList, i); r.Err? || r.value.Uninitialized?
    ensures Replay(sol, methods, paramsList, n) == Replay(sol, methods, paramsList, i)
    decreases n - i
  {
    if i < n {
      ReplayStops(sol, methods, paramsList, i, n - 1);
      StepHalted(sol, methods, paramsList, n);
    }
  }

  /** The replay reads only the pairs it runs. */
  lemma {:induction false} ReplayReadsPrefix<S>(sol: Solution<S>, methods: seq<Value>, paramsList: seq<Value>,
                                                methods': seq<Value>, paramsList': seq<Value>, n: nat)
    requires n <= |methods| && n <= |paramsList| && n <= |methods'| && n <= |paramsList'|
    requires methods[..n] == methods'[..n] && paramsList[..n] == paramsList'[..n]
    ensures Replay(sol, methods, paramsList, n) == Replay(sol, methods', paramsList', n)
  {
    if n > 0 {
      assert methods[..n - 1] == methods[..n][..n - 1];
      assert methods'[..n - 1] == methods'[..n][..n - 1];
      assert paramsList[..n - 1] == paramsList[..n][..n - 1];
      assert paramsList'[..n - 1] == paramsList'[..n][..n - 1];
      assert methods[n - 1] == methods[..n][n - 1] && methods'[n - 1] == methods'[..n][n - 1];
      assert paramsList[n - 1] == paramsList[..n][n - 1] && paramsList'[n - 1] == paramsList'[..n][n - 1];
      ReplayReadsPrefix(sol, methods, paramsList, methods', paramsList', n - 1);
    }
  }

  /** `zip` truncates: names or parameter lists beyond the shorter list are
      ignored. */
  lemma ZipTruncates<S>(sol: Solution<S>, methods: seq<Value>, paramsList: seq<Value>, rest: seq<Value>, expected: Value)
    ensures var n := Min(|methods|, |paramsList|);
      DesignTest(sol, [List(methods), List(paramsList)] + rest, expected)
      == DesignTest(sol, [List(methods[..n]), List(paramsList[..n])] + rest, expected)
  {
    var n := Min(|methods|, |paramsList|);
    ReplayReadsPrefix(sol, methods, paramsList, methods[..n], paramsList[..n], n);
  }

  /** A completed replay passes exactly when its non-`None` results equal the
      non-`None` expected values (or `[expected]` when that is not a list),
      and reports the non-`None` results. */
  lemma DesignOutcome<S>(sol: Solution<S>, caseData: seq<Value>, expected: Value)
    requires |caseData| >= 2 && caseData[0].List? && caseData[1].List?
    ensures var methods, paramsList := caseData[0].items, caseData[1].items;
      var r := Replay(sol, methods, paramsList, Min(|methods|, |paramsList|));
      r.Ok? && r.value.Ran? ==>
        var o := DesignTest(sol, caseData, expected).value;
        && o.result == List(DropNone(r.value.results))
        && (o.success <==> o.result.items == (if expected.List? then DropNone(expected.items) else [expected]))
  {
  }

  /** A running replay advances by one `ReplayStep`. */
  lemma ReplayNext<S>(sol: Solution<S>, methods: seq<Value>, paramsList: seq<Value>, i: nat, obj: Option<S>, results: seq<Value>)
    requires i < |methods| && i < |paramsList|
    requires Replay(sol, methods, paramsList, i) == Ok(Ran(obj, results))
    ensures Replay(sol, methods, paramsList, i + 1) == ReplayStep(sol, Ran(obj, results), methods[i], paramsList[i])
  {
  }

  /** One iteration of the loop of `run_design_class_test`: a construction
      replaces the object, a call before any construction stops the replay,
      any other call goes to the object. */
  method ReplayCall<S>(sol: Solution<S>, obj: Option<S>, results: seq<Value>, name: Value, params: Value)
    returns (step: Result<Replayed<S>>)
    ensures step == ReplayStep(sol, Ran(obj, results), name, params)
  {
    if name == Str(sol.className) {
      var unpacked := Unpack(ConstructorCallee(sol.className), params);
      if unpacked.Err? {
        return Err(unpacked.error);
      }
      var built := sol.construct(unpacked.value);
      if built.Err? {
        return Err(built.error);
      }
      return Ok(Ran(Some(built.value), results + [NoneV]));
    }
    if obj.None? {
      return Ok(Uninitialized);
    }
    if !name.Str? {
      return Err(AttributeNameError(name));
    }
    if name.s !in sol.members {
      return Err(NoAttribute(sol.className, name.s));
    }
    var args := Unpack(MethodCallee(sol.className, name.s), params);
    if args.Err? {
      return Err(args.error);
    }
    var reply := sol.invoke(obj.value, name.s, args.value);
    if reply.Err? {
      return Err(reply.error);
    }
    return Ok(Ran(Some(reply.value.state), results + [reply.value.result]));
  }

  /** `run_design_class_test` itself: the loop over the pairs, with `obj`
      reassigned on each construction. */
  method RunDesignClassTest<S>(sol: Solution<S>, caseData: seq<Value>, expected: Value) returns (r: Result<Outcome>)
    ensures r == DesignTest(sol, caseData, expected)
  {
    if |caseData| < 2 {
      return Ok(Outcome(false, Str("Invalid design class test case")));
    }
    var methodsArg, paramsArg := caseData[0], caseData[1];
    if !methodsArg.List? || !paramsArg.List? {
      return Ok(Outcome(false, Str("Invalid design class test format")));
    }
    var methods, paramsList := methodsArg.items, paramsArg.items;
    var n := Min(|methods|, |paramsList|);
    var results: seq<Value> := [];
    var obj: Option<S> := None;
    var i := 0;
    while i < n
      invariant 0 <= i <= n
      invariant Replay(sol, methods, paramsList, i) == Ok(Ran(obj, results))
    {
      var step := ReplayCall(sol, obj, results, methods[i], paramsList[i]);
      ReplayNext(sol, methods, paramsList, i, obj, results);
      assert step == Replay(sol, methods, paramsList, i + 1);
      if step.Err? || step.value.Uninitialized? {
        ReplayStops(sol, methods, paramsList, i + 1, n);
        if step.Err? {
          return Err(step.error);
        }
        return Ok(Outcome(false, Str("Object not initialized")));
      }
      obj, results := step.value.obj, step.value.results;
      i := i + 1;
    }
    return Ok(DesignVerdict(results, expected));
  }

  // ---------------------------------------------------------------------
  // Dispatch

  /** `run_test_case(case, expected)` without its timing: no class fails
      every case; a case with more than one element takes the design path
      (every class has `__init__`); an exception becomes a failed verdict
      carrying its text. */
  function CaseOutcome<S>(sol: Option<Solution<S>>, caseData: seq<Value>, expected: Value): Outcome {
    match sol
    case None => Outcome(false, Str("No solution class found"))
    case Some(s) =>
      var r := if |caseData| > 1 then DesignTest(s, caseData, expected) else FunctionTest(s, caseData, expected);
      match r
      case Ok(o) => o
      case Err(e) => Outcome(false, Str("Runtime error: " + e))
  }

  /** A two-argument function case such as `[[2,7,11,15], 9]` is taken for a
      design-class case and fails on its format, whatever the solution. */
  lemma TwoArgumentFunctionCase<S>(sol: Solution<S>, expected: Value)
    ensures CaseOutcome(Some(sol), [List([Int(2), Int(7), Int(11), Int(15)]), Int(9)], expected)
      == Outcome(false, Str("Invalid design class test format"))
  {
  }

  /** Only cases of at most one element reach the function path. */
  lemma FunctionPathOnlyForShortCases<S>(sol: Solution<S>, caseData: seq<Value>, expected: Value)
    requires |caseData| >= 2 && !caseData[0].List?
    ensures CaseOutcome(Some(sol), caseData, expected) == Outcome(false, Str("Invalid design class test format"))
  {
  }

  /** `run_test_case` itself. */
  method RunTestCase<S>(sol: Option<Solution<S>>, caseData: seq<Value>, expected: Value) returns (o: Outcome)
    ensures o == CaseOutcome(sol, caseData, expected)
  {
    if sol.None? {
      return Outcome(false, Str("No solution class found"));
    }
    var r: Result<Outcome>;
    if |caseData| > 1 {
      r := RunDesignClassTest(sol.value, caseData, expected);
    } else {
      r := RunFunctionTest(sol.value, caseData, expected);
    }
    if r.Err? {
      return Outcome(false, Str("Runtime error: " + r.error));
    }
    return r.value;
  }
}

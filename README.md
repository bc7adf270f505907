# LeetCodeTester, modelled in Dafny

`LeetCodeTester` is a small harness for LeetCode-style solutions. It reads a
file of test cases and a file of expected outputs. Each non-blank line is
parsed as a Python literal, after `null`, `true` and `false` are rewritten
to Python's spelling. Blank lines separate the cases of the input file. Each
case then runs on the solution class in one of two ways:

- **Function path**: one public method is called with arguments converted
  by parameter name. A `tree`/`root` parameter becomes a binary tree built
  from its level-order list. A `list` parameter whose value is a non-empty
  list with an integer first element becomes a linked list. Only the first
  element is tested, so `[1, "a"]` is converted and `["a", 1]` is not.
- **Design-class path**: a list of method names and a list of argument
  lists are replayed against an object of the class.

On the function path, a result or expected value that is itself a tree or
linked list is turned back into a plain list before the two are compared.
Only the top-level value is converted; a tree nested inside a list is not. The design-class path compares the raw results with no such
step, so a design method that returns a tree node never passes. The harness
counts the passes.

The model has seven modules:

- `Values`: the values a literal can denote, and the tree and chain shapes.
- `Text`: `strip`, `lower`, `replace`, the substring test and the `[1:-1]`
  slice.
- `Literal`: `parse_input_line`.
- `TreeCodec`: `build_tree_from_list` and `tree_to_list`.
  - Nodes live in a store of cells that refer to each other by slot number.
  - The queue holds slot numbers.
  - Both conversions are proved against one positional reading of a
    level-order list, `Decode`.
- `ListCodec`: `build_list_from_array` and `list_to_array`.
- `Invocation`:
  - method selection and argument conversion
  - `process_result`
  - both test paths
  - `run_test_case`
- `Testing`: grouping of lines into cases (each line stripped, then one
  pass of the loop body, `Read`, per line), `run_all_tests`, and the
  `Tester` class, whose fields `parse_input_file` and `parse_output_file`
  overwrite.

The solution class is an oracle value (`Invocation.Solution`). It holds:

- `__name__`, the class name, which the design-class path compares with
  each method name;
- `dir(cls)`;
- the parameter names of each method;
- `cls(*args)`;
- `getattr(obj, m)(*args)`.

The last two are functions that either return or raise.

## Model

| member | source | states |
|---|---|---|
| Text.StripIsTrimmedSlice | leetcode_tester.py:257 | `strip()` returns the slice of the line between its leading and trailing white space. Everything cut off is white space, and the result neither starts nor ends with white space. |
| Text.StripIdempotent | leetcode_tester.py:225-257 | Stripping a line that was already stripped changes nothing. The file readers strip each line, then the line parser strips it again. |
| Text.Lower | leetcode_tester.py:411-413 | `lower()` keeps the length and leaves no upper-case letter in the result. A string without an upper-case letter comes back unchanged. |
| Text.LowerIdempotent | leetcode_tester.py:411-413 | Lowering an already lowered name changes nothing. |
| Text.ReplaceKeepsLength | leetcode_tester.py:260-262 | A replacement of the same length keeps the length of the line. |
| Text.ReplaceAbsent | leetcode_tester.py:260-262 | Replacing a word that does not occur changes nothing. |
| Text.ReplaceCreatesNoOccurrence | leetcode_tester.py:260-262 | After a replacement, a word `q` that cannot overlap the replacement text occurs only if `q` is not the replaced word and `q` already occurred. |
| Text.Inner | leetcode_tester.py:266-272 | `s[1:-1]` is `s` without its first and last character, or empty when `s` is shorter than two. |
| Literal.NormalizeKeepsLength | leetcode_tester.py:260-262 | The three rewrites keep the length of the line. |
| Literal.NormalizedHasNoReservedWord | leetcode_tester.py:260-262 | After the rewrites, none of `null`, `true` or `false` occurs anywhere in the line. |
| Literal.NormalizeQuoted | leetcode_tester.py:260-262 | The rewrites also apply inside quotes. Rewriting a quoted text is quoting the rewritten text. |
| Literal.QuotedFallback | leetcode_tester.py:255-274 | When the literal parser rejects a quoted line, the value is the string between the quotes, with the rewrites applied. |
| Literal.FallbackIsText | leetcode_tester.py:264-274 | When the literal parser rejects the line, the value is a string no longer than the line. If the rewritten line is wrapped in one pair of matching quotes, the value is what lies between them. Otherwise it is the rewritten line itself. |
| Literal.NullInsideQuotesIsRewritten | leetcode_tester.py:260-266 | The line `"nullable"` reaches the literal parser as `"Noneable"`, so it reads as the string `Noneable`: the rewrite reaches into words and quotes. |
| TreeCodec.AttachChild | leetcode_tester.py:288-298 | Attaching the next child keeps the built store a faithful reading of the list prefix consumed so far. Every node has its value, and every child it was given is the right one. The queue stays the unprocessed nodes in order. |
| TreeCodec.BuildTreeFromList | leetcode_tester.py:276-300 | There is no root exactly when the list is empty or starts with `None`. Otherwise the cells starting at slot 0 form a well-linked tree equal to `Decode(nodes)`. At most one cell is created per non-`None` entry, and no cell holds `None`. |
| TreeCodec.Trim | leetcode_tester.py:332-334 | Dropping trailing `None`s yields a prefix that does not end in `None`. Everything dropped is `None`. |
| TreeCodec.TreeToList | leetcode_tester.py:315-336 | The result is the tree's level-order list with `None` at every missing child and trailing `None`s removed (`Encode`). It is empty or ends in a value. |
| TreeCodec.SubtreeOfWalk | leetcode_tester.py:276-336 | In the level-order walk of a tree without `None` values, each node at position `p` is read back by the positional decoding from `p` as the very same subtree. |
| TreeCodec.DecodeEncode | leetcode_tester.py:276-336 | Building a tree from the list that `tree_to_list` produces gives back the tree, for every tree whose values are not `None`. |
| TreeCodec.EncodeStable | leetcode_tester.py:276-336 | Encoding after decoding after encoding is encoding. Decoding after encoding after decoding is decoding, for every list. |
| TreeCodec.TreeRoundTrip | leetcode_tester.py:276-336 | Converting a tree to a list, building it back and converting again gives the same list twice. |
| ListCodec.BuildListFromArray | leetcode_tester.py:302-313 | There is no head exactly when the array is empty. Otherwise there is one cell per element, and the chain from slot 0 holds the array's elements in order. |
| ListCodec.ChainIsSuffix | leetcode_tester.py:307-311 | Each cell of the built store starts the chain of the array's suffix from that position. |
| ListCodec.ListToArray | leetcode_tester.py:338-345 | The result is the chain's values in order, up to its end. |
| ListCodec.ElementsFromSeq | leetcode_tester.py:302-345 | Reading back a built list gives the array. |
| ListCodec.FromSeqElements | leetcode_tester.py:302-345 | Building from a chain's values gives the same chain. |
| ListCodec.ListRoundTrip | leetcode_tester.py:302-345 | Building a linked list and reading it back gives the array. |
| Invocation.FirstPublicName | leetcode_tester.py:352-359 | The chosen name is the first member that does not start with `_`: it is public, and every member before it starts with `_`. No name is chosen exactly when every member starts with `_`. |
| Invocation.FirstPublicIsLeast | leetcode_tester.py:352-359 | Since `dir` is sorted, the chosen method is the alphabetically least public one. |
| Invocation.DetectSignature | leetcode_tester.py:347-367 | "No method" is reported exactly when no member is public. Otherwise the first public member is inspected: the result is an error exactly when its signature cannot be read, and else that member is the method, with its signature's parameters after `self`. |
| Invocation.TreeArg | leetcode_tester.py:411-412 | A `tree`/`root` argument converts exactly when it is falsy, a list or a string; any other truthy value raises. A converted non-`None` argument is a tree with a root node. |
| Invocation.MarshalShape | leetcode_tester.py:405-419 | The arguments convert exactly when each one does. The converted list then has one entry per case element, and each entry is that element's own conversion by its parameter name. |
| Invocation.ConversionIgnoresCase | leetcode_tester.py:409-413 | The conversion rule reads a parameter name regardless of case. A name and its lower-case form convert every argument alike. |
| Invocation.PassThrough | leetcode_tester.py:416-419 | An element beyond the parameter list, or whose parameter name says neither tree, root nor list, is passed unchanged. |
| Invocation.MarshalErrPropagates | leetcode_tester.py:405-419 | The first conversion that raises decides the error. Later elements do not matter. |
| Invocation.BuildTreeArg | leetcode_tester.py:411-412 | The loop that converts a tree argument computes `TreeArg`. |
| Invocation.MarshalArgs | leetcode_tester.py:405-419 | The argument loop computes `MarshalAll`. |
| Invocation.ProcessResult | leetcode_tester.py:472-479 | A tree becomes the list `tree_to_list` gives for it, and a linked list becomes the list of its values in order. Any other value is returned unchanged, so the result is never a tree or a linked list. |
| Invocation.ProcessTreeInjective | leetcode_tester.py:472-474 | Two trees without `None` values that process to the same list are the same tree, so comparing processed results compares the trees. |
| Invocation.ProcessListInjective | leetcode_tester.py:475-476 | Two linked lists that process to the same list are the same list. |
| Invocation.ProcessResultIdempotent | leetcode_tester.py:431-432 | Processing twice is processing once, and a plain literal is left as it is. |
| Invocation.ListArgumentEchoes | leetcode_tester.py:413-415 | A `list` argument of integers becomes a linked list that `process_result` turns back into the same list. |
| Invocation.TreeArgumentEchoes | leetcode_tester.py:411-412 | A `tree` argument given as a tree's level-order list becomes a tree that `process_result` turns back into the same list. |
| Invocation.FunctionVerdict | leetcode_tester.py:422-434 | When construction, selection, conversion and the call succeed, the case passes exactly when the processed result equals the processed expected value. The result is the returned value when that is not `None`. When the method returned `None`, the result is the first argument if that argument is a list, and `None` otherwise, including when there is no argument. |
| Invocation.NoPublicMethod | leetcode_tester.py:397-401 | A class without a public member fails every function case with "No method found". |
| Invocation.RunFunctionTest | leetcode_tester.py:395-434 | The function path computes `FunctionTest`: construct, select, convert, call, fall back to the first argument, process and compare. |
| Invocation.DropNone | leetcode_tester.py:463-467 | The filtered list is no longer than the input and holds no `None`. |
| Invocation.DropNoneKeepsOrder | leetcode_tester.py:463-467 | Filtering keeps the order: every value keeps its place among the others, and only a `None` is removed from its place. |
| Invocation.DropNoneCounts | leetcode_tester.py:463-467 | Filtering keeps every non-`None` value as often as it occurs. |
| Invocation.DropNoneMember | leetcode_tester.py:464 | A value other than `None` is among the filtered results exactly when it was among the results. |
| Invocation.DesignNodeResultFails | leetcode_tester.py:464-470 | Results are compared without processing, so a call that returns a tree or a linked list fails the case against any expected literal. |
| Invocation.ReplayRecords | leetcode_tester.py:450-461 | After `n` steps of a replay that is still running, there is one result per step. Every construction step recorded `None`. An object exists once any step has run. |
| Invocation.NotInitializedIff | leetcode_tester.py:450-457 | The replay stops with "Object not initialized" exactly when there is a step and the first step is not a construction. |
| Invocation.ReplayStops | leetcode_tester.py:450-461 | Once the replay has raised or stopped, later steps change nothing. |
| Invocation.ReplayReadsPrefix | leetcode_tester.py:450 | The first `n` steps depend only on the first `n` names and argument lists. |
| Invocation.ZipTruncates | leetcode_tester.py:450 | Names or argument lists beyond the shorter of the two lists are ignored. |
| Invocation.DesignOutcome | leetcode_tester.py:463-470 | A completed replay reports its results with every `None` filtered out, in their order. It passes exactly when that list equals the filtered expected list, or `[expected]` when the expected value is not a list. |
| Invocation.ReplayCall | leetcode_tester.py:451-461 | One step: a construction replaces the object and records `None`. A call before any construction stops the replay. Any other call goes to the object and records its result. |
| Invocation.RunDesignClassTest | leetcode_tester.py:436-470 | The design-class path computes `DesignTest`: format checks, the replay over the zipped lists, then filtering and comparing. |
| Invocation.TwoArgumentFunctionCase | leetcode_tester.py:379-382 | A two-element function case such as `[[2,7,11,15], 9]` goes to the design-class path and fails on its format, whatever the solution. |
| Invocation.FunctionPathOnlyForShortCases | leetcode_tester.py:379-382 | Every case of two or more elements whose first element is not a list fails with "Invalid design class test format". |
| Invocation.RunTestCase | leetcode_tester.py:369-393 | The case outcome: no solution class, the design path for more than one element, otherwise the function path. A raise becomes a failed "Runtime error" verdict. |
| Testing.ParsedNonBlank | leetcode_tester.py:245-250 | The expected values are no more than the lines: one value per non-blank stripped line. |
| Testing.ScanCurrent | leetcode_tester.py:223-235 | A case is still open at the end exactly when the last line is not blank. |
| Testing.ScanKeepsValues | leetcode_tester.py:223-235 | The closed cases followed by the open one hold exactly the parsed non-blank lines, in order. |
| Testing.CasesPartitionLines | leetcode_tester.py:223-235 | No case is empty, and the cases laid end to end are the parsed non-blank lines in order. |
| Testing.BlankSplitsCases | leetcode_tester.py:223-235 | A blank line only separates cases: the cases of `a`, a blank line, then `b` are the cases of `a` followed by the cases of `b`. |
| Testing.NoBlankOneCase | leetcode_tester.py:223-235 | A non-empty file with no blank line is exactly one case, holding the value of every line in order. |
| Testing.PassCount | leetcode_tester.py:489-503 | The pass count is at most the number of outcomes, and equals it exactly when every outcome passed. |
| Testing.RunCases | leetcode_tester.py:495-500 | One outcome per case, each the outcome of that case against its expected value, and the pass count of those outcomes. |
| Testing.Tester.constructor | leetcode_tester.py:50-54 | A new tester holds the solution and no cases or expected outputs. |
| Testing.Tester.ParseInputFile | leetcode_tester.py:216-238 | The cases become the blank-separated groups of the parsed lines. Nothing else changes. |
| Testing.Tester.ParseOutputFile | leetcode_tester.py:240-253 | The expected outputs become the parsed non-blank lines. Nothing else changes. |
| Testing.Tester.RunAllTests | leetcode_tester.py:481-503 | A count mismatch fails with nothing run. Otherwise there is one outcome per case, `passed` is the number of passes, and the verdict is true exactly when every case passed. |

## Left out

- Timing (`time.perf_counter`) is left out, and so is the execution time in each case's result triple.
- Colour, the difference display and all printing are left out. These are `colorize_text`, `print_test_result` and `print_summary`, and the `print`s in `run_all_tests`.
- Reading files, the existence checks and the command-line `main` are left out. The file readers take the file's lines as a parameter.
- `parse_solution_template` (lines 195-214) is left out: it runs `exec` on the solution code in the module globals, then takes `Solution`, or else the first other class that is not `TreeNode` or `ListNode`. `__init__` (lines 50-54) starts with no class, and that method sets it later. The model merges the two steps: `Testing.Tester`'s constructor receives the class, or none.
- `ast.literal_eval` is a parameter of the line parser. It is a partial function, and `None` stands for a raise.
- Python reflection is data in the `Solution` oracle: `dir`, `inspect.signature` and `__name__`. Constructing and calling are functions of the oracle, and their exception texts are `Err` strings.
- `getattr(obj, name)` at line 459 is decided by membership in `dir(cls)`. An attribute that only the instance holds, set in `__init__`, counts as missing.
- The `hasattr(cls, '__init__')` test at line 379 always holds for a class, so dispatch depends only on the case length.
- Python's cross-type equality is not modelled: `1 == True` and `1 == 1.0`. Values are compared structurally. (`bool` counting as an `int` in the `isinstance` test at line 413 is modelled, by `Values.IsPyInt`.)
- Values are the literals the tests use: integers, floats, booleans, strings, `None` and lists. Tuples, dicts, sets, bytes and complex numbers, which `ast.literal_eval` also returns (`(1, 2)`, say), are not modelled. So the `isinstance(..., list)` tests at lines 413 and 444 never meet a tuple, which they would reject.
- Floats are exact reals (`Value.Float`). Rounding, `nan` and the infinities are not modelled.
- Text.Lower: folds only the ASCII letters, not the full Unicode case mapping of `str.lower`.
- Node identity and aliasing are not modelled. Tree and list nodes are cells in a store indexed by slot. A tree or list passed to the solution and returned from it is a value, so a solution that shares nodes between structures is not modelled.
- Invocation.ReplayStep and Invocation.ReplayCall record each design-path result as a value at the moment the call returns. Python's `results` (line 461) holds references and compares them only after the whole loop (lines 464-470). So a method that returns an object a later call mutates is judged here on the contents as returned, not as they are at the end. An example is `get` returning `self.items`, followed by an `add` that appends to it.
- The oracle's `construct` and `invoke` are total: every call returns or raises an exception. A call that never returns, which blocks the source since it has no time-out, is not modelled. Neither is a `BaseException` such as `SystemExit`, which escapes the `except Exception` at line 390.
- A solution that rewrites its first argument in place is modelled through the `firstArg` part of the oracle's reply.
- A missing attribute (`getattr` failing at line 459) is an `Err` whose text follows Python's `AttributeError` wording.
- Exception texts follow CPython 3.9 and later. Calls are named with the `__main__.` module prefix, which holds when the tester runs as a script. Imported as a module, the prefix is that module's name. Other Python versions word the texts differently. The texts reach only the "Runtime error" message, never the verdict.

The model keeps these behaviours of the code as written:

- Every case with more than one element takes the design-class path, so a two-argument function case fails on its format (`Invocation.TwoArgumentFunctionCase`).
- `zip` silently drops unmatched names or argument lists (`Invocation.ZipTruncates`).
- Filtering removes every `None`, not only those of constructions.
- The tested method is the alphabetically first public name (`Invocation.FirstPublicIsLeast`).
- The `null`/`true`/`false` rewrite also changes quoted text and longer words (`Literal.NullInsideQuotesIsRewritten`).

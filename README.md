# The `analyze_code` syntax-tree pattern scanner, in Dafny

`analyze_code(code)` in detector.py is the scanner behind the bug-detector
web form. It parses the submitted Python source with `ast.parse`. If the
parse fails it returns a single issue: a "SyntaxError" issue that carries
the offending source line, or a "Parse Error" issue at line "N/A". If the
parse succeeds it walks every node of the syntax tree with `ast.walk` and
applies four independent checks to each node:

- an empty `FunctionDef`/`ClassDef`/`If`/`For`/`While`/`With` body gives "Empty Block";
- a call of `eval` or `exec` through a bare name gives "Security Warning (Unsafe Function)";
- a `FunctionDef` with no `Return` anywhere below it gives "Missing Return";
- a read (Load context) of the name `undefined_var` gives "Undefined Variable".

Each check appends one issue dict to the result list. The line-carrying
issues copy `code.splitlines()[lineno - 1].strip()` into `code_line`.

The model has five modules:

- `PyText` (py_text.dfy) models the built-ins used for the line lookup:
  `str.splitlines()` with its full set of line boundaries, `str.strip()`
  with Python's whitespace set, and list indexing with negative indices
  and IndexError.
- `PyAst` (py_ast.dfy) models the syntax tree as a closed sum type. It also
  models `ast.iter_child_nodes` and `ast.walk`. `ast.walk` is a FIFO queue,
  so the walk is breadth-first. It is proved to visit exactly the nodes of
  a depth-first pre-order (as a multiset). A concrete tree shows that the
  two orders differ.
- `Detector` (detector.dfy) is the scanner. `Analyze` is the specification
  function. `AnalyzeCode` is the imperative method, with the walk's queue,
  the issue list that the loop appends to, and the early returns of the
  exception handlers. It is proved equal to `Analyze`.
- `DetectorProps` (detector_props.dfy) proves the properties of the scanner.
- `Scenarios` (scenarios.dfy) works through concrete inputs.

The parser is not modelled. `analyze_code` takes the parse outcome as an
input: a tree, a SyntaxError (with its optional line number and its
rendered text), or any other exception (with its rendered text).
An exception that escapes `analyze_code` is modelled as a result, `Raised(exc)`.
There are two: IndexError, from an out-of-range line lookup, and
TypeError, from a SyntaxError whose `lineno` is None.

Two behaviours of detector.py shape the model:

- `ast.walk` is breadth-first (a FIFO queue), not a depth-first pre-order.
  `PyAst.WalkVisitsEachNodeOnce` and `PyAst.WalkIsBreadthFirst` relate the
  two orders: the same nodes, each once, in a different order.
- An out-of-range line number is not caught. The IndexError from
  `splitlines()[lineno - 1]` leaves `analyze_code`, and line numbers 0 and
  below count from the end (`Detector.CodeLine`,
  `Scenarios.SyntaxErrorPastLastLineRaises`).

## Model

| member | source | states |
|---|---|---|
| `PyText.TrimStart` | detector.py:14 | `lstrip` returns a suffix of its input that does not start with whitespace |
| `PyText.TrimStartDropsSpace` | detector.py:14 | what `lstrip` removes is whitespace only |
| `PyText.TrimEnd` | detector.py:14 | `rstrip` returns a prefix of its input that does not end with whitespace |
| `PyText.TrimEndDropsSpace` | detector.py:14 | what `rstrip` removes is whitespace only |
| `PyText.StripFacts` | detector.py:14 | `strip()` returns an infix of the line with whitespace only on either side of it, and no whitespace at its own ends |
| `PyText.StripUnique` | detector.py:14 | any split of a line into whitespace, a core without whitespace at its ends, and whitespace has `strip()` as its core, so the characterisation above determines `strip()` |
| `PyText.SplitLines` | detector.py:14 | `splitlines()` gives no lines exactly for the empty string |
| `PyText.Strip` | detector.py:14 | `strip()` returns at most as many characters as it is given, and what it returns neither starts nor ends with whitespace |
| `PyText.SplitLinesNoBreak` | detector.py:14 | no line returned by `splitlines()` contains a line boundary |
| `PyText.SplitLinesCons` | detector.py:14 | a line without boundaries followed by a terminator is the first line, and the rest starts after the terminator: "\r\n" is consumed as one boundary, and a lone "\r" (not followed by "\n") or any other boundary character as one |
| `PyText.SplitLinesJoinLines` | detector.py:14 | `splitlines()` takes apart lines joined with any one terminator ("\r\n" as a single boundary, or any of the ten boundary characters alone), when no line has a boundary and the last one is not empty |
| `PyText.SplitLinesTrailingBreak` | detector.py:14 | a final terminator opens no further line, so a file whose every line ends in the same terminator, "\r\n" included, has one line per terminator |
| `PyText.PyIndex` | detector.py:14 | list indexing succeeds exactly for indices -len..len-1, and negative indices count from the end |
| `Detector.CodeLine` | detector.py:14 | `code.splitlines()[lineno-1].strip()` exists exactly for line numbers 1-n..n (n lines), is line `lineno` stripped for 1..n and counts from the end for 0 and below |
| `PyAst.Children` | detector.py:26 | `ast.iter_child_nodes(n)` gives the roots of n's direct subtrees, which together hold every node of n's tree but n itself |
| `PyAst.WalkQueue` | detector.py:26 | the queue walk yields as many nodes as the queued trees hold, starting with the head of the queue |
| `PyAst.WalkVisitsEachNodeOnce` | detector.py:26 | `ast.walk(tree)` yields every node of the tree exactly once, as a multiset equal to its pre-order, starting at the root |
| `PyAst.WalkMembership` | detector.py:26 | a node is yielded by `ast.walk(tree)` iff it lies in the tree |
| `PyAst.WalkIsBreadthFirst` | detector.py:26 | on a concrete tree, `ast.walk` yields a leaf child before a grandchild, unlike a pre-order walk |
| `Detector.Analyze` | detector.py:3-74 | `analyze_code`: another parse failure gives one Parse Error issue without code_line. A SyntaxError gives one SyntaxError issue at its line exactly when it has a line number whose lookup succeeds, and raises otherwise. TypeError is raised exactly for a SyntaxError without a line number, and a parsed tree can raise only IndexError |
| `Detector.Report` | detector.py:10-72 | building a line-carrying issue dict raises IndexError exactly when the line lookup is out of range, and otherwise gives the one dict with the given type, line and message and the stripped line |
| `Detector.EmptyBlockIssues` | detector.py:29-35 | check 1 raises iff its guard holds and the line lookup fails. Otherwise it reports one issue iff the node is one of the six block kinds with an empty body, of type Empty Block, naming the class, with the looked-up line |
| `Detector.UnsafeCallIssues` | detector.py:38-45 | check 2 raises iff its guard holds and the line lookup fails. Otherwise it reports one issue iff the callee is the bare name `eval` or `exec`, of type Unsafe Function, naming the callee, with the looked-up line |
| `Detector.MissingReturnIssues` | detector.py:48-56 | check 3 never raises. It reports one issue iff the node is a FunctionDef with no Return below it, of type Missing Return, naming the function, with code_line `def <name>(...):` |
| `Detector.UndefinedReadIssues` | detector.py:62-72 | check 4 raises iff its guard holds and the line lookup fails. Otherwise it reports one issue iff the node is a Load of `undefined_var`, of type Undefined Variable, naming it, with the looked-up line |
| `Detector.NodeIssues` | detector.py:28-72 | the loop body on one node can raise only IndexError, and otherwise reports at most two issues (`DetectorProps.NodeIssuesRaise` says when it raises) |
| `Detector.IssuesOver` | detector.py:26-74 | the walk loop over any node list raises only IndexError |
| `Detector.ScanRaisesOnly` | detector.py:26-74 | the loop raises only exceptions its body raises |
| `Detector.AnalyzeCode` | detector.py:3-74 | the imperative scanner, with its early returns from the exception handlers and its walk loop, computes `Analyze` |
| `Detector.ScanTree` | detector.py:26-74 | the `for node in ast.walk(tree)` loop, with the FIFO queue and the appended issue list, computes the checks over the walk order and stops at the first exception |
| `Detector.CheckNode` | detector.py:28-72 | the loop body runs the four checks in source order and appends their issues after those already found |
| `Detector.CheckEmptyBlock` | detector.py:29-35 | appends the Empty Block issue when the node is one of the six block kinds with an empty body, or raises IndexError on a bad line |
| `Detector.CheckUnsafeCall` | detector.py:38-45 | appends the Unsafe Function issue when the callee is a bare `eval`/`exec` name, or raises IndexError on a bad line |
| `Detector.CheckMissingReturn` | detector.py:48-56 | appends the Missing Return issue, with the synthesized signature, when a FunctionDef has no Return below it |
| `Detector.CheckUndefinedRead` | detector.py:62-72 | appends the Undefined Variable issue for a Load of `undefined_var`, or raises IndexError on a bad line |
| `Detector.RaisedStaysRaised` | detector.py:26-74 | once a check raises, the rest of the walk changes nothing: the exception leaves `analyze_code` |
| `DetectorProps.SyntaxErrorShortCircuits` | detector.py:9-16 | a SyntaxError gives exactly one "SyntaxError" issue with the error's line, its text and the stripped source line. A line past the end raises IndexError and a missing line raises TypeError |
| `DetectorProps.ParseErrorShortCircuits` | detector.py:17-23 | any other parse failure gives exactly one "Parse Error" issue at "N/A", with the fixed prefix before the exception text and no code_line |
| `DetectorProps.LabelsDistinct` | detector.py:11-68 | the six "type" strings are pairwise different, so the type string identifies the handler or check that made the issue |
| `DetectorProps.MessageCarriesSubject` | detector.py:13-70 | each "error" string starts with a fixed lead for its kind followed by its subject (the exception text, the block class, or the reported name). So the subject reads back at a fixed offset, and a SyntaxError's string is `str(e)` itself |
| `DetectorProps.NodeIssuesRaise` | detector.py:28-72 | the checks on a node raise iff a line-copying check fires on it and its line number is out of range. Missing Return never raises |
| `DetectorProps.FiringKindsFacts` | detector.py:28-72 | at most two checks fire on one node, and two only on an empty FunctionDef without Return (Empty Block, then Missing Return) |
| `DetectorProps.CheckKinds` | detector.py:28-72 | each of the four checks, when it does not raise, reports one issue of its own type if its guard holds and nothing otherwise. Missing Return never raises |
| `DetectorProps.NodeIssueKinds` | detector.py:28-72 | one node's issue types are exactly the types of the checks whose guards hold, in check order |
| `DetectorProps.NodeIssueOfKind` | detector.py:28-72 | a node yields an issue of a type iff that check's guard holds on it (empty block; bare eval/exec callee; FunctionDef with no Return; Load of undefined_var) |
| `DetectorProps.NodeIssueFields` | detector.py:30-71 | every issue of a node is at the node's line. Missing Return carries `def <name>(...):`, every other issue carries the looked-up source line, and messages name the block type or the called function |
| `DetectorProps.ReportFields` | detector.py:30-35 | an issue that copies a source line has the given type, line and message and the stripped line, which exists |
| `DetectorProps.ScanAppend` | detector.py:26-74 | running the loop body over two lists of nodes in turn gives the first list's issues followed by the second's |
| `DetectorProps.ScanRaised` | detector.py:26-74 | the loop raises iff its body raises on some node |
| `DetectorProps.ScanLength` | detector.py:26-74 | the loop reports at most the per-node bound times the number of nodes |
| `DetectorProps.ScanMembers` | detector.py:26-74 | a loop that completes holds exactly the issues its body reports on the nodes |
| `DetectorProps.ScanBag` | detector.py:26-74 | a loop that completes holds each node's issues, as a multiset, once per occurrence of the node |
| `DetectorProps.BagAppend` | detector.py:26-74 | the per-node issue multiset of two node lists in turn is the sum of theirs |
| `DetectorProps.BagPermutation` | detector.py:26 | the per-node issue multiset depends only on which nodes occur and how often, not on their order |
| `DetectorProps.IssuesOverFacts` | detector.py:26-74 | over any node list, the four checks raise iff they raise on some node. Otherwise the list holds exactly the nodes' issues, at most two per node |
| `DetectorProps.TreeIssues` | detector.py:26-74 | for a parsed tree, `analyze_code` raises iff a node of the tree fires a line-copying check with an out-of-range line. Otherwise every issue comes from a node of the tree, every node's issues are listed, and there are at most 2 per node |
| `DetectorProps.TreeIssueKinds` | detector.py:26-74 | for a parsed tree, an issue type appears iff some node of the tree satisfies that check's guard, so the two parse-failure types never appear |
| `DetectorProps.TreeIssueBag` | detector.py:26-74 | for a parsed tree that does not raise, the issue list as a multiset is the sum of the issues of the tree's nodes, counted once per occurrence of the node in the tree |
| `DetectorProps.TreeIssueOrigin` | detector.py:26-74 | every issue in the list was reported by the checks on some node of the tree |
| `DetectorProps.TreeIssueReported` | detector.py:26-74 | every issue the checks report on a node of the tree is in the list |
| `DetectorProps.KindFromFiringNode` | detector.py:26-74 | an issue in the list comes from a node of the tree that satisfies the guard of its type's check |
| `DetectorProps.KindReported` | detector.py:26-74 | a node of the tree that satisfies a check's guard puts an issue of that type in the list |
| `DetectorProps.NoPatternNoIssues` | detector.py:26-74 | a tree yields the empty list iff none of its nodes matches any of the four patterns |
| `DetectorProps.HasReturnIsReturnInSubtree` | detector.py:49 | the recursive return test holds iff a Return occurs in the node's subtree |
| `DetectorProps.HasReturnIsAnyOverWalk` | detector.py:49 | the recursive return test is `any(isinstance(m, ast.Return) for m in ast.walk(node))` |
| `DetectorProps.AnyHasReturnIsReturnInPreOrder` | detector.py:49 | the return test over a list of trees holds iff a Return occurs in their pre-order |
| `DetectorProps.NestedReturnCounts` | detector.py:48-56 | a Return anywhere below a function, including inside a nested def, silences Missing Return for it |
| `Scenarios.SyntaxErrorReportsStrippedLine` | detector.py:9-16 | in a file whose lines all end in the same terminator ("\n", or "\r\n" as a browser posts a form field), a SyntaxError on line k is reported with line k stripped |
| `Scenarios.SyntaxErrorPastLastLineRaises` | detector.py:14 | in such a file, a SyntaxError reported one line past the last line makes the lookup raise IndexError |
| `Scenarios.SyntaxErrorWithoutLineRaises` | detector.py:12-14 | a SyntaxError without a line number makes `None - 1` raise TypeError |
| `Scenarios.MissingColon` | detector.py:9-16 | "if True" and "    pass" joined by "\n", "\r\n" or any other terminator, with a SyntaxError on line 1, give one issue with code_line "if True" |
| `Scenarios.FunctionWithoutReturn` | detector.py:48-56 | a module holding `def f(): pass` with the def on line l, whatever the source text, gives exactly one Missing Return issue at line l naming `f`, with code_line `def f(...):` |
| `Scenarios.FunctionWithReturn` | detector.py:48-56 | a module holding `def f():` on line l and `return 1` on line l + 1 gives no issue, whatever the source text |
| `Scenarios.EvalStatement` | detector.py:38-45 | a module whose line l is `eval(user_input)` gives exactly one Unsafe Function issue at line l naming `eval`, with that line as code_line. The Name, Load and module nodes around the call add nothing |
| `Scenarios.EvalAtTopLevel` | detector.py:38-45 | the one-line program "eval(user_input)" gives exactly that issue at line 1 |
| `Scenarios.NonNameCalleeIgnored` | detector.py:38 | a call whose callee is not a bare name (an attribute such as `builtins.eval`, or a call) yields no issue |
| `Scenarios.UndefinedVarAfterAssignment` | detector.py:62-72 | in "undefined_var = 1" followed by "print(undefined_var)", the Store node on line 1 yields nothing and the Load node on line 2 yields one Undefined Variable issue, with that line as code_line |
| `Scenarios.EmptyIfBody` | detector.py:29-35 | the checks on an `If` node on line 1 whose body holds no statement yield one Empty Block issue naming If, with the stripped line "if x:" |

## Left out

- app.py: the Flask route, form handling, templating and `app.run` are web plumbing. The route also imports `detect_bugs`, which detector.py does not define.
- `ast.parse`: the CPython parser is a foreign call. Its outcome is an input of the model, and any value of type `Node` counts as a tree.
- The text of `str(e)` is an opaque string carried by the parse outcome. The rendering of the issue messages is modelled (`Message.Text`).
- `type(node).__name__` is modelled only for the six block classes that the Empty Block message names.
- Node classes the checks do not distinguish are modelled by one `Other` variant with their children in order. This includes `AsyncFunctionDef`, `AsyncFor` and `AsyncWith`, which are not subclasses of the checked classes. Line numbers are kept on the Block, Call, Name and Return variants, and dropped on the others.
- CPython never produces an empty `body` for the six block kinds, so the Empty Block check cannot fire on parsed input. The model states the check over the abstract tree and claims nothing about parser output.
- The local `is_defined` in detector.py is dead and has no effect.
- Issue dicts are modelled as records. The absent `code_line` key of the Parse Error dict is `None`.
- Exceptions raised inside `ast.parse`, `MemoryError` and `RecursionError` included, are `Exception` subclasses: the handler at detector.py:17 catches them, and `OtherErr` models them. Not modelled are a `MemoryError` raised during the walk loop and exceptions outside `Exception` (`KeyboardInterrupt`, `SystemExit`), which escape.
- Strings are sequences of Unicode scalar values, so a source text holding a lone surrogate is not representable. `ast.parse` fails on such text with UnicodeEncodeError, which detector.py:17-23 reports as a Parse Error, so no line lookup is lost.

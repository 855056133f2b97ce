/**
 The pattern scanner `analyze_code` of detector.py. It takes the outcome of
 `ast.parse(code)` (the parser is not modelled) and the source text, and
 produces the list of issue records, or the exception that escapes it.
 */
module Detector {
  import opened PyText
  import opened PyAst

  /** The value of an issue's "type" key. */
  datatype IssueType =
    | SyntaxError
    | ParseError
    | EmptyBlock
    | UnsafeFunction
    | MissingReturn
    | UndefinedVariable
  {
    function Label(): string {
      match this
      case SyntaxError => "SyntaxError"
      case ParseError => "Parse Error"
      case EmptyBlock => "Empty Block"
      case UnsafeFunction => "Security Warning (Unsafe Function)"
      case MissingReturn => "Missing Return"
      case UndefinedVariable => "Undefined Variable"
    }
  }

  /** The value of an issue's "line" key: a line number, or the string "N/A". */
  datatype Line = At(n: int) | NotApplicable

  /**
   The value of an issue's "error" key, by how analyze_code builds it; Text()
   is the string itself.
   */
  datatype Message =
    | Rendered(text: string)           // str(e) of the SyntaxError
    | ParseFailure(detail: string)     // str(e) of any other exception, after a fixed prefix
    | EmptyBody(typeName: string)
    | UnsafeCall(id: string)
    | NoReturn(name: string)
    | ReadBeforeAssign(id: string)
  {
    function Text(): string {
      match this
      case Rendered(text) => text
      case ParseFailure(detail) => ParseFailurePrefix + detail
      case EmptyBody(typeName) => "An empty " + typeName + " block was found."
      case UnsafeCall(id) => "The use of '" + id + "' can be a security risk. Avoid using it with untrusted input."
      case NoReturn(name) => "Function '" + name + "' does not have a return statement. It will implicitly return None."
      case ReadBeforeAssign(id) => "Variable '" + id + "' might be used before it is assigned."
    }
  }

  const ParseFailurePrefix: string := "An unexpected error occurred during parsing: "

  /**
   One issue dict: "type", "line", "error" and, when the dict has that key,
   "code_line" (the Parse Error dict has none).
   */
  datatype Issue = Issue(kind: IssueType, line: Line, error: Message, codeLine: Option<string>)

  /** The outcome of `ast.parse(code)`; `msg` is the rendering `str(e)` of the exception. */
  datatype ParseOutcome =
    | Parsed(tree: Node)
    | SyntaxErr(lineno: Option<int>, msg: string)
    | OtherErr(msg: string)

  /** Exceptions that escape `analyze_code`. */
  datatype Exception =
    | IndexError  // `code.splitlines()[lineno - 1]` out of range
    | TypeError   // a SyntaxError whose lineno is None: `None - 1`

  /** What a call of `analyze_code` (or a part of its loop) comes to. */
  datatype Analysis = Returned(issues: seq<Issue>) | Raised(exc: Exception) {
    /** Running this, then `next`: the first exception stops everything, otherwise the issues accumulate. */
    function AndThen(next: Analysis): Analysis {
      if Raised? then this
      else if next.Raised? then next
      else Returned(issues + next.issues)
    }
  }

  /**
   `code.splitlines()[lineno - 1].strip()`, or None where the indexing
   raises IndexError. Line numbers 1 .. number of lines give that line,
   stripped; Python's negative indexing makes 0 and below count from the end.
   */
  function CodeLine(code: string, lineno: int): (r: Option<string>)
    ensures var lines := SplitLines(code);
            && (r.Some? <==> 1 - |lines| <= lineno <= |lines|)
            && (1 <= lineno <= |lines| ==> r == Some(Strip(lines[lineno - 1])))
            && (1 - |lines| <= lineno <= 0 ==> r == Some(Strip(lines[|lines| + lineno - 1])))
  {
    var lines := SplitLines(code);
    var line := PyIndex(lines, lineno - 1);
    assert 1 <= lineno <= |lines| ==> line.value == lines[lineno - 1];
    assert 1 - |lines| <= lineno <= 0 ==> line.value == lines[|lines| + lineno - 1];
    if line.None? then None else Some(Strip(line.value))
  }

  /** An issue dict carrying the stripped source line `lineno`, or the IndexError that building it raises. */
  function Report(code: string, kind: IssueType, lineno: int, error: Message): (r: Analysis)
    ensures r.Raised? <==> CodeLine(code, lineno).None?
    ensures r.Raised? ==> r.exc == IndexError
    ensures r.Returned? ==> r.issues == [Issue(kind, At(lineno), error, CodeLine(code, lineno))]
  {
    match CodeLine(code, lineno)
    case None => Raised(IndexError)
    case Some(text) => Returned([Issue(kind, At(lineno), error, Some(text))])
  }

  // ---------------------------------------------------------------------
  // The four checks, one guard each
  // ---------------------------------------------------------------------

  /** Check 1: a FunctionDef, ClassDef, If, For, While or With with an empty body. */
  predicate IsEmptyBlock(n: Node) {
    n.Block? && n.body == []
  }

  /** Check 2: a call whose callee is the bare name `eval` or `exec`. */
  predicate IsUnsafeCall(n: Node) {
    n.Call? && n.func.Name? && (n.func.id == "eval" || n.func.id == "exec")
  }

  /**
   `any(isinstance(m, ast.Return) for m in ast.walk(n))`, as a recursion over
   the tree: n is a Return, or one of its children's subtrees holds one.
   */
  predicate HasReturn(n: Node)
    decreases Size(n), 0
  {
    n.Return? || AnyHasReturn(Children(n))
  }

  /** Some tree of `s` holds a Return. */
  predicate AnyHasReturn(s: seq<Node>)
    decreases SizeSeq(s), 1
  {
    s != [] && (HasReturn(s[0]) || AnyHasReturn(s[1..]))
  }

  /** Check 3: a FunctionDef with no Return anywhere below it. */
  predicate IsMissingReturn(n: Node) {
    n.Block? && n.kind.FunctionDef? && !HasReturn(n)
  }

  /** Check 4: a read of the one watched identifier. */
  predicate IsUndefinedRead(n: Node) {
    n.Name? && n.ctx == Load && n.id == "undefined_var"
  }

  /** Check 1's issue: one Empty Block issue naming the block's class, when its guard holds. */
  function EmptyBlockIssues(code: string, n: Node): (r: Analysis)
    ensures r.Raised? <==> IsEmptyBlock(n) && CodeLine(code, n.lineno).None?
    ensures r.Returned? ==> |r.issues| <= 1 && (r.issues != [] <==> IsEmptyBlock(n))
    ensures r.Returned? && r.issues != [] ==>
              r.issues[0].kind == EmptyBlock && r.issues[0].error == EmptyBody(n.kind.TypeName()) &&
              r.issues[0].codeLine == CodeLine(code, n.lineno)
  {
    if IsEmptyBlock(n) then
      Report(code, EmptyBlock, n.lineno, EmptyBody(n.kind.TypeName()))
    else Returned([])
  }

  /** Check 2's issue: one Unsafe Function issue naming the callee, when its guard holds. */
  function UnsafeCallIssues(code: string, n: Node): (r: Analysis)
    ensures r.Raised? <==> IsUnsafeCall(n) && CodeLine(code, n.lineno).None?
    ensures r.Returned? ==> |r.issues| <= 1 && (r.issues != [] <==> IsUnsafeCall(n))
    ensures r.Returned? && r.issues != [] ==>
              r.issues[0].kind == UnsafeFunction && r.issues[0].error == UnsafeCall(n.func.id) &&
              r.issues[0].codeLine == CodeLine(code, n.lineno)
  {
    if IsUnsafeCall(n) then
      Report(code, UnsafeFunction, n.lineno,
             UnsafeCall(n.func.id))
    else Returned([])
  }

  /** Check 3's issue; its code_line is a synthesized signature, never the source line, so it never raises. */
  function MissingReturnIssues(n: Node): (r: Analysis)
    ensures r.Returned? && |r.issues| <= 1 && (r.issues != [] <==> IsMissingReturn(n))
    ensures r.issues != [] ==>
              r.issues[0].kind == MissingReturn && r.issues[0].error == NoReturn(n.kind.name) &&
              r.issues[0].codeLine == Some("def " + n.kind.name + "(...):")
  {
    if IsMissingReturn(n) then
      var name := n.kind.name;
      Returned([Issue(MissingReturn, At(n.lineno),
                      NoReturn(name),
                      Some("def " + name + "(...):"))])
    else Returned([])
  }

  /** Check 4's issue: one Undefined Variable issue naming the identifier, when its guard holds. */
  function UndefinedReadIssues(code: string, n: Node): (r: Analysis)
    ensures r.Raised? <==> IsUndefinedRead(n) && CodeLine(code, n.lineno).None?
    ensures r.Returned? ==> |r.issues| <= 1 && (r.issues != [] <==> IsUndefinedRead(n))
    ensures r.Returned? && r.issues != [] ==>
              r.issues[0].kind == UndefinedVariable && r.issues[0].error == ReadBeforeAssign(n.id) &&
              r.issues[0].codeLine == CodeLine(code, n.lineno)
  {
    if IsUndefinedRead(n) then
      Report(code, UndefinedVariable, n.lineno,
             ReadBeforeAssign(n.id))
    else Returned([])
  }

  /**
   One pass of the loop body: the four checks on one node, in source order.
   It raises only IndexError (DetectorProps.NodeIssuesRaise says when);
   otherwise at most two checks fire on one node.
   */
  function NodeIssues(code: string, n: Node): (r: Analysis)
    ensures r.Raised? ==> r.exc == IndexError
    ensures r.Returned? ==> |r.issues| <= 2
  {
    EmptyBlockIssues(code, n)
      .AndThen(UnsafeCallIssues(code, n))
      .AndThen(MissingReturnIssues(n))
      .AndThen(UndefinedReadIssues(code, n))
  }

  lemma AndThenAssociative(a: Analysis, b: Analysis, c: Analysis)
    ensures a.AndThen(b).AndThen(c) == a.AndThen(b.AndThen(c))
  {
    if a.Returned? && b.Returned? && c.Returned? {
      assert (a.issues + b.issues) + c.issues == a.issues + (b.issues + c.issues);
    }
  }

  /** A loop body `check` run on each of `nodes` in turn; the first exception ends the run. */
  function Scan(check: Node -> Analysis, nodes: seq<Node>): Analysis
    decreases |nodes|
  {
    if nodes == [] then Returned([])
    else Scan(check, nodes[..|nodes| - 1]).AndThen(check(nodes[|nodes| - 1]))
  }

  /** The body of the walk loop, as a function of the node. */
  function Checks(code: string): Node -> Analysis {
    n => NodeIssues(code, n)
  }

  /** The walk loop's body run on each of `nodes` in turn. */
  function IssuesOver(code: string, nodes: seq<Node>): (r: Analysis)
    ensures r.Raised? ==> r.exc == IndexError
  {
    ScanRaisesOnly(Checks(code), nodes, IndexError);
    Scan(Checks(code), nodes)
  }

  /** A run raises only what its body raises. */
  lemma {:induction false} ScanRaisesOnly(check: Node -> Analysis, nodes: seq<Node>, e: Exception)
    requires forall m :: check(m).Raised? ==> check(m).exc == e
    ensures Scan(check, nodes).Raised? ==> Scan(check, nodes).exc == e
    decreases |nodes|
  {
    if nodes != [] {
      ScanRaisesOnly(check, nodes[..|nodes| - 1], e);
    }
  }

  /** `analyze_code(code)`, given what `ast.parse(code)` did. */
  function Analyze(code: string, parsed: ParseOutcome): (r: Analysis)
    ensures parsed.OtherErr? ==>
              r.Returned? && |r.issues| == 1 && r.issues[0].kind == ParseError && r.issues[0].codeLine.None?
    ensures parsed.SyntaxErr? ==> (r.Returned? <==> parsed.lineno.Some? && CodeLine(code, parsed.lineno.value).Some?)
    ensures parsed.SyntaxErr? && r.Returned? ==>
              |r.issues| == 1 && r.issues[0].kind == SyntaxError && r.issues[0].line == At(parsed.lineno.value)
    ensures r.Raised? ==> (r.exc == TypeError <==> parsed.SyntaxErr? && parsed.lineno.None?)
  {
    match parsed
    case SyntaxErr(lineno, msg) =>
      if lineno.None? then Raised(TypeError)
      else Report(code, SyntaxError, lineno.value, Rendered(msg))
    case OtherErr(msg) =>
      Returned([Issue(ParseError, NotApplicable, ParseFailure(msg), None)])
    case Parsed(tree) =>
      IssuesOver(code, Walk(tree))
  }

  lemma IssuesOverSnoc(code: string, done: seq<Node>, node: Node)
    ensures IssuesOver(code, done + [node]) == IssuesOver(code, done).AndThen(NodeIssues(code, node))
  {
    assert (done + [node])[..|done|] == done;
  }

  /** Once a run has raised, further nodes change nothing. */
  lemma {:induction false} RaisedStaysRaised(check: Node -> Analysis, done: seq<Node>, later: seq<Node>)
    requires Scan(check, done).Raised?
    ensures Scan(check, done + later) == Scan(check, done)
    decreases |later|
  {
    if later == [] {
      assert done + later == done;
    } else {
      var all := done + later;
      assert all[..|all| - 1] == done + later[..|later| - 1];
      RaisedStaysRaised(check, done, later[..|later| - 1]);
    }
  }

  /**
   `analyze_code` as the source runs it: the parse-failure handlers return
   at once, with one issue or with the exception raised while building it;
   a parsed tree goes through the walk loop.
   */
  method AnalyzeCode(code: string, parsed: ParseOutcome) returns (result: Analysis)
    ensures result == Analyze(code, parsed)
  {
    var issues: seq<Issue> := [];
    if parsed.SyntaxErr? {
      if parsed.lineno.None? {
        return Raised(TypeError);
      }
      var text := CodeLine(code, parsed.lineno.value);
      if text.None? {
        return Raised(IndexError);
      }
      issues := issues + [Issue(SyntaxError, At(parsed.lineno.value), Rendered(parsed.msg), text)];
      return Returned(issues);
    } else if parsed.OtherErr? {
      issues := issues + [Issue(ParseError, NotApplicable, ParseFailure(parsed.msg), None)];
      return Returned(issues);
    }

    result := ScanTree(code, parsed.tree);
  }

  lemma AppendAssociative<T>(a: seq<T>, b: seq<T>, c: seq<T>)
    ensures (a + b) + c == a + (b + c)
  {
  }

  lemma WalkQueueStep(queue: seq<Node>)
    requires queue != []
    ensures WalkQueue(queue) == [queue[0]] + WalkQueue(queue[1..] + Children(queue[0]))
    ensures SizeSeq(queue[1..] + Children(queue[0])) < SizeSeq(queue)
  {
    SizeSeqAppend(queue[1..], Children(queue[0]));
  }

  /**
   The `for node in ast.walk(tree)` loop of `analyze_code`: a node comes off
   the front of ast.walk's queue, its children join the back, and the loop
   body runs the checks on it; an IndexError raised there leaves the function.
   */
  method ScanTree(code: string, tree: Node) returns (result: Analysis)
    ensures result == IssuesOver(code, Walk(tree))
  {
    var issues: seq<Issue> := [];
    var queue := [tree];
    ghost var visited: seq<Node> := [];
    while queue != []
      invariant visited + WalkQueue(queue) == Walk(tree)
      invariant IssuesOver(code, visited) == Returned(issues)
      decreases SizeSeq(queue)
    {
      var node := queue[0];
      ghost var prev := visited;
      WalkQueueStep(queue);
      queue := queue[1..] + Children(node);
      visited := visited + [node];
      AppendAssociative(prev, [node], WalkQueue(queue));
      IssuesOverSnoc(code, prev, node);

      var step := CheckNode(code, node, issues);
      assert IssuesOver(code, visited) == step;
      if step.Raised? {
        RaisedStaysRaised(Checks(code), visited, WalkQueue(queue));
        return step;
      }
      issues := step.issues;
    }
    assert visited + [] == visited;
    return Returned(issues);
  }

  /**
   The body of the walk loop on one node: the four checks in order, each
   appending its issue to `issues`; a line lookup out of range raises.
   */
  method CheckNode(code: string, node: Node, issues: seq<Issue>) returns (result: Analysis)
    ensures result == Returned(issues).AndThen(NodeIssues(code, node))
  {
    ghost var start := Returned(issues);
    ghost var e, u := EmptyBlockIssues(code, node), UnsafeCallIssues(code, node);
    ghost var m, d := MissingReturnIssues(node), UndefinedReadIssues(code, node);
    AndThenAssociative(start, e, u);
    AndThenAssociative(start, e.AndThen(u), m);
    AndThenAssociative(start, e.AndThen(u).AndThen(m), d);
    result := CheckEmptyBlock(code, node, issues);
    if result.Raised? {
      return;
    }
    result := CheckUnsafeCall(code, node, result.issues);
    if result.Raised? {
      return;
    }
    result := CheckMissingReturn(node, result.issues);
    result := CheckUndefinedRead(code, node, result.issues);
  }

  /** Bug type 1: an empty FunctionDef, ClassDef, If, For, While or With body. */
  method CheckEmptyBlock(code: string, node: Node, issues: seq<Issue>) returns (result: Analysis)
    ensures result == Returned(issues).AndThen(EmptyBlockIssues(code, node))
  {
    if node.Block? && node.body == [] {
      var text := CodeLine(code, node.lineno);
      if text.None? {
        return Raised(IndexError);
      }
      return Returned(issues + [Issue(EmptyBlock, At(node.lineno),
                                      EmptyBody(node.kind.TypeName()), text)]);
    }
    return Returned(issues);
  }

  /** Bug type 2: a call of `eval` or `exec` through a bare name. */
  method CheckUnsafeCall(code: string, node: Node, issues: seq<Issue>) returns (result: Analysis)
    ensures result == Returned(issues).AndThen(UnsafeCallIssues(code, node))
  {
    if node.Call? && node.func.Name? {
      if node.func.id == "eval" || node.func.id == "exec" {
        var text := CodeLine(code, node.lineno);
        if text.None? {
          return Raised(IndexError);
        }
        return Returned(issues + [Issue(UnsafeFunction, At(node.lineno),
                                        UnsafeCall(node.func.id), text)]);
      }
    }
    return Returned(issues);
  }

  /** Bug type 3: a FunctionDef without any Return below it. */
  method CheckMissingReturn(node: Node, issues: seq<Issue>) returns (result: Analysis)
    ensures result == Returned(issues).AndThen(MissingReturnIssues(node))
  {
    if node.Block? && node.kind.FunctionDef? {
      var hasReturn := HasReturn(node);
      if !hasReturn {
        return Returned(issues + [Issue(MissingReturn, At(node.lineno),
                                        NoReturn(node.kind.name), Some("def " + node.kind.name + "(...):"))]);
      }
    }
    return Returned(issues);
  }

  /** Bug type 4: a Load of the name `undefined_var`. */
  method CheckUndefinedRead(code: string, node: Node, issues: seq<Issue>) returns (result: Analysis)
    ensures result == Returned(issues).AndThen(UndefinedReadIssues(code, node))
  {
    if node.Name? && node.ctx == Load {
      if node.id == "undefined_var" {
        var text := CodeLine(code, node.lineno);
        if text.None? {
          return Raised(IndexError);
        }
        return Returned(issues + [Issue(UndefinedVariable, At(node.lineno),
                                        ReadBeforeAssign(node.id), text)]);
      }
    }
    return Returned(issues);
  }
}

/**
 Worked examples: the model evaluated on small programs, with the tree that
 `ast.parse` produces for each written out by hand.
 */
module Scenarios {
  import opened PyText
  import opened PyAst
  import opened Detector
  import DetectorProps

  /**
   A source file of the given lines, each ended by the same terminator t
   ("\n", or "\r\n" as a browser posts a form field), in which the parser
   reports a SyntaxError on line k: the issue carries line k, stripped.
   */
  lemma SyntaxErrorReportsStrippedLine(lines: seq<string>, t: string, k: int, msg: string)
    requires forall line :: line in lines ==> NoLineBreak(line)
    requires IsTerminator(t)
    requires 1 <= k <= |lines|
    ensures Analyze(JoinLines(lines, t) + t, SyntaxErr(Some(k), msg)) ==
              Returned([Issue(SyntaxError, At(k), Rendered(msg), Some(Strip(lines[k - 1])))])
  {
    SplitLinesTrailingBreak(lines, t);
  }

  /**
   The same file, with the parser reporting the line after the last one (as
   it does for "expected an indented block" after a trailing `def f():`):
   splitlines() has no such line, and building the issue raises IndexError.
   */
  lemma SyntaxErrorPastLastLineRaises(lines: seq<string>, t: string, msg: string)
    requires forall line :: line in lines ==> NoLineBreak(line)
    requires IsTerminator(t)
    requires lines != []
    ensures Analyze(JoinLines(lines, t) + t, SyntaxErr(Some(|lines| + 1), msg)) == Raised(IndexError)
  {
    SplitLinesTrailingBreak(lines, t);
  }

  /** A SyntaxError without a line number makes `None - 1` raise. */
  lemma SyntaxErrorWithoutLineRaises(code: string, msg: string)
    ensures Analyze(code, SyntaxErr(None, msg)) == Raised(TypeError)
  {
  }

  /** A node without children: a function's empty `arguments`, a `pass`, a constant. */
  const Leaf: Node := Other([])

  /** `def f(): pass` on line l. */
  function DefPass(l: int): Node { Block(FunctionDef("f"), l, [Leaf], [Leaf], []) }

  /** `return 1` on line l. */
  function ReturnOne(l: int): Node { Return(l, [Leaf]) }

  /** `def f():` on line l with `return 1` on the next line as its body. */
  function DefReturn(l: int): Node { Block(FunctionDef("f"), l, [Leaf], [ReturnOne(l + 1)], []) }

  lemma WalkDefPass(l: int)
    ensures Walk(Other([DefPass(l)])) == [Other([DefPass(l)]), DefPass(l), Leaf, Leaf]
  {
    var root, def := Other([DefPass(l)]), DefPass(l);
    assert [root][1..] + Children(root) == [def];
    assert [def][1..] + Children(def) == [Leaf, Leaf];
    assert [Leaf, Leaf][1..] + Children(Leaf) == [Leaf];
    assert [Leaf][1..] + Children(Leaf) == [];
    assert WalkQueue([Leaf]) == [Leaf];
    assert WalkQueue([Leaf, Leaf]) == [Leaf, Leaf];
    assert WalkQueue([def]) == [def, Leaf, Leaf];
  }

  lemma WalkDefReturn(l: int)
    ensures var ret := ReturnOne(l + 1);
            Walk(Other([DefReturn(l)])) == [Other([DefReturn(l)]), DefReturn(l), Leaf, ret, Leaf]
  {
    var root, def, ret := Other([DefReturn(l)]), DefReturn(l), ReturnOne(l + 1);
    assert [root][1..] + Children(root) == [def];
    assert [def][1..] + Children(def) == [Leaf, ret];
    assert [Leaf, ret][1..] + Children(Leaf) == [ret];
    assert [ret][1..] + Children(ret) == [Leaf];
    assert [Leaf][1..] + Children(Leaf) == [];
    assert WalkQueue([Leaf]) == [Leaf];
    assert WalkQueue([ret]) == [ret, Leaf];
    assert WalkQueue([Leaf, ret]) == [Leaf, ret, Leaf];
    assert WalkQueue([def]) == [def, Leaf, ret, Leaf];
  }

  /** Each of the four checks ignores a node that is no block, call or name. */
  lemma QuietNodes(code: string, l: int)
    ensures NodeIssues(code, Leaf) == Returned([])
    ensures NodeIssues(code, ReturnOne(l + 1)) == Returned([])
    ensures NodeIssues(code, Other([DefPass(l)])) == Returned([])
    ensures NodeIssues(code, Other([DefReturn(l)])) == Returned([])
  {
  }

  lemma DefPassIssue(code: string, l: int)
    ensures NodeIssues(code, DefPass(l)) ==
              Returned([Issue(MissingReturn, At(l), NoReturn("f"), Some("def f(...):"))])
  {
    assert Children(DefPass(l)) == [Leaf, Leaf] && [Leaf, Leaf][1..] == [Leaf];
    assert !AnyHasReturn([Leaf]);
    assert !HasReturn(DefPass(l));
    assert "def " + "f" + "(...):" == "def f(...):";
  }

  /** One more turn of the walk loop, on a node whose checks report `added`. */
  lemma LoopStep(code: string, done: seq<Node>, node: Node, before: seq<Issue>, added: seq<Issue>)
    requires IssuesOver(code, done) == Returned(before)
    requires NodeIssues(code, node) == Returned(added)
    ensures IssuesOver(code, done + [node]) == Returned(before + added)
  {
    IssuesOverSnoc(code, done, node);
  }

  /**
   "def f(): pass" with the def on line l: one Missing Return issue at line
   l with the synthesized signature, and whatever line l holds is not read.
   */
  lemma FunctionWithoutReturn(code: string, l: int)
    ensures Analyze(code, Parsed(Other([DefPass(l)]))) ==
              Returned([Issue(MissingReturn, At(l), NoReturn("f"), Some("def f(...):"))])
  {
    var root, def := Other([DefPass(l)]), DefPass(l);
    var x := Issue(MissingReturn, At(l), NoReturn("f"), Some("def f(...):"));
    WalkDefPass(l);
    QuietNodes(code, l);
    DefPassIssue(code, l);
    assert IssuesOver(code, []) == Returned([]);
    LoopStep(code, [], root, [], []);
    assert [] + [root] == [root];
    LoopStep(code, [root], def, [], [x]);
    assert [root] + [def] == [root, def];
    LoopStep(code, [root, def], Leaf, [x], []);
    assert [root, def] + [Leaf] == [root, def, Leaf];
    LoopStep(code, [root, def, Leaf], Leaf, [x], []);
    assert [root, def, Leaf] + [Leaf] == [root, def, Leaf, Leaf];
  }

  lemma DefReturnQuiet(code: string, l: int)
    ensures NodeIssues(code, DefReturn(l)) == Returned([])
  {
    var ret := ReturnOne(l + 1);
    assert Children(DefReturn(l)) == [Leaf, ret] && [Leaf, ret][1..] == [ret];
    assert HasReturn(ret);
    assert AnyHasReturn([ret]);
    assert AnyHasReturn([Leaf, ret]);
  }

  /** The loop reports nothing over nodes none of which is reported on. */
  lemma {:induction false} QuietOver(code: string, nodes: seq<Node>)
    requires forall m :: m in nodes ==> NodeIssues(code, m) == Returned([])
    ensures IssuesOver(code, nodes) == Returned([])
    decreases |nodes|
  {
    if nodes != [] {
      var init := nodes[..|nodes| - 1];
      assert forall m :: m in init ==> m in nodes;
      QuietOver(code, init);
    }
  }

  /** "def f():\n    return 1", the def on line l: a return anywhere below the def silences the check. */
  lemma FunctionWithReturn(code: string, l: int)
    ensures Analyze(code, Parsed(Other([DefReturn(l)]))) == Returned([])
  {
    WalkDefReturn(l);
    QuietNodes(code, l);
    DefReturnQuiet(code, l);
    QuietOver(code, [Other([DefReturn(l)]), DefReturn(l), Leaf, ReturnOne(l + 1), Leaf]);
  }

  /** A line that is its own stripped text: no break in it, no space at either end. */
  lemma PlainLine(line: string)
    requires line != [] && NoLineBreak(line)
    requires !IsSpace(line[0]) && !IsSpace(line[|line| - 1])
    ensures SplitLines(line) == [line] && Strip(line) == line
  {
    SplitLinesSingle(line);
    assert Strip(line) == line by {
      assert AllSpace(line[..0]) && AllSpace(line[|line|..]);
      StripUnique(line, 0, |line|);
      assert line[0..|line|] == line;
    }
  }

  /**
   In a file of the given lines joined with the terminator t, line k is
   looked up as itself when it has no whitespace at either end.
   */
  lemma LineOf(lines: seq<string>, t: string, k: int)
    requires 1 <= k <= |lines|
    requires forall line :: line in lines ==> NoLineBreak(line)
    requires IsTerminator(t)
    requires lines[|lines| - 1] != []
    requires lines[k - 1] != [] && !IsSpace(lines[k - 1][0]) && !IsSpace(lines[k - 1][|lines[k - 1]| - 1])
    ensures CodeLine(JoinLines(lines, t), k) == Some(lines[k - 1])
  {
    SplitLinesJoinLines(lines, t);
    PlainLine(lines[k - 1]);
  }

  /**
   "if True\n    pass" (a file of two lines, the first missing its colon),
   or the same with "\r\n" or another terminator between the lines: the
   parser's SyntaxError on line 1 is reported with the text "if True".
   */
  lemma MissingColon(t: string, msg: string)
    requires IsTerminator(t)
    ensures Analyze(JoinLines(["if True", "    pass"], t), SyntaxErr(Some(1), msg)) ==
              Returned([Issue(SyntaxError, At(1), Rendered(msg), Some("if True"))])
  {
    var lines := ["if True", "    pass"];
    assert NoLineBreak(lines[0]) && NoLineBreak(lines[1]);
    LineOf(lines, t, 1);
  }

  /** The call `eval(user_input)` on line `l`, and the module around it. */
  function EvalName(l: int): Node { Name("eval", Load, l) }
  function ArgName(l: int): Node { Name("user_input", Load, l) }
  function EvalCall(l: int): Node { Call(EvalName(l), l, [ArgName(l)]) }
  function EvalStmt(l: int): Node { Other([EvalCall(l)]) }
  function EvalModule(l: int): Node { Other([EvalStmt(l)]) }

  lemma WalkEvalCall(l: int)
    ensures WalkQueue([EvalCall(l)]) == [EvalCall(l), EvalName(l), ArgName(l), ExprContext(Load), ExprContext(Load)]
  {
    var c := ExprContext(Load);
    var f, a := EvalName(l), ArgName(l);
    assert [EvalCall(l)][1..] + Children(EvalCall(l)) == [f, a];
    assert [f, a][1..] + Children(f) == [a, c];
    assert [a, c][1..] + Children(a) == [c, c];
    assert [c, c][1..] + Children(c) == [c];
    assert [c][1..] + Children(c) == [];
    assert WalkQueue([c]) == [c];
    assert WalkQueue([c, c]) == [c, c];
    assert WalkQueue([a, c]) == [a, c, c];
    assert WalkQueue([f, a]) == [f, a, c, c];
  }

  lemma WalkEvalModule(l: int)
    ensures var c := ExprContext(Load);
            Walk(EvalModule(l)) == [EvalModule(l), EvalStmt(l)] + [EvalCall(l)] + [EvalName(l), ArgName(l), c, c]
  {
    assert [EvalModule(l)][1..] + Children(EvalModule(l)) == [EvalStmt(l)];
    assert [EvalStmt(l)][1..] + Children(EvalStmt(l)) == [EvalCall(l)];
    WalkEvalCall(l);
    assert WalkQueue([EvalStmt(l)]) == [EvalStmt(l)] + WalkQueue([EvalCall(l)]);
  }

  /** Of the nodes of `eval(user_input)`, only the call is reported on. */
  lemma EvalQuietNodes(code: string, l: int)
    ensures NodeIssues(code, EvalModule(l)) == Returned([]) && NodeIssues(code, EvalStmt(l)) == Returned([])
    ensures NodeIssues(code, EvalName(l)) == Returned([]) && NodeIssues(code, ArgName(l)) == Returned([])
    ensures NodeIssues(code, ExprContext(Load)) == Returned([])
  {
  }

  /** The loop reports `added` over nodes of which only `n` reports anything. */
  lemma OneReportingNode(code: string, before: seq<Node>, n: Node, after: seq<Node>, added: seq<Issue>)
    requires forall m :: m in before ==> NodeIssues(code, m) == Returned([])
    requires forall m :: m in after ==> NodeIssues(code, m) == Returned([])
    requires NodeIssues(code, n) == Returned(added)
    ensures IssuesOver(code, before + [n] + after) == Returned(added)
  {
    QuietOver(code, before);
    QuietOver(code, after);
    IssuesOverSnoc(code, before, n);
    DetectorProps.ScanAppend(Checks(code), before + [n], after);
    assert [] + added == added && added + [] == added;
  }

  /**
   A module whose line `l` is the statement `eval(user_input)`: one Security
   Warning at line `l` naming `eval`, with that line as code_line.
   */
  lemma EvalStatement(code: string, l: int)
    requires CodeLine(code, l) == Some("eval(user_input)")
    ensures Analyze(code, Parsed(EvalModule(l))) ==
              Returned([Issue(UnsafeFunction, At(l), UnsafeCall("eval"), Some("eval(user_input)"))])
  {
    var c := ExprContext(Load);
    var x := Issue(UnsafeFunction, At(l), UnsafeCall("eval"), Some("eval(user_input)"));
    var before, after := [EvalModule(l), EvalStmt(l)], [EvalName(l), ArgName(l), c, c];
    assert IssuesOver(code, before + [EvalCall(l)] + after) == Returned([x]) by {
      EvalCallIssue(code, l);
      EvalQuietNodes(code, l);
      OneReportingNode(code, before, EvalCall(l), after, [x]);
    }
    WalkEvalModule(l);
  }

  /** The call node itself: one Security Warning naming `eval`. */
  lemma EvalCallIssue(code: string, l: int)
    requires CodeLine(code, l) == Some("eval(user_input)")
    ensures NodeIssues(code, EvalCall(l)) ==
              Returned([Issue(UnsafeFunction, At(l), UnsafeCall("eval"), Some("eval(user_input)"))])
  {
  }

  /** The one-line program "eval(user_input)". */
  lemma EvalAtTopLevel(code: string)
    requires code == JoinLines(["eval(user_input)"], "\n")
    ensures Analyze(code, Parsed(EvalModule(1))) ==
              Returned([Issue(UnsafeFunction, At(1), UnsafeCall("eval"), Some("eval(user_input)"))])
  {
    var line := "eval(user_input)";
    assert NoLineBreak(line);
    LineOf([line], "\n", 1);
    EvalStatement(code, 1);
  }

  /**
   A call whose callee is not a bare name (`builtins.eval(x)`, whose callee
   is an Attribute; `f()(x)`, whose callee is a Call) is never reported,
   whatever the callee's own subtree holds.
   */
  lemma NonNameCalleeIgnored(code: string, func: Node, lineno: int, args: seq<Node>)
    requires !func.Name?
    ensures NodeIssues(code, Call(func, lineno, args)) == Returned([])
  {
  }

  /**
   A read of `undefined_var` on line 2 is reported, with that line as
   code_line; the same name as an assignment target (a Store) is not.
   */
  lemma UndefinedVarIssues(code: string)
    requires CodeLine(code, 2) == Some("print(undefined_var)")
    ensures NodeIssues(code, Name("undefined_var", Store, 1)) == Returned([])
    ensures NodeIssues(code, Name("undefined_var", Load, 2)) ==
              Returned([Issue(UndefinedVariable, At(2), ReadBeforeAssign("undefined_var"), Some("print(undefined_var)"))])
  {
  }

  /** "undefined_var = 1\nprint(undefined_var)": the read is reported although the name was assigned before. */
  lemma UndefinedVarAfterAssignment(code: string)
    requires code == JoinLines(["undefined_var = 1", "print(undefined_var)"], "\n")
    ensures NodeIssues(code, Name("undefined_var", Store, 1)) == Returned([])
    ensures NodeIssues(code, Name("undefined_var", Load, 2)) ==
              Returned([Issue(UndefinedVariable, At(2), ReadBeforeAssign("undefined_var"), Some("print(undefined_var)"))])
  {
    var lines := ["undefined_var = 1", "print(undefined_var)"];
    assert NoLineBreak(lines[0]) && NoLineBreak(lines[1]);
    LineOf(lines, "\n", 2);
    UndefinedVarIssues(code);
  }

  /** An `if` on line 1 whose body holds no statement: one Empty Block issue naming If. */
  lemma EmptyIfIssues(code: string, test: Node, orelse: seq<Node>)
    requires CodeLine(code, 1) == Some("if x:")
    ensures NodeIssues(code, Block(If, 1, [test], [], orelse)) ==
              Returned([Issue(EmptyBlock, At(1), EmptyBody("If"), Some("if x:"))])
  {
  }

  /** "if x:\n    pass\nelse:\n    pass" with the `if` body holding no statement: one Empty Block issue naming If. */
  lemma EmptyIfBody(code: string, test: Node, orelse: seq<Node>)
    requires code == JoinLines(["if x:", "    pass", "else:", "    pass"], "\n")
    ensures NodeIssues(code, Block(If, 1, [test], [], orelse)) ==
              Returned([Issue(EmptyBlock, At(1), EmptyBody("If"), Some("if x:"))])
  {
    var lines := ["if x:", "    pass", "else:", "    pass"];
    assert NoLineBreak(lines[0]) && NoLineBreak(lines[1]) && NoLineBreak(lines[2]) && NoLineBreak(lines[3]);
    LineOf(lines, "\n", 1);
    EmptyIfIssues(code, test, orelse);
  }
}

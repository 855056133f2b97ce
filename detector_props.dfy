/**
 What `analyze_code` promises, proved about the Analyze specification:
 the parse-failure short-circuits, the guard of each check as an
 if-and-only-if, the order and number of issues per node, and, for a
 parsed tree, that the issue list is exactly what the four checks report
 on the nodes of the tree, each node visited once, in ast.walk order.
 */
module DetectorProps {
  import opened PyText
  import opened PyAst
  import opened Detector

  /** The guard of the check that emits issues of type k; the two parse-failure types have none. */
  predicate Fires(k: IssueType, n: Node) {
    match k
    case EmptyBlock => IsEmptyBlock(n)
    case UnsafeFunction => IsUnsafeCall(n)
    case MissingReturn => IsMissingReturn(n)
    case UndefinedVariable => IsUndefinedRead(n)
    case SyntaxError => false
    case ParseError => false
  }

  /** A check that copies a source line into its issue. */
  predicate NeedsSourceLine(n: Node) {
    IsEmptyBlock(n) || IsUnsafeCall(n) || IsUndefinedRead(n)
  }

  /** `a` ran to the end and its issue list holds x. */
  predicate Reports(a: Analysis, x: Issue) {
    a.Returned? && x in a.issues
  }

  // ---------------------------------------------------------------------
  // Parse failures
  // ---------------------------------------------------------------------

  /**
   A SyntaxError yields exactly one "SyntaxError" issue carrying the
   error's line, its text and the stripped source line, and nothing from
   the tree checks. A line number past the last line raises IndexError,
   and a missing one (None) raises TypeError.
   */
  lemma SyntaxErrorShortCircuits(code: string, lineno: Option<int>, msg: string)
    ensures var r := Analyze(code, SyntaxErr(lineno, msg));
            var lines := SplitLines(code);
            && (lineno.None? ==> r == Raised(TypeError))
            && (lineno.Some? && 1 <= lineno.value <= |lines| ==>
                  r == Returned([Issue(SyntaxError, At(lineno.value), Rendered(msg), Some(Strip(lines[lineno.value - 1])))]))
            && (lineno.Some? && lineno.value > |lines| ==> r == Raised(IndexError))
            && (r.Returned? ==> |r.issues| == 1 && r.issues[0].kind == SyntaxError && r.issues[0].codeLine.Some?
                                && r.issues[0].error.Text() == msg)
  {
  }

  /**
   Any other parse failure yields exactly one "Parse Error" issue at line
   "N/A", whose message is the fixed prefix followed by the exception's
   text, and which has no code_line.
   */
  lemma ParseErrorShortCircuits(code: string, msg: string)
    ensures var r := Analyze(code, OtherErr(msg));
            var prefix := "An unexpected error occurred during parsing: ";
            && r.Returned? && |r.issues| == 1
            && r.issues[0].kind == ParseError && r.issues[0].line == NotApplicable
            && r.issues[0].error.Text() == prefix + msg && r.issues[0].error.Text()[..|prefix|] == prefix
            && r.issues[0].codeLine.None?
  {
  }

  // ---------------------------------------------------------------------
  // The strings of an issue dict
  // ---------------------------------------------------------------------

  /** The six "type" strings differ, so an issue's type string tells which handler or check made it. */
  lemma LabelsDistinct(a: IssueType, b: IssueType)
    ensures a != b ==> a.Label() != b.Label()
  {
  }

  /** The part of an "error" string that varies: the exception text, or the class or name it reports. */
  function Subject(m: Message): string {
    match m
    case Rendered(text) => text
    case ParseFailure(detail) => detail
    case EmptyBody(typeName) => typeName
    case UnsafeCall(id) => id
    case NoReturn(name) => name
    case ReadBeforeAssign(id) => id
  }

  /** The fixed text in front of the subject. */
  function Lead(m: Message): string {
    match m
    case Rendered(_) => ""
    case ParseFailure(_) => ParseFailurePrefix
    case EmptyBody(_) => "An empty "
    case UnsafeCall(_) => "The use of '"
    case NoReturn(_) => "Function '"
    case ReadBeforeAssign(_) => "Variable '"
  }

  /**
   Every "error" string starts with the fixed lead of its kind followed by
   its subject, so the subject can be read back at a fixed offset; a
   SyntaxError's string is `str(e)` itself.
   */
  lemma MessageCarriesSubject(m: Message)
    ensures |Lead(m)| + |Subject(m)| <= |m.Text()|
    ensures m.Text()[..|Lead(m)|] == Lead(m)
    ensures m.Text()[|Lead(m)|..|Lead(m)| + |Subject(m)|] == Subject(m)
    ensures m.Rendered? ==> m.Text() == Subject(m)
  {
    var t, l, x := m.Text(), Lead(m), Subject(m);
    var rest := t[|l| + |x|..];
    assert t == l + x + rest by {
      match m
      case Rendered(_) =>
      case ParseFailure(_) =>
      case EmptyBody(_) =>
      case UnsafeCall(_) =>
      case NoReturn(_) =>
      case ReadBeforeAssign(_) =>
    }
    assert (l + x + rest)[..|l|] == l;
    assert (l + x + rest)[|l|..|l| + |x|] == x;
  }

  // ---------------------------------------------------------------------
  // One node
  // ---------------------------------------------------------------------

  /**
   The checks on one node raise exactly when a check that copies a source
   line fires and the node's line number is out of range; the Missing
   Return check never raises.
   */
  lemma NodeIssuesRaise(code: string, n: Node)
    ensures NodeIssues(code, n).Raised? <==> NeedsSourceLine(n) && CodeLine(code, n.lineno).None?
  {
  }

  /** The types of the checks whose guards hold on n, in the order the checks run. */
  function FiringKinds(n: Node): seq<IssueType> {
    (if IsEmptyBlock(n) then [EmptyBlock] else []) +
    (if IsUnsafeCall(n) then [UnsafeFunction] else []) +
    (if IsMissingReturn(n) then [MissingReturn] else []) +
    (if IsUndefinedRead(n) then [UndefinedVariable] else [])
  }

  /**
   A type is among the firing ones iff its check's guard holds. At most two
   guards hold on one node, and two only on a FunctionDef with an empty
   body and no Return: Empty Block, then Missing Return.
   */
  lemma FiringKindsFacts(n: Node, k: IssueType)
    ensures k in FiringKinds(n) <==> Fires(k, n)
    ensures |FiringKinds(n)| <= 2
    ensures |FiringKinds(n)| == 2 ==> n.Block? && n.kind.FunctionDef? && FiringKinds(n) == [EmptyBlock, MissingReturn]
  {
  }

  /** The "type" of each issue, in order. */
  function Kinds(a: seq<Issue>): (r: seq<IssueType>)
    ensures |r| == |a| && forall i :: 0 <= i < |a| ==> r[i] == a[i].kind
  {
    seq(|a|, i requires 0 <= i < |a| => a[i].kind)
  }

  lemma KindsAppend(a: seq<Issue>, b: seq<Issue>)
    ensures Kinds(a + b) == Kinds(a) + Kinds(b)
  {
  }

  /** A check reports nothing when its guard fails and one issue of its own type when it holds. */
  lemma CheckKinds(code: string, n: Node)
    ensures var e := EmptyBlockIssues(code, n);
            e.Returned? ==> Kinds(e.issues) == if IsEmptyBlock(n) then [EmptyBlock] else []
    ensures var u := UnsafeCallIssues(code, n);
            u.Returned? ==> Kinds(u.issues) == if IsUnsafeCall(n) then [UnsafeFunction] else []
    ensures var m := MissingReturnIssues(n);
            m.Returned? && Kinds(m.issues) == if IsMissingReturn(n) then [MissingReturn] else []
    ensures var d := UndefinedReadIssues(code, n);
            d.Returned? ==> Kinds(d.issues) == if IsUndefinedRead(n) then [UndefinedVariable] else []
  {
  }

  /**
   On one node that does not raise, the issues' types are exactly the
   types of the checks whose guards hold, in check order: Empty Block,
   Unsafe Function, Missing Return, Undefined Variable.
   */
  lemma NodeIssueKinds(code: string, n: Node)
    requires NodeIssues(code, n).Returned?
    ensures Kinds(NodeIssues(code, n).issues) == FiringKinds(n)
  {
    var e, u := EmptyBlockIssues(code, n), UnsafeCallIssues(code, n);
    var m, d := MissingReturnIssues(n), UndefinedReadIssues(code, n);
    assert e.Returned? && u.Returned? && d.Returned?;
    assert NodeIssues(code, n).issues == e.issues + u.issues + m.issues + d.issues;
    CheckKinds(code, n);
    KindsAppend(e.issues, u.issues);
    KindsAppend(e.issues + u.issues, m.issues);
    KindsAppend(e.issues + u.issues + m.issues, d.issues);
  }

  /** On one node that does not raise, an issue of type k is reported iff the guard of k's check holds. */
  lemma NodeIssueOfKind(code: string, n: Node, k: IssueType)
    requires NodeIssues(code, n).Returned?
    ensures var a := NodeIssues(code, n).issues;
            (exists i :: 0 <= i < |a| && a[i].kind == k) <==> Fires(k, n)
  {
    var a := NodeIssues(code, n).issues;
    NodeIssueKinds(code, n);
    FiringKindsFacts(n, k);
    if Fires(k, n) {
      var i :| 0 <= i < |Kinds(a)| && Kinds(a)[i] == k;
      assert a[i].kind == k;
    }
    if i :| 0 <= i < |a| && a[i].kind == k {
      assert Kinds(a)[i] == k;
    }
  }

  /**
   Every issue of one node is at the node's line. The Missing Return issue
   carries the synthesized signature `def <name>(...):`; every other issue
   carries what CodeLine gives for the node's line: that source line,
   stripped.
   */
  lemma NodeIssueFields(code: string, n: Node, x: Issue)
    requires Reports(NodeIssues(code, n), x)
    ensures (n.Block? || n.Call? || n.Name?) && x.line == At(n.lineno)
    ensures x.kind == MissingReturn ==>
              n.Block? && n.kind.FunctionDef? && x.codeLine == Some("def " + n.kind.name + "(...):")
    ensures x.kind == EmptyBlock ==> n.Block? && x.error == EmptyBody(n.kind.TypeName())
    ensures x.kind == UnsafeFunction ==> n.Call? && n.func.Name? && x.error == UnsafeCall(n.func.id)
    ensures x.kind != MissingReturn ==> x.codeLine == CodeLine(code, n.lineno)
  {
    var e, u := EmptyBlockIssues(code, n), UnsafeCallIssues(code, n);
    var m, d := MissingReturnIssues(n), UndefinedReadIssues(code, n);
    assert e.Returned? && u.Returned? && d.Returned?;
    assert x in e.issues + u.issues + m.issues + d.issues;
    if x in e.issues {
      ReportFields(code, EmptyBlock, n.lineno, EmptyBody(n.kind.TypeName()), x);
    } else if x in u.issues {
      ReportFields(code, UnsafeFunction, n.lineno, UnsafeCall(n.func.id), x);
    } else if x in d.issues {
      ReportFields(code, UndefinedVariable, n.lineno, ReadBeforeAssign(n.id), x);
    } else {
      assert x in m.issues;
    }
  }

  /**
   The one issue Report builds has the given type, line and message, and
   the stripped text of that line, which therefore exists.
   */
  lemma ReportFields(code: string, kind: IssueType, lineno: int, error: Message, x: Issue)
    requires Reports(Report(code, kind, lineno, error), x)
    ensures x == Issue(kind, At(lineno), error, CodeLine(code, lineno))
    ensures x.codeLine.Some? && lineno <= |SplitLines(code)|
  {
  }

  // ---------------------------------------------------------------------
  // Many nodes, in walk order
  // ---------------------------------------------------------------------

  /** Running a loop body over `a` then `b` is running it over `a`, then over `b`: results keep the node order. */
  lemma {:induction false} ScanAppend(check: Node -> Analysis, a: seq<Node>, b: seq<Node>)
    ensures Scan(check, a + b) == Scan(check, a).AndThen(Scan(check, b))
    decreases |b|
  {
    if b == [] {
      assert a + b == a;
      var r := Scan(check, a);
      if r.Returned? { assert r.issues + [] == r.issues; }
    } else {
      var init, last := b[..|b| - 1], b[|b| - 1];
      assert (a + b)[..|a + b| - 1] == a + init && (a + b)[|a + b| - 1] == last;
      ScanAppend(check, a, init);
      AndThenAssociative(Scan(check, a), Scan(check, init), check(last));
    }
  }

  /** A run over `nodes` raises iff the loop body raises on one of them. */
  lemma {:induction false} ScanRaised(check: Node -> Analysis, nodes: seq<Node>)
    ensures Scan(check, nodes).Raised? <==> exists m :: m in nodes && check(m).Raised?
    decreases |nodes|
  {
    if nodes != [] {
      var init, last := nodes[..|nodes| - 1], nodes[|nodes| - 1];
      assert nodes == init + [last];
      ScanRaised(check, init);
      if Scan(check, nodes).Raised? {
        if Scan(check, init).Raised? {
          var m :| m in init && check(m).Raised?;
          assert m in nodes;
        } else {
          assert last in nodes;
        }
      } else {
        forall m | m in nodes ensures !check(m).Raised? {
          if m != last { assert m in init; }
        }
      }
    }
  }

  /** A run whose loop body reports at most `bound` issues per node reports at most `bound` per node in all. */
  lemma {:induction false} ScanLength(check: Node -> Analysis, nodes: seq<Node>, bound: nat)
    requires forall m :: m in nodes && check(m).Returned? ==> |check(m).issues| <= bound
    requires Scan(check, nodes).Returned?
    ensures |Scan(check, nodes).issues| <= bound * |nodes|
    decreases |nodes|
  {
    if nodes != [] {
      var init, last := nodes[..|nodes| - 1], nodes[|nodes| - 1];
      assert last in nodes;
      assert forall m :: m in init ==> m in nodes;
      ScanLength(check, init, bound);
    }
  }

  /** A run that gets through holds exactly the issues the loop body reports on its nodes. */
  lemma {:induction false} ScanMembers(check: Node -> Analysis, nodes: seq<Node>, x: Issue)
    requires Scan(check, nodes).Returned?
    ensures x in Scan(check, nodes).issues <==> exists m :: m in nodes && Reports(check(m), x)
    decreases |nodes|
  {
    if nodes != [] {
      var init, last := nodes[..|nodes| - 1], nodes[|nodes| - 1];
      assert nodes == init + [last];
      ScanMembers(check, init, x);
      if x in Scan(check, nodes).issues {
        if x in Scan(check, init).issues {
          var m :| m in init && Reports(check(m), x);
          assert m in nodes;
        } else {
          assert Reports(check(last), x);
        }
      }
      if exists m :: m in nodes && Reports(check(m), x) {
        var m :| m in nodes && Reports(check(m), x);
        if m != last { assert m in init; }
      }
    }
  }

  /** The issues the loop body reports on each of `nodes`, counted with multiplicity, order forgotten. */
  function Bag(check: Node -> Analysis, nodes: seq<Node>): multiset<Issue>
    decreases |nodes|
  {
    if nodes == [] then multiset{}
    else
      var last := check(nodes[|nodes| - 1]);
      Bag(check, nodes[..|nodes| - 1]) + (if last.Returned? then multiset(last.issues) else multiset{})
  }

  /** A run that gets through holds each node's issues as often as the node occurs. */
  lemma {:induction false} ScanBag(check: Node -> Analysis, nodes: seq<Node>)
    requires Scan(check, nodes).Returned?
    ensures multiset(Scan(check, nodes).issues) == Bag(check, nodes)
    decreases |nodes|
  {
    if nodes != [] {
      var init := nodes[..|nodes| - 1];
      ScanBag(check, init);
    }
  }

  lemma {:induction false} BagAppend(check: Node -> Analysis, a: seq<Node>, b: seq<Node>)
    ensures Bag(check, a + b) == Bag(check, a) + Bag(check, b)
    decreases |b|
  {
    if b == [] {
      assert a + b == a;
    } else {
      var init := b[..|b| - 1];
      assert (a + b)[..|a + b| - 1] == a + init && (a + b)[|a + b| - 1] == b[|b| - 1];
      BagAppend(check, a, init);
    }
  }

  /** Taking the last node off `a` and the same node off `b` keeps the two lists permutations of each other. */
  lemma RemoveOne(a: seq<Node>, b: seq<Node>, j: nat)
    requires a != [] && j < |b| && b[j] == a[|a| - 1]
    requires multiset(a) == multiset(b)
    ensures multiset(a[..|a| - 1]) == multiset(b[..j] + b[j + 1..])
  {
    var init, x, left, right := a[..|a| - 1], a[|a| - 1], b[..j], b[j + 1..];
    assert a == init + [x];
    assert b == left + [x] + right;
    var p, q := multiset(init), multiset(left + right);
    assert p + multiset{x} == q + multiset{x};
    forall y ensures p[y] == q[y] {
      assert (p + multiset{x})[y] == (q + multiset{x})[y];
    }
  }

  /** Bag depends only on how often each node occurs, not on the order of the nodes. */
  lemma {:induction false} BagPermutation(check: Node -> Analysis, a: seq<Node>, b: seq<Node>)
    requires multiset(a) == multiset(b)
    ensures Bag(check, a) == Bag(check, b)
    decreases |a|
  {
    if a == [] {
      assert |b| == |multiset(b)| == 0;
    } else {
      var init, x := a[..|a| - 1], a[|a| - 1];
      assert a == init + [x];
      assert x in multiset(b);
      var j :| 0 <= j < |b| && b[j] == x;
      var left, right := b[..j], b[j + 1..];
      RemoveOne(a, b, j);
      assert b == left + [x] + right;
      BagPermutation(check, init, left + right);
      BagAppend(check, left, right);
      BagAppend(check, left, [x]);
      BagAppend(check, left + [x], right);
      BagAppend(check, init, [x]);
    }
  }

  /**
   Over a list of nodes the walk loop raises iff the checks raise on one of
   them; otherwise its issues are exactly the issues of the single nodes,
   at most two per node.
   */
  lemma IssuesOverFacts(code: string, nodes: seq<Node>)
    ensures IssuesOver(code, nodes).Raised? <==> exists m :: m in nodes && NodeIssues(code, m).Raised?
    ensures IssuesOver(code, nodes).Returned? ==>
              forall x :: x in IssuesOver(code, nodes).issues <==> exists m :: m in nodes && Reports(NodeIssues(code, m), x)
    ensures IssuesOver(code, nodes).Returned? ==> |IssuesOver(code, nodes).issues| <= 2 * |nodes|
  {
    var check := Checks(code);
    ScanRaised(check, nodes);
    if Scan(check, nodes).Returned? {
      forall m | m in nodes && check(m).Returned? ensures |check(m).issues| <= 2 {
        NodeIssueKinds(code, m);
        FiringKindsFacts(m, EmptyBlock);
      }
      ScanLength(check, nodes, 2);
      forall x ensures x in Scan(check, nodes).issues <==> exists m :: m in nodes && Reports(check(m), x) {
        ScanMembers(check, nodes, x);
      }
    }
  }

  // ---------------------------------------------------------------------
  // A parsed tree
  // ---------------------------------------------------------------------

  /**
   For a parsed tree, analyze_code raises iff some node of the tree fires a
   check that copies a source line whose line number is out of range.
   Otherwise the issue list holds exactly the issues of the tree's nodes:
   every issue comes from a node of the tree, and every node's issues are in
   the list; and there are at most two issues per node.
   */
  lemma TreeIssues(code: string, tree: Node)
    ensures Analyze(code, Parsed(tree)).Raised? <==>
              exists m :: m in Subtree(tree) && NeedsSourceLine(m) && CodeLine(code, m.lineno).None?
    ensures var r := Analyze(code, Parsed(tree));
            r.Returned? ==>
              && (forall x :: x in r.issues ==> exists m :: m in Subtree(tree) && Reports(NodeIssues(code, m), x))
              && (forall m, x :: m in Subtree(tree) && Reports(NodeIssues(code, m), x) ==> x in r.issues)
              && |r.issues| <= 2 * Size(tree)
  {
    TreeRaises(code, tree);
    if Analyze(code, Parsed(tree)).Returned? {
      TreeContents(code, tree);
    }
  }

  /** The walk visits exactly the nodes of the tree, as many as it holds. */
  lemma WalkNodes(tree: Node)
    ensures forall m :: m in Walk(tree) <==> m in Subtree(tree)
    ensures |Walk(tree)| == Size(tree)
  {
    WalkVisitsEachNodeOnce(tree);
    forall m ensures m in Walk(tree) <==> m in Subtree(tree) {
      WalkMembership(tree, m);
    }
  }

  lemma TreeRaises(code: string, tree: Node)
    ensures Analyze(code, Parsed(tree)).Raised? <==>
              exists m :: m in Subtree(tree) && NeedsSourceLine(m) && CodeLine(code, m.lineno).None?
  {
    var walk := Walk(tree);
    ScanRaised(Checks(code), walk);
    WalkNodes(tree);
    forall m ensures NodeIssues(code, m).Raised? <==> NeedsSourceLine(m) && CodeLine(code, m.lineno).None? {
      NodeIssuesRaise(code, m);
    }
  }

  lemma TreeContents(code: string, tree: Node)
    requires Analyze(code, Parsed(tree)).Returned?
    ensures var r := Analyze(code, Parsed(tree));
              && (forall x :: x in r.issues ==> exists m :: m in Subtree(tree) && Reports(NodeIssues(code, m), x))
              && (forall m, x :: m in Subtree(tree) && Reports(NodeIssues(code, m), x) ==> x in r.issues)
              && |r.issues| <= 2 * Size(tree)
  {
    IssuesOverFacts(code, Walk(tree));
    WalkNodes(tree);
  }

  /**
   For a parsed tree that analyze_code gets through, an issue of type k is
   in the list iff some node of the tree satisfies the guard of k's check.
   In particular neither parse-failure type ever shows up.
   */
  lemma TreeIssueKinds(code: string, tree: Node, k: IssueType)
    requires Analyze(code, Parsed(tree)).Returned?
    ensures var a := Analyze(code, Parsed(tree)).issues;
            (exists i :: 0 <= i < |a| && a[i].kind == k) <==> exists m :: m in Subtree(tree) && Fires(k, m)
  {
    var a := Analyze(code, Parsed(tree)).issues;
    if i :| 0 <= i < |a| && a[i].kind == k {
      KindFromFiringNode(code, tree, a[i]);
    }
    if m :| m in Subtree(tree) && Fires(k, m) {
      var x := KindReported(code, tree, m, k);
      var i :| 0 <= i < |a| && a[i] == x;
    }
  }

  /** An issue of the list comes from a node of the tree on which its type's check fires. */
  lemma KindFromFiringNode(code: string, tree: Node, x: Issue)
    requires Reports(Analyze(code, Parsed(tree)), x)
    ensures exists m :: m in Subtree(tree) && Fires(x.kind, m)
  {
    var m := TreeIssueOrigin(code, tree, x);
    var b := NodeIssues(code, m).issues;
    var j :| 0 <= j < |b| && b[j] == x;
    NodeIssueOfKind(code, m, x.kind);
  }

  /** A node of the tree on which the check for k fires puts an issue of type k in the list. */
  lemma KindReported(code: string, tree: Node, m: Node, k: IssueType) returns (x: Issue)
    requires Analyze(code, Parsed(tree)).Returned?
    requires m in Subtree(tree) && Fires(k, m)
    ensures x.kind == k && x in Analyze(code, Parsed(tree)).issues
  {
    TreeNodeNotRaised(code, tree, m);
    NodeIssueOfKind(code, m, k);
    var b := NodeIssues(code, m).issues;
    var j :| 0 <= j < |b| && b[j].kind == k;
    x := b[j];
    TreeIssueReported(code, tree, m, x);
  }

  /**
   For a parsed tree that analyze_code gets through, the issue list, as a
   multiset, is the sum of the issues of the tree's nodes: the issues of a
   node that occurs k times in the tree appear k times.
   */
  lemma TreeIssueBag(code: string, tree: Node)
    requires Analyze(code, Parsed(tree)).Returned?
    ensures multiset(Analyze(code, Parsed(tree)).issues) == Bag(Checks(code), Subtree(tree))
  {
    ScanBag(Checks(code), Walk(tree));
    WalkVisitsEachNodeOnce(tree);
    BagPermutation(Checks(code), Walk(tree), Subtree(tree));
  }

  /** The node of the tree an issue of the list comes from. */
  lemma TreeIssueOrigin(code: string, tree: Node, x: Issue) returns (m: Node)
    requires Reports(Analyze(code, Parsed(tree)), x)
    ensures m in Subtree(tree) && Reports(NodeIssues(code, m), x)
  {
    TreeIssues(code, tree);
    m :| m in Subtree(tree) && Reports(NodeIssues(code, m), x);
  }

  lemma TreeIssueReported(code: string, tree: Node, m: Node, x: Issue)
    requires Analyze(code, Parsed(tree)).Returned?
    requires m in Subtree(tree) && Reports(NodeIssues(code, m), x)
    ensures x in Analyze(code, Parsed(tree)).issues
  {
    TreeIssues(code, tree);
  }

  lemma TreeNodeNotRaised(code: string, tree: Node, m: Node)
    requires Analyze(code, Parsed(tree)).Returned?
    requires m in Subtree(tree)
    ensures NodeIssues(code, m).Returned?
  {
    TreeIssues(code, tree);
    NodeIssuesRaise(code, m);
  }

  /**
   A tree none of whose nodes matches any of the four patterns yields the
   empty list, and only such a tree does.
   */
  lemma NoPatternNoIssues(code: string, tree: Node)
    ensures Analyze(code, Parsed(tree)) == Returned([]) <==>
              forall m, k :: m in Subtree(tree) ==> !Fires(k, m)
  {
    if forall m, k :: m in Subtree(tree) ==> !Fires(k, m) {
      QuietTree(code, tree);
    }
    if Analyze(code, Parsed(tree)) == Returned([]) {
      forall m, k | m in Subtree(tree) ensures !Fires(k, m) {
        TreeIssueKinds(code, tree, k);
      }
    }
  }

  /** A tree on none of whose nodes any check fires yields the empty list. */
  lemma QuietTree(code: string, tree: Node)
    requires forall m, k :: m in Subtree(tree) ==> !Fires(k, m)
    ensures Analyze(code, Parsed(tree)) == Returned([])
  {
    var r := Analyze(code, Parsed(tree));
    QuietTreeRuns(code, tree);
    if r.issues != [] {
      TreeIssueKinds(code, tree, r.issues[0].kind);
      assert false;
    }
  }

  /** A tree on which no check that reads a source line fires raises nothing. */
  lemma QuietTreeRuns(code: string, tree: Node)
    requires forall m, k :: m in Subtree(tree) ==> !Fires(k, m)
    ensures Analyze(code, Parsed(tree)).Returned?
  {
    forall m | m in Subtree(tree) ensures !NeedsSourceLine(m) {
      assert !Fires(EmptyBlock, m) && !Fires(UnsafeFunction, m) && !Fires(UndefinedVariable, m);
    }
    TreeRaises(code, tree);
  }

  // ---------------------------------------------------------------------
  // The Missing Return check
  // ---------------------------------------------------------------------

  /** ReturnIn(s): some node of s is a Return. */
  predicate ReturnIn(s: seq<Node>) {
    exists i :: 0 <= i < |s| && s[i].Return?
  }

  lemma {:induction false} ReturnInAppend(a: seq<Node>, b: seq<Node>)
    ensures ReturnIn(a + b) <==> ReturnIn(a) || ReturnIn(b)
  {
    if ReturnIn(a + b) {
      var i :| 0 <= i < |a + b| && (a + b)[i].Return?;
      if i < |a| { assert a[i] == (a + b)[i]; } else { assert b[i - |a|] == (a + b)[i]; }
    }
    if ReturnIn(a) {
      var i :| 0 <= i < |a| && a[i].Return?;
      assert (a + b)[i] == a[i];
    }
    if ReturnIn(b) {
      var i :| 0 <= i < |b| && b[i].Return?;
      assert (a + b)[|a| + i] == b[i];
    }
  }

  lemma {:induction false} HasReturnIsReturnInSubtree(n: Node)
    ensures HasReturn(n) <==> ReturnIn(Subtree(n))
    decreases Size(n), 0
  {
    SubtreeUnfold(n);
    AnyHasReturnIsReturnInPreOrder(Children(n));
    ReturnInAppend([n], PreOrder(Children(n)));
  }

  lemma {:induction false} AnyHasReturnIsReturnInPreOrder(s: seq<Node>)
    ensures AnyHasReturn(s) <==> ReturnIn(PreOrder(s))
    decreases SizeSeq(s), 1
  {
    if s != [] {
      assert s == [s[0]] + s[1..];
      PreOrderAppend([s[0]], s[1..]);
      HasReturnIsReturnInSubtree(s[0]);
      AnyHasReturnIsReturnInPreOrder(s[1..]);
      ReturnInAppend(PreOrder([s[0]]), PreOrder(s[1..]));
    }
  }

  /**
   The recursive HasReturn is the source's
   `any(isinstance(m, ast.Return) for m in ast.walk(n))`.
   */
  lemma HasReturnIsAnyOverWalk(n: Node)
    ensures HasReturn(n) <==> exists m :: m in Walk(n) && m.Return?
  {
    HasReturnIsReturnInSubtree(n);
    if HasReturn(n) {
      var i :| 0 <= i < |Subtree(n)| && Subtree(n)[i].Return?;
      WalkMembership(n, Subtree(n)[i]);
    }
    if m :| m in Walk(n) && m.Return? {
      WalkMembership(n, m);
    }
  }

  /**
   A Return anywhere below a function, a nested def's included, counts for
   it: a function whose subtree holds any Return is never reported.
   */
  lemma NestedReturnCounts(f: Node, m: Node)
    requires m in Subtree(f) && m.Return?
    ensures HasReturn(f) && !IsMissingReturn(f)
  {
    HasReturnIsReturnInSubtree(f);
    var i :| 0 <= i < |Subtree(f)| && Subtree(f)[i] == m;
  }
}

/**
 The part of Python's `ast` module the detector relies on: a closed sum
 type of syntax-tree nodes, `ast.iter_child_nodes` (Children) and
 `ast.walk` (Walk). Python's parser itself is not modelled; a tree is any
 value of type Node.
 */
module PyAst {

  /** The expression context a Name carries (`ast.Load()`, `ast.Store()`, `ast.Del()`). */
  datatype Ctx = Load | Store | Del

  /** The six statement classes whose `body` the detector inspects. */
  datatype BlockKind = FunctionDef(name: string) | ClassDef | If | For | While | With {
    /** `type(node).__name__` */
    function TypeName(): string {
      match this
      case FunctionDef(_) => "FunctionDef"
      case ClassDef => "ClassDef"
      case If => "If"
      case For => "For"
      case While => "While"
      case With => "With"
    }
  }

  /**
   One syntax-tree node. The fields of each variant are listed in the order
   `ast.iter_child_nodes` yields them:
   - Block: the children before `body` (a def's `arguments`, a class's bases
     and keywords, an if/while's test, a for's target and iter, a with's
     items), then `body`, then those after it (orelse, decorators,
     annotations);
   - Call: `func`, then the positional and keyword arguments;
   - Name: its context object, which `ast.walk` also yields;
   - Return: the returned value, if any;
   - ExprContext: the Load/Store/Del object itself, which has no children;
   - Other: every other node class (Module, Assign, Attribute, Pass,
     AsyncFunctionDef, ...), with its children in order.
   */
  datatype Node =
    | Block(kind: BlockKind, lineno: int, head: seq<Node>, body: seq<Node>, tail: seq<Node>)
    | Call(func: Node, lineno: int, args: seq<Node>)
    | Name(id: string, ctx: Ctx, lineno: int)
    | Return(lineno: int, value: seq<Node>)
    | ExprContext(ctx: Ctx)
    | Other(children: seq<Node>)

  /**
   `ast.iter_child_nodes(n)`, as a list: the roots of n's direct subtrees,
   which between them hold every node of n's tree but n itself.
   */
  function Children(n: Node): (r: seq<Node>)
    ensures SizeSeq(r) == Size(n) - 1
  {
    match n
    case Block(_, _, head, body, tail) =>
      SizeSeqAppend(head, body);
      SizeSeqAppend(head + body, tail);
      head + body + tail
    case Call(func, _, args) =>
      assert ([func] + args)[1..] == args;
      [func] + args
    case Name(_, ctx, _) =>
      assert [ExprContext(ctx)][1..] == [];
      [ExprContext(ctx)]
    case Return(_, value) => value
    case ExprContext(_) => []
    case Other(children) => children
  }

  /** Number of nodes in the tree rooted at n, n included. */
  function Size(n: Node): (r: nat)
    ensures r >= 1
    decreases n
  {
    match n
    case Block(_, _, head, body, tail) => 1 + SizeSeq(head) + SizeSeq(body) + SizeSeq(tail)
    case Call(func, _, args) => 1 + Size(func) + SizeSeq(args)
    case Name(_, _, _) => 2
    case Return(_, value) => 1 + SizeSeq(value)
    case ExprContext(_) => 1
    case Other(children) => 1 + SizeSeq(children)
  }

  function SizeSeq(s: seq<Node>): nat
    decreases s
  {
    if s == [] then 0 else Size(s[0]) + SizeSeq(s[1..])
  }

  lemma {:induction false} SizeSeqAppend(a: seq<Node>, b: seq<Node>)
    ensures SizeSeq(a + b) == SizeSeq(a) + SizeSeq(b)
  {
    if a == [] {
      assert a + b == b;
    } else {
      assert (a + b)[0] == a[0] && (a + b)[1..] == a[1..] + b;
      SizeSeqAppend(a[1..], b);
    }
  }

  // ---------------------------------------------------------------------
  // ast.walk: breadth-first, through a FIFO queue
  // ---------------------------------------------------------------------

  /**
   The nodes `ast.walk` yields once its queue holds `queue`: it takes the
   node at the front, appends that node's children at the back, and yields
   the node.
   */
  function WalkQueue(queue: seq<Node>): (r: seq<Node>)
    ensures |r| == SizeSeq(queue)
    ensures queue != [] ==> r[0] == queue[0]
    decreases SizeSeq(queue)
  {
    if queue == [] then []
    else
      var n := queue[0];
      SizeSeqAppend(queue[1..], Children(n));
      [n] + WalkQueue(queue[1..] + Children(n))
  }

  /** `ast.walk(tree)`: the queue starts with the tree's root alone. */
  function Walk(tree: Node): seq<Node> {
    WalkQueue([tree])
  }

  // ---------------------------------------------------------------------
  // Depth-first pre-order, through a LIFO stack: the reference order
  // ---------------------------------------------------------------------

  /** Pre-order of the trees in `stack`, left to right: a node, then its subtrees, then the next tree. */
  function PreOrder(stack: seq<Node>): (r: seq<Node>)
    ensures |r| == SizeSeq(stack)
    decreases SizeSeq(stack)
  {
    if stack == [] then []
    else
      var n := stack[0];
      SizeSeqAppend(Children(n), stack[1..]);
      [n] + PreOrder(Children(n) + stack[1..])
  }

  /** Every node of the tree rooted at n, n first, in depth-first pre-order. */
  function Subtree(n: Node): seq<Node> {
    PreOrder([n])
  }

  /** Pre-order of a forest is the pre-order of each tree in turn. */
  lemma {:induction false} PreOrderAppend(a: seq<Node>, b: seq<Node>)
    ensures PreOrder(a + b) == PreOrder(a) + PreOrder(b)
    decreases SizeSeq(a)
  {
    if a == [] {
      assert a + b == b;
    } else {
      var n := a[0];
      assert (a + b)[0] == n && (a + b)[1..] == a[1..] + b;
      assert Children(n) + (a + b)[1..] == (Children(n) + a[1..]) + b;
      SizeSeqAppend(Children(n), a[1..]);
      PreOrderAppend(Children(n) + a[1..], b);
    }
  }

  /** A node's subtree is the node followed by its children's subtrees. */
  lemma SubtreeUnfold(n: Node)
    ensures Subtree(n) == [n] + PreOrder(Children(n))
  {
    assert Children(n) + [n][1..] == Children(n);
  }

  /** The queue and the stack reach the same nodes, each as often. */
  lemma {:induction false} WalkQueueIsPermutation(queue: seq<Node>)
    ensures multiset(WalkQueue(queue)) == multiset(PreOrder(queue))
    decreases SizeSeq(queue)
  {
    if queue != [] {
      var n := queue[0];
      var rest := queue[1..];
      SizeSeqAppend(rest, Children(n));
      WalkQueueIsPermutation(rest + Children(n));
      PreOrderAppend(rest, Children(n));
      PreOrderAppend(Children(n), rest);
    }
  }

  /**
   `ast.walk(tree)` yields every node of the tree exactly once: as a
   multiset it is the tree's pre-order, it has one entry per node and it
   starts at the root.
   */
  lemma WalkVisitsEachNodeOnce(tree: Node)
    ensures multiset(Walk(tree)) == multiset(Subtree(tree))
    ensures |Walk(tree)| == Size(tree)
    ensures Walk(tree)[0] == tree
  {
    WalkQueueIsPermutation([tree]);
    assert SizeSeq([tree]) == Size(tree) + SizeSeq([tree][1..]);
    assert [tree][1..] == [];
  }

  lemma WalkMembership(tree: Node, m: Node)
    ensures m in Walk(tree) <==> m in Subtree(tree)
  {
    WalkVisitsEachNodeOnce(tree);
    assert m in Walk(tree) <==> m in multiset(Walk(tree));
    assert m in Subtree(tree) <==> m in multiset(Subtree(tree));
  }

  /**
   ast.walk is not a pre-order walk: under a root whose first child has a
   child of its own and whose second child is a leaf, the walk yields the
   leaf second child before the grandchild.
   */
  lemma WalkIsBreadthFirst()
    ensures var g := ExprContext(Store);
            var a := Other([g]);
            var b := ExprContext(Load);
            var t := Other([a, b]);
            Walk(t) == [t, a, b, g] && Subtree(t) == [t, a, g, b]
  {
    var g := ExprContext(Store);
    var a := Other([g]);
    var b := ExprContext(Load);
    var t := Other([a, b]);
    assert [t][1..] + Children(t) == [a, b];
    assert [a, b][1..] + Children(a) == [b, g];
    assert [b, g][1..] + Children(b) == [g];
    assert [g][1..] + Children(g) == [];
    assert WalkQueue([g]) == [g];
    assert WalkQueue([b, g]) == [b, g];
    assert WalkQueue([a, b]) == [a, b, g];
    assert Children(t) + [t][1..] == [a, b];
    assert Children(a) + [a, b][1..] == [g, b];
    assert Children(g) + [g, b][1..] == [b];
    assert Children(b) + [b][1..] == [];
    assert PreOrder([b]) == [b];
    assert PreOrder([g, b]) == [g, b];
    assert PreOrder([a, b]) == [a, g, b];
  }
}

/** The syntax tree of ast.c. A node is a value: its children are owned by it
    alone, so a tree is a datatype, and the statement chain that the C nodes
    form through their `next` pointers is a sequence of statement nodes. */
module Ast {
  import opened Wrappers

  /** The node kinds of the header, in declaration order. */
  datatype NodeKind =
    | Program | Print | Expression | Assignment | VarDeclaration | Literal
    | FloatLiteral | IntLiteral | StringLiteral | BinaryOp | BoolLiteral

  /** A node: its kind, its two children and its three string payloads; `None`
      stands for a NULL pointer, including the fields a constructor leaves
      unset. */
  datatype Node = Node(
    kind: NodeKind,
    left: Option<Node>,
    right: Option<Node>,
    varType: Option<string>,
    varName: Option<string>,
    value: Option<string>)

  /** The statement chain: the nodes reached from the head through `next`. */
  type Chain = seq<Node>

  /** `create_node`: the given kind, children and (copied) value; the variable
      fields are left unset. */
  function CreateNode(kind: NodeKind, left: Option<Node>, right: Option<Node>, value: Option<string>): (n: Node)
    ensures n.kind == kind && n.left == left && n.right == right && n.value == value
    ensures n.varType.None? && n.varName.None?
    ensures Size(n) == 1 + OptionSize(left) + OptionSize(right)
  {
    Node(kind, left, right, None, None, value)
  }

  /** `create_var_declaration_node`: a declaration whose left child is the
      initializer (possibly absent) and which has no right child. */
  function CreateVarDeclarationNode(varType: string, varName: string, init: Option<Node>): (n: Node)
    ensures n.kind == VarDeclaration && n.varType == Some(varType) && n.varName == Some(varName)
    ensures n.left == init && n.right.None? && n.value.None?
    ensures Size(n) == 1 + OptionSize(init)
  {
    Node(VarDeclaration, init, None, Some(varType), Some(varName), None)
  }

  /** `create_assignment_node`: an assignment whose left child is the value
      and which has no right child. */
  function CreateAssignmentNode(varName: string, value: Option<Node>): (n: Node)
    ensures n.kind == Assignment && n.varName == Some(varName) && n.varType.None?
    ensures n.left == value && n.right.None? && n.value.None?
    ensures Size(n) == 1 + OptionSize(value)
  {
    Node(Assignment, value, None, None, Some(varName), None)
  }

  // ----- ownership and release -----

  /** The number of nodes of a tree. */
  function Size(n: Node): nat
    decreases n, 1
  {
    1 + OptionSize(n.left) + OptionSize(n.right)
  }

  function OptionSize(n: Option<Node>): nat
    decreases n, 0
  {
    match n
    case None => 0
    case Some(m) => Size(m)
  }

  /** The nodes of a tree, each occurrence counted. */
  function Nodes(n: Node): multiset<Node>
    decreases n, 1
  {
    multiset{n} + OptionNodes(n.left) + OptionNodes(n.right)
  }

  function OptionNodes(n: Option<Node>): multiset<Node>
    decreases n, 0
  {
    match n
    case None => multiset{}
    case Some(m) => Nodes(m)
  }

  /** The nodes of a statement chain and of the trees hanging from it. */
  function ChainNodes(chain: Chain): multiset<Node>
  {
    if |chain| == 0 then multiset{} else Nodes(chain[0]) + ChainNodes(chain[1..])
  }

  /** The order in which `free_ast` releases the nodes of a tree: the left
      subtree, then the right subtree, then the node itself. */
  function FreeTree(n: Option<Node>): seq<Node>
  {
    match n
    case None => []
    case Some(m) => FreeTree(m.left) + FreeTree(m.right) + [m]
  }

  /** The order in which `free_ast`, called on the head of a statement chain,
      releases nodes: the head's subtrees, then the rest of the chain (through
      `next`), and the head last. */
  function FreeAst(chain: Chain): seq<Node>
  {
    if |chain| == 0 then []
    else FreeTree(chain[0].left) + FreeTree(chain[0].right) + FreeAst(chain[1..]) + [chain[0]]
  }

  /** Every node of a tree is released once and only once. */
  lemma {:induction false} FreeTreeReleasesEachNodeOnce(n: Option<Node>)
    ensures multiset(FreeTree(n)) == OptionNodes(n)
    ensures |FreeTree(n)| == OptionSize(n)
  {
    match n
    case None =>
    case Some(m) =>
      FreeTreeReleasesEachNodeOnce(m.left);
      FreeTreeReleasesEachNodeOnce(m.right);
  }

  /** Every node of the chain and of its trees is released once and only once,
      and the head of the chain is released last. */
  lemma {:induction false} FreeAstReleasesEachNodeOnce(chain: Chain)
    ensures multiset(FreeAst(chain)) == ChainNodes(chain)
    ensures |chain| > 0 ==> FreeAst(chain)[|FreeAst(chain)| - 1] == chain[0]
  {
    if |chain| > 0 {
      FreeTreeReleasesEachNodeOnce(chain[0].left);
      FreeTreeReleasesEachNodeOnce(chain[0].right);
      FreeAstReleasesEachNodeOnce(chain[1..]);
    }
  }

  /** In the release order `s`, the node at `i` ends a block that is exactly
      the release order of the tree rooted at it. */
  predicate EndsOwnTree(s: seq<Node>, i: nat)
    requires i < |s|
  {
    var k := |FreeTree(s[i].left)| + |FreeTree(s[i].right)|;
    i >= k && s[i - k..i + 1] == FreeTree(Some(s[i]))
  }

  /** A node is released only after every node below it: in the release order
      of a tree, each node comes right after the whole release order of its two
      subtrees. */
  lemma {:induction false} ChildrenReleasedFirst(n: Option<Node>, i: nat)
    requires i < |FreeTree(n)|
    ensures EndsOwnTree(FreeTree(n), i)
  {
    var m := n.value;
    var l, r := FreeTree(m.left), FreeTree(m.right);
    assert FreeTree(n) == l + (r + [m]);
    if i < |l| {
      ChildrenReleasedFirst(m.left, i);
      EndsOwnTreeInFront(l, r + [m], i);
    } else if i < |l| + |r| {
      ChildrenReleasedFirst(m.right, i - |l|);
      EndsOwnTreeInFront(r, [m], i - |l|);
      EndsOwnTreeInBack(l, r + [m], i);
    } else {
      EndsOwnTreeAtRoot(m, l, r, i);
    }
  }

  /** The root of a tree is released last, right after its subtrees. */
  lemma EndsOwnTreeAtRoot(m: Node, l: seq<Node>, r: seq<Node>, i: nat)
    requires l == FreeTree(m.left) && r == FreeTree(m.right) && i == |l| + |r|
    ensures EndsOwnTree(l + (r + [m]), i)
  {
    var s := l + (r + [m]);
    assert s[i] == m;
    assert s[0..i + 1] == s;
  }

  lemma EndsOwnTreeInFront(a: seq<Node>, b: seq<Node>, i: nat)
    requires i < |a| && EndsOwnTree(a, i)
    ensures EndsOwnTree(a + b, i)
  {
    var k := |FreeTree(a[i].left)| + |FreeTree(a[i].right)|;
    assert (a + b)[i - k..i + 1] == a[i - k..i + 1];
  }

  lemma EndsOwnTreeInBack(a: seq<Node>, b: seq<Node>, j: nat)
    requires |a| <= j < |a| + |b| && EndsOwnTree(b, j - |a|)
    ensures EndsOwnTree(a + b, j)
  {
    var i := j - |a|;
    var k := |FreeTree(b[i].left)| + |FreeTree(b[i].right)|;
    assert (a + b)[j - k..j + 1] == b[i - k..i + 1];
  }
}

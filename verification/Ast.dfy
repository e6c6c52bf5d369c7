/** The syntax tree of a template: the value it stands for (Tree), the shape the
    parser gives it, and the heap node (Node) that the C code builds and edits. */
module Ast {
  import opened Text

  datatype Kind = HtmlNode | CodeNode | VarNode | LoopNode | IfNode | ElseNode | StyleNode | RootNode

  datatype Tree = Tree(kind: Kind, content: string, children: seq<Tree>)

  predicate IsLeaf(k: Kind) {
    k.HtmlNode? || k.CodeNode? || k.VarNode?
  }

  /** Position of the last `celse` child, which is the one the code generators use. */
  function LastElse(cs: seq<Tree>): (r: Option<nat>)
    ensures r.Some? ==> r.value < |cs| && cs[r.value].kind == ElseNode
                        && forall i :: r.value < i < |cs| ==> cs[i].kind != ElseNode
    ensures r.None? ==> forall i :: 0 <= i < |cs| ==> cs[i].kind != ElseNode
  {
    if cs == [] then None
    else if cs[|cs| - 1].kind == ElseNode then Some(|cs| - 1)
    else LastElse(cs[..|cs| - 1])
  }

  /** The shape of every parsed tree: leaves have no children, and a `celse` occurs
      only as the single last child of a `cif`. */
  predicate Shaped(t: Tree) {
    match t.kind
    case HtmlNode => t.children == []
    case CodeNode => t.children == []
    case VarNode => t.children == []
    case ElseNode => false
    case IfNode =>
      if t.children != [] && t.children[|t.children| - 1].kind == ElseNode then
        var last := t.children[|t.children| - 1];
        last.content == "" && ShapedBody(t.children[..|t.children| - 1]) && ShapedBody(last.children)
      else ShapedBody(t.children)
    case _ => ShapedBody(t.children)
  }

  predicate ShapedBody(cs: seq<Tree>) {
    cs == [] || (!cs[0].kind.RootNode? && Shaped(cs[0]) && ShapedBody(cs[1..]))
  }

  /** Every text of the tree is a C string. */
  predicate CTree(t: Tree) {
    NUL !in t.content && CTrees(t.children)
  }

  predicate CTrees(cs: seq<Tree>) {
    cs != [] ==> CTree(cs[0]) && CTrees(cs[1..])
  }

  lemma {:induction false} ShapedBodyConcat(a: seq<Tree>, b: seq<Tree>)
    ensures ShapedBody(a + b) <==> ShapedBody(a) && ShapedBody(b)
  {
    if a == [] {
      assert a + b == b;
    } else {
      assert (a + b)[1..] == a[1..] + b;
      ShapedBodyConcat(a[1..], b);
    }
  }

  lemma {:induction false} ShapedBodyElements(cs: seq<Tree>, i: nat)
    requires ShapedBody(cs) && i < |cs|
    ensures Shaped(cs[i]) && !cs[i].kind.RootNode? && !cs[i].kind.ElseNode?
  {
    if i > 0 {
      ShapedBodyElements(cs[1..], i - 1);
    }
  }

  /** A node on the heap. `tree` is the value of the subtree, `Repr` its nodes. */
  class Node {
    const kind: Kind
    var content: string
    var children: seq<Node>
    ghost var tree: Tree
    ghost var Repr: set<Node>

    ghost predicate Valid()
      reads this, Repr
      decreases Repr
    {
      && this in Repr
      && (forall i {:trigger children[i]} :: 0 <= i < |children| ==>
            && children[i] in Repr && children[i].Repr < Repr && this !in children[i].Repr
            && children[i].Valid())
      && (forall i, j {:trigger children[i], children[j]} ::
            0 <= i < j < |children| ==> children[i].Repr !! children[j].Repr)
      && tree.kind == kind && tree.content == content && |tree.children| == |children|
      && forall i {:trigger children[i]} :: 0 <= i < |children| ==> tree.children[i] == children[i].tree
    }

    /** Valid, but child k may have another value than the tree says. */
    ghost predicate ValidBut(k: nat)
      reads this, Repr
      decreases Repr, 0
    {
      && this in Repr
      && (forall i {:trigger children[i]} :: 0 <= i < |children| ==>
            && children[i] in Repr && children[i].Repr < Repr && this !in children[i].Repr
            && children[i].Valid())
      && (forall i, j {:trigger children[i], children[j]} ::
            0 <= i < j < |children| ==> children[i].Repr !! children[j].Repr)
      && tree.kind == kind && tree.content == content && |tree.children| == |children|
      && forall i {:trigger children[i]} :: 0 <= i < |children| && i != k ==> tree.children[i] == children[i].tree
    }

    /** Child k has changed: the value of this node follows. */
    ghost method Refresh(k: nat)
      requires ValidBut(k) && k < |children|
      modifies this`tree
      ensures Valid()
      ensures tree == old(tree).(children := old(tree).children[k := children[k].tree])
    {
      tree := tree.(children := tree.children[k := children[k].tree]);
    }

    /** cweb_ast_node_create, followed by the copy of the token text. */
    constructor (kind: Kind, content: string)
      ensures Valid() && fresh(Repr) && tree == Tree(kind, content, []) && children == []
    {
      this.kind := kind;
      this.content := content;
      children := [];
      tree := Tree(kind, content, []);
      Repr := {this};
    }

    /** cweb_ast_node_add_child, when the allocation succeeds. */
    method AddChild(child: Node)
      requires Valid() && child.Valid() && child.Repr !! Repr
      modifies this
      ensures Valid()
      ensures children == old(children) + [child]
      ensures tree == old(tree).(children := old(tree).children + [child.tree])
      ensures Repr == old(Repr) + child.Repr
    {
      children := children + [child];
      tree := tree.(children := tree.children + [child.tree]);
      Repr := Repr + child.Repr;
    }
  }
}

/** The binary search tree of collected clues as the detective game keeps
    it: heap nodes (`PistaNode`) whose child pointers `inserirPista`
    rewrites in place. Each node carries, as ghost state, the set of nodes
    below it and the `ClueTree` value it represents, so that the methods
    here are proved against the functions of module ClueTrees. */
module ClueLedger {
  import opened StringOrder
  import opened SuspectLedger
  import opened ClueTrees

  class ClueNode {
    /** `pista`: fixed when the node is created. */
    const clue: string
    /** `esquerda` and `direita`. */
    var left: ClueNode?
    var right: ClueNode?
    /** The nodes of the subtree rooted here. */
    ghost var Repr: set<ClueNode>
    /** The clue tree this subtree represents. */
    ghost var Model: ClueTree

    /** A well-formed subtree: the two children own disjoint sets of nodes
        that do not contain this one, and the model is assembled from the
        children's models. */
    ghost predicate Valid()
      reads this, Repr
      decreases Repr
    {
      this in Repr &&
      (left != null ==>
        left in Repr && left.Repr <= Repr && this !in left.Repr && left.Valid()) &&
      (right != null ==>
        right in Repr && right.Repr <= Repr && this !in right.Repr && right.Valid()) &&
      (left != null && right != null ==> left.Repr !! right.Repr) &&
      Model == Node(ModelOf(left), clue, ModelOf(right))
    }

    /** `criarPistaNode`: a node with the clue and no children. */
    constructor (clue: string)
      ensures Valid() && Repr == {this}
      ensures this.clue == clue && left == null && right == null
      ensures Model == Node(Leaf, clue, Leaf)
    {
      this.clue := clue;
      left, right := null, null;
      Repr := {this};
      Model := Node(Leaf, clue, Leaf);
    }
  }

  /** The clue tree rooted at `n` (`NULL` is the empty tree). */
  ghost function ModelOf(n: ClueNode?): ClueTree
    reads n
  {
    if n == null then Leaf else n.Model
  }

  /** The nodes reachable from `n`. */
  ghost function NodesOf(n: ClueNode?): set<ClueNode>
    reads n
  {
    if n == null then {} else n.Repr
  }

  /** `inserirPista(raiz, conteudo)`: returns the root of the tree with the
      clue inserted. A non-empty tree keeps its root and is updated in place,
      only by new nodes; an empty one gets a fresh node. */
  method InsertClue(root: ClueNode?, c: string) returns (newRoot: ClueNode)
    requires root != null ==> root.Valid()
    modifies NodesOf(root)
    ensures newRoot.Valid()
    ensures newRoot.Model == Insert(old(ModelOf(root)), c)
    ensures root != null ==> newRoot == root
    ensures old(NodesOf(root)) <= newRoot.Repr
    ensures fresh(newRoot.Repr - old(NodesOf(root)))
    decreases NodesOf(root), 1
  {
    if root == null {
      newRoot := new ClueNode(c);
      return;
    }
    var comparison := Compare(c, root.clue);
    if comparison < 0 {
      InsertLeft(root, c);
    } else if comparison > 0 {
      InsertRight(root, c);
    }
    newRoot := root;
  }

  /** The branch of `inserirPista` for a clue below the node by `strcmp`:
      the left subtree is replaced by the result of inserting there. */
  method InsertLeft(node: ClueNode, c: string)
    requires node.Valid() && Compare(c, node.clue) < 0
    modifies node.Repr
    ensures node.Valid()
    ensures node.Model == Insert(old(node.Model), c)
    ensures old(node.Repr) <= node.Repr
    ensures fresh(node.Repr - old(node.Repr))
    decreases node.Repr, 0
  {
    var l := InsertClue(node.left, c);
    node.left := l;
    node.Repr := node.Repr + l.Repr;
    node.Model := Node(l.Model, node.clue, ModelOf(node.right));
  }

  /** The branch of `inserirPista` for a clue above the node by `strcmp`:
      the right subtree is replaced by the result of inserting there. */
  method InsertRight(node: ClueNode, c: string)
    requires node.Valid() && Compare(c, node.clue) > 0
    modifies node.Repr
    ensures node.Valid()
    ensures node.Model == Insert(old(node.Model), c)
    ensures old(node.Repr) <= node.Repr
    ensures fresh(node.Repr - old(node.Repr))
    decreases node.Repr, 0
  {
    var r := InsertClue(node.right, c);
    node.right := r;
    node.Repr := node.Repr + r.Repr;
    node.Model := Node(ModelOf(node.left), node.clue, r.Model);
  }

  /** `exibirPistas` without the printing: the clues met by an in-order walk.
      On a search tree they come out strictly increasing. */
  method ListClues(root: ClueNode?) returns (clues: seq<string>)
    requires root != null ==> root.Valid()
    ensures clues == InOrder(ModelOf(root))
    ensures IsSearchTree(ModelOf(root)) ==> StrictlyIncreasing(clues)
    decreases NodesOf(root)
  {
    if root == null {
      return [];
    }
    var l := ListClues(root.left);
    var r := ListClues(root.right);
    clues := l + [root.clue] + r;
    if IsSearchTree(ModelOf(root)) {
      InOrderIsSortedListing(ModelOf(root));
    }
  }

  /** `contarPistasParaSuspeito`: visits every node once, resolves its clue
      in the suspect table and counts the ones whose suspect is the accused. */
  method CountSupport(root: ClueNode?, table: SuspectTable, accused: string) returns (count: nat)
    requires root != null ==> root.Valid()
    requires table.Valid()
    ensures count == SupportCount(ModelOf(root), table.buckets[..], accused)
    decreases NodesOf(root)
  {
    if root == null {
      return 0;
    }
    assert root.Model == Node(ModelOf(root.left), root.clue, ModelOf(root.right));
    count := 0;
    var suspect := table.FindSuspect(root.clue);
    CompareZeroIffEqual(suspect, accused);
    if Compare(suspect, accused) == 0 {
      count := 1;
    }
    var l := CountSupport(root.left, table, accused);
    var r := CountSupport(root.right, table, accused);
    count := count + l + r;
  }
}

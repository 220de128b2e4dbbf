/** The value behind the detective game's binary search tree of collected
    clues (`PistaNode`): the shape of the tree, the insertion rule of
    `inserirPista`, the in-order listing of `exibirPistas` and the tally of
    `contarPistasParaSuspeito`, with their properties. The heap nodes that
    the game really mutates are in module ClueLedger; each of them carries
    one of these values as its model. */
module ClueTrees {
  import opened StringOrder
  import opened SuspectLedger

  datatype ClueTree = Leaf | Node(left: ClueTree, clue: string, right: ClueTree)

  /** The clues stored in a tree. */
  function Elements(t: ClueTree): set<string> {
    match t
    case Leaf => {}
    case Node(l, c, r) => Elements(l) + {c} + Elements(r)
  }

  /** The number of nodes. */
  function Size(t: ClueTree): nat {
    match t
    case Leaf => 0
    case Node(l, _, r) => Size(l) + 1 + Size(r)
  }

  /** The search-tree ordering: everything on the left of a node is smaller
      by `strcmp`, everything on the right is larger. */
  predicate IsSearchTree(t: ClueTree) {
    match t
    case Leaf => true
    case Node(l, c, r) =>
      IsSearchTree(l) && IsSearchTree(r) &&
      (forall x :: x in Elements(l) ==> Less(x, c)) &&
      (forall x :: x in Elements(r) ==> Less(c, x))
  }

  /** `inserirPista`: descend by `strcmp(c, node)`, left when negative, right
      when positive, and stop without change on an equal clue; an empty spot
      gets a new leaf node. The stored set grows by exactly `c`. */
  function Insert(t: ClueTree, c: string): (r: ClueTree)
    ensures Elements(r) == Elements(t) + {c}
  {
    match t
    case Leaf => Node(Leaf, c, Leaf)
    case Node(l, k, rt) =>
      var cmp := Compare(c, k);
      if cmp < 0 then Node(Insert(l, c), k, rt)
      else if cmp > 0 then Node(l, k, Insert(rt, c))
      else CompareZeroIffEqual(c, k); t
  }

  /** Insertion keeps the search-tree ordering. */
  lemma {:induction false} InsertKeepsOrder(t: ClueTree, c: string)
    requires IsSearchTree(t)
    ensures IsSearchTree(Insert(t, c))
  {
    match t
    case Leaf =>
    case Node(l, k, r) =>
      CompareFlips(c, k);
      if Compare(c, k) < 0 {
        InsertKeepsOrder(l, c);
      } else if Compare(c, k) > 0 {
        InsertKeepsOrder(r, c);
      }
  }

  /** Inserting a clue that is already stored changes nothing: the tree keeps
      no duplicates. */
  lemma {:induction false} InsertPresentIsNoOp(t: ClueTree, c: string)
    requires IsSearchTree(t) && c in Elements(t)
    ensures Insert(t, c) == t
  {
    match t
    case Leaf =>
    case Node(l, k, r) =>
      CompareFlips(c, k);
      CompareZeroIffEqual(c, k);
      Trichotomy(c, k);
      if Compare(c, k) < 0 {
        assert c !in Elements(r);
        InsertPresentIsNoOp(l, c);
      } else if Compare(c, k) > 0 {
        assert c !in Elements(l);
        InsertPresentIsNoOp(r, c);
      }
  }

  /** The clues in ascending order (`exibirPistas`: left subtree, node, right subtree). */
  function InOrder(t: ClueTree): (s: seq<string>)
    ensures |s| == Size(t)
  {
    match t
    case Leaf => []
    case Node(l, c, r) => InOrder(l) + [c] + InOrder(r)
  }

  predicate StrictlyIncreasing(s: seq<string>) {
    forall i, j :: 0 <= i < j < |s| ==> Less(s[i], s[j])
  }

  /** The in-order listing of a search tree is strictly increasing, so it has
      no duplicates, and it lists exactly the stored clues, one per node. */
  lemma {:induction false} InOrderIsSortedListing(t: ClueTree)
    requires IsSearchTree(t)
    ensures StrictlyIncreasing(InOrder(t))
    ensures |InOrder(t)| == Size(t)
    ensures forall x :: x in InOrder(t) <==> x in Elements(t)
  {
    match t
    case Leaf =>
    case Node(l, c, r) =>
      InOrderIsSortedListing(l);
      InOrderIsSortedListing(r);
      var sl, sr := InOrder(l), InOrder(r);
      var s := sl + [c] + sr;
      forall i, j | 0 <= i < j < |s| ensures Less(s[i], s[j]) {
        if j < |sl| {
        } else if i < |sl| && j == |sl| {
          assert s[i] == sl[i] && sl[i] in Elements(l);
        } else if i < |sl| {
          assert s[i] == sl[i] && sl[i] in Elements(l);
          assert s[j] == sr[j - |sl| - 1] && sr[j - |sl| - 1] in Elements(r);
          LessTransitive(s[i], c, s[j]);
        } else if i == |sl| {
          assert s[j] == sr[j - |sl| - 1] && sr[j - |sl| - 1] in Elements(r);
        } else {
          assert s[i] == sr[i - |sl| - 1] && s[j] == sr[j - |sl| - 1];
        }
      }
  }

  /** The root of a search tree separates its two subtrees: the three parts
      share no clue. */
  lemma SeparatedByRoot(l: ClueTree, c: string, r: ClueTree)
    requires IsSearchTree(Node(l, c, r))
    ensures c !in Elements(l) && c !in Elements(r)
    ensures Elements(l) !! Elements(r)
  {
    CompareZeroIffEqual(c, c);
    forall x | x in Elements(l) && x in Elements(r) ensures false {
      CompareFlips(x, c);
    }
  }

  /** A search tree holds as many distinct clues as it has nodes. */
  lemma {:induction false} SearchTreeHasNoDuplicates(t: ClueTree)
    requires IsSearchTree(t)
    ensures |Elements(t)| == Size(t)
  {
    match t
    case Leaf =>
    case Node(l, c, r) =>
      SearchTreeHasNoDuplicates(l);
      SearchTreeHasNoDuplicates(r);
      SeparatedByRoot(l, c, r);
  }

  /** `contarPistasParaSuspeito`: the number of nodes whose clue resolves, in
      the suspect table, to the accused. It is 0 on an empty tree and never
      more than the number of nodes. */
  function SupportCount(t: ClueTree, buckets: seq<seq<Association>>, accused: string): (n: nat)
    requires |buckets| == BucketCount
    ensures n <= Size(t)
    ensures t == Leaf ==> n == 0
  {
    match t
    case Leaf => 0
    case Node(l, c, r) =>
      (if Resolve(buckets, c) == accused then 1 else 0)
      + SupportCount(l, buckets, accused) + SupportCount(r, buckets, accused)
  }

  /** The distinct stored clues that point to the accused. */
  function Supporting(t: ClueTree, buckets: seq<seq<Association>>, accused: string): set<string>
    requires |buckets| == BucketCount
  {
    set c | c in Elements(t) && Resolve(buckets, c) == accused
  }

  lemma DisjointUnionSize(a: set<string>, b: set<string>, c: set<string>)
    requires a !! b && a !! c && b !! c
    ensures |a + b + c| == |a| + |b| + |c|
  {
    assert (a + b) !! c;
  }

  lemma SupportingSplits(l: ClueTree, c: string, r: ClueTree, buckets: seq<seq<Association>>, accused: string)
    requires |buckets| == BucketCount
    ensures Supporting(Node(l, c, r), buckets, accused)
         == Supporting(l, buckets, accused)
            + (if Resolve(buckets, c) == accused then {c} else {})
            + Supporting(r, buckets, accused)
  {
  }

  /** Below a search-tree node, the supporting clues of the two subtrees and
      the node's own clue are counted apart. */
  lemma SupportingPartition(l: ClueTree, c: string, r: ClueTree, buckets: seq<seq<Association>>, accused: string)
    requires |buckets| == BucketCount
    requires IsSearchTree(Node(l, c, r))
    ensures |Supporting(Node(l, c, r), buckets, accused)|
         == |Supporting(l, buckets, accused)| + (if Resolve(buckets, c) == accused then 1 else 0)
            + |Supporting(r, buckets, accused)|
  {
    SeparatedByRoot(l, c, r);
    var sl, sr := Supporting(l, buckets, accused), Supporting(r, buckets, accused);
    var here: set<string> := if Resolve(buckets, c) == accused then {c} else {};
    SupportingSplits(l, c, r, buckets, accused);
    assert sl <= Elements(l) && sr <= Elements(r);
    DisjointUnionSize(sl, here, sr);
  }

  /** On a search tree the tally counts each supporting clue exactly once. */
  lemma {:induction false} SupportCountIsDistinctClues(t: ClueTree, buckets: seq<seq<Association>>, accused: string)
    requires |buckets| == BucketCount
    requires IsSearchTree(t)
    ensures SupportCount(t, buckets, accused) == |Supporting(t, buckets, accused)|
  {
    match t
    case Leaf =>
      assert Supporting(t, buckets, accused) == {};
    case Node(l, c, r) =>
      SupportCountIsDistinctClues(l, buckets, accused);
      SupportCountIsDistinctClues(r, buckets, accused);
      SupportingPartition(l, c, r, buckets, accused);
  }
}

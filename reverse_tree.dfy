/**
 * The node type of the reverse (HFS+ to normal) dictionary, src/reverse_tree.rs.
 *
 * A node carries an optional composed character and an optional, exclusively
 * owned map to the nodes of the following characters.  Because `Node` is an
 * inductive datatype, every trie is a finite, acyclic tree.
 */
module ReverseTree {
  import opened Options

  datatype Node = Node(current: Option<char>, next: Option<map<char, Node>>)

  /** A level of the trie: the root (MAP_TO_NORMAL) or a `next` map. */
  type Dict = map<char, Node>

  /** `ReverseTreeNode::new`: the node stores exactly the two given parts. */
  function New(current: Option<char>, next: Option<Dict>): (n: Node)
    ensures n.current == current && n.next == next
    ensures forall m: Node :: m.current == current && m.next == next ==> m == n
  {
    Node(current, next)
  }

  /** The four shapes the composer tells apart. */
  datatype Shape =
    | Ambiguous  // a complete decomposition that a longer one extends
    | Prefix     // only a prefix of longer decompositions
    | Leaf       // a complete decomposition that nothing extends
    | Dead       // neither

  function ShapeOf(n: Node): (s: Shape)
    ensures s == Ambiguous <==> n.current.Some? && n.next.Some?
    ensures s == Prefix <==> n.current.None? && n.next.Some?
    ensures s == Leaf <==> n.current.Some? && n.next.None?
    ensures s == Dead <==> n.current.None? && n.next.None?
  {
    match (n.current, n.next)
    case (Some(_), Some(_)) => Ambiguous
    case (None, Some(_)) => Prefix
    case (Some(_), None) => Leaf
    case (None, None) => Dead
  }

  /** True when looking `c` up in `d` reaches a node that is not dead. */
  predicate IsLive(d: Dict, c: char)
  {
    c in d && ShapeOf(d[c]) != Dead
  }

  /**
   * The node reached by looking up `path[0]` in `root` and every later
   * character in the `next` map of the node before it; None when the walk
   * leaves the trie.  The walk consumes one character per level, so it
   * terminates for every input.
   */
  function Walk(root: Dict, path: seq<char>): Option<Node>
    requires path != []
    decreases |path|
  {
    if path[0] !in root then None
    else if |path| == 1 then Some(root[path[0]])
    else match root[path[0]].next
      case None => None
      case Some(sub) => Walk(sub, path[1..])
  }

  /**
   * The dictionary the composer consults after consuming `path` from the
   * root: the root itself for the empty path, the `next` map of the node
   * reached otherwise, and the empty map when there is none.
   */
  function Cursor(root: Dict, path: seq<char>): Dict
  {
    if path == [] then root
    else match Walk(root, path)
      case Some(Node(_, Some(sub))) => sub
      case _ => map[]
  }

  /** Walking one character further is a lookup in the cursor's dictionary. */
  lemma {:induction false} WalkExtends(root: Dict, path: seq<char>, c: char)
    ensures Walk(root, path + [c]) == if c in Cursor(root, path) then Some(Cursor(root, path)[c]) else None
    decreases |path|
  {
    if path != [] {
      assert (path + [c])[0] == path[0];
      if path[0] in root && |path| > 1 && root[path[0]].next.Some? {
        assert (path + [c])[1..] == path[1..] + [c];
        WalkExtends(root[path[0]].next.value, path[1..], c);
      }
    }
  }
}

/** The puzzle record built by `parseSGFData` in server/sgfParser.js, and its solution
    walker, which visits every node of every variation in preorder. */
module SgfParser {
  import opened JsValues
  import opened PuzzleFields

  /** One node as handed over by the SGF parser: its properties and, possibly, its children. */
  datatype Node = Node(props: Props, children: Children)

  /** A `nodes` or `children` property: undefined, or an array of nodes. */
  datatype Children = Undefined | Array(nodes: seq<Node>)

  /** The parser's result, as far as this code reads it: its `nodes` property. */
  datatype Game = Game(nodes: Children)

  /** The object `parseSGFData` returns. */
  datatype PuzzleRecord = PuzzleRecord(
    boardSize: Js, initialPosition: Position, solutionLines: seq<Entry>, title: Js, difficulty: string)

  const DefaultBoardSize: int := 19

  /** The children a node's walk descends into; none when `children` is undefined. */
  function Kids(n: Node): seq<Node>
  {
    if n.children.Array? then n.children.nodes else []
  }

  // ---------------------------------------------------------------------------
  // Specification of the walk

  /** What walking a sequence of sibling nodes pushes: each node's own entries, then the next sibling's. */
  function ForestEntries(f: seq<Node>): seq<Entry>
    decreases f
  {
    if f == [] then [] else NodeEntries(f[0]) + ForestEntries(f[1..])
  }

  /** What visiting one node pushes: its own entry, then everything below it. */
  function NodeEntries(n: Node): seq<Entry>
    decreases n
  {
    Emit(n.props) + (match n.children case Undefined => [] case Array(c) => ForestEntries(c))
  }

  /** The properties of every node of a sequence of siblings and their descendants, in preorder. */
  function Flatten(f: seq<Node>): (r: seq<Props>)
    ensures |r| == ForestSize(f)
    decreases f
  {
    if f == [] then [] else FlattenNode(f[0]) + Flatten(f[1..])
  }

  /** The properties of a node and its descendants, in preorder. */
  function FlattenNode(n: Node): (r: seq<Props>)
    ensures |r| == NodeSize(n)
    ensures r[0] == n.props
    decreases n
  {
    [n.props] + (match n.children case Undefined => [] case Array(c) => Flatten(c))
  }

  /** The number of nodes in a sequence of siblings, descendants included. */
  function ForestSize(f: seq<Node>): nat
    decreases f
  {
    if f == [] then 0 else NodeSize(f[0]) + ForestSize(f[1..])
  }

  /** The number of nodes in a subtree, its root included. */
  function NodeSize(n: Node): nat
    decreases n
  {
    1 + (match n.children case Undefined => 0 case Array(c) => ForestSize(c))
  }

  /** `m` is one of the nodes of `f` or one of their descendants. */
  ghost predicate InForest(m: Node, f: seq<Node>)
    decreases f
  {
    exists i :: 0 <= i < |f| && InNode(m, f[i])
  }

  /** `m` is `n` or one of its descendants. */
  ghost predicate InNode(m: Node, n: Node)
    decreases n
  {
    m == n || (n.children.Array? && InForest(m, n.children.nodes))
  }

  // ---------------------------------------------------------------------------
  // The walk as the source runs it

  /** `extractSolutionLines(game)`. */
  method ExtractSolutionLines(game: Option<Game>) returns (r: seq<Entry>)
    ensures game.None? || game.value.nodes.Undefined? || game.value.nodes.nodes == [] ==> r == []
    ensures game.Some? && game.value.nodes.Array? ==> r == ForestEntries(game.value.nodes.nodes)
  {
    if game.None? || game.value.nodes.Undefined? || |game.value.nodes.nodes| == 0 {
      return [];
    }
    r := Traverse(game.value.nodes.nodes, []);
    assert r == [] + ForestEntries(game.value.nodes.nodes) == ForestEntries(game.value.nodes.nodes);
  }

  /** The inner `traverse(nodes)`, with the shared `solution` array passed in and returned.
      Termination: the children of `nodes[i]` are part of `nodes[i]`, which is part of `Array(nodes)`. */
  method Traverse(nodes: seq<Node>, solution: seq<Entry>) returns (r: seq<Entry>)
    ensures r == solution + ForestEntries(nodes)
    decreases Array(nodes)
  {
    r := solution;
    var i := 0;
    while i < |nodes|
      invariant 0 <= i <= |nodes|
      invariant r == solution + ForestEntries(nodes[..i])
    {
      var node := nodes[i];
      ghost var before := r;
      if Truthy(Get(node.props, "B")) {
        r := r + [Entry(B, node.props["B"])];
      } else if Truthy(Get(node.props, "W")) {
        r := r + [Entry(W, node.props["W"])];
      }
      ghost var pushed := r;
      assert pushed == before + Emit(node.props);
      if node.children.Array? {
        r := Traverse(node.children.nodes, r);
      } else {
        assert r == pushed + [];
      }
      NodeEntriesSplit(node, before, pushed, r);
      ForestEntriesStep(nodes, i, solution, before, r);
      i := i + 1;
    }
    assert nodes[..i] == nodes;
  }

  // ---------------------------------------------------------------------------
  // The record

  /** `parseSGFData`, given the parser's result: the root is `game.nodes[0]`, which throws
      when `nodes` is undefined or empty; otherwise each field takes its `||` default. */
  method ParseSGFData(game: Game) returns (r: Result<PuzzleRecord, Fault>)
    ensures r.Err? <==> game.nodes.Undefined? || game.nodes.nodes == []
    ensures r.Ok? ==> Truthy(Some(r.value.boardSize))
    ensures r.Ok? ==> var root := game.nodes.nodes[0].props;
      (Truthy(Get(root, "SZ")) ==> Some(r.value.boardSize) == Get(root, "SZ")) &&
      (!Truthy(Get(root, "SZ")) ==> r.value.boardSize == JNum(DefaultBoardSize)) &&
      r.value.initialPosition == SetupOf(Some(root)) &&
      r.value.title == TitleOf(Some(root))
    ensures r.Ok? ==> r.value.solutionLines == ForestEntries(game.nodes.nodes) && r.value.difficulty == Difficulty
  {
    if game.nodes.Undefined? || |game.nodes.nodes| == 0 {
      // game.nodes[0] or rootNode.SZ reads a property of undefined
      return Err(TypeError);
    }
    var rootNode := game.nodes.nodes[0].props;
    var boardSize := Or(Get(rootNode, "SZ"), JNum(DefaultBoardSize));
    var initialPosition := SetupOf(Some(rootNode));
    var solutionLines := ExtractSolutionLines(Some(game));
    var title := TitleOf(Some(rootNode));
    r := Ok(PuzzleRecord(boardSize, initialPosition, solutionLines, title, Difficulty));
  }

  // ---------------------------------------------------------------------------
  // Properties of the walk

  /** A single node's walk is its own entry followed by its children's: a node precedes its
      descendants, and a node without a move adds nothing but is still walked through. */
  lemma SingleNode(n: Node)
    ensures ForestEntries([n]) == Emit(n.props) + ForestEntries(Kids(n))
    ensures !HasMove(n.props) ==> ForestEntries([n]) == ForestEntries(Kids(n))
  {
    assert [n][1..] == [];
    assert ForestEntries([n]) == NodeEntries(n) + [];
  }

  /** After a node's own push and its children's walk, the solution has grown by the node's entries. */
  lemma NodeEntriesSplit(n: Node, before: seq<Entry>, pushed: seq<Entry>, after: seq<Entry>)
    requires pushed == before + Emit(n.props)
    requires after == pushed + ForestEntries(Kids(n))
    ensures after == before + NodeEntries(n)
  {
    assert NodeEntries(n) == Emit(n.props) + ForestEntries(Kids(n));
  }

  /** Walking one more sibling appends that sibling's entries, so a solution holding the walk of
      the first `i` siblings holds the walk of the first `i + 1` once that sibling's entries are pushed. */
  lemma ForestEntriesStep(f: seq<Node>, i: nat, solution: seq<Entry>, before: seq<Entry>, after: seq<Entry>)
    requires i < |f|
    requires before == solution + ForestEntries(f[..i])
    requires after == before + NodeEntries(f[i])
    ensures ForestEntries(f[..i + 1]) == ForestEntries(f[..i]) + NodeEntries(f[i])
    ensures after == solution + ForestEntries(f[..i + 1])
  {
    assert f[..i + 1] == f[..i] + [f[i]];
    ForestEntriesAppend(f[..i], [f[i]]);
    assert [f[i]][1..] == [];
    assert ForestEntries([f[i]]) == NodeEntries(f[i]) + [];
  }

  /** An earlier sibling's whole subtree is walked before a later sibling's. */
  lemma {:induction false} ForestEntriesAppend(a: seq<Node>, b: seq<Node>)
    ensures ForestEntries(a + b) == ForestEntries(a) + ForestEntries(b)
  {
    if a == [] {
      assert a + b == b;
    } else {
      assert (a + b)[0] == a[0];
      assert (a + b)[1..] == a[1..] + b;
      ForestEntriesAppend(a[1..], b);
    }
  }

  /** The walk pushes the entries of all nodes, in preorder. */
  lemma {:induction false} ForestEntriesFlatten(f: seq<Node>)
    ensures ForestEntries(f) == EntriesOf(Flatten(f))
    decreases f
  {
    if f != [] {
      NodeEntriesFlatten(f[0]);
      ForestEntriesFlatten(f[1..]);
      EntriesOfAppend(FlattenNode(f[0]), Flatten(f[1..]));
    }
  }

  /** The same for one node and its descendants. */
  lemma {:induction false} NodeEntriesFlatten(n: Node)
    ensures NodeEntries(n) == EntriesOf(FlattenNode(n))
    decreases n
  {
    var below := Flatten(Kids(n));
    if n.children.Array? {
      ForestEntriesFlatten(n.children.nodes);
    }
    EntriesOfAppend([n.props], below);
    assert EntriesOf([n.props]) == Emit(n.props) + EntriesOf([]);
  }

  /** One entry per node with a truthy B or W, so never more entries than nodes. */
  lemma ForestEntriesLength(f: seq<Node>)
    ensures |ForestEntries(f)| == MoveCount(Flatten(f)) <= ForestSize(f)
  {
    ForestEntriesFlatten(f);
    EntriesOfLength(Flatten(f));
  }

  /** Every node of the forest, in any variation at any depth, is among the flattened nodes. */
  lemma {:induction false} FlattenContains(m: Node, f: seq<Node>)
    requires InForest(m, f)
    ensures m.props in Flatten(f)
    decreases f
  {
    var i :| 0 <= i < |f| && InNode(m, f[i]);
    FlattenNodeContains(m, f[i]);
    FlattenSplit(f, i);
  }

  lemma {:induction false} FlattenNodeContains(m: Node, n: Node)
    requires InNode(m, n)
    ensures m.props in FlattenNode(n)
    decreases n
  {
    if m != n {
      FlattenContains(m, n.children.nodes);
    }
  }

  /** `Flatten(f)` contains the flattening of each `f[i]`. */
  lemma {:induction false} FlattenSplit(f: seq<Node>, i: nat)
    requires i < |f|
    ensures forall p :: p in FlattenNode(f[i]) ==> p in Flatten(f)
  {
    if i > 0 {
      FlattenSplit(f[1..], i - 1);
    }
  }

  /** Conversely, every flattened entry is the properties of some node of the forest. */
  lemma {:induction false} FlattenSound(f: seq<Node>, k: nat)
    requires k < |Flatten(f)|
    ensures exists m :: InForest(m, f) && m.props == Flatten(f)[k]
    decreases f
  {
    var head := FlattenNode(f[0]);
    if k < |head| {
      FlattenNodeSound(f[0], k);
      var m :| InNode(m, f[0]) && m.props == head[k];
      assert InForest(m, f);
    } else {
      FlattenSound(f[1..], k - |head|);
      var m :| InForest(m, f[1..]) && m.props == Flatten(f[1..])[k - |head|];
      var j :| 0 <= j < |f[1..]| && InNode(m, f[1..][j]);
      assert InNode(m, f[j + 1]);
    }
  }

  lemma {:induction false} FlattenNodeSound(n: Node, k: nat)
    requires k < |FlattenNode(n)|
    ensures exists m :: InNode(m, n) && m.props == FlattenNode(n)[k]
    decreases n
  {
    if k == 0 {
      assert InNode(n, n);
    } else {
      FlattenSound(n.children.nodes, k - 1);
    }
  }

  /** Every node anywhere in the forest that carries a truthy B or W contributes its entry. */
  lemma VisitsEveryNode(m: Node, f: seq<Node>)
    requires InForest(m, f) && HasMove(m.props)
    ensures Emit(m.props)[0] in ForestEntries(f)
  {
    FlattenContains(m, f);
    ForestEntriesFlatten(f);
    var i :| 0 <= i < |Flatten(f)| && Flatten(f)[i] == m.props;
    EntriesOfComplete(Flatten(f), i);
  }

  /** Every entry is the unchanged B or W value of some node of the forest, with the matching color. */
  lemma EntryComesFromNode(f: seq<Node>, k: nat)
    requires k < |ForestEntries(f)|
    ensures exists m :: InForest(m, f) && Emit(m.props) == [ForestEntries(f)[k]]
  {
    ForestEntriesFlatten(f);
    EntriesOfSource(Flatten(f), k);
    var i :| 0 <= i < |Flatten(f)| && Emit(Flatten(f)[i]) == [ForestEntries(f)[k]];
    FlattenSound(f, i);
  }
}

/** The puzzle record built by the upload handler of server/server.js, and its
    solution walker, which follows only the first variation of the game tree and
    reads only the first node of every subtree it enters. */
module ServerPuzzle {
  import opened JsValues
  import opened PuzzleFields

  /** A game tree as handed over by the SGF parser: a sequence of nodes and,
      possibly, the variations that follow it. */
  datatype Tree = Tree(nodes: seq<Props>, children: Children)

  /** The `children` property: undefined, or an array of subtrees (the variations). */
  datatype Children = Undefined | Array(trees: seq<Tree>)

  /** The fields of `puzzleData` that are computed from the game tree (`metadata.difficulty` included). */
  datatype PuzzleData = PuzzleData(title: Js, initialPosition: Position, solutionLines: seq<Entry>, difficulty: string)

  // ---------------------------------------------------------------------------
  // Specification of the walk

  /** `node.children && node.children.length > 0`: the walk goes on into `children[0]`. */
  predicate Continues(t: Tree)
  {
    t.children.Array? && |t.children.trees| > 0
  }

  /** What `traverse(t)` pushes, in order, or the TypeError it raises when a
      visited subtree has no first node. */
  function Walk(t: Tree): Result<seq<Entry>, Fault>
  {
    if |t.nodes| == 0 then Err(TypeError)
    else if Continues(t) then
      match Walk(t.children.trees[0])
      case Ok(rest) => Ok(Emit(t.nodes[0]) + rest)
      case Err(e) => Err(e)
    else Ok(Emit(t.nodes[0]))
  }

  /** What `extractSolutionLines(tree)` returns or raises. */
  function SolutionLines(tree: Option<Tree>): Result<seq<Entry>, Fault>
  {
    if tree.None? || tree.value.children.Undefined? then Ok([])
    else if |tree.value.children.trees| == 0 then Err(TypeError)
    else Walk(tree.value.children.trees[0])
  }

  /** Every subtree on the first-variation path has a first node. */
  ghost predicate Walkable(t: Tree)
  {
    |t.nodes| > 0 && (Continues(t) ==> Walkable(t.children.trees[0]))
  }

  /** The number of subtrees on the first-variation path starting at `t`. */
  function Depth(t: Tree): (r: nat)
    ensures r >= 1
  {
    1 + (if Continues(t) then Depth(t.children.trees[0]) else 0)
  }

  /** The first node of every subtree on the first-variation path, from the root down. */
  ghost function FirstPath(t: Tree): (r: seq<Props>)
    requires Walkable(t)
    ensures |r| == Depth(t)
    ensures r[0] == t.nodes[0]
  {
    [t.nodes[0]] + (if Continues(t) then FirstPath(t.children.trees[0]) else [])
  }

  // ---------------------------------------------------------------------------
  // The walk as the source runs it

  /** `extractSolutionLines(tree)`. */
  method ExtractSolutionLines(tree: Option<Tree>) returns (r: Result<seq<Entry>, Fault>)
    ensures r == SolutionLines(tree)
    ensures tree.None? || tree.value.children.Undefined? ==> r == Ok([])
    ensures tree.Some? && tree.value.children == Array([]) ==> r == Err(TypeError)
  {
    if tree.None? || tree.value.children.Undefined? {
      return Ok([]);
    }
    var children := tree.value.children.trees;
    if |children| == 0 {
      // traverse(children[0]) reads a property of undefined
      return Err(TypeError);
    }
    r := Traverse(children[0], []);
    assert r.Ok? ==> r.value == [] + Walk(children[0]).value == Walk(children[0]).value;
  }

  /** The inner `traverse(node)`, with the shared `solution` array passed in and returned. */
  method Traverse(node: Tree, solution: seq<Entry>) returns (r: Result<seq<Entry>, Fault>)
    ensures r.Ok? <==> Walk(node).Ok?
    ensures r.Ok? ==> r.value == solution + Walk(node).value
    ensures r.Err? ==> r == Walk(node)
    decreases node
  {
    if |node.nodes| == 0 {
      // node.nodes[0] is undefined, and reading its B property throws
      return Err(TypeError);
    }
    var move := node.nodes[0];
    var pushed := solution;
    if Truthy(Get(move, "B")) {
      pushed := pushed + [Entry(B, move["B"])];
    } else if Truthy(Get(move, "W")) {
      pushed := pushed + [Entry(W, move["W"])];
    }
    if Continues(node) {
      r := Traverse(node.children.trees[0], pushed);
    } else {
      r := Ok(pushed);
    }
  }

  // ---------------------------------------------------------------------------
  // The puzzle record

  /** `game.tree?.nodes[0]`: the root node, when the tree exists and has a first node. */
  function RootProps(tree: Option<Tree>): (r: Option<Props>)
    ensures r.Some? <==> tree.Some? && |tree.value.nodes| > 0
    ensures r.Some? ==> r.value == tree.value.nodes[0]
  {
    if tree.Some? && |tree.value.nodes| > 0 then Some(tree.value.nodes[0]) else None
  }

  /** The computed part of `puzzleData`; a TypeError in the solution walk aborts the whole record. */
  method BuildPuzzleData(tree: Option<Tree>) returns (r: Result<PuzzleData, Fault>)
    ensures r.Ok? <==> SolutionLines(tree).Ok?
    ensures r.Ok? ==> r.value.title == TitleOf(RootProps(tree)) && r.value.initialPosition == SetupOf(RootProps(tree))
    ensures r.Ok? ==> r.value.solutionLines == SolutionLines(tree).value && r.value.difficulty == Difficulty
  {
    var root := RootProps(tree);
    var title := TitleOf(root);
    var position := SetupOf(root);
    var lines := ExtractSolutionLines(tree);
    match lines
    case Err(e) =>
      r := Err(e);
    case Ok(solution) =>
      r := Ok(PuzzleData(title, position, solution, Difficulty));
  }

  // ---------------------------------------------------------------------------
  // Properties of the walk

  /** The walk succeeds exactly when every subtree on the first-variation path has a first node. */
  lemma {:induction false} WalkOkIff(t: Tree)
    ensures Walk(t).Ok? <==> Walkable(t)
  {
    if |t.nodes| > 0 && Continues(t) {
      WalkOkIff(t.children.trees[0]);
    }
  }

  /** The walk pushes the entries of the first nodes on the first-variation path, root to leaf. */
  lemma {:induction false} WalkIsFirstPathEntries(t: Tree)
    requires Walkable(t)
    ensures Walk(t) == Ok(EntriesOf(FirstPath(t)))
  {
    var path := FirstPath(t);
    assert path[1..] == (if Continues(t) then FirstPath(t.children.trees[0]) else []);
    assert EntriesOf(path) == Emit(t.nodes[0]) + EntriesOf(path[1..]);
    if Continues(t) {
      WalkIsFirstPathEntries(t.children.trees[0]);
    } else {
      assert Walk(t) == Ok(Emit(t.nodes[0]));
      assert path[1..] == [];
      assert EntriesOf(path) == Emit(t.nodes[0]) + [] == Emit(t.nodes[0]);
    }
  }

  /** One entry per move-carrying first node on the path, so at most one per visited subtree. */
  lemma WalkLength(t: Tree)
    requires Walk(t).Ok?
    ensures Walkable(t)
    ensures |Walk(t).value| == MoveCount(FirstPath(t)) <= Depth(t)
  {
    WalkOkIff(t);
    WalkIsFirstPathEntries(t);
    EntriesOfLength(FirstPath(t));
  }

  /** Every entry is the unchanged B or W value of some first node on the path, B winning over W. */
  lemma WalkEntrySource(t: Tree, k: nat)
    requires Walk(t).Ok? && k < |Walk(t).value|
    ensures Walkable(t)
    ensures exists i :: 0 <= i < Depth(t) && Emit(FirstPath(t)[i]) == [Walk(t).value[k]]
  {
    WalkOkIff(t);
    WalkIsFirstPathEntries(t);
    EntriesOfSource(FirstPath(t), k);
  }

  /** The number of subtrees on the first-variation path below the root tree. */
  function PathBelow(tree: Option<Tree>): nat
  {
    if tree.None? || tree.value.children.Undefined? || |tree.value.children.trees| == 0 then 0
    else Depth(tree.value.children.trees[0])
  }

  /** The solution list is never longer than the first-variation path below the root. */
  lemma SolutionLinesLength(tree: Option<Tree>)
    requires SolutionLines(tree).Ok?
    ensures |SolutionLines(tree).value| <= PathBelow(tree)
  {
    if tree.Some? && Continues(tree.value) {
      WalkLength(tree.value.children.trees[0]);
    }
  }

  /** The walk fails exactly when the root's children array is empty or a visited subtree has no first node. */
  lemma SolutionLinesOkIff(tree: Option<Tree>)
    ensures SolutionLines(tree).Ok? <==>
      (tree.None? || tree.value.children.Undefined? ||
       (|tree.value.children.trees| > 0 && Walkable(tree.value.children.trees[0])))
  {
    if tree.Some? && Continues(tree.value) {
      WalkOkIff(tree.value.children.trees[0]);
    }
  }

  // ---------------------------------------------------------------------------
  // What the walk ignores

  /** `t` with `children[i]` of the subtree `depth` steps down the first-variation path replaced by `x`. */
  function ReplaceVariation(t: Tree, depth: nat, i: nat, x: Tree): Tree
  {
    if t.children.Undefined? then t
    else if depth == 0 then
      (if i < |t.children.trees| then Tree(t.nodes, Array(t.children.trees[i := x])) else t)
    else if |t.children.trees| == 0 then t
    else Tree(t.nodes, Array(t.children.trees[0 := ReplaceVariation(t.children.trees[0], depth - 1, i, x)]))
  }

  /** Changing any variation other than the first, at any depth, leaves the walk unchanged. */
  lemma {:induction false} WalkIgnoresLaterVariations(t: Tree, depth: nat, i: nat, x: Tree)
    requires i >= 1
    ensures Walk(ReplaceVariation(t, depth, i, x)) == Walk(t)
  {
    var t' := ReplaceVariation(t, depth, i, x);
    if Continues(t) {
      if depth == 0 {
        assert t'.children.trees[0] == t.children.trees[0];
      } else {
        WalkIgnoresLaterVariations(t.children.trees[0], depth - 1, i, x);
      }
    }
  }

  /** The same for the whole solution list, where depth 0 is the root tree's own variations. */
  lemma SolutionLinesIgnoreLaterVariations(tree: Tree, depth: nat, i: nat, x: Tree)
    requires i >= 1
    ensures SolutionLines(Some(ReplaceVariation(tree, depth, i, x))) == SolutionLines(Some(tree))
  {
    var t' := ReplaceVariation(tree, depth, i, x);
    if Continues(tree) {
      if depth == 0 {
        assert t'.children.trees[0] == tree.children.trees[0];
      } else {
        WalkIgnoresLaterVariations(tree.children.trees[0], depth - 1, i, x);
      }
    }
  }

  /** `t` with every node after the first of the subtree `depth` steps down the path replaced by `rest`. */
  function ReplaceLaterNodes(t: Tree, depth: nat, rest: seq<Props>): Tree
  {
    if depth == 0 then
      (if |t.nodes| > 0 then Tree([t.nodes[0]] + rest, t.children) else t)
    else if Continues(t) then
      Tree(t.nodes, Array(t.children.trees[0 := ReplaceLaterNodes(t.children.trees[0], depth - 1, rest)]))
    else t
  }

  /** Only the first node of a visited subtree is read: the nodes after it never matter. */
  lemma {:induction false} WalkIgnoresLaterNodes(t: Tree, depth: nat, rest: seq<Props>)
    ensures Walk(ReplaceLaterNodes(t, depth, rest)) == Walk(t)
  {
    if depth > 0 && |t.nodes| > 0 && Continues(t) {
      WalkIgnoresLaterNodes(t.children.trees[0], depth - 1, rest);
    }
  }

  /** The root tree's own nodes never contribute to the solution list. */
  lemma SolutionLinesIgnoreRootNodes(nodes: seq<Props>, other: seq<Props>, children: Children)
    ensures SolutionLines(Some(Tree(nodes, children))) == SolutionLines(Some(Tree(other, children)))
  {
  }
}

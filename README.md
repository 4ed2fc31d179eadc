# LearnGO puzzle records, modelled in Dafny

LearnGO's backend turns an uploaded SGF game record into a puzzle record. An external SGF
parser produces a game tree. Two pieces of code then read that tree:

- `server/server.js` builds `puzzleData`. It takes a title and the setup stones from the root
  node, with `||` defaults, and builds a solution line with `extractSolutionLines`. That walk
  follows only the first variation (`children[0]`) and reads only the first node of each
  subtree it enters.
- `server/sgfParser.js` has `parseSGFData`. It takes a board size, setup stones and a title
  from `game.nodes[0]`, again with `||` defaults. Its own `extractSolutionLines` walks every
  node of every variation in preorder.

The parser's output is an input datatype here. `Props` maps SGF property identifiers to
JavaScript values (`Js`: string, integer or array). `JsValues.Truthy` and `JsValues.Or` give the
meaning of `if (x)` and `x || d` on those values: the empty string and 0 are falsy, and every
array is truthy. A JavaScript TypeError (reading a property of `undefined`) is the error value
`Err(TypeError)`.

Each walk is a method with the shared `solution` array passed in and returned:
`ServerPuzzle.Traverse` recurses down the first variation, and `SgfParser.Traverse` loops over
siblings and recurses into children. Each is proved equal to a specification function
(`Walk`, `ForestEntries`). Lemmas about those functions then state:

- which nodes the walk reads and which it ignores;
- the order of the entries;
- B-over-W precedence;
- the length bounds;
- when the walk fails.

Property access is modelled by three helpers. `JsValues.Get` is `x.key`, and
`PuzzleFields.RootGet` is `root?.key`. They are used by `PuzzleFields.Emit`,
`PuzzleFields.TitleOf` and `PuzzleFields.SetupOf`. `ServerPuzzle.RootProps` is
`game.tree?.nodes[0]` and is used by `ServerPuzzle.BuildPuzzleData`. The promises about these
reads are stated by the members that use them.

Modules: `JsValues` (js_values.dfy), `PuzzleFields` (puzzle_fields.dfy; the code that both
source files share), `ServerPuzzle` (server_puzzle.dfy) and `SgfParser` (sgf_parser.dfy).

## Model

| member | source | states |
|---|---|---|
| JsValues.Or | server/server.js:33 | `v \|\| d` is `v` when `v` is truthy and `d` otherwise; with a truthy default the result is truthy |
| PuzzleFields.Emit | server/server.js:78-82 | a node adds at most one entry, and none exactly when B and W are both falsy. A truthy B gives `{B, value of B}` whatever W holds. A falsy B with a truthy W gives `{W, value of W}`. A W entry appears only when B is falsy, and carries W's value unchanged |
| PuzzleFields.MoveCount | server/server.js:78-82 | the number of move-carrying nodes never exceeds the number of nodes visited |
| PuzzleFields.EntriesOfAppend | server/server.js:78-86 | entries from nodes visited earlier come before entries from nodes visited later |
| PuzzleFields.EntriesOfLength | server/server.js:78-82 | one entry per move-carrying visited node, so at most one per node |
| PuzzleFields.EntriesOfSource | server/sgfParser.js:40-44 | every entry is exactly what some visited node emits: its B value with color B, or its W value with color W when B is falsy |
| PuzzleFields.EntriesOfComplete | server/sgfParser.js:40-44 | every visited node that carries a move has its entry in the output |
| PuzzleFields.TitleOf | server/server.js:33 | the title is the root's GN when truthy, otherwise 'Untitled Puzzle', and never falsy |
| PuzzleFields.SetupOf | server/server.js:34-37 | the setup stones are the root's AB and AW when truthy, otherwise empty arrays; neither is ever falsy |
| ServerPuzzle.Depth | server/server.js:84-86 | every walk visits at least one subtree |
| ServerPuzzle.FirstPath | server/server.js:77-86 | one first node per subtree on the first-variation path, starting with the subtree's own first node |
| ServerPuzzle.ExtractSolutionLines | server/server.js:70-91 | the result is the first-variation walk of `children[0]`. It is `[]` when the tree or its `children` is missing, and a TypeError when `children` is an empty array |
| ServerPuzzle.Traverse | server/server.js:76-87 | `traverse` appends the walk's entries after those already in `solution`. It fails exactly when the walk fails, and then the partial result is discarded |
| ServerPuzzle.BuildPuzzleData | server/server.js:31-40 | the record exists exactly when the solution walk succeeds. Its title and setup stones come from the root with defaults, its solution line is the walk, and its difficulty is 'Intermediate' |
| ServerPuzzle.WalkOkIff | server/server.js:76-89 | the walk succeeds if and only if every subtree on the first-variation path has a first node |
| ServerPuzzle.WalkIsFirstPathEntries | server/server.js:76-87 | the walk's output is the entries of the path's first nodes, in root-to-leaf order |
| ServerPuzzle.WalkLength | server/server.js:78-86 | the output length equals the number of move-carrying first nodes on the path, so it is at most the number of subtrees visited |
| ServerPuzzle.WalkEntrySource | server/server.js:78-82 | each entry is the unchanged B (or, when B is falsy, W) of some first node on the path, with the matching color |
| ServerPuzzle.SolutionLinesLength | server/server.js:70-91 | the solution line is no longer than the first-variation path below the root tree |
| ServerPuzzle.SolutionLinesOkIff | server/server.js:71-89 | the result is an error if and only if the root's `children` is an empty array or a visited subtree has no first node |
| ServerPuzzle.WalkIgnoresLaterVariations | server/server.js:84-86 | replacing `children[i]` for any i >= 1, at any depth on the path, leaves the walk unchanged |
| ServerPuzzle.SolutionLinesIgnoreLaterVariations | server/server.js:84-89 | the same holds for the whole solution line, the root tree's own variations included |
| ServerPuzzle.WalkIgnoresLaterNodes | server/server.js:77 | replacing the nodes after the first one, in any visited subtree, leaves the walk unchanged |
| ServerPuzzle.SolutionLinesIgnoreRootNodes | server/server.js:89 | the root tree's own nodes never affect the solution line |
| SgfParser.Flatten | server/sgfParser.js:38-48 | the preorder list of all nodes has one element per node of the forest |
| SgfParser.FlattenNode | server/sgfParser.js:39-47 | a subtree's preorder list has one element per node and starts with the subtree's root |
| SgfParser.ExtractSolutionLines | server/sgfParser.js:32-53 | the result is `[]` when the game, its `nodes`, or the nodes themselves are missing; otherwise it is the preorder walk of `game.nodes` |
| SgfParser.Traverse | server/sgfParser.js:38-49 | `traverse(nodes)` appends the preorder walk of the whole forest after the entries already in `solution` |
| SgfParser.ParseSGFData | server/sgfParser.js:4-29 | the call fails exactly when `game.nodes` is undefined or empty. Otherwise `boardSize` is the root's SZ when truthy, else 19, and is never falsy. Title and setup stones get their defaults, the solution line is the preorder walk, and difficulty is 'Intermediate' |
| SgfParser.SingleNode | server/sgfParser.js:40-47 | a node's entry comes before its descendants' entries. A node with no truthy B or W adds nothing, and its children are still walked |
| SgfParser.NodeEntriesSplit | server/sgfParser.js:40-47 | the node's own push, then its children's walk, add exactly that node's entries |
| SgfParser.ForestEntriesStep | server/sgfParser.js:39-48 | each `forEach` iteration appends that sibling's entries: a solution holding the walk of the first i siblings, extended by sibling i's entries, holds the walk of the first i + 1 |
| SgfParser.ForestEntriesAppend | server/sgfParser.js:39-48 | an earlier sibling's subtree is walked entirely before a later sibling's |
| SgfParser.ForestEntriesFlatten | server/sgfParser.js:38-51 | the walk's output is the entries of all nodes, in preorder |
| SgfParser.NodeEntriesFlatten | server/sgfParser.js:40-47 | one node's walk is the entries of it and its descendants, in preorder |
| SgfParser.ForestEntriesLength | server/sgfParser.js:40-44 | the output length equals the number of nodes with a truthy B or W, so it is at most the total node count |
| SgfParser.FlattenContains | server/sgfParser.js:38-51 | every node of the forest, in any variation at any depth, is visited |
| SgfParser.FlattenNodeContains | server/sgfParser.js:45-47 | every descendant of a node is visited when the node is |
| SgfParser.FlattenSplit | server/sgfParser.js:39 | each sibling's subtree is part of the forest's walk |
| SgfParser.FlattenSound | server/sgfParser.js:38-51 | every visited node is a node of the forest |
| SgfParser.FlattenNodeSound | server/sgfParser.js:45-47 | every node visited below a node is that node or one of its descendants |
| SgfParser.VisitsEveryNode | server/sgfParser.js:38-51 | every move-carrying node anywhere in the tree, root nodes and all variations included, has its entry in the output |
| SgfParser.EntryComesFromNode | server/sgfParser.js:40-44 | every entry is the unchanged B (or, when B is falsy, W) value of some node of the tree, with the matching color |

## Left out

- The HTTP layer of server/server.js is not modelled: the Express routes, `cors`, the `multer` upload, `fs.readFileSync`, `app.listen` and console logging. These are I/O. The `try`/`catch` that turns a failure into a 400 response is represented only by the `Err(TypeError)` result.
- The in-memory `puzzles` catalog is not modelled: the `id` numbering (`puzzles.length + 1`), the push into the catalog, and the lookup by id. This is server-side storage.
- `SmartGame.parse` is not modelled. It is an external library whose code is not part of this model. Its output is taken as the input datatypes (`ServerPuzzle.Tree`, `SgfParser.Game`), and an exception it raises is not modelled. `parseSGFData` therefore takes the parsed game instead of SGF text.
- src/App.jsx (the board rendering component) and vite.config.js (build configuration) are not modelled.
- Go rules are not modelled: captures, suicide, liberties, move history, and SGF coordinate decoding. None of them appear in the modelled code, which keeps moves as raw property values.
- Only strings, integers and arrays are modelled as JavaScript values. Booleans, objects, `null`, `NaN` and fractional numbers are not.
- The walks assume that a `children` or `nodes` property is either absent or an array. A truthy non-array value, which would make `forEach` or `.length` behave differently, is not modelled. A present but falsy `children` (such as `null`) is treated the same as an absent one.
- A server.js tree always has a `nodes` array here (`ServerPuzzle.Tree.nodes` is a sequence). A tree without `nodes` cannot be expressed. In the source such a tree throws a TypeError at server/server.js:33, because `?.` in `game.tree?.nodes[0]` guards only `tree`, and again at server/server.js:77 for a visited subtree.
- A `game` argument to `extractSolutionLines` is either missing or a parsed game. Other truthy values are not modelled.

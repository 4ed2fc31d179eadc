/** The parts of a puzzle record that server/server.js and server/sgfParser.js build
    the same way: the `{color, move}` records that both solution walkers push, the
    rule that decides what a single SGF node contributes (its `B` move if that is
    truthy, otherwise its `W` move if that is truthy, otherwise nothing), and the
    title and setup stones read from the root node with `||` defaults. */
module PuzzleFields {
  import opened JsValues

  /** The `color` field, 'B' or 'W'. */
  datatype Color = B | W

  /** One solution step: the color and the raw move property value, undecoded. */
  datatype Entry = Entry(color: Color, move: Js)

  /** What one node adds to the solution list. */
  function Emit(props: Props): (r: seq<Entry>)
    ensures |r| <= 1
    ensures r == [] <==> !Truthy(Get(props, "B")) && !Truthy(Get(props, "W"))
    ensures Truthy(Get(props, "B")) ==> r == [Entry(B, props["B"])]
    ensures !Truthy(Get(props, "B")) && Truthy(Get(props, "W")) ==> r == [Entry(W, props["W"])]
    ensures r != [] && r[0].color == W ==> !Truthy(Get(props, "B")) && r[0].move == props["W"]
  {
    if Truthy(Get(props, "B")) then [Entry(B, props["B"])]
    else if Truthy(Get(props, "W")) then [Entry(W, props["W"])]
    else []
  }

  /** A move-carrying node: one that contributes an entry. */
  predicate HasMove(props: Props)
  {
    Truthy(Get(props, "B")) || Truthy(Get(props, "W"))
  }

  /** The entries of a sequence of visited nodes, in visiting order. */
  function EntriesOf(path: seq<Props>): seq<Entry>
  {
    if path == [] then [] else Emit(path[0]) + EntriesOf(path[1..])
  }

  /** The number of move-carrying nodes in a sequence of visited nodes. */
  function MoveCount(path: seq<Props>): (r: nat)
    ensures r <= |path|
  {
    if path == [] then 0 else (if HasMove(path[0]) then 1 else 0) + MoveCount(path[1..])
  }

  /** Visiting one stretch of nodes and then another yields the first stretch's entries
      followed by the second's: the walk never reorders what it pushes. */
  lemma {:induction false} EntriesOfAppend(a: seq<Props>, b: seq<Props>)
    ensures EntriesOf(a + b) == EntriesOf(a) + EntriesOf(b)
  {
    if a == [] {
      assert a + b == b;
    } else {
      assert (a + b)[1..] == a[1..] + b;
      EntriesOfAppend(a[1..], b);
    }
  }

  /** Exactly one entry per move-carrying node, hence at most one per node. */
  lemma {:induction false} EntriesOfLength(path: seq<Props>)
    ensures |EntriesOf(path)| == MoveCount(path) <= |path|
  {
    if path != [] {
      EntriesOfLength(path[1..]);
    }
  }

  /** Every entry comes, unchanged and with the matching color, from some visited node,
      and B takes precedence over W at that node. */
  lemma {:induction false} EntriesOfSource(path: seq<Props>, k: nat)
    requires k < |EntriesOf(path)|
    ensures exists i :: 0 <= i < |path| && Emit(path[i]) == [EntriesOf(path)[k]]
  {
    var e := Emit(path[0]);
    if k < |e| {
      assert Emit(path[0]) == [EntriesOf(path)[k]];
    } else {
      EntriesOfSource(path[1..], k - |e|);
      var i :| 0 <= i < |path[1..]| && Emit(path[1..][i]) == [EntriesOf(path[1..])[k - |e|]];
      assert Emit(path[i + 1]) == [EntriesOf(path)[k]];
    }
  }

  /** Conversely, every move-carrying node that is visited shows up in the entries. */
  lemma {:induction false} EntriesOfComplete(path: seq<Props>, i: nat)
    requires i < |path| && HasMove(path[i])
    ensures Emit(path[i])[0] in EntriesOf(path)
  {
    if i > 0 {
      EntriesOfComplete(path[1..], i - 1);
      assert path[1..][i - 1] == path[i];
    }
  }

  // ---------------------------------------------------------------------------
  // Fields read from the root node

  const UntitledPuzzle: string := "Untitled Puzzle"
  const Difficulty: string := "Intermediate"

  /** The `initial_position` / `initialPosition` field: setup stones for each color. */
  datatype Position = Position(black: Js, white: Js)

  /** `root?.key`: undefined when there is no root node. */
  function RootGet(root: Option<Props>, key: string): (r: Option<Js>)
    ensures r.Some? <==> root.Some? && key in root.value
    ensures r.Some? ==> r.value == root.value[key]
  {
    if root.Some? then Get(root.value, key) else None
  }

  /** `root?.GN || 'Untitled Puzzle'`: the game name when truthy, and never falsy itself. */
  function TitleOf(root: Option<Props>): (r: Js)
    ensures Truthy(Some(r))
    ensures Truthy(RootGet(root, "GN")) ==> Some(r) == RootGet(root, "GN")
    ensures !Truthy(RootGet(root, "GN")) ==> r == JStr(UntitledPuzzle)
  {
    Or(RootGet(root, "GN"), JStr(UntitledPuzzle))
  }

  /** `{ B: root?.AB || [], W: root?.AW || [] }`: the setup stones of each color, an empty
      array when the property is falsy, and never falsy itself. */
  function SetupOf(root: Option<Props>): (r: Position)
    ensures Truthy(Some(r.black)) && Truthy(Some(r.white))
    ensures Truthy(RootGet(root, "AB")) ==> Some(r.black) == RootGet(root, "AB")
    ensures !Truthy(RootGet(root, "AB")) ==> r.black == JArr([])
    ensures Truthy(RootGet(root, "AW")) ==> Some(r.white) == RootGet(root, "AW")
    ensures !Truthy(RootGet(root, "AW")) ==> r.white == JArr([])
  {
    Position(Or(RootGet(root, "AB"), JArr([])), Or(RootGet(root, "AW"), JArr([])))
  }
}

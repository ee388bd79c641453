/**
 * parseMap: turns the ragged 2-D grid returned by the map endpoints into a
 * flat, row-major list of MapNode.
 */
module MapParser {
  import opened Wrappers
  import opened Text
  import opened Enums
  import opened Nodes

  /** A raw cell: null (or undefined), a string token, an object with a
      numeric `type` and optional `direction` / `color`, or anything else. */
  datatype RawCell =
    | Null
    | Str(token: string)
    | Obj(kind: int, direction: Option<string>, color: Option<string>)
    | Other

  /** Case-insensitive lookup of an attribute name in a kind's enum. */
  function Attribute(e: NumericEnum, name: string): Option<int> {
    Lookup(e, ToUpper(name))
  }

  /** The string form: `PREFIX_SOLOON`, `PREFIX_COMETH`, or a plain NodeType name. */
  function ParseToken(token: string): (int, Option<int>) {
    var parts := Split(token, '_');
    if |parts| == 2 then
      if parts[1] == "SOLOON" then (SOLOON, Attribute(SoloonColor, parts[0]))
      else if parts[1] == "COMETH" then (COMETH, Attribute(ComethDirection, parts[0]))
      else (SPACE, None)
    else
      (Lookup(NodeType, ToUpper(token)).GetOr(SPACE), None)
  }

  /** The object form's attribute: a non-empty `direction` wins over `color`. */
  function ObjectProp(direction: Option<string>, color: Option<string>): Option<int> {
    if direction.Some? && direction.value != "" then Attribute(ComethDirection, direction.value)
    else if color.Some? && color.value != "" then Attribute(SoloonColor, color.value)
    else None
  }

  function ParseCell(cell: RawCell, row: int, column: int): MapNode {
    match cell
    case Null => MapNode(SPACE, row, column, None)
    case Str(token) =>
      var (kind, prop) := ParseToken(token);
      MapNode(kind, row, column, prop)
    case Obj(kind, direction, color) => MapNode(kind, row, column, ObjectProp(direction, color))
    case Other => MapNode(SPACE, row, column, None)
  }

  /** The nodes of one raw row, in column order. */
  function RowNodes(cells: seq<RawCell>, row: int): (r: seq<MapNode>)
    ensures |r| == |cells|
  {
    seq(|cells|, c requires 0 <= c < |cells| => ParseCell(cells[c], row, c))
  }

  /** The nodes of the first n raw rows, row after row. */
  function GridNodes(raw: seq<seq<RawCell>>, n: nat): seq<MapNode>
    requires n <= |raw|
  {
    if n == 0 then [] else GridNodes(raw, n - 1) + RowNodes(raw[n - 1], n - 1)
  }

  /** Number of cells in the first n rows: the position of row n's first node. */
  function CellCount(raw: seq<seq<RawCell>>, n: nat): nat
    requires n <= |raw|
  {
    if n == 0 then 0 else CellCount(raw, n - 1) + |raw[n - 1]|
  }

  /** Strict row-major order of grid positions. */
  predicate Precedes(a: MapNode, b: MapNode) {
    a.row < b.row || (a.row == b.row && a.column < b.column)
  }

  /** A position that exists in the raw grid. */
  predicate OnGrid(raw: seq<seq<RawCell>>, node: MapNode) {
    0 <= node.row < |raw| && 0 <= node.column < |raw[node.row]|
  }

  method ParseMap(raw: seq<seq<RawCell>>) returns (nodes: seq<MapNode>)
    ensures nodes == GridNodes(raw, |raw|)
    ensures |nodes| == CellCount(raw, |raw|)
    ensures forall k :: 0 <= k < |nodes| ==> OnGrid(raw, nodes[k])
    ensures forall k, l :: 0 <= k < l < |nodes| ==> Precedes(nodes[k], nodes[l])
  {
    nodes := [];
    for row := 0 to |raw|
      invariant nodes == GridNodes(raw, row)
    {
      for col := 0 to |raw[row]|
        invariant nodes == GridNodes(raw, row) + RowNodes(raw[row], row)[..col]
      {
        var node := ParseCell(raw[row][col], row, col);
        nodes := nodes + [node];
      }
    }
    GridNodesLength(raw, |raw|);
    GridNodesRowMajor(raw, |raw|);
  }

  /** The node parseMap emits for raw cell (r, c) sits at offset
      CellCount(r) + c of the list and carries row r and column c. */
  lemma GridPositions(raw: seq<seq<RawCell>>, nodes: seq<MapNode>)
    requires nodes == GridNodes(raw, |raw|)
    ensures forall r :: 0 <= r < |raw| ==> CellCount(raw, r) + |raw[r]| <= |nodes|
    ensures forall r, c :: 0 <= r < |raw| && 0 <= c < |raw[r]| ==>
              nodes[CellCount(raw, r) + c] == ParseCell(raw[r][c], r, c)
  {
    GridRowBounds(raw, nodes);
    forall r, c | 0 <= r < |raw| && 0 <= c < |raw[r]|
      ensures nodes[CellCount(raw, r) + c] == ParseCell(raw[r][c], r, c)
    {
      GridNodesAt(raw, |raw|, r, c);
    }
  }

  /** Every raw row's nodes lie within the list parseMap emits. */
  lemma GridRowBounds(raw: seq<seq<RawCell>>, nodes: seq<MapNode>)
    requires nodes == GridNodes(raw, |raw|)
    ensures forall r :: 0 <= r < |raw| ==> CellCount(raw, r) + |raw[r]| <= |nodes|
  {
    GridNodesLength(raw, |raw|);
    forall r | 0 <= r < |raw|
      ensures CellCount(raw, r) + |raw[r]| <= |nodes|
    {
      CellCountMonotone(raw, r + 1, |raw|);
      assert CellCount(raw, r + 1) == CellCount(raw, r) + |raw[r]|;
    }
  }

  /** parseMap emits one node per raw cell, and the node for cell (r, c) sits
      at offset CellCount(r) + c with that cell's row and column. */
  lemma {:induction false} GridNodesAt(raw: seq<seq<RawCell>>, n: nat, r: nat, c: nat)
    requires n <= |raw| && r < n && c < |raw[r]|
    ensures |GridNodes(raw, n)| == CellCount(raw, n)
    ensures CellCount(raw, r) + c < CellCount(raw, n)
    ensures GridNodes(raw, n)[CellCount(raw, r) + c] == ParseCell(raw[r][c], r, c)
  {
    GridNodesLength(raw, n - 1);
    if r < n - 1 {
      GridNodesAt(raw, n - 1, r, c);
    }
  }

  lemma {:induction false} CellCountMonotone(raw: seq<seq<RawCell>>, m: nat, n: nat)
    requires m <= n <= |raw|
    ensures CellCount(raw, m) <= CellCount(raw, n)
  {
    if m < n {
      CellCountMonotone(raw, m, n - 1);
    }
  }

  lemma {:induction false} GridNodesLength(raw: seq<seq<RawCell>>, n: nat)
    requires n <= |raw|
    ensures |GridNodes(raw, n)| == CellCount(raw, n)
  {
    if n > 0 {
      GridNodesLength(raw, n - 1);
    }
  }

  /** The nodes of the first n rows lie on the grid, in rows below n, in
      strictly increasing row-major order: no gaps, no duplicates. */
  lemma {:induction false} GridNodesRowMajor(raw: seq<seq<RawCell>>, n: nat)
    requires n <= |raw|
    ensures forall k :: 0 <= k < |GridNodes(raw, n)| ==>
              OnGrid(raw, GridNodes(raw, n)[k]) && GridNodes(raw, n)[k].row < n
    ensures forall k, l :: 0 <= k < l < |GridNodes(raw, n)| ==>
              Precedes(GridNodes(raw, n)[k], GridNodes(raw, n)[l])
  {
    if n > 0 {
      GridNodesRowMajor(raw, n - 1);
      var prev, last := GridNodes(raw, n - 1), RowNodes(raw[n - 1], n - 1);
      var all := GridNodes(raw, n);
      assert all == prev + last;
      forall k, l | 0 <= k < l < |all|
        ensures Precedes(all[k], all[l])
      {
        if l < |prev| {
          assert all[k] == prev[k] && all[l] == prev[l];
        } else if k < |prev| {
          assert all[k] == prev[k] && all[l] == last[l - |prev|];
        } else {
          assert all[k] == last[k - |prev|] && all[l] == last[l - |prev|];
        }
      }
    }
  }

  /** A null cell is an empty grid position. */
  lemma NullCell(row: int, column: int)
    ensures ParseCell(Null, row, column) == MapNode(SPACE, row, column, None)
  {
  }

  /** A cell that is neither null, a string nor an object with a `type` is an
      empty grid position. */
  lemma OtherCell(row: int, column: int)
    ensures ParseCell(Other, row, column) == MapNode(SPACE, row, column, None)
  {
  }

  /** "<c>_SOLOON" is a SOLOON whose prop is the colour c names, read
      case-insensitively, and absent when c names no colour. */
  lemma SoloonToken(prefix: string)
    requires '_' !in prefix
    ensures ParseToken(prefix + "_SOLOON") == (SOLOON, Attribute(SoloonColor, prefix))
  {
    assert prefix + "_SOLOON" == prefix + ['_'] + "SOLOON";
    SplitPair(prefix, '_', "SOLOON");
  }

  /** "<d>_COMETH" is a COMETH whose prop is the direction d names, read
      case-insensitively, and absent when d names no direction. */
  lemma ComethToken(prefix: string)
    requires '_' !in prefix
    ensures ParseToken(prefix + "_COMETH") == (COMETH, Attribute(ComethDirection, prefix))
  {
    assert prefix + "_COMETH" == prefix + ['_'] + "COMETH";
    SplitPair(prefix, '_', "COMETH");
  }

  /** A two-part token whose suffix is not exactly "SOLOON" or "COMETH"
      (compared case-sensitively, so "red_soloon" too) is an empty position. */
  lemma UnknownSuffixToken(prefix: string, suffix: string)
    requires '_' !in prefix && '_' !in suffix
    requires suffix != "SOLOON" && suffix != "COMETH"
    ensures ParseToken(prefix + "_" + suffix) == (SPACE, None)
  {
    assert prefix + "_" + suffix == prefix + ['_'] + suffix;
    SplitPair(prefix, '_', suffix);
  }

  /** A token without an underscore is a NodeType name read case-insensitively,
      and an empty position when it names no node type. */
  lemma PlainToken(token: string)
    requires '_' !in token
    ensures ParseToken(token) == (Lookup(NodeType, ToUpper(token)).GetOr(SPACE), None)
  {
    SplitWhole(token, '_');
  }

  /** A token with two or more underscores is always an empty position. */
  lemma ManyPartToken(token: string)
    requires Count(token, '_') >= 2
    ensures ParseToken(token) == (SPACE, None)
  {
    SplitCount(token, '_');
    CountedSeparatorOccurs(token, '_');
    UpperKeepsUnderscore(token);
    NodeTypeNamesUnderscoreFree(ToUpper(token));
  }

  /** In the object form the kind is copied verbatim; a non-empty direction is
      read in preference to the colour, and an unrecognised name leaves the
      attribute absent. */
  lemma ObjectCell(kind: int, direction: Option<string>, color: Option<string>, row: int, column: int)
    ensures ParseCell(Obj(kind, direction, color), row, column).kind == kind
    ensures direction.Some? && direction.value != "" ==>
              ParseCell(Obj(kind, direction, color), row, column).prop == Attribute(ComethDirection, direction.value)
    ensures (direction.None? || direction.value == "") && color.Some? && color.value != "" ==>
              ParseCell(Obj(kind, direction, color), row, column).prop == Attribute(SoloonColor, color.value)
    ensures (direction.None? || direction.value == "") && (color.None? || color.value == "") ==>
              ParseCell(Obj(kind, direction, color), row, column).prop == None
  {
  }

  /** Every attribute parseMap records is a value of SoloonColor or ComethDirection
      (both 0 to 3), and every kind it derives from a string is a NodeType value. */
  lemma ParsedValuesInRange(cell: RawCell, row: int, column: int)
    ensures ParseCell(cell, row, column).prop.Some? ==> 0 <= ParseCell(cell, row, column).prop.value < 4
    ensures !cell.Obj? ==> SPACE <= ParseCell(cell, row, column).kind <= COMETH
  {
  }
}

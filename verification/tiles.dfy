/** The tile record and the abstract tile collection every provider implements. */
module Tiles {
  import opened Wrappers

  type Byte = x: int | 0 <= x < 0x100
  type Int16 = x: int | -0x8000 <= x < 0x8000
  type UInt16 = x: int | 0 <= x < 0x1_0000

  /**
   * The eight fields of one stored tile. `type` is a Dafny keyword, so the
   * tile-type field is called `tileType`.
   */
  datatype TileRecord = TileRecord(
    bTileHeader: Byte,
    bTileHeader2: Byte,
    bTileHeader3: Byte,
    frameX: Int16,
    frameY: Int16,
    liquid: Byte,
    tileType: UInt16,
    wall: UInt16)

  /** The all-zero record: the C# default value of the struct, an empty cell. */
  const Empty: TileRecord := TileRecord(0, 0, 0, 0, 0, 0, 0, 0)

  /** A world coordinate `(x, y)`. */
  type Coord = (int, int)

  const Origin: Coord := (0, 0)

  /**
   * An `ITileCollection` as the hot swap sees it: the world coordinates whose
   * indexer access succeeds, with the record each one holds. An access to any
   * other coordinate throws.
   */
  datatype TileCollection = TileCollection(
    cells: map<Coord, TileRecord>,
    disposable: bool,     // the provider implements IDisposable
    disposed: bool)       // Dispose has been called on it

  /** `collection[x, y]` read for a copy. */
  function Read(g: TileCollection, c: Coord): (r: Result<TileRecord>)
    ensures r.Ok? <==> c in g.cells
    ensures r.Ok? ==> r.value == g.cells[c]
  {
    if c in g.cells then Ok(g.cells[c]) else Err(IndexOutOfRange)
  }

  /** `collection[x, y] = t`; only the addressed cell changes. */
  function Write(g: TileCollection, c: Coord, t: TileRecord): (r: Result<TileCollection>)
    ensures r.Ok? <==> c in g.cells
    ensures r.Ok? ==> r.value.cells.Keys == g.cells.Keys && r.value.cells[c] == t
    ensures r.Ok? ==> forall d :: d in g.cells && d != c ==> r.value.cells[d] == g.cells[d]
    ensures r.Ok? ==> r.value.disposable == g.disposable && r.value.disposed == g.disposed
  {
    if c in g.cells then Ok(g.(cells := g.cells[c := t])) else Err(IndexOutOfRange)
  }
}

/**
 * `SetProvider` and `Initialize`: replacing the host's active tile collection
 * `Main.tile` with a new provider, copying the world across when the server is
 * running, all or nothing.
 */
module Swap {
  import opened Wrappers
  import opened Int32s
  import opened Tiles
  import opened Options
  import opened Providers
  import OneDimension

  /**
   * The host state the swap reads and writes: `Netplay.IsServerRunning`,
   * `Main.tile` (`None` for null) and the host extents `Main.maxTilesX` and `Main.maxTilesY`.
   */
  datatype Host = Host(serverRunning: bool, tile: Option<TileCollection>, maxTilesX: Int32, maxTilesY: Int32)

  /** `c` lies in the world the host iterates: `[0, width) x [0, height)`. */
  predicate InWorld(c: Coord, width: int, height: int) {
    0 <= c.0 < width && 0 <= c.1 < height
  }

  /** The copy visits `c` before `d`: column by column, each column from the top. */
  predicate Before(c: Coord, d: Coord) {
    c.0 < d.0 || (c.0 == d.0 && c.1 < d.1)
  }

  /** Both the read from the current collection and the write into the new one succeed at `c`. */
  predicate Copyable(current: TileCollection, provider: TileCollection, c: Coord) {
    c in current.cells && c in provider.cells
  }

  /** The copy runs when the server is running and a collection is installed. */
  predicate Copies(h: Host) {
    h.serverRunning && h.tile.Some?
  }

  /** Nothing in the migration throws: the touch of (0, 0) and every copy of the world. */
  ghost predicate CanMigrate(current: TileCollection, provider: TileCollection, width: int, height: int) {
    && Origin in provider.cells
    && forall c :: InWorld(c, width, height) ==> Copyable(current, provider, c)
  }

  /** The replaced collection after the swap: disposed if it is disposable. */
  function Release(g: TileCollection): (r: TileCollection)
    ensures r.cells == g.cells && r.disposable == g.disposable
    ensures r.disposed <==> g.disposed || g.disposable
  {
    if g.disposable then g.(disposed := true) else g
  }

  /** The cells already copied when the copy stands at column `x`, row `y`. */
  predicate Visited(c: Coord, x: int, y: int, height: int) {
    (0 <= c.0 < x && 0 <= c.1 < height) || (c.0 == x && 0 <= c.1 < y)
  }

  /** `provider[0, 0] = ClearTile(provider[0, 0])`: read cell (0, 0) and write it back cleared. */
  method Touch(provider: TileCollection, clear: TileRecord -> TileRecord) returns (r: Result<TileCollection>)
    ensures r.Ok? <==> Origin in provider.cells
    ensures r.Ok? ==> r.value.cells == provider.cells[Origin := clear(provider.cells[Origin])]
  {
    var got := Read(provider, Origin);
    if got.Err? {
      return Err(got.fault);
    }
    r := Write(provider, Origin, clear(got.value));
  }

  /** `target[x, y] = current[x, y]`: the read throws first, then the write. */
  method CopyCell(current: TileCollection, target: TileCollection, c: Coord) returns (r: Result<TileCollection>)
    ensures r.Ok? <==> c in current.cells && c in target.cells
    ensures r.Ok? ==> r.value.cells == target.cells[c := current.cells[c]]
  {
    var got := Read(current, c);
    if got.Err? {
      return Err(got.fault);
    }
    r := Write(target, c, got.value);
  }

  /**
   * `SetProvider`. When the server is running and a collection is installed, it
   * touches cell (0, 0) of the new provider (`clear` stands for `ClearTile`, which is
   * not part of this model) and copies every world cell into it; the first access
   * that throws makes it return `false` at once, with the host untouched and
   * `failedAt` the coordinate it reports. Otherwise the new provider becomes
   * `Main.tile`, the previous collection is disposed if it can be, and it returns `true`.
   * `previous` is the previously installed collection as the call leaves it.
   */
  method SetProvider(h: Host, provider: TileCollection, clear: TileRecord -> TileRecord)
    returns (ok: bool, h': Host, previous: Option<TileCollection>, failedAt: Coord)
    ensures ok <==> !Copies(h) || CanMigrate(h.tile.value, provider, h.maxTilesX, h.maxTilesY)
    ensures !ok ==> h' == h && previous == h.tile
    ensures !ok ==>
      || (failedAt == Origin && Origin !in provider.cells)
      || (&& Origin in provider.cells
          && InWorld(failedAt, h.maxTilesX, h.maxTilesY)
          && !Copyable(h.tile.value, provider, failedAt)
          && forall c :: InWorld(c, h.maxTilesX, h.maxTilesY) && Before(c, failedAt) ==> Copyable(h.tile.value, provider, c))
    ensures ok ==> h'.serverRunning == h.serverRunning && h'.maxTilesX == h.maxTilesX && h'.maxTilesY == h.maxTilesY
    ensures ok ==> previous == (if h.tile.Some? then Some(Release(h.tile.value)) else None)
    ensures ok ==> && h'.tile.Some?
                   && h'.tile.value.cells.Keys == provider.cells.Keys
                   && h'.tile.value.disposable == provider.disposable
                   && h'.tile.value.disposed == provider.disposed
    ensures ok && !Copies(h) ==> h'.tile == Some(provider)
    ensures ok && Copies(h) ==>
      forall c :: InWorld(c, h.maxTilesX, h.maxTilesY) ==> h'.tile.value.cells[c] == h.tile.value.cells[c]
    ensures ok && Copies(h) ==>
      forall c :: c in provider.cells && !InWorld(c, h.maxTilesX, h.maxTilesY) && c != Origin ==>
        h'.tile.value.cells[c] == provider.cells[c]
    ensures ok && Copies(h) && !InWorld(Origin, h.maxTilesX, h.maxTilesY) ==>
      h'.tile.value.cells[Origin] == clear(provider.cells[Origin])
  {
    failedAt := Origin;
    if !Copies(h) {
      ok := true;
      h' := h.(tile := Some(provider));
      previous := if h.tile.Some? then Some(Release(h.tile.value)) else None;
      return;
    }
    var current := h.tile.value;
    var width, height := h.maxTilesX, h.maxTilesY;
    var touch := Touch(provider, clear);
    if touch.Err? {
      return false, h, h.tile, Origin;
    }
    var touched := touch.value.cells;
    var copied, failed, cells := CopyWorld(current, provider.(cells := touched), width, height);
    if !copied {
      return false, h, h.tile, failed;
    }
    ok := true;
    h' := h.(tile := Some(provider.(cells := cells)));
    previous := Some(Release(current));
  }

  /**
   * The copy loop of `SetProvider`: `target[x, y] = current[x, y]` for every world
   * cell, column by column. It stops at the first cell where the read or the write
   * throws and reports it in `failedAt`; otherwise `cells` is `target` with the
   * world copied in and everything else kept.
   */
  method CopyWorld(current: TileCollection, target: TileCollection, width: int, height: int)
    returns (ok: bool, failedAt: Coord, cells: map<Coord, TileRecord>)
    ensures ok <==> forall c :: InWorld(c, width, height) ==> Copyable(current, target, c)
    ensures !ok ==>
      && InWorld(failedAt, width, height)
      && !Copyable(current, target, failedAt)
      && forall c :: InWorld(c, width, height) && Before(c, failedAt) ==> Copyable(current, target, c)
    ensures ok ==> cells.Keys == target.cells.Keys
    ensures ok ==> forall c :: InWorld(c, width, height) ==> cells[c] == current.cells[c]
    ensures ok ==> forall c :: c in target.cells && !InWorld(c, width, height) ==> cells[c] == target.cells[c]
  {
    failedAt := Origin;
    cells := target.cells;
    var x := 0;
    while x < width
      invariant 0 <= x && (x <= width || x == 0)
      invariant CopiedUpTo(current, target, cells, x, 0, height)
    {
      var column, y;
      column, y, cells := CopyColumn(current, target, cells, x, height);
      if !column {
        assert forall d :: InWorld(d, width, height) && Before(d, (x, y)) ==> Visited(d, x, y, height);
        return false, (x, y), cells;
      }
      x := x + 1;
    }
    assert forall c :: InWorld(c, width, height) ==> Visited(c, x, 0, height);
    ok := true;
  }

  /**
   * The copy stands at column `x`, row `y`: `cells` has the keys of `target`, holds
   * the record of `current` at every visited cell and that of `target` elsewhere.
   */
  ghost predicate CopiedUpTo(current: TileCollection, target: TileCollection, cells: map<Coord, TileRecord>, x: int, y: int, height: int) {
    && cells.Keys == target.cells.Keys
    && (forall c :: Visited(c, x, y, height) ==> c in current.cells && c in cells && cells[c] == current.cells[c])
    && (forall c :: c in cells && !Visited(c, x, y, height) ==> cells[c] == target.cells[c])
  }

  /** One column of the copy loop, from the top; `y` is the row it stops at when an access throws. */
  method CopyColumn(current: TileCollection, target: TileCollection, cells: map<Coord, TileRecord>, x: int, height: int)
    returns (ok: bool, y: int, cells': map<Coord, TileRecord>)
    requires 0 <= x && CopiedUpTo(current, target, cells, x, 0, height)
    ensures ok ==> CopiedUpTo(current, target, cells', x + 1, 0, height)
    ensures !ok ==> 0 <= y < height && !Copyable(current, target, (x, y)) && CopiedUpTo(current, target, cells', x, y, height)
  {
    cells' := cells;
    y := 0;
    while y < height
      invariant 0 <= y && (y <= height || y == 0)
      invariant CopiedUpTo(current, target, cells', x, y, height)
    {
      var put := CopyCell(current, target.(cells := cells'), (x, y));
      if put.Err? {
        return false, y, cells';
      }
      CopyStep(current, target, cells', x, y, height);
      cells' := put.value.cells;
      y := y + 1;
    }
    ColumnDone(current, target, cells', x, y, height);
    ok := true;
  }

  /** Copying the cell the loop stands at moves it on by one row. */
  lemma CopyStep(current: TileCollection, target: TileCollection, cells: map<Coord, TileRecord>, x: int, y: int, height: int)
    requires 0 <= x && 0 <= y < height && CopiedUpTo(current, target, cells, x, y, height)
    requires (x, y) in current.cells && (x, y) in cells
    ensures CopiedUpTo(current, target, cells[(x, y) := current.cells[(x, y)]], x, y + 1, height)
  {
  }

  /** A finished column is the start of the next. */
  lemma ColumnDone(current: TileCollection, target: TileCollection, cells: map<Coord, TileRecord>, x: int, y: int, height: int)
    requires 0 <= x && (y == height || (y == 0 && height <= 0)) && CopiedUpTo(current, target, cells, x, y, height)
    ensures CopiedUpTo(current, target, cells, x + 1, 0, height)
  {
    assert forall c :: Visited(c, x + 1, 0, height) <==> Visited(c, x, y, height);
  }

  /**
   * `Initialize`, after its hook registrations: the argument after `-tiled` is parsed
   * as a provider name; an unrecognised or missing name keeps the current backend,
   * a recognised one is built by `construct` and installed with `SetProvider`.
   */
  method Initialize(h: Host, args: seq<string>, construct: ProviderKind -> TileCollection, clear: TileRecord -> TileRecord)
    returns (h': Host, installed: bool)
    ensures ParseProviderName(TiledArgument(args)).None? ==> h' == h && !installed
    ensures ParseProviderName(TiledArgument(args)).Some? ==>
      var provider := construct(ParseProviderName(TiledArgument(args)).value);
      && (installed <==> !Copies(h) || CanMigrate(h.tile.value, provider, h.maxTilesX, h.maxTilesY))
      && (installed ==> && h'.serverRunning == h.serverRunning
                        && h'.maxTilesX == h.maxTilesX && h'.maxTilesY == h.maxTilesY
                        && h'.tile.Some?
                        && h'.tile.value.cells.Keys == provider.cells.Keys
                        && h'.tile.value.disposable == provider.disposable
                        && h'.tile.value.disposed == provider.disposed)
      && (installed && !Copies(h) ==> h'.tile == Some(provider))
      && (installed && Copies(h) ==>
            forall c :: InWorld(c, h.maxTilesX, h.maxTilesY) ==> h'.tile.value.cells[c] == h.tile.value.cells[c])
      && (installed && Copies(h) ==>
            forall c :: c in provider.cells && !InWorld(c, h.maxTilesX, h.maxTilesY) && c != Origin ==>
              h'.tile.value.cells[c] == provider.cells[c])
    ensures !installed ==> h' == h
  {
    var kind := ParseProviderName(TiledArgument(args));
    if kind.None? {
      return h, false;
    }
    var previous, failedAt;
    installed, h', previous, failedAt := SetProvider(h, construct(kind.value), clear);
  }

  /**
   * When its tile reference throws outside the extents, a one-dimensional provider
   * with a positive horizontal offset does not serve world cell (0, 0), so a swap
   * into it while the server runs always aborts at the touch.
   */
  lemma PositiveOffsetBlocksMigration(current: TileCollection, p: OneDimension.Provider, slot: OneDimension.Slot,
                                      offsetX: Int32, offsetY: Int32, width: int, height: int)
    requires OneDimension.ThrowsOutsideExtents(p, slot)
    requires offsetX > 0
    ensures !CanMigrate(current, OneDimension.AsCollection(p, slot, offsetX, offsetY), width, height)
  {
    OneDimension.PositiveOffsetExcludesOrigin(p, slot, offsetX, offsetY);
  }

  /**
   * With no offsets, the host extents that `OnPostLoadWorld` sets are the plugin's
   * own, and a freshly built one-dimensional provider serves all of that world: the
   * swap into it succeeds whenever the current collection serves the world too.
   */
  lemma FreshOneDimensionAcceptsWorld(c: Config, capacity: nat, slot: OneDimension.Slot, current: TileCollection)
    requires c.offsetX == 0 && c.offsetY == 0 && c.requiredOffsetX == 0 && c.requiredOffsetY == 0
    requires c.maxTilesX >= 0 && c.maxTilesY >= 0
    requires OneDimension.New(c.maxTilesX, c.maxTilesY, capacity).Ok?
    requires OneDimension.ValidSlot(slot, c.maxTilesX + 1, c.maxTilesY + 1)
    requires forall d :: InWorld(d, OnPostLoadWorld(c).0, OnPostLoadWorld(c).1) ==> d in current.cells
    ensures var p := OneDimension.New(c.maxTilesX, c.maxTilesY, capacity).value;
            CanMigrate(current, OneDimension.AsCollection(p, slot, c.offsetX, c.offsetY),
                       OnPostLoadWorld(c).0, OnPostLoadWorld(c).1)
  {
    var p := OneDimension.New(c.maxTilesX, c.maxTilesY, capacity).value;
    var (width, height) := OnPostLoadWorld(c);
    assert width == c.maxTilesX && height == c.maxTilesY;
    OneDimension.FreshView(c.maxTilesX, c.maxTilesY, capacity, slot, 0, 0);
    var view := OneDimension.View(p, slot, 0, 0);
    assert Origin in view;
    forall d | InWorld(d, width, height)
      ensures Copyable(current, OneDimension.AsCollection(p, slot, 0, 0), d)
    {
      var x: Int32, y: Int32 := d.0, d.1;
      assert (x, y) in view;
    }
  }
}

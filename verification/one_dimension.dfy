/**
 * `OneDimensionTileProvider`: every tile of the world in one flat array of
 * `Width * Height` records. The position of local cell `(x, y)` in that array is
 * computed by `OneDimensionTileReference`, which is not part of this model; it is
 * the parameter `slot`, of which only `ValidSlot` is known.
 */
module OneDimension {
  import opened Wrappers
  import opened Int32s
  import opened Tiles

  /** Where the tile reference places local cell `(x, y)` in the flat array. */
  type Slot = (int, int) -> int

  predicate InBounds(x: int, y: int, width: int, height: int) {
    0 <= x < width && 0 <= y < height
  }

  /** Every in-bounds local cell has its own position inside `[0, width * height)`. */
  ghost predicate ValidSlot(slot: Slot, width: int, height: int) {
    && (forall x, y :: InBounds(x, y, width, height) ==> 0 <= slot(x, y) < width * height)
    && (forall x1, y1, x2, y2 ::
          InBounds(x1, y1, width, height) && InBounds(x2, y2, width, height) && slot(x1, y1) == slot(x2, y2)
          ==> x1 == x2 && y1 == y2)
  }

  /** The provider: extents fixed at construction and the array, `None` once disposed. */
  datatype Provider = Provider(width: Int32, height: Int32, data: Option<seq<TileRecord>>)

  /** The array, while it exists, has one element per local cell. */
  predicate Valid(p: Provider) {
    p.data.Some? ==> |p.data.value| == p.width * p.height
  }

  predicate AllEmpty(s: seq<TileRecord>) {
    forall i :: 0 <= i < |s| ==> s[i] == Empty
  }

  // ---------------------------------------------------------------- construction

  /**
   * The constructor as written: the element count `(maxTilesX + 1) * (maxTilesY + 1)`
   * is computed in unchecked 32-bit arithmetic, a negative count throws, and the
   * array is allocated only if the runtime has room for `capacity` elements.
   */
  function NewAsWritten(maxTilesX: Int32, maxTilesY: Int32, capacity: nat): (r: Result<Provider>)
    ensures r.Ok? ==> r.value.width == Wrap(maxTilesX + 1) && r.value.height == Wrap(maxTilesY + 1)
    ensures r.Ok? <==> 0 <= Wrap(Wrap(maxTilesX + 1) * Wrap(maxTilesY + 1)) <= capacity
    ensures r.Err? ==> r.fault == (if Wrap(Wrap(maxTilesX + 1) * Wrap(maxTilesY + 1)) < 0 then Overflow else OutOfMemory)
    ensures r.Ok? ==> && r.value.data.Some?
                      && |r.value.data.value| == Wrap(r.value.width * r.value.height)
                      && (|r.value.data.value| - r.value.width * r.value.height) % Modulus == 0
                      && AllEmpty(r.value.data.value)
  {
    var width := Wrap(maxTilesX + 1);
    var height := Wrap(maxTilesY + 1);
    var n := Wrap(width * height);
    if n < 0 then Err(Overflow)
    else if n > capacity then Err(OutOfMemory)
    else Ok(Provider(width, height, Some(seq(n, _ => Empty))))
  }

  /**
   * With `maxTilesX = 65536` and `maxTilesY = 65535` the count 65537 * 65536 wraps
   * to 65536: the provider gets an array of 65536 elements for 4295032832 cells.
   */
  lemma NewAsWrittenLosesCells()
    ensures var r := NewAsWritten(65536, 65535, 65536);
            && r.Ok?
            && r.value.width == 65537 && r.value.height == 65536
            && |r.value.data.value| == 65536
            && !Valid(r.value)
  {
    assert Wrap(65537) == 65537;
    assert Wrap(65536) == 65536;
    assert 65537 * 65536 == 4295032832;
    assert (4295032832 - MinInt32) % Modulus == 2147549184;
    assert Wrap(4295032832) == 65536;
  }

  /** The count fits a C# `int` under checked arithmetic. */
  predicate CountFits(maxTilesX: int, maxTilesY: int) {
    InInt32(maxTilesX + 1) && InInt32(maxTilesY + 1) && 0 <= (maxTilesX + 1) * (maxTilesY + 1) <= MaxInt32
  }

  /**
   * The constructor with the element count computed in checked arithmetic: an
   * overflowing or negative count throws instead of wrapping.
   */
  function New(maxTilesX: Int32, maxTilesY: Int32, capacity: nat): (r: Result<Provider>)
    ensures r.Ok? <==> CountFits(maxTilesX, maxTilesY) && (maxTilesX + 1) * (maxTilesY + 1) <= capacity
    ensures r.Err? && !CountFits(maxTilesX, maxTilesY) ==> r.fault == Overflow
    ensures r.Ok? ==> r.value.width == maxTilesX + 1 && r.value.height == maxTilesY + 1
    ensures r.Ok? ==> Valid(r.value) && r.value.data.Some? && AllEmpty(r.value.data.value)
  {
    if !CountFits(maxTilesX, maxTilesY) then Err(Overflow)
    else
      var n := (maxTilesX + 1) * (maxTilesY + 1);
      if n > capacity then Err(OutOfMemory)
      else Ok(Provider(maxTilesX + 1, maxTilesY + 1, Some(seq(n, _ => Empty))))
  }

  /** Where the counts fit, the checked constructor builds what the unchecked one does. */
  lemma NewAgreesWhenCountFits(maxTilesX: Int32, maxTilesY: Int32, capacity: nat)
    requires CountFits(maxTilesX, maxTilesY)
    ensures New(maxTilesX, maxTilesY, capacity) == NewAsWritten(maxTilesX, maxTilesY, capacity)
  {
  }

  /** `Size`: the array length, which is the element count; reading it after disposal throws. */
  function Size(p: Provider): (r: Result<int>)
    ensures r.Err? <==> p.data.None?
    ensures r.Ok? ==> r.value == |p.data.value|
    ensures r.Ok? && Valid(p) ==> r.value == p.width * p.height
  {
    match p.data
    case Some(d) => Ok(|d|)
    case None => Err(NullReference)
  }

  // ---------------------------------------------------------------- indexer

  /** World coordinate to local coordinate: `world - offset` in unchecked 32-bit arithmetic. */
  function Local(world: Int32, offset: Int32): (r: Int32)
    ensures InInt32(world - offset) ==> r == world - offset
    ensures (r - (world - offset)) % Modulus == 0
  {
    Wrap(world - offset)
  }

  /**
   * The array element the tile reference for local cell `(lx, ly)` reaches: the
   * one at `slot(lx, ly)`. Reaching it throws when the array is gone or when that
   * position lies outside the array; the provider itself checks no extents, so a
   * local cell outside them is served whenever its position happens to fall inside
   * the array.
   */
  function Locate(p: Provider, slot: Slot, lx: int, ly: int): (r: Result<nat>)
    ensures r.Ok? <==> p.data.Some? && 0 <= slot(lx, ly) < |p.data.value|
    ensures r.Ok? ==> r.value == slot(lx, ly)
    ensures r.Err? ==> r.fault == if p.data.None? then NullReference else IndexOutOfRange
  {
    if p.data.None? then Err(NullReference)
    else if !(0 <= slot(lx, ly) < |p.data.value|) then Err(IndexOutOfRange)
    else Ok(slot(lx, ly))
  }

  /** The array position world cell `(x, y)` is sent to under the given offsets. */
  function Position(slot: Slot, offsetX: Int32, offsetY: Int32, x: Int32, y: Int32): int {
    slot(Local(x, offsetX), Local(y, offsetY))
  }

  /** The indexer's getter `this[x, y]`. */
  function Get(p: Provider, slot: Slot, offsetX: Int32, offsetY: Int32, x: Int32, y: Int32): (r: Result<TileRecord>)
    ensures r.Ok? <==> p.data.Some? && 0 <= Position(slot, offsetX, offsetY, x, y) < |p.data.value|
    ensures r.Ok? ==> r.value == p.data.value[Position(slot, offsetX, offsetY, x, y)]
  {
    match Locate(p, slot, Local(x, offsetX), Local(y, offsetY))
    case Ok(i) => Ok(p.data.value[i])
    case Err(f) => Err(f)
  }

  /** The indexer's setter `this[x, y] = t`: a field-wise copy into the addressed element. */
  function Set(p: Provider, slot: Slot, offsetX: Int32, offsetY: Int32, x: Int32, y: Int32, t: TileRecord): (r: Result<Provider>)
    ensures r.Ok? <==> Get(p, slot, offsetX, offsetY, x, y).Ok?
    ensures r.Ok? ==> r.value.width == p.width && r.value.height == p.height
    ensures r.Ok? ==> r.value.data.Some? && |r.value.data.value| == |p.data.value|
    ensures r.Ok? ==> Valid(p) ==> Valid(r.value)
  {
    match Locate(p, slot, Local(x, offsetX), Local(y, offsetY))
    case Ok(i) => Ok(p.(data := Some(p.data.value[i := t])))
    case Err(f) => Err(f)
  }

  /** Both accessors address local `(x - offsetX, y - offsetY)`, whatever the offsets are at that moment. */
  lemma AccessUsesCurrentOffsets(p: Provider, slot: Slot, offsetX: Int32, offsetY: Int32, x: Int32, y: Int32, t: TileRecord)
    ensures Get(p, slot, offsetX, offsetY, x, y) == Get(p, slot, 0, 0, Local(x, offsetX), Local(y, offsetY))
    ensures Set(p, slot, offsetX, offsetY, x, y, t) == Set(p, slot, 0, 0, Local(x, offsetX), Local(y, offsetY), t)
  {
  }

  /** A set followed by a get of the same world cell, under the same offsets, returns the record set. */
  lemma SetThenGet(p: Provider, slot: Slot, offsetX: Int32, offsetY: Int32, x: Int32, y: Int32, t: TileRecord)
    requires Set(p, slot, offsetX, offsetY, x, y, t).Ok?
    ensures Get(Set(p, slot, offsetX, offsetY, x, y, t).value, slot, offsetX, offsetY, x, y) == Ok(t)
  {
  }

  /** While the array exists, every world cell whose local coordinates lie inside the extents is served. */
  lemma InExtentsIsServed(p: Provider, slot: Slot, offsetX: Int32, offsetY: Int32, x: Int32, y: Int32)
    requires Valid(p) && ValidSlot(slot, p.width, p.height) && p.data.Some?
    requires InBounds(Local(x, offsetX), Local(y, offsetY), p.width, p.height)
    ensures Get(p, slot, offsetX, offsetY, x, y).Ok?
  {
  }

  /**
   * The hypothesis that the tile reference throws for every local cell outside the
   * extents, i.e. that `slot` sends each of them outside the array.
   */
  ghost predicate ThrowsOutsideExtents(p: Provider, slot: Slot) {
    p.data.Some? ==>
      forall lx, ly :: !InBounds(lx, ly, p.width, p.height) ==> !(0 <= slot(lx, ly) < |p.data.value|)
  }

  /** Under that hypothesis, a served world cell has its local coordinates inside the extents. */
  lemma ServedIsInExtents(p: Provider, slot: Slot, offsetX: Int32, offsetY: Int32, x: Int32, y: Int32)
    requires ThrowsOutsideExtents(p, slot)
    requires Get(p, slot, offsetX, offsetY, x, y).Ok?
    ensures InBounds(Local(x, offsetX), Local(y, offsetY), p.width, p.height)
  {
  }

  /** Subtracting an offset maps distinct 32-bit coordinates to distinct local ones. */
  lemma LocalInjective(a: Int32, b: Int32, offset: Int32)
    requires Local(a, offset) == Local(b, offset)
    ensures a == b
  {
    var d := (a - offset) - (b - offset);
    assert d == a - b;
    assert (Local(a, offset) - (a - offset)) % Modulus == 0;
    assert (Local(b, offset) - (b - offset)) % Modulus == 0;
    assert d % Modulus == 0 by {
      ModDifference(Local(a, offset) - (a - offset), Local(b, offset) - (b - offset));
    }
    assert -Modulus < d < Modulus;
  }

  lemma ModDifference(u: int, v: int)
    requires u % Modulus == 0 && v % Modulus == 0
    ensures (v - u) % Modulus == 0
  {
    var qu := u / Modulus;
    var qv := v / Modulus;
    assert u == qu * Modulus;
    assert v == qv * Modulus;
    assert v - u == (qv - qu) * Modulus;
  }

  /** Distinct world cells whose local coordinates both lie inside the extents never share an array position. */
  lemma InExtentsCellsDoNotAlias(p: Provider, slot: Slot, offsetX: Int32, offsetY: Int32, x: Int32, y: Int32, x2: Int32, y2: Int32)
    requires ValidSlot(slot, p.width, p.height)
    requires InBounds(Local(x, offsetX), Local(y, offsetY), p.width, p.height)
    requires InBounds(Local(x2, offsetX), Local(y2, offsetY), p.width, p.height)
    requires (x2, y2) != (x, y)
    ensures Position(slot, offsetX, offsetY, x2, y2) != Position(slot, offsetX, offsetY, x, y)
  {
    if Local(x, offsetX) == Local(x2, offsetX) && Local(y, offsetY) == Local(y2, offsetY) {
      LocalInjective(x, x2, offsetX);
      LocalInjective(y, y2, offsetY);
    }
  }

  /** A set leaves every world cell at another array position as it was. */
  lemma SetLeavesOtherPositions(p: Provider, slot: Slot, offsetX: Int32, offsetY: Int32, x: Int32, y: Int32, t: TileRecord, x2: Int32, y2: Int32)
    requires Set(p, slot, offsetX, offsetY, x, y, t).Ok?
    requires Position(slot, offsetX, offsetY, x2, y2) != Position(slot, offsetX, offsetY, x, y)
    ensures Get(Set(p, slot, offsetX, offsetY, x, y, t).value, slot, offsetX, offsetY, x2, y2)
         == Get(p, slot, offsetX, offsetY, x2, y2)
  {
  }

  /** A set leaves every other world cell inside the extents as it was. */
  lemma SetLeavesOthers(p: Provider, slot: Slot, offsetX: Int32, offsetY: Int32, x: Int32, y: Int32, t: TileRecord, x2: Int32, y2: Int32)
    requires ValidSlot(slot, p.width, p.height)
    requires Set(p, slot, offsetX, offsetY, x, y, t).Ok?
    requires InBounds(Local(x, offsetX), Local(y, offsetY), p.width, p.height)
    requires InBounds(Local(x2, offsetX), Local(y2, offsetY), p.width, p.height)
    requires (x2, y2) != (x, y)
    ensures Get(Set(p, slot, offsetX, offsetY, x, y, t).value, slot, offsetX, offsetY, x2, y2)
         == Get(p, slot, offsetX, offsetY, x2, y2)
  {
    InExtentsCellsDoNotAlias(p, slot, offsetX, offsetY, x, y, x2, y2);
    SetLeavesOtherPositions(p, slot, offsetX, offsetY, x, y, t, x2, y2);
  }

  // ---------------------------------------------------------------- the collection it presents

  /** The world cells the indexer serves, with their records, under the given offsets. */
  function View(p: Provider, slot: Slot, offsetX: Int32, offsetY: Int32): (m: map<Coord, TileRecord>)
    ensures forall c :: c in m ==> InInt32(c.0) && InInt32(c.1)
  {
    map x: int, y: int | MinInt32 <= x <= MaxInt32 && MinInt32 <= y <= MaxInt32 && Get(p, slot, offsetX, offsetY, x, y).Ok?
      :: (x, y) := Get(p, slot, offsetX, offsetY, x, y).value
  }

  /** A world cell is in the view exactly when the getter succeeds there, and holds what it returns. */
  lemma ViewAt(p: Provider, slot: Slot, offsetX: Int32, offsetY: Int32, x: Int32, y: Int32)
    ensures (x, y) in View(p, slot, offsetX, offsetY) <==> Get(p, slot, offsetX, offsetY, x, y).Ok?
    ensures (x, y) in View(p, slot, offsetX, offsetY) ==>
      View(p, slot, offsetX, offsetY)[(x, y)] == Get(p, slot, offsetX, offsetY, x, y).value
  {
  }

  /** The provider as an `ITileCollection`; it implements `IDisposable`, and counts as disposed once its array is gone. */
  function AsCollection(p: Provider, slot: Slot, offsetX: Int32, offsetY: Int32): (g: TileCollection)
    ensures g.disposable
    ensures g.disposed <==> p.data.None?
    ensures g.disposed ==> g.cells == map[]
    ensures forall c :: c in g.cells ==> InInt32(c.0) && InInt32(c.1)
  {
    TileCollection(View(p, slot, offsetX, offsetY), true, p.data.None?)
  }

  /**
   * One world cell of the view after a set: it is served exactly when it was, and
   * holds the record set when it shares the addressed array position, its old
   * record otherwise.
   */
  lemma ViewCellAfterSet(p: Provider, slot: Slot, offsetX: Int32, offsetY: Int32, x: Int32, y: Int32, t: TileRecord, x2: Int32, y2: Int32)
    requires Set(p, slot, offsetX, offsetY, x, y, t).Ok?
    ensures var before := View(p, slot, offsetX, offsetY);
            var after := View(Set(p, slot, offsetX, offsetY, x, y, t).value, slot, offsetX, offsetY);
            ((x2, y2) in after <==> (x2, y2) in before)
            && ((x2, y2) in after ==>
                  after[(x2, y2)] == if Position(slot, offsetX, offsetY, x2, y2) == Position(slot, offsetX, offsetY, x, y)
                                     then t else before[(x2, y2)])
  {
    var q := Set(p, slot, offsetX, offsetY, x, y, t).value;
    ViewAt(p, slot, offsetX, offsetY, x2, y2);
    ViewAt(q, slot, offsetX, offsetY, x2, y2);
    if Position(slot, offsetX, offsetY, x2, y2) != Position(slot, offsetX, offsetY, x, y) {
      SetLeavesOtherPositions(p, slot, offsetX, offsetY, x, y, t, x2, y2);
    }
  }

  /**
   * A set through the indexer succeeds exactly when the cell is served, keeps the
   * served cells, and writes the record into every served cell that shares the
   * addressed array position, leaving all others as they were.
   */
  lemma SetIsWrite(p: Provider, slot: Slot, offsetX: Int32, offsetY: Int32, x: Int32, y: Int32, t: TileRecord)
    ensures Set(p, slot, offsetX, offsetY, x, y, t).Ok? <==> (x, y) in View(p, slot, offsetX, offsetY)
    ensures Set(p, slot, offsetX, offsetY, x, y, t).Ok? ==>
      var before := View(p, slot, offsetX, offsetY);
      var after := View(Set(p, slot, offsetX, offsetY, x, y, t).value, slot, offsetX, offsetY);
      && after.Keys == before.Keys
      && forall c :: c in after ==>
           after[c] == if Position(slot, offsetX, offsetY, c.0, c.1) == Position(slot, offsetX, offsetY, x, y)
                       then t else before[c]
  {
    ViewAt(p, slot, offsetX, offsetY, x, y);
    var r := Set(p, slot, offsetX, offsetY, x, y, t);
    if r.Ok? {
      var before := View(p, slot, offsetX, offsetY);
      var after := View(r.value, slot, offsetX, offsetY);
      forall c | c in after || c in before
        ensures c in after && c in before
        ensures after[c] == if Position(slot, offsetX, offsetY, c.0, c.1) == Position(slot, offsetX, offsetY, x, y)
                            then t else before[c]
      {
        assert InInt32(c.0) && InInt32(c.1);
        ViewCellAfterSet(p, slot, offsetX, offsetY, x, y, t, c.0, c.1);
      }
    }
  }

  /**
   * When the tile reference throws outside the extents, a set through the indexer
   * is a write of exactly the one cell of the collection.
   */
  lemma SetWritesOneCell(p: Provider, slot: Slot, offsetX: Int32, offsetY: Int32, x: Int32, y: Int32, t: TileRecord)
    requires ValidSlot(slot, p.width, p.height) && ThrowsOutsideExtents(p, slot)
    requires Set(p, slot, offsetX, offsetY, x, y, t).Ok?
    ensures View(Set(p, slot, offsetX, offsetY, x, y, t).value, slot, offsetX, offsetY)
         == View(p, slot, offsetX, offsetY)[(x, y) := t]
  {
    var before := View(p, slot, offsetX, offsetY);
    var after := View(Set(p, slot, offsetX, offsetY, x, y, t).value, slot, offsetX, offsetY);
    SetIsWrite(p, slot, offsetX, offsetY, x, y, t);
    ViewAt(p, slot, offsetX, offsetY, x, y);
    forall c | c in after && c != (x, y)
      ensures Position(slot, offsetX, offsetY, c.0, c.1) != Position(slot, offsetX, offsetY, x, y)
    {
      ServedCellsDoNotAlias(p, slot, offsetX, offsetY, x, y, c.0, c.1);
    }
    UpdateOfOneKey(before, after, (x, y), t);
  }

  /**
   * Under the same hypothesis, the indexer's setter is exactly a `Tiles.Write` of
   * the collection the provider presents: it fails where that write fails, and
   * otherwise yields the collection that write yields.
   */
  lemma SetIsCollectionWrite(p: Provider, slot: Slot, offsetX: Int32, offsetY: Int32, x: Int32, y: Int32, t: TileRecord)
    requires ValidSlot(slot, p.width, p.height) && ThrowsOutsideExtents(p, slot)
    ensures Set(p, slot, offsetX, offsetY, x, y, t).Ok? <==> Write(AsCollection(p, slot, offsetX, offsetY), (x, y), t).Ok?
    ensures Set(p, slot, offsetX, offsetY, x, y, t).Ok? ==>
      AsCollection(Set(p, slot, offsetX, offsetY, x, y, t).value, slot, offsetX, offsetY)
        == Write(AsCollection(p, slot, offsetX, offsetY), (x, y), t).value
  {
    SetIsWrite(p, slot, offsetX, offsetY, x, y, t);
    if Set(p, slot, offsetX, offsetY, x, y, t).Ok? {
      SetWritesOneCell(p, slot, offsetX, offsetY, x, y, t);
    }
  }

  /** A map with the same keys that differs from `m` only at key `k`, where it holds `v`, is `m[k := v]`. */
  lemma UpdateOfOneKey(m: map<Coord, TileRecord>, m': map<Coord, TileRecord>, k: Coord, v: TileRecord)
    requires k in m && m'.Keys == m.Keys && m'[k] == v
    requires forall c :: c in m' && c != k ==> m'[c] == m[c]
    ensures m' == m[k := v]
  {
  }

  /** Under the same hypothesis, distinct served world cells never share an array position. */
  lemma ServedCellsDoNotAlias(p: Provider, slot: Slot, offsetX: Int32, offsetY: Int32, x: Int32, y: Int32, x2: Int32, y2: Int32)
    requires ValidSlot(slot, p.width, p.height) && ThrowsOutsideExtents(p, slot)
    requires (x, y) in View(p, slot, offsetX, offsetY) && (x2, y2) in View(p, slot, offsetX, offsetY)
    requires (x2, y2) != (x, y)
    ensures Position(slot, offsetX, offsetY, x2, y2) != Position(slot, offsetX, offsetY, x, y)
  {
    ViewAt(p, slot, offsetX, offsetY, x, y);
    ViewAt(p, slot, offsetX, offsetY, x2, y2);
    ServedIsInExtents(p, slot, offsetX, offsetY, x, y);
    ServedIsInExtents(p, slot, offsetX, offsetY, x2, y2);
    InExtentsCellsDoNotAlias(p, slot, offsetX, offsetY, x, y, x2, y2);
  }

  /**
   * A freshly constructed provider serves every world cell whose local coordinates
   * lie inside its extents, and every cell it serves is empty; when the tile
   * reference throws outside the extents, it serves only those cells.
   */
  lemma FreshView(maxTilesX: Int32, maxTilesY: Int32, capacity: nat, slot: Slot, offsetX: Int32, offsetY: Int32)
    requires New(maxTilesX, maxTilesY, capacity).Ok?
    requires ValidSlot(slot, maxTilesX + 1, maxTilesY + 1)
    ensures var m := View(New(maxTilesX, maxTilesY, capacity).value, slot, offsetX, offsetY);
            && (forall x: Int32, y: Int32 ::
                  InBounds(Local(x, offsetX), Local(y, offsetY), maxTilesX + 1, maxTilesY + 1) ==> (x, y) in m)
            && (forall c :: c in m ==> m[c] == Empty)
    ensures var p := New(maxTilesX, maxTilesY, capacity).value;
            var m := View(p, slot, offsetX, offsetY);
            ThrowsOutsideExtents(p, slot) ==>
              forall x: Int32, y: Int32 ::
                (x, y) in m ==> InBounds(Local(x, offsetX), Local(y, offsetY), maxTilesX + 1, maxTilesY + 1)
  {
    var p := New(maxTilesX, maxTilesY, capacity).value;
    var m := View(p, slot, offsetX, offsetY);
    forall x: Int32, y: Int32 | InBounds(Local(x, offsetX), Local(y, offsetY), maxTilesX + 1, maxTilesY + 1)
      ensures (x, y) in m
    {
      InExtentsIsServed(p, slot, offsetX, offsetY, x, y);
      ViewAt(p, slot, offsetX, offsetY, x, y);
    }
    forall c | c in m
      ensures m[c] == Empty
    {
      ViewAt(p, slot, offsetX, offsetY, c.0, c.1);
    }
    if ThrowsOutsideExtents(p, slot) {
      forall x: Int32, y: Int32 | (x, y) in m
        ensures InBounds(Local(x, offsetX), Local(y, offsetY), maxTilesX + 1, maxTilesY + 1)
      {
        ViewAt(p, slot, offsetX, offsetY, x, y);
        ServedIsInExtents(p, slot, offsetX, offsetY, x, y);
      }
    }
  }

  /**
   * When the tile reference throws outside the extents, world cell (0, 0) is not
   * served under a positive horizontal offset: its local x is negative.
   */
  lemma PositiveOffsetExcludesOrigin(p: Provider, slot: Slot, offsetX: Int32, offsetY: Int32)
    requires ThrowsOutsideExtents(p, slot)
    requires offsetX > 0
    ensures Origin !in View(p, slot, offsetX, offsetY)
  {
    ViewAt(p, slot, offsetX, offsetY, 0, 0);
    if Origin in View(p, slot, offsetX, offsetY) {
      ServedIsInExtents(p, slot, offsetX, offsetY, 0, 0);
    }
  }

  // ---------------------------------------------------------------- disposal

  /**
   * `Dispose`: zero all eight fields of every element, then drop the array.
   * `cleared` is the array as it stood just before it was dropped.
   */
  method Dispose(p: Provider) returns (q: Provider, cleared: seq<TileRecord>)
    ensures q.width == p.width && q.height == p.height && q.data.None?
    ensures p.data.None? ==> q == p && cleared == []
    ensures p.data.Some? ==> |cleared| == |p.data.value| && AllEmpty(cleared)
  {
    if p.data.None? {
      return p, [];
    }
    var d := p.data.value;
    var i := 0;
    while i < |d|
      invariant 0 <= i <= |d| == |p.data.value|
      invariant AllEmpty(d[..i])
    {
      d := d[i := d[i].(bTileHeader := 0, bTileHeader2 := 0, bTileHeader3 := 0,
                        frameX := 0, frameY := 0, liquid := 0, tileType := 0, wall := 0)];
      i := i + 1;
    }
    assert d[..i] == d;
    q := p.(data := None);
    cleared := d;
  }

  /** Once disposed, the provider serves no cell at all. */
  lemma DisposedServesNothing(p: Provider, slot: Slot, offsetX: Int32, offsetY: Int32)
    requires p.data.None?
    ensures View(p, slot, offsetX, offsetY) == map[]
  {
  }
}

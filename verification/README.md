# Tiled: alternate tile storage for a Terraria server, in Dafny

Tiled is a server plugin that replaces the host's in-memory tile grid
(`Main.tile`, an `ITileCollection`) with another storage backend. This project
models its core:

- **Provider-name dispatch** (`Providers`). The argument after `-tiled` is lower-cased.
  Hyphens and the substring `tile` are then removed, and the result is matched against
  the fixed keys `tsapi`/`tshock`, `2d`, `1d` and `struct`/`structured`.
  `String.Replace` makes one left-to-right pass, so a `tile` formed by the
  deletion itself survives (`"ttileile"` normalises to `"tile"`).
- **Command-line flags** (`Options`). The constructor finds the first argument equal to
  `-maxtilesx`, `-maxtilesy`, `-offsetx` or `-offsety`, ignoring case, and
  parses the next argument with `Int32.TryParse`. There are three outcomes:
  - A missing value keeps the field.
  - A value that is not a 32-bit integer stores 0.
  - Any other value is stored.

  The two lifecycle hooks commit the required offsets and set the host's world extents.
- **The hot swap** (`Swap`). `SetProvider` first touches cell (0, 0) of the new provider.
  It then copies every world cell of `[0, Main.maxTilesX) x [0, Main.maxTilesY)`
  from the installed collection into the new one, column by column. The first
  access that throws ends the call with `false`, and the host is left exactly as
  it was. Otherwise the new provider is installed, the old one is disposed if
  it can be, and the call returns `true`. With the server not running, or with no
  collection installed, there is no copy, but the install still happens.
- **The one-dimensional provider** (`OneDimension`). It keeps one flat array of
  `Width * Height` records, where `Width = maxTilesX + 1` and `Height = maxTilesY + 1`
  are fixed when it is built, as long as that count fits in 32 bits (see Findings).
  Its indexer subtracts the offsets current at each access. `Dispose` zeroes all
  eight fields of every element and then drops the array.

Where a tile lives in the flat array is decided by `OneDimensionTileReference`,
which is not part of this model. It is the parameter `slot`, and an access is
taken to reach the element at `slot(x - offsetX, y - offsetY)`. That access
throws when the array is gone or when the position lies outside the array.
The indexer performs no bounds check of its own (Tiled/1d/1dTileProvider.cs:30, 35).

All that is assumed of `slot` in general (`ValidSlot`) is that every local cell
inside the extents gets its own position inside the array. Outside the extents
`slot` is unconstrained, so such an access may throw or may alias an element of
another cell. Lemmas that need every out-of-extent access to throw take that as an
explicit hypothesis, `OneDimension.ThrowsOutsideExtents`.

An `ITileCollection` is modelled as `Tiles.TileCollection`: the world cells whose
access succeeds, and the record each one holds. `OneDimension.AsCollection`
presents the one-dimensional provider that way. `OneDimension.SetIsWrite` proves
that its setter writes every served cell at the addressed array position and no
other. `OneDimension.SetWritesOneCell` proves that, when out-of-extent accesses
throw, this is a write of the one cell.

C# `int` arithmetic is unchecked, so it is written out with `Int32s.Wrap`
wherever it happens: the offset subtraction in the indexer, the extent sums in
`OnPostLoadWorld`, and the array size in the constructor. A value that is not a
32-bit integer makes `Int32.TryParse` store 0 in the flag's field, and the model
does the same.

Calls into code outside the model are parameters:

- `clear` stands for `ClearTile`.
- `construct` stands for the provider constructors in `Initialize`.
- `capacity` stands for what the runtime can allocate.
- `args` stands for `Environment.GetCommandLineArgs()`.
- `Host.serverRunning` stands for `Netplay.IsServerRunning`.

## Model

| member | source | states |
|---|---|---|
| `Options.FindIndex` | Tiled/TiledPlugin.cs:61 | -1 exactly when no argument matches `flag` case-insensitively; otherwise the index of the first match |
| `Options.LookupInt` | Tiled/TiledPlugin.cs:60-67 | with at most one argument nothing is stored; in general the stored value meets `LookupSpec`: the current value when no argument matches or the match is the last argument, else `TryParse` of the next argument, 0 when that fails |
| `Options.LookupSpecDeterminesValue` | Tiled/TiledPlugin.cs:60-93 | `LookupSpec` admits exactly one stored value, so it is a complete description of a lookup |
| `Options.LookupIgnoresCase` | Tiled/TiledPlugin.cs:61-65 | `-MaxTilesX 4200` stores 4200: matching ignores case |
| `Options.LookupBadValueStoresZero` | Tiled/TiledPlugin.cs:65 | `-maxtilesx big` stores 0 rather than keeping 8401 |
| `Options.LookupMissingValueKeeps` | Tiled/TiledPlugin.cs:64-65 | `-maxtilesx` as the last argument keeps 8401 |
| `Options.ParseCommandLine` | Tiled/TiledPlugin.cs:58-94 | each of `maxTilesX`, `maxTilesY`, `requiredOffsetX` and `requiredOffsetY` obeys `LookupSpec` for its own flag; the offsets in use are not touched |
| `Options.OnGamePostInitialize` | Tiled/TiledPlugin.cs:96-100 | the offsets in use become the required offsets and no other field changes |
| `Options.OnGamePostInitializeIdempotent` | Tiled/TiledPlugin.cs:96-100 | running the hook twice is the same as running it once |
| `Options.DefaultWorld` | Tiled/TiledPlugin.cs:49-54 | with no arguments the fields keep their defaults, the hook keeps them, and the host world is 8401 by 2401 cells |
| `Options.OnPostLoadWorld` | Tiled/TiledPlugin.cs:102-109 | host extents are plugin extents plus required offsets, exactly when the sum fits 32 bits and modulo 2^32 always |
| `Text.TryParseInt32` | Tiled/TiledPlugin.cs:65 | a successful parse needs at least one decimal digit in the input |
| `Text.ParseAcceptsShape` | Tiled/TiledPlugin.cs:65 | white space, an optional `+` or `-`, one or more ASCII digits and white space parse to the signed value of the digits exactly when it fits in 32 bits, and fail otherwise |
| `Text.ParseSuccessHasShape` | Tiled/TiledPlugin.cs:65 | conversely, every text that parses is white space, an optional sign, ASCII digits and white space, and its value is the signed value of those digits |
| `Text.ParseFormatRoundTrip` | Tiled/TiledPlugin.cs:65 | parsing the decimal text of any 32-bit integer gives that integer back |
| `Text.PaddingIsIgnored` | Tiled/TiledPlugin.cs:65 | white space on either side of the number does not change the parse |
| `Text.ToLower` | Tiled/TiledPlugin.cs:176 | lower-casing keeps the length, moves each upper-case ASCII letter 32 code points up, keeps every other character, and leaves no upper-case letter |
| `Text.Remove` | Tiled/TiledPlugin.cs:176 | `Replace(pat, "")` never lengthens the text; what it deletes is fixed by `Text.RemoveSkipsOccurrence` and `Text.RemoveWithoutOccurrence` |
| `Text.RemoveSkipsOccurrence` | Tiled/TiledPlugin.cs:176 | when `pat` starts nowhere in `a`, `(a + pat + b).Replace(pat, "")` is `a` followed by `b.Replace(pat, "")`: the scan deletes the first occurrence it meets and resumes behind it |
| `Text.RemoveDeletesWholeCopies` | Tiled/TiledPlugin.cs:176 | `Replace(pat, "")` shortens the text by a whole number of copies of `pat` |
| `Text.RemoveCharIsFilter` | Tiled/TiledPlugin.cs:176 | `Replace("-", "")` is the filter that drops every hyphen and keeps the other characters in their order |
| `Text.RemoveOnlyDeletes` | Tiled/TiledPlugin.cs:176 | `Replace(pat, "")` only deletes: the result's multiset of characters is contained in the input's |
| `Text.FilterDeletesExactlyIt` | Tiled/TiledPlugin.cs:176 | the filter that `Replace("-", "")` equals leaves no hyphen and keeps every other character as often as it occurred |
| `Text.RemoveWithoutOccurrence` | Tiled/TiledPlugin.cs:176 | a string without the pattern is returned unchanged |
| `Text.RemoveIsSinglePass` | Tiled/TiledPlugin.cs:176 | `"ttileile".Replace("tile", "")` is `"tile"`: one pass does not remove every `tile` |
| `Providers.NormaliseShape` | Tiled/TiledPlugin.cs:176 | the normalised name holds no hyphen and no upper-case ASCII letter |
| `Providers.NormaliseRemovesTile` | Tiled/TiledPlugin.cs:176 | when "tile" starts nowhere inside the lower-cased, hyphen-free text of `a`, the key of `a + "tile" + b` is that text followed by the key of `b` |
| `Providers.TileSuffixIsIgnored` | Tiled/TiledPlugin.cs:171-194 | a name followed by `-tile` selects the same backend as the name alone, whenever "tile" starts nowhere inside the name's own text |
| `Providers.NormaliseIgnoresCase` | Tiled/TiledPlugin.cs:176 | lower-casing a name first does not change its key |
| `Providers.NormaliseIgnoresHyphen` | Tiled/TiledPlugin.cs:176 | a hyphen inserted anywhere in a name does not change its key |
| `Providers.NormaliseWithoutTile` | Tiled/TiledPlugin.cs:176 | when no `tile` occurs after lower-casing and dropping hyphens, that text is the key |
| `Providers.NormaliseExample` | Tiled/TiledPlugin.cs:176 | `"1D-Tile"` normalises to `"1d"` |
| `Providers.KeysAreDisjoint` | Tiled/TiledPlugin.cs:177-193 | no normalised name is a key of two backends |
| `Providers.ParseProviderName` | Tiled/TiledPlugin.cs:171-194 | no name gives no provider; otherwise the result is backend `k` exactly when the normalised name is one of `k`'s keys, and nothing when it is no key |
| `Providers.ParseProviderNameExample` | Tiled/TiledPlugin.cs:176-187 | `"1D-Tile"` selects the one-dimensional provider |
| `Providers.ParseProviderNameIgnoresCaseAndHyphens` | Tiled/TiledPlugin.cs:171-194 | letter case and hyphens in a name do not change the backend it selects |
| `Providers.TiledArgument` | Tiled/TiledPlugin.cs:116-127 | a name is present exactly when some `-tiled` has an argument after it, and it is the argument after the first `-tiled` |
| `Swap.Release` | Tiled/TiledPlugin.cs:241-246 | the replaced collection keeps its cells and ends disposed exactly when it was already disposed or is disposable |
| `Swap.SetProvider` | Tiled/TiledPlugin.cs:196-251 | returns true exactly when no copy runs or the touch and every world copy succeed. On false the host is unchanged, the old collection is not disposed, and the reported cell is (0, 0) or the first cell in copy order that fails. On true the new provider is installed with every world cell equal to the old grid's, other cells as built (bar the touched origin), and the old collection released |
| `Tiles.Read` | Tiled/TiledPlugin.cs:229 | reading `collection[x, y]` succeeds exactly on a served cell and returns its record |
| `Tiles.Write` | Tiled/TiledPlugin.cs:229 | writing `collection[x, y]` succeeds exactly on a served cell, replaces that cell's record and changes no other cell or flag |
| `Swap.Touch` | Tiled/TiledPlugin.cs:221 | the touch succeeds exactly when the new provider serves (0, 0), and then replaces that cell with its cleared record |
| `Swap.CopyCell` | Tiled/TiledPlugin.cs:229 | one copy succeeds exactly when the old grid and the new provider both serve the cell, and then writes the old record into that cell only |
| `Swap.CopyWorld` | Tiled/TiledPlugin.cs:224-231 | the copy succeeds exactly when every world cell can be copied; on failure it names a cell that cannot be copied, with every cell before it in copy order copyable; on success the world holds the old records and every other cell keeps its own |
| `Swap.CopyColumn` | Tiled/TiledPlugin.cs:227-230 | one column of the copy either finishes with the column copied, or stops at a row whose cell cannot be copied with the rows above it copied |
| `Swap.Initialize` | Tiled/TiledPlugin.cs:111-132 | an unrecognised or missing name leaves the host unchanged; a recognised one is installed exactly when `SetProvider` would succeed, keeping the server flag and the host extents and the provider's disposal flags; with no copy the constructed provider itself is installed, with a copy every world cell holds the old record and every other cell but (0, 0) the provider's own |
| `Swap.PositiveOffsetBlocksMigration` | Tiled/TiledPlugin.cs:216-222 | when the one-dimensional provider's tile reference throws for every cell outside the extents (`ThrowsOutsideExtents`), a swap into it with a positive horizontal offset cannot pass the touch of (0, 0); without that hypothesis the touch can land on an aliased element |
| `Swap.FreshOneDimensionAcceptsWorld` | Tiled/TiledPlugin.cs:216-231 | with zero offsets, a fresh one-dimensional provider serves every world cell and (0, 0), so the swap succeeds whenever the old grid serves the world |
| `OneDimension.NewAsWritten` | Tiled/1d/1dTileProvider.cs:17-22 | the constructor as written: extents are the wrapped `maxTiles + 1`; it succeeds exactly when the wrapped count is non-negative and fits the runtime's capacity, throwing an overflow for a negative count and out-of-memory otherwise; the array is all-empty records and its length is the wrapped product `Width * Height`, equal to it only modulo 2^32 |
| `OneDimension.NewAsWrittenLosesCells` | Tiled/1d/1dTileProvider.cs:19 | with maxTilesX 65536 and maxTilesY 65535 the array has 65536 elements for 65537 x 65536 cells |
| `OneDimension.New` | Tiled/1d/1dTileProvider.cs:17-22 | succeeds exactly when the count fits and memory allows; then `Width == maxTilesX + 1`, `Height == maxTilesY + 1`, length `Width * Height`, every element all-zero |
| `OneDimension.NewAgreesWhenCountFits` | Tiled/1d/1dTileProvider.cs:19-22 | where the count fits 32 bits, the checked constructor and the constructor as written agree |
| `OneDimension.Size` | Tiled/1d/1dTileProvider.cs:15 | `Size` throws exactly after disposal; otherwise it is the array length, which is `Width * Height` for a provider built when the count fits in 32 bits |
| `OneDimension.Local` | Tiled/1d/1dTileProvider.cs:30 | the local coordinate is `world - offset`, exactly when that fits in 32 bits and modulo 2^32 always |
| `OneDimension.Locate` | Tiled/1d/1dTileProvider.cs:26-37 | an access reaches element `slot(lx, ly)` exactly when the array exists and that position lies inside it; otherwise it throws a null-reference fault after disposal and an index fault before |
| `OneDimension.AsCollection` | Tiled/1d/1dTileProvider.cs:7 | the provider as a collection is disposable, counts as disposed exactly when its array is gone, then serves nothing, and serves only 32-bit coordinates |
| `OneDimension.Get` | Tiled/1d/1dTileProvider.cs:28-31 | a get succeeds exactly when the array exists and the slot of local `(x - offsetX, y - offsetY)` lies inside it, and returns the element there |
| `OneDimension.Set` | Tiled/1d/1dTileProvider.cs:33-36 | a set succeeds exactly where a get would; it keeps the extents and the array length |
| `OneDimension.AccessUsesCurrentOffsets` | Tiled/1d/1dTileProvider.cs:26-37 | get and set at world `(x, y)` behave as at local `(x - offsetX, y - offsetY)` with no offset |
| `OneDimension.SetThenGet` | Tiled/1d/1dTileProvider.cs:26-37 | after a successful set, a get of the same world cell under the same offsets returns the record set |
| `OneDimension.InExtentsIsServed` | Tiled/1d/1dTileProvider.cs:26-31 | while the array exists, every world cell whose local coordinates are inside the extents is served |
| `OneDimension.InExtentsCellsDoNotAlias` | Tiled/1d/1dTileProvider.cs:30 | two distinct world cells whose local coordinates are inside the extents are at distinct array positions |
| `OneDimension.ServedCellsDoNotAlias` | Tiled/1d/1dTileProvider.cs:30 | under `ThrowsOutsideExtents`, two distinct served world cells are at distinct array positions |
| `OneDimension.SetLeavesOtherPositions` | Tiled/1d/1dTileProvider.cs:33-36 | a set leaves the get of every world cell at another array position unchanged |
| `OneDimension.SetLeavesOthers` | Tiled/1d/1dTileProvider.cs:26-37 | a set at a cell inside the extents leaves the get of every other cell inside the extents unchanged |
| `OneDimension.LocalInjective` | Tiled/1d/1dTileProvider.cs:30 | subtracting an offset in 32-bit arithmetic maps distinct coordinates to distinct local ones |
| `OneDimension.ViewAt` | Tiled/1d/1dTileProvider.cs:26-37 | a world cell belongs to the provider's collection exactly when its get succeeds, and holds what the get returns |
| `OneDimension.ViewCellAfterSet` | Tiled/1d/1dTileProvider.cs:33-36 | after a set, a world cell is served exactly when it was, and holds the record set if it shares the addressed array position, its old record otherwise |
| `OneDimension.SetIsWrite` | Tiled/1d/1dTileProvider.cs:33-36 | a set succeeds exactly on a cell of the collection; it keeps the served cells and writes the record into every served cell at the addressed array position, leaving the rest unchanged |
| `OneDimension.SetWritesOneCell` | Tiled/1d/1dTileProvider.cs:33-36 | under `ThrowsOutsideExtents`, a set turns the collection into the old one with that single cell replaced |
| `OneDimension.SetIsCollectionWrite` | Tiled/1d/1dTileProvider.cs:33-36 | under `ThrowsOutsideExtents`, the setter fails exactly where `Tiles.Write` on the presented collection fails, and otherwise yields the collection that write yields |
| `OneDimension.FreshView` | Tiled/1d/1dTileProvider.cs:17-31 | a fresh provider serves every world cell whose local coordinates are inside its extents, and every cell it serves is empty; under `ThrowsOutsideExtents` it serves no other cell |
| `OneDimension.PositiveOffsetExcludesOrigin` | Tiled/1d/1dTileProvider.cs:30 | under `ThrowsOutsideExtents`, a positive horizontal offset makes the local x of world cell (0, 0) negative, so that cell is not served |
| `OneDimension.Dispose` | Tiled/1d/1dTileProvider.cs:39-56 | the array is released and, just before, holds only all-zero records; the extents are kept; a second call changes nothing |
| `OneDimension.DisposedServesNothing` | Tiled/1d/1dTileProvider.cs:39-56 | after disposal no world cell can be read or written |

## Left out

- Host integration is left out because it is framework plumbing, not storage logic:
  - the hook registration in `Initialize`
  - every `Console.WriteLine`
  - `GC.Collect`
  - the `Author`, `Description`, `Name` and `Version` properties
- The chat command and the confirmation prompt are left out because both are commented out.
- Most provider classes are not part of this model, because their code is not available:
  - `TileProvider`, `TwoDimensionTileProvider` and `Structured1DTileProvider` appear only as `Providers.ProviderKind` and as collections built by the `construct` parameter.
  - `OneDimensionTileReference` appears only as `slot`.
  - `StructTile` appears only as `Tiles.TileRecord`. Its field widths follow the host's tile format; its `type` field is named `tileType` because `type` is a Dafny keyword.
- `ClearTile` is host code. It is the parameter `clear`.
- Concurrency with the game loop is not modelled. The model assumes nothing else touches the grid during a swap.
- `OneDimension.Locate`: the tile reference is taken to access element `slot(lx, ly)` of the array, with `slot` unknown outside the extents. Any other work the reference does, such as its own range checks, is not modelled.
- `OneDimension.PositiveOffsetExcludesOrigin`, `OneDimension.ServedCellsDoNotAlias`, `OneDimension.SetWritesOneCell` and `OneDimension.SetIsCollectionWrite` hold only under `ThrowsOutsideExtents`. Without it an out-of-extent access may alias another cell's element.
- `Swap.PositiveOffsetBlocksMigration` holds only under `ThrowsOutsideExtents`, for the same reason.
- `OneDimension.FreshView` states "only in-extent cells are served" only under `ThrowsOutsideExtents`; without it, the fresh provider may also serve aliased out-of-extent cells.
- `OneDimension.SetLeavesOthers` covers only pairs of cells inside the extents. For other pairs, `OneDimension.SetLeavesOtherPositions` covers cells at distinct array positions.
- `Swap.SetProvider`: every collection's setter is taken to write exactly the addressed cell (`Tiles.Write`). For the one-dimensional provider this is proved only under `ThrowsOutsideExtents` (`OneDimension.SetIsCollectionWrite`). Without that hypothesis a write may also change an aliased out-of-extent cell, and the copy guarantees of `Swap.SetProvider` do not cover that case.
- `Swap.Release`: disposing a collection is recorded only as its `disposed` flag. The zeroing is proved for the one-dimensional provider by `OneDimension.Dispose`; the other providers' `Dispose` is not available.
- `Swap.Initialize`: `construct` never throws. An exception from a provider constructor, which would escape `Initialize`, is not modelled.
- `Text.ToLower` maps only ASCII letters. Culture-specific case mapping, such as the Turkish dotted I that would keep `-MAXTILESX` from matching, is not modelled.
- `Text.TryParseInt32` uses the invariant culture's `+` and `-`. Other cultures' sign symbols are not modelled, and neither are the trailing NUL characters the .NET parser accepts.
- Allocation failure is only the abstract `capacity` bound of `OneDimension.New`.

## Findings

| source | as written | input that shows it | evidently intended | confidence | as-written member | corrected member |
|---|---|---|---|---|---|---|
| Tiled/1d/1dTileProvider.cs:19 | the element count `(maxTilesX + 1) * (maxTilesY + 1)` is an unchecked 32-bit product | `-maxtilesx 65536 -maxtilesy 65535`: the product 4295032832 wraps to 65536, so the array has 65536 elements while `Width * Height` is 4295032832 (`OneDimension.NewAsWrittenLosesCells`) | an array of `Width * Height` elements, or an exception when that count does not fit | medium, not executed | `OneDimension.NewAsWritten` | `OneDimension.New` |

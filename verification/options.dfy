/**
 * The plugin's configuration: the static fields `maxTilesX`, `maxTilesY`,
 * `offsetX`, `offsetY`, `requiredOffsetX` and `requiredOffsetY`, how the
 * constructor fills them from the command line, and the two lifecycle hooks.
 */
module Options {
  import opened Wrappers
  import opened Int32s
  import opened Text

  datatype Config = Config(
    maxTilesX: Int32,
    maxTilesY: Int32,
    offsetX: Int32,          // the offsets the providers translate with
    offsetY: Int32,
    requiredOffsetX: Int32,  // the offsets asked for on the command line
    requiredOffsetY: Int32)

  /** The initial values of the static fields. */
  const Defaults: Config := Config(8401, 2401, 0, 0, 0, 0)

  /** `arg.ToLower() == flag`, the predicate handed to `Array.FindIndex`. */
  predicate Matches(arg: string, flag: string) {
    ToLower(arg) == flag
  }

  /** `args[j]` is the first argument matching `flag`. */
  predicate FirstMatch(args: seq<string>, flag: string, j: int) {
    && 0 <= j < |args|
    && Matches(args[j], flag)
    && forall k :: 0 <= k < j ==> !Matches(args[k], flag)
  }

  /** `Array.FindIndex`: the index of the first matching argument, or -1. */
  function FindIndex(args: seq<string>, flag: string): (i: int)
    ensures -1 <= i < |args|
    ensures i == -1 <==> forall j :: 0 <= j < |args| ==> !Matches(args[j], flag)
    ensures i >= 0 ==> FirstMatch(args, flag, i)
  {
    if |args| == 0 then -1
    else if Matches(args[0], flag) then 0
    else
      var k := FindIndex(args[1..], flag);
      if k < 0 then -1 else k + 1
  }

  /**
   * What a flag lookup leaves in its target, said without reference to how it is
   * computed: with no matching argument, or a matching argument that is the last
   * one, the target keeps `current`; otherwise it receives what `Int32.TryParse`
   * makes of the argument after the first match, 0 when that fails.
   */
  ghost predicate LookupSpec(args: seq<string>, flag: string, current: Int32, r: Int32) {
    && ((forall j :: 0 <= j < |args| ==> !Matches(args[j], flag)) ==> r == current)
    && (forall j :: FirstMatch(args, flag, j) ==>
          r == (if j + 1 == |args| then current else TryParseInt32(args[j + 1]).GetOr(0)))
  }

  /** One `-flag value` lookup of the constructor, `TryParse` writing straight into the field. */
  function LookupInt(args: seq<string>, flag: string, current: Int32): (r: Int32)
    ensures |args| <= 1 ==> r == current
    ensures LookupSpec(args, flag, current, r)
  {
    var i := FindIndex(args, flag);
    if i < 0 || i + 1 >= |args| then current
    else TryParseInt32(args[i + 1]).GetOr(0)
  }

  /** The specification leaves no choice: it pins the stored value down. */
  lemma LookupSpecDeterminesValue(args: seq<string>, flag: string, current: Int32, r1: Int32, r2: Int32)
    requires LookupSpec(args, flag, current, r1) && LookupSpec(args, flag, current, r2)
    ensures r1 == r2
  {
    var i := FindIndex(args, flag);
    if i >= 0 {
      assert FirstMatch(args, flag, i);
    }
  }

  /** Matching ignores case. */
  lemma LookupIgnoresCase()
    ensures LookupInt(["-MaxTilesX", "4200"], "-maxtilesx", 8401) == 4200
  {
    var args := ["-MaxTilesX", "4200"];
    assert ToLower(args[0]) == "-maxtilesx";
    assert FindIndex(args, "-maxtilesx") == 0;
    assert Format(4200) == "4200" by {
      assert Digits(4200) == Digits(420) + "0";
      assert Digits(420) == Digits(42) + "0";
      assert Digits(42) == Digits(4) + "2";
    }
    ParseFormatRoundTrip(4200);
  }

  /** A value that is not a number stores 0, not the previous value. */
  lemma LookupBadValueStoresZero()
    ensures LookupInt(["-maxtilesx", "big"], "-maxtilesx", 8401) == 0
  {
    var args := ["-maxtilesx", "big"];
    assert ToLower(args[0]) == "-maxtilesx";
    assert FindIndex(args, "-maxtilesx") == 0;
    assert !IsWhite("big"[0]) && !IsWhite("big"[2]) && !IsDigit("big"[0]);
    assert TrimEnd(TrimStart("big")) == "big";
    assert ParseTrimmed("big") == None;
  }

  /** A flag with nothing after it keeps the previous value. */
  lemma LookupMissingValueKeeps()
    ensures LookupInt(["-maxtilesx"], "-maxtilesx", 8401) == 8401
  {
    assert ToLower(["-maxtilesx"][0]) == "-maxtilesx";
    assert FindIndex(["-maxtilesx"], "-maxtilesx") == 0;
  }

  /** The constructor: the four lookups, in the source's order, starting from the current fields. */
  function ParseCommandLine(args: seq<string>, c: Config): (r: Config)
    ensures LookupSpec(args, "-maxtilesx", c.maxTilesX, r.maxTilesX)
    ensures LookupSpec(args, "-maxtilesy", c.maxTilesY, r.maxTilesY)
    ensures LookupSpec(args, "-offsetx", c.requiredOffsetX, r.requiredOffsetX)
    ensures LookupSpec(args, "-offsety", c.requiredOffsetY, r.requiredOffsetY)
    ensures r.offsetX == c.offsetX && r.offsetY == c.offsetY
  {
    c.(maxTilesX := LookupInt(args, "-maxtilesx", c.maxTilesX),
       maxTilesY := LookupInt(args, "-maxtilesy", c.maxTilesY),
       requiredOffsetX := LookupInt(args, "-offsetx", c.requiredOffsetX),
       requiredOffsetY := LookupInt(args, "-offsety", c.requiredOffsetY))
  }

  /** `OnGamePostInitialize`: the required offsets become the offsets in use. */
  function OnGamePostInitialize(c: Config): (r: Config)
    ensures r.offsetX == c.requiredOffsetX && r.offsetY == c.requiredOffsetY
    ensures r.(offsetX := c.offsetX, offsetY := c.offsetY) == c
  {
    c.(offsetX := c.requiredOffsetX, offsetY := c.requiredOffsetY)
  }

  /** Running the hook a second time changes nothing. */
  lemma OnGamePostInitializeIdempotent(c: Config)
    ensures OnGamePostInitialize(OnGamePostInitialize(c)) == OnGamePostInitialize(c)
  {
  }

  /** With no arguments the plugin keeps its defaults, and the host world is 8401 by 2401 cells. */
  lemma DefaultWorld()
    ensures ParseCommandLine([], Defaults) == Defaults
    ensures OnGamePostInitialize(Defaults) == Defaults
    ensures OnPostLoadWorld(Defaults) == (8401, 2401)
  {
  }

  /**
   * `OnPostLoadWorld`: the host's `Main.maxTilesX` and `Main.maxTilesY` become the
   * plugin's extents plus the required offsets, added in unchecked 32-bit arithmetic.
   */
  function OnPostLoadWorld(c: Config): (r: (Int32, Int32))
    ensures InInt32(c.maxTilesX + c.requiredOffsetX) ==> r.0 == c.maxTilesX + c.requiredOffsetX
    ensures InInt32(c.maxTilesY + c.requiredOffsetY) ==> r.1 == c.maxTilesY + c.requiredOffsetY
    ensures (r.0 - (c.maxTilesX + c.requiredOffsetX)) % Modulus == 0
    ensures (r.1 - (c.maxTilesY + c.requiredOffsetY)) % Modulus == 0
  {
    (Wrap(c.maxTilesX + c.requiredOffsetX), Wrap(c.maxTilesY + c.requiredOffsetY))
  }
}

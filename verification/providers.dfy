/** `ParseProviderName` and the `-tiled` argument that feeds it. */
module Providers {
  import opened Wrappers
  import opened Text
  import opened Options

  /** The backends a name can select; each is a class of the plugin or of the host. */
  datatype ProviderKind =
    | TileProvider                // the host's own heap-tile backend
    | TwoDimensionTileProvider
    | OneDimensionTileProvider
    | Structured1DTileProvider

  /** The normalised names that select each backend. */
  function KeysOf(k: ProviderKind): set<string> {
    match k
    case TileProvider => {"tsapi", "tshock"}
    case TwoDimensionTileProvider => {"2d"}
    case OneDimensionTileProvider => {"1d"}
    case Structured1DTileProvider => {"struct", "structured"}
  }

  /** No normalised name selects two backends. */
  lemma KeysAreDisjoint(k1: ProviderKind, k2: ProviderKind)
    requires k1 != k2
    ensures KeysOf(k1) !! KeysOf(k2)
  {
    assert "tsapi"[0] != "2d"[0] && "tsapi"[0] != "1d"[0] && "tsapi"[1] != "struct"[1];
    assert "tsapi"[1] != "structured"[1] && "tshock"[1] != "struct"[1] && "tshock"[1] != "structured"[1];
    assert "tshock"[0] != "2d"[0] && "tshock"[0] != "1d"[0] && "2d"[0] != "1d"[0];
    assert |"struct"| == 6 && |"structured"| == 10;
  }

  /** `name.ToLower().Replace("-", "").Replace("tile", "")`: the key a provider name selects by. */
  function Normalise(name: string): string {
    Remove(Remove(ToLower(name), "-"), "tile")
  }

  /**
   * Every hyphen and every upper-case ASCII letter is gone from the key; "tile"
   * can survive the single pass, as `Text.RemoveIsSinglePass` shows.
   */
  lemma NormaliseShape(name: string)
    ensures forall i :: 0 <= i < |Normalise(name)| ==> Normalise(name)[i] != '-' && !IsUpper(Normalise(name)[i])
  {
    var lower := ToLower(name);
    var noDash := Remove(lower, "-");
    RemoveCharIsFilter(lower, '-');
    FilterDeletesExactlyIt(lower, '-');
    RemoveOnlyDeletes(lower, "-");
    RemoveOnlyDeletes(noDash, "tile");
    var r := Remove(noDash, "tile");
    assert forall i :: 0 <= i < |r| ==> r[i] in multiset(noDash) && r[i] in multiset(lower);
    assert forall c :: c in lower ==> !IsUpper(c);
  }

  /** Letter case makes no difference to the key a name normalises to. */
  lemma NormaliseIgnoresCase(name: string)
    ensures Normalise(ToLower(name)) == Normalise(name)
  {
    ToLowerIdempotent(name);
  }

  /** A hyphen anywhere in a name makes no difference to the key it normalises to. */
  lemma NormaliseIgnoresHyphen(a: string, b: string)
    ensures Normalise(a + "-" + b) == Normalise(a + b)
  {
    var la, lb := ToLower(a), ToLower(b);
    ToLowerConcat(a + "-", b);
    ToLowerConcat(a, "-");
    ToLowerConcat(a, b);
    assert ToLower("-") == "-";
    assert ToLower(a + "-" + b) == la + "-" + lb;
    RemoveCharIsFilter(la + "-" + lb, '-');
    RemoveCharIsFilter(la + lb, '-');
    FilterConcat(la + "-", lb, '-');
    FilterConcat(la, "-", '-');
    FilterConcat(la, lb, '-');
    assert Filter("-", '-') == "";
    assert Remove(la + "-" + lb, "-") == Remove(la + lb, "-");
  }

  /**
   * Hyphens are dropped with the order of everything else kept, so a lower-cased,
   * hyphen-free name in which "tile" does not occur is its own key.
   */
  lemma NormaliseWithoutTile(name: string)
    requires forall i :: 0 <= i <= |Filter(ToLower(name), '-')| - 4 ==> !OccursAt(Filter(ToLower(name), '-'), "tile", i)
    ensures Normalise(name) == Filter(ToLower(name), '-')
  {
    RemoveCharIsFilter(ToLower(name), '-');
    RemoveWithoutOccurrence(Filter(ToLower(name), '-'), "tile");
  }

  /**
   * The "tile" pass deletes what it meets: when, after lower-casing and dropping
   * hyphens, "tile" starts nowhere inside the text of `a`, the "tile" that follows
   * it is deleted and the rest of the name normalises on its own.
   */
  lemma NormaliseRemovesTile(a: string, b: string)
    requires var fa, fb := Filter(ToLower(a), '-'), Filter(ToLower(b), '-');
             forall i :: 0 <= i < |fa| ==> !OccursAt(fa + "tile" + fb, "tile", i)
    ensures Normalise(a + "tile" + b) == Filter(ToLower(a), '-') + Normalise(b)
  {
    var la, lb := ToLower(a), ToLower(b);
    var fa, fb := Filter(la, '-'), Filter(lb, '-');
    ToLowerConcat(a + "tile", b);
    ToLowerConcat(a, "tile");
    assert ToLower("tile") == "tile";
    assert ToLower(a + "tile" + b) == la + "tile" + lb;
    RemoveCharIsFilter(la + "tile" + lb, '-');
    RemoveCharIsFilter(lb, '-');
    FilterConcat(la + "tile", lb, '-');
    FilterConcat(la, "tile", '-');
    assert Filter("tile", '-') == "tile";
    assert Remove(la + "tile" + lb, "-") == fa + "tile" + fb;
    RemoveSkipsOccurrence(fa, "tile", fb);
  }

  /**
   * A provider name followed by "-tile" selects what the name alone selects,
   * whenever "tile" starts nowhere inside the name's own text.
   */
  lemma TileSuffixIsIgnored(name: string)
    requires forall i :: 0 <= i < |Filter(ToLower(name), '-')| ==> !OccursAt(Filter(ToLower(name), '-') + "tile", "tile", i)
    ensures ParseProviderName(Some(name + "-tile")) == ParseProviderName(Some(name))
  {
    var f := Filter(ToLower(name), '-');
    assert Normalise(name + "tile") == f by {
      assert Filter(ToLower(""), '-') == "";
      assert f + "tile" + Filter(ToLower(""), '-') == f + "tile";
      NormaliseRemovesTile(name, "");
      assert name + "tile" + "" == name + "tile";
      assert Normalise("") == "";
    }
    assert Normalise(name + "-tile") == Normalise(name + "tile") by {
      NormaliseIgnoresHyphen(name, "tile");
      assert name + "-" + "tile" == name + "-tile";
    }
    assert Normalise(name) == f by {
      forall i | 0 <= i <= |f| - 4
        ensures !OccursAt(f, "tile", i)
      {
        assert !OccursAt(f + "tile", "tile", i);
        assert (f + "tile")[i..i + 4] == f[i..i + 4];
      }
      NormaliseWithoutTile(name);
    }
  }

  /** A name spelled "1D-Tile" normalises to the one-dimensional key. */
  lemma NormaliseExample()
    ensures Normalise("1D-Tile") == "1d"
  {
    LowerExample();
    RemoveDashExample();
    RemoveTileExample();
  }

  lemma LowerExample()
    ensures ToLower("1D-Tile") == "1d-tile"
  {
    var lower := ToLower("1D-Tile");
    assert lower[0] == '1' && lower[1] == 'd' && lower[2] == '-' && lower[3] == 't';
    assert lower[4] == 'i' && lower[5] == 'l' && lower[6] == 'e';
  }

  lemma RemoveDashExample()
    ensures Remove("1d-tile", "-") == "1dtile"
  {
    assert "1d-tile"[1..] == "d-tile";
    assert "d-tile"[1..] == "-tile";
    assert "-tile"[1..] == "tile";
    forall i | 0 <= i <= 3
      ensures !OccursAt("tile", "-", i)
    {
      assert "tile"[i..i + 1][0] == "tile"[i] != '-';
    }
    RemoveWithoutOccurrence("tile", "-");
    assert Remove("-tile", "-") == "tile";
    assert Remove("d-tile", "-") == "dtile";
  }

  lemma RemoveTileExample()
    ensures Remove("1dtile", "tile") == "1d"
  {
    assert "1dtile"[1..] == "dtile";
    assert "dtile"[1..] == "tile";
    assert "tile"[4..] == "";
    assert "1dtile"[..4] != "tile" by { assert "1dtile"[..4][0] == '1'; }
    assert "dtile"[..4] != "tile" by { assert "dtile"[..4][0] == 'd'; }
  }

  /**
   * `ParseProviderName`: no name selects nothing; otherwise the normalised name
   * selects the backend whose key it is, and any other string selects nothing.
   */
  function ParseProviderName(name: Option<string>): (r: Option<ProviderKind>)
    ensures name.None? ==> r.None?
    ensures name.Some? ==> forall k :: r == Some(k) <==> Normalise(name.value) in KeysOf(k)
    ensures name.Some? ==> (r.None? <==> forall k :: Normalise(name.value) !in KeysOf(k))
  {
    match name
    case None => None
    case Some(n) =>
      var key := Normalise(n);
      if key == "tsapi" || key == "tshock" then Some(TileProvider)
      else if key == "2d" then Some(TwoDimensionTileProvider)
      else if key == "1d" then Some(OneDimensionTileProvider)
      else if key == "struct" || key == "structured" then Some(Structured1DTileProvider)
      else None
  }

  /** "1D-Tile" selects the one-dimensional provider. */
  lemma ParseProviderNameExample()
    ensures ParseProviderName(Some("1D-Tile")) == Some(OneDimensionTileProvider)
  {
    NormaliseExample();
  }

  /** Neither letter case nor hyphens change the backend a name selects. */
  lemma ParseProviderNameIgnoresCaseAndHyphens(a: string, b: string)
    ensures ParseProviderName(Some(ToLower(a))) == ParseProviderName(Some(a))
    ensures ParseProviderName(Some(a + "-" + b)) == ParseProviderName(Some(a + b))
  {
    NormaliseIgnoresCase(a);
    NormaliseIgnoresHyphen(a, b);
  }

  /** The argument after the first `-tiled`, if there is one. */
  function TiledArgument(args: seq<string>): (r: Option<string>)
    ensures r.Some? <==> exists j :: FirstMatch(args, "-tiled", j) && j + 1 < |args|
    ensures forall j :: FirstMatch(args, "-tiled", j) && j + 1 < |args| ==> r == Some(args[j + 1])
  {
    var i := FindIndex(args, "-tiled");
    if i >= 0 && i + 1 < |args| then Some(args[i + 1]) else None
  }
}

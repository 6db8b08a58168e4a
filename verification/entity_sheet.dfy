/**
 * The virtual sprite-sheet planner of the entity data extractor.
 *
 * For every row of a mapping table the planner lays out one virtual sheet:
 * one horizontal band per named entity, top to bottom, each band holding
 * the atlas tiles that entity uses; every tile becomes a TileMapping from
 * the virtual sheet (source) to the game's atlas (target).  Below the bands
 * a trailing region of AdditionalHeight pixels is reserved for extra tiles
 * that a mod supplies through GetAdditionalMapping.
 *
 * The entity and texture catalogues are passed in as maps; animations are a
 * sequence in ascending id order, the order in which the source's std::map
 * hands them out.  All quantities are unbounded integers: the 32-bit
 * arithmetic of the source is not modelled.
 */
module EntitySheet {
  import opened Wrappers

  datatype AnimationData = AnimationData(Id: nat, FirstTileIndex: int, NumTiles: int)

  /** A catalogue entity: animated when Animations is non-empty, otherwise a single static tile at (TileX, TileY). */
  datatype EntityData = EntityData(Id: nat, Animations: seq<AnimationData>, TextureId: int, TileX: int, TileY: int)

  datatype TextureData = TextureData(
    Path: string, Width: nat, Height: nat,
    NumTilesWidth: nat, NumTilesHeight: nat,
    TileWidth: nat, TileHeight: nat,
    OffsetWidth: nat, OffsetHeight: nat)

  /** A pixel rectangle, left/top inclusive and right/bottom exclusive. */
  datatype Tile = Tile(Left: int, Top: int, Right: int, Bottom: int)

  /** Source is in virtual-sheet coordinates, target in atlas coordinates. */
  datatype TileMapping = TileMapping(SourceTile: Tile, TargetTile: Tile)

  datatype SheetSize = SheetSize(Width: nat, Height: nat)

  /** A sheet being planned: the tile mappings so far and the size they take. */
  datatype Layout = Layout(Tiles: seq<TileMapping>, Size: SheetSize)

  datatype SourceSheet = SourceSheet(Path: string, Size: SheetSize, TileMap: seq<TileMapping>)

  /** SourceHeight is where the planned bands end and the reserved region begins. */
  datatype EntityMapping = EntityMapping(EntityPath: string, SourceSheet: SourceSheet, SourceHeight: nat)

  /** One row of the mapping table. */
  datatype EntityMappingInfo = EntityMappingInfo(EntityPath: string, EntityNames: seq<string>, AdditionalHeight: nat, InitialHeight: nat)

  type Entities = map<string, EntityData>
  type Textures = map<int, TextureData>

  function Max(a: nat, b: nat): nat { if a < b then b else a }

  // ---------------------------------------------------------------------
  // Catalogue assumptions
  // ---------------------------------------------------------------------

  /** The order in which a std::map keyed by an 8-bit id iterates. */
  predicate AnimationsAscending(anims: seq<AnimationData>) {
    (forall i :: 0 <= i < |anims| ==> anims[i].Id < 256) &&
    (forall i, j :: 0 <= i < j < |anims| ==> anims[i].Id < anims[j].Id)
  }

  /**
   * What the layout arithmetic needs of an entity: non-negative tile
   * indices (the source mixes signed and unsigned `%` and `/`), and at
   * least one tile for an animated entity (with none, the float ceil-sqrt
   * yields a zero divisor).
   */
  predicate EntityReady(e: EntityData) {
    AnimationsAscending(e.Animations) &&
    (forall i :: 0 <= i < |e.Animations| ==> e.Animations[i].FirstTileIndex >= 0) &&
    (if e.Animations == [] then e.TileX >= 0 && e.TileY >= 0
     else exists i :: 0 <= i < |e.Animations| && e.Animations[i].NumTiles >= 1)
  }

  /** The entity and its texture are both in the catalogue. */
  predicate Resolves(name: string, entities: Entities, textures: Textures) {
    name in entities && entities[name].TextureId in textures
  }

  /** A name that resolves names an entity and texture the layout can handle. */
  predicate Placeable(name: string, entities: Entities, textures: Textures) {
    Resolves(name, entities, textures) ==>
      EntityReady(entities[name]) && textures[entities[name].TextureId].NumTilesWidth > 0
  }

  // ---------------------------------------------------------------------
  // Rectangles
  // ---------------------------------------------------------------------

  /** The rectangle of tile number `index` in the texture's row-major grid. */
  function AtlasTile(tex: TextureData, index: int): (r: Tile)
    requires tex.NumTilesWidth > 0
    ensures r.Right - r.Left == tex.TileWidth && r.Bottom - r.Top == tex.TileHeight
  {
    var x: nat := index % tex.NumTilesWidth;
    var y := index / tex.NumTilesWidth;
    Tile(tex.OffsetWidth + x * tex.TileWidth, tex.OffsetHeight + y * tex.TileHeight,
         tex.OffsetWidth + (x + 1) * tex.TileWidth, tex.OffsetHeight + (y + 1) * tex.TileHeight)
  }

  /** Cell (col, row) of a band of tw-by-th cells whose top edge is at `top`. */
  function SheetCell(col: nat, row: nat, tw: nat, th: nat, top: nat): Tile {
    Tile(col * tw, row * th + top, (col + 1) * tw, (row + 1) * th + top)
  }

  /** `t` is a well-formed rectangle inside [0, width) x [top, bottom). */
  predicate Inside(t: Tile, width: int, top: int, bottom: int) {
    0 <= t.Left <= t.Right <= width && top <= t.Top <= t.Bottom <= bottom
  }

  /** The two rectangles share no pixel. */
  predicate Disjoint(a: Tile, b: Tile) {
    a.Right <= b.Left || b.Right <= a.Left || a.Bottom <= b.Top || b.Bottom <= a.Top
  }

  predicate SourcesDisjoint(tiles: seq<TileMapping>) {
    forall i, j :: 0 <= i < j < |tiles| ==> Disjoint(tiles[i].SourceTile, tiles[j].SourceTile)
  }

  lemma MulLeq(a: nat, b: nat, c: nat)
    requires a <= b
    ensures a * c <= b * c
  {}

  lemma MulLessInv(a: nat, b: nat, c: nat)
    requires a * c < b * c
    ensures a < b
  {
    if a >= b { MulLeq(b, a, c); }
  }

  /** Two different positions of a band of `cols` columns get disjoint cells. */
  lemma CellsDisjoint(cols: nat, tw: nat, th: nat, top: nat, k1: nat, k2: nat)
    requires cols > 0 && k1 != k2
    ensures Disjoint(SheetCell(k1 % cols, k1 / cols, tw, th, top), SheetCell(k2 % cols, k2 / cols, tw, th, top))
  {
    PositionsDistinct(cols, k1, k2);
    CellsApart(k1 % cols, k1 / cols, k2 % cols, k2 / cols, tw, th, top);
  }

  /** Different indices sit in a different column or a different row. */
  lemma PositionsDistinct(cols: nat, k1: nat, k2: nat)
    requires cols > 0 && k1 != k2
    ensures 0 <= k1 / cols && 0 <= k2 / cols
    ensures k1 % cols != k2 % cols || k1 / cols != k2 / cols
  {
    assert k1 == k1 / cols * cols + k1 % cols && k2 == k2 / cols * cols + k2 % cols;
  }

  /** Cells at different positions of the same band share no pixel. */
  lemma CellsApart(x1: nat, y1: nat, x2: nat, y2: nat, tw: nat, th: nat, top: nat)
    requires x1 != x2 || y1 != y2
    ensures Disjoint(SheetCell(x1, y1, tw, th, top), SheetCell(x2, y2, tw, th, top))
  {
    if x1 < x2 {
      MulLeq(x1 + 1, x2, tw);
    } else if x2 < x1 {
      MulLeq(x2 + 1, x1, tw);
    } else if y1 < y2 {
      MulLeq(y1 + 1, y2, th);
    } else {
      MulLeq(y2 + 1, y1, th);
    }
  }

  /** Position k < cols * rows of a band lies inside the band's cols-by-rows cells. */
  lemma CellInside(cols: nat, rows: nat, tw: nat, th: nat, top: nat, k: nat)
    requires cols > 0 && k < cols * rows
    ensures Inside(SheetCell(k % cols, k / cols, tw, th, top), cols * tw, top, top + rows * th)
  {
    var x, y := k % cols, k / cols;
    assert y * cols <= k;
    MulLessInv(y, rows, cols);
    MulLeq(x + 1, cols, tw);
    MulLeq(y + 1, rows, th);
    MulLeq(x, x + 1, tw);
    MulLeq(y, y + 1, th);
  }

  // ---------------------------------------------------------------------
  // Unique tile indices of an animated entity
  // ---------------------------------------------------------------------

  /** first, first + 1, ..., first + count - 1. */
  function TileRun(first: int, count: int): (r: seq<int>)
    ensures |r| == if count > 0 then count else 0
    ensures forall i :: 0 <= i < |r| ==> r[i] == first + i
    decreases if count > 0 then count else 0
  {
    if count <= 0 then [] else TileRun(first, count - 1) + [first + count - 1]
  }

  /** Every animation's tile run, in animation order. */
  function AnimationTiles(anims: seq<AnimationData>): seq<int> {
    if anims == [] then []
    else AnimationTiles(anims[..|anims| - 1]) + TileRun(anims[|anims| - 1].FirstTileIndex, anims[|anims| - 1].NumTiles)
  }

  /** `s` with every repeated element dropped, keeping first occurrences. */
  function Dedup(s: seq<int>): seq<int> {
    if s == [] then []
    else
      var d := Dedup(s[..|s| - 1]);
      if s[|s| - 1] in d then d else d + [s[|s| - 1]]
  }

  predicate NoDuplicates(s: seq<int>) {
    forall i, j :: 0 <= i < j < |s| ==> s[i] != s[j]
  }

  /** The index of the first occurrence of `x` in `s`. */
  function IndexOf(s: seq<int>, x: int): (r: nat)
    requires x in s
    ensures r < |s| && s[r] == x && forall q :: 0 <= q < r ==> s[q] != x
  {
    if s[0] == x then 0 else 1 + IndexOf(s[1..], x)
  }

  lemma IndexOfExtend(s: seq<int>, y: int, x: int)
    requires x in s
    ensures IndexOf(s + [y], x) == IndexOf(s, x)
  {
    var r := IndexOf(s, x);
    assert (s + [y])[r] == x;
    assert forall q :: 0 <= q < r ==> (s + [y])[q] == s[q];
  }

  /** De-duplication keeps no duplicates and exactly the elements of its input. */
  lemma {:induction false} DedupElements(s: seq<int>)
    ensures NoDuplicates(Dedup(s))
    ensures forall x :: x in Dedup(s) <==> x in s
  {
    if s != [] {
      var init := s[..|s| - 1];
      DedupElements(init);
      assert s == init + [s[|s| - 1]];
    }
  }

  /** De-duplication keeps first-seen order: earlier elements of the result first appear earlier in the input. */
  lemma {:induction false} DedupFirstSeenOrder(s: seq<int>)
    ensures forall x :: x in Dedup(s) ==> x in s
    ensures forall i, j :: 0 <= i < j < |Dedup(s)| ==> IndexOf(s, Dedup(s)[i]) < IndexOf(s, Dedup(s)[j])
  {
    DedupElements(s);
    if s != [] {
      var init, last := s[..|s| - 1], s[|s| - 1];
      var d := Dedup(init);
      DedupFirstSeenOrder(init);
      DedupElements(init);
      assert s == init + [last];
      forall x | x in d ensures IndexOf(s, x) == IndexOf(init, x) {
        IndexOfExtend(init, last, x);
      }
      if last !in d {
        assert last !in init;
        assert IndexOf(s, last) == |init| by {
          assert s[|init|] == last;
          assert forall q :: 0 <= q < |init| ==> s[q] == init[q];
        }
        var e := Dedup(s);
        assert e == d + [last];
        forall i, j | 0 <= i < j < |e|
          ensures IndexOf(s, e[i]) < IndexOf(s, e[j])
        {
          assert e[i] == d[i] && d[i] in d;
          if j < |d| {
            assert e[j] == d[j] && d[j] in d;
            assert IndexOf(init, d[i]) < IndexOf(init, d[j]);
          } else {
            assert e[j] == last;
            assert IndexOf(s, d[i]) == IndexOf(init, d[i]) < |init|;
          }
        }
      }
    }
  }

  /** The flattened tile runs hold exactly the tiles of the animations' runs. */
  lemma {:induction false} AnimationTilesMembers(anims: seq<AnimationData>)
    ensures forall k, t :: 0 <= k < |anims| && t in TileRun(anims[k].FirstTileIndex, anims[k].NumTiles) ==> t in AnimationTiles(anims)
    ensures forall t :: t in AnimationTiles(anims) ==>
      exists k :: 0 <= k < |anims| && t in TileRun(anims[k].FirstTileIndex, anims[k].NumTiles)
  {
    if anims != [] {
      var init := anims[..|anims| - 1];
      AnimationTilesMembers(init);
      assert forall k :: 0 <= k < |init| ==> init[k] == anims[k];
    }
  }

  /** De-duplication extended by one element, as the planner's `push_back` after a failed search does it. */
  lemma DedupStep(s: seq<int>, x: int)
    ensures Dedup(s + [x]) == if x in Dedup(s) then Dedup(s) else Dedup(s) + [x]
  {
    assert (s + [x])[..|s|] == s;
  }

  /** A run one tile longer ends with that tile. */
  lemma RunStep(seen: seq<int>, first: int, i: nat)
    ensures seen + TileRun(first, i + 1) == (seen + TileRun(first, i)) + [first + i]
  {
    assert TileRun(first, i + 1) == TileRun(first, i) + [first + i];
  }

  /** The tiles of one run added to a de-duplicated list, one tile at a time. */
  method AddRun(unique: seq<int>, ghost seen: seq<int>, first: int, count: int) returns (unique': seq<int>)
    requires unique == Dedup(seen)
    ensures unique' == Dedup(seen + TileRun(first, count))
  {
    unique' := unique;
    ghost var run := seen;
    var i := 0;
    assert seen + TileRun(first, 0) == seen;
    while i < count
      invariant 0 <= i && (i <= count || i == 0)
      invariant run == seen + TileRun(first, i)
      invariant unique' == Dedup(run)
    {
      var tileIndex := first + i;
      DedupStep(run, tileIndex);
      RunStep(seen, first, i);
      if tileIndex !in unique' {
        unique' := unique' + [tileIndex];
      }
      run := run + [tileIndex];
      i := i + 1;
    }
    assert TileRun(first, i) == TileRun(first, count);
  }

  /**
   * The unique tile list of an animated entity: every tile of every
   * animation, in ascending animation order, each kept at its first
   * appearance.
   */
  method UniqueTileIndices(anims: seq<AnimationData>) returns (unique: seq<int>)
    ensures unique == Dedup(AnimationTiles(anims))
    ensures NoDuplicates(unique)
    ensures forall k, t :: 0 <= k < |anims| && t in TileRun(anims[k].FirstTileIndex, anims[k].NumTiles) ==> t in unique
    ensures forall t :: t in unique ==>
      exists k :: 0 <= k < |anims| && t in TileRun(anims[k].FirstTileIndex, anims[k].NumTiles)
  {
    unique := [];
    for a := 0 to |anims|
      invariant unique == Dedup(AnimationTiles(anims[..a]))
    {
      assert anims[..a + 1][..a] == anims[..a];
      unique := AddRun(unique, AnimationTiles(anims[..a]), anims[a].FirstTileIndex, anims[a].NumTiles);
    }
    assert anims[..|anims|] == anims;
    DedupElements(AnimationTiles(anims));
    AnimationTilesMembers(anims);
  }

  // ---------------------------------------------------------------------
  // Packing
  // ---------------------------------------------------------------------

  /** The least w with w * w >= n, at least `w`. */
  function CeilSqrtFrom(n: nat, w: nat): (r: nat)
    requires w == 0 || (w - 1) * (w - 1) < n
    ensures r * r >= n && (r == 0 || (r - 1) * (r - 1) < n)
    decreases n - w
  {
    if w * w >= n then w
    else
      assert w < n by { if w >= 1 { MulLeq(1, w, w); } }
      CeilSqrtFrom(n, w + 1)
  }

  /** ceil(sqrt(n)) read over the integers: the least w with w * w >= n. */
  function CeilSqrt(n: nat): (w: nat)
    ensures w * w >= n && (w == 0 || (w - 1) * (w - 1) < n)
  {
    CeilSqrtFrom(n, 0)
  }

  /** ceil(n / d): the least r with r * d >= n. */
  function CeilDiv(n: nat, d: nat): (r: nat)
    requires d > 0
    ensures r * d >= n && (r == 0 || (r - 1) * d < n)
  {
    (n + d - 1) / d
  }

  /** Position k of a band with `cols` columns, holding atlas tile `tileIndex`. */
  function BandTile(tex: TextureData, cols: nat, top: nat, k: nat, tileIndex: int): TileMapping
    requires cols > 0 && tex.NumTilesWidth > 0
  {
    TileMapping(SheetCell(k % cols, k / cols, tex.TileWidth, tex.TileHeight, top), AtlasTile(tex, tileIndex))
  }

  /** The sheet after a band of `cols` by `rows` tiles is laid out below it. */
  function GrownSize(size: SheetSize, tex: TextureData, cols: nat, rows: nat): (r: SheetSize)
    ensures r.Width >= size.Width && r.Width >= cols * tex.TileWidth
    ensures r.Width == size.Width || r.Width == cols * tex.TileWidth
    ensures r.Height == size.Height + rows * tex.TileHeight
  {
    SheetSize(Max(size.Width, cols * tex.TileWidth), size.Height + rows * tex.TileHeight)
  }

  /** `band` holds, at each position k, the cell of k and the atlas tile unique[k]. */
  predicate PackedBand(tex: TextureData, cols: nat, top: nat, unique: seq<int>, band: seq<TileMapping>)
    requires cols > 0 && tex.NumTilesWidth > 0
  {
    |band| == |unique| && forall k :: 0 <= k < |band| ==> band[k] == BandTile(tex, cols, top, k, unique[k])
  }

  /** The packed band of `unique`, as a value. */
  function Band(tex: TextureData, cols: nat, top: nat, unique: seq<int>): seq<TileMapping>
    requires cols > 0 && tex.NumTilesWidth > 0
  {
    seq(|unique|, k requires 0 <= k < |unique| => BandTile(tex, cols, top, k, unique[k]))
  }

  /** A packed band is the band of its tiles. */
  lemma PackedBandIsBand(tex: TextureData, cols: nat, top: nat, unique: seq<int>, band: seq<TileMapping>)
    requires cols > 0 && tex.NumTilesWidth > 0
    ensures PackedBand(tex, cols, top, unique, band) <==> band == Band(tex, cols, top, unique)
  {
  }

  /**
   * Packs the unique tiles of one entity into a near-square grid of
   * `cols` columns and `rows` rows whose top edge is at `top`.  Position k
   * goes to column k mod cols and row k div cols, and maps to atlas tile
   * unique[k].
   */
  method PackTiles(unique: seq<int>, tex: TextureData, top: nat) returns (band: seq<TileMapping>, cols: nat, rows: nat)
    requires |unique| >= 1 && tex.NumTilesWidth > 0
    requires forall k :: 0 <= k < |unique| ==> unique[k] >= 0
    ensures cols == CeilSqrt(|unique|) && rows == CeilDiv(|unique|, cols)
    ensures cols >= 1 && cols * rows >= |unique|
    ensures PackedBand(tex, cols, top, unique, band)
  {
    cols := CeilSqrt(|unique|);
    assert cols >= 1;
    rows := CeilDiv(|unique|, cols);
    band := [];
    var index := 0;
    while index < |unique|
      invariant index <= |unique| && |band| == index
      invariant forall k :: 0 <= k < index ==> band[k] == BandTile(tex, cols, top, k, unique[k])
    {
      var tileIndex := unique[index];
      var col, row := index % cols, index / cols;
      band := band + [TileMapping(SheetCell(col, row, tex.TileWidth, tex.TileHeight, top), AtlasTile(tex, tileIndex))];
      index := index + 1;
    }
  }

  /**
   * The unique tiles of an entity the layout can handle: at least one, none
   * negative, no duplicates.
   */
  function UniqueTiles(e: EntityData): (u: seq<int>)
    requires EntityReady(e) && e.Animations != []
    ensures u == Dedup(AnimationTiles(e.Animations))
    ensures |u| >= 1 && NoDuplicates(u)
    ensures forall k :: 0 <= k < |u| ==> u[k] >= 0
  {
    var anims := e.Animations;
    var all := AnimationTiles(anims);
    DedupElements(all);
    AnimationTilesMembers(anims);
    var a :| 0 <= a < |anims| && anims[a].NumTiles >= 1;
    assert TileRun(anims[a].FirstTileIndex, anims[a].NumTiles)[0] == anims[a].FirstTileIndex;
    assert anims[a].FirstTileIndex in Dedup(all);
    assert forall k :: 0 <= k < |Dedup(all)| ==> Dedup(all)[k] >= 0 by {
      forall k | 0 <= k < |Dedup(all)| ensures Dedup(all)[k] >= 0 {
        var t := Dedup(all)[k];
        assert t in all;
        var b :| 0 <= b < |anims| && t in TileRun(anims[b].FirstTileIndex, anims[b].NumTiles);
      }
    }
    Dedup(all)
  }

  /**
   * A packed band stays within its cols-by-rows cells below `top`, and its
   * source rectangles do not overlap.
   */
  lemma PackedBandLaysOut(tex: TextureData, cols: nat, rows: nat, top: nat, unique: seq<int>, band: seq<TileMapping>, width: nat)
    requires tex.NumTilesWidth > 0 && cols >= 1 && cols * rows >= |unique|
    requires cols * tex.TileWidth <= width
    requires PackedBand(tex, cols, top, unique, band)
    ensures forall k :: 0 <= k < |band| ==> Inside(band[k].SourceTile, width, top, top + rows * tex.TileHeight)
    ensures SourcesDisjoint(band)
  {
    forall k | 0 <= k < |band|
      ensures Inside(band[k].SourceTile, width, top, top + rows * tex.TileHeight)
    {
      CellInside(cols, rows, tex.TileWidth, tex.TileHeight, top, k);
    }
    forall i, j | 0 <= i < j < |band|
      ensures Disjoint(band[i].SourceTile, band[j].SourceTile)
    {
      CellsDisjoint(cols, tex.TileWidth, tex.TileHeight, top, i, j);
    }
  }

  // ---------------------------------------------------------------------
  // Planning
  // ---------------------------------------------------------------------

  /**
   * Lays out the band of one named entity below a sheet of the given size,
   * as the body of the planning loop does for each name: a missing entity
   * or texture is skipped, a static entity takes one tile, an animated
   * entity takes a near-square grid of its unique tiles.
   */
  method PlaceEntity(name: string, entities: Entities, textures: Textures, tiles: seq<TileMapping>, size: SheetSize)
    returns (tiles': seq<TileMapping>, size': SheetSize)
    requires Placeable(name, entities, textures)
    ensures !Resolves(name, entities, textures) ==> tiles' == tiles && size' == size
    ensures Resolves(name, entities, textures) && entities[name].Animations == [] ==>
      var e := entities[name];
      var tex := textures[e.TextureId];
      tiles' == tiles + [TileMapping(Tile(0, size.Height, tex.TileWidth, tex.TileHeight + size.Height),
                                     AtlasTile(tex, e.TileY * tex.NumTilesWidth + e.TileX))] &&
      size' == SheetSize(Max(size.Width, tex.TileWidth), size.Height + tex.TileHeight)
    ensures Resolves(name, entities, textures) && entities[name].Animations != [] ==>
      var e := entities[name];
      var tex := textures[e.TextureId];
      var unique := UniqueTiles(e);
      var cols := CeilSqrt(|unique|);
      var rows := CeilDiv(|unique|, cols);
      |tiles'| == |tiles| + |unique| &&
      PackedBand(tex, cols, size.Height, unique, tiles'[|tiles|..]) &&
      size' == GrownSize(size, tex, cols, rows)
    ensures Layout(tiles', size') == Placed(name, entities, textures, tiles, size)
    ensures size'.Width >= size.Width && size'.Height >= size.Height
    ensures BandAppended(tiles, tiles', size'.Width, size.Height, size'.Height)
  {
    tiles', size' := tiles, size;
    if name in entities {
      var e := entities[name];
      if e.TextureId in textures {
        var tex := textures[e.TextureId];
        if |e.Animations| == 0 {
          tiles', size' := PlaceStatic(e, tex, tiles', size');
        } else {
          tiles', size' := PlaceAnimated(e, tex, tiles', size');
          var unique := UniqueTiles(e);
          PackedBandIsBand(tex, CeilSqrt(|unique|), size.Height, unique, tiles'[|tiles|..]);
          assert tiles' == tiles + tiles'[|tiles|..];
        }
      }
    }
  }

  /** The static branch: one tile at the entity's (TileX, TileY), re-normalised by the grid width. */
  method PlaceStatic(e: EntityData, tex: TextureData, tiles: seq<TileMapping>, size: SheetSize)
    returns (tiles': seq<TileMapping>, size': SheetSize)
    requires tex.NumTilesWidth > 0
    ensures tiles' == tiles + [TileMapping(Tile(0, size.Height, tex.TileWidth, tex.TileHeight + size.Height),
                                           AtlasTile(tex, e.TileY * tex.NumTilesWidth + e.TileX))]
    ensures size' == SheetSize(Max(size.Width, tex.TileWidth), size.Height + tex.TileHeight)
    ensures BandAppended(tiles, tiles', size'.Width, size.Height, size'.Height)
  {
    var tileWidth, tileHeight := tex.TileWidth, tex.TileHeight;
    var tileIndex := e.TileY * tex.NumTilesWidth + e.TileX;
    tiles' := tiles + [TileMapping(Tile(0, size.Height, tileWidth, tileHeight + size.Height), AtlasTile(tex, tileIndex))];
    size' := SheetSize(Max(size.Width, tileWidth), size.Height + tileHeight);
  }

  /** The animated branch: the unique tiles packed into a near-square grid. */
  method PlaceAnimated(e: EntityData, tex: TextureData, tiles: seq<TileMapping>, size: SheetSize)
    returns (tiles': seq<TileMapping>, size': SheetSize)
    requires EntityReady(e) && e.Animations != [] && tex.NumTilesWidth > 0
    ensures var unique := UniqueTiles(e);
      var cols := CeilSqrt(|unique|);
      var rows := CeilDiv(|unique|, cols);
      |tiles'| == |tiles| + |unique| && tiles'[..|tiles|] == tiles &&
      PackedBand(tex, cols, size.Height, unique, tiles'[|tiles|..]) &&
      size' == GrownSize(size, tex, cols, rows)
    ensures BandAppended(tiles, tiles', size'.Width, size.Height, size'.Height)
  {
    var unique := UniqueTileIndices(e.Animations);
    assert unique == UniqueTiles(e);
    var band, cols, rows := PackTiles(unique, tex, size.Height);
    tiles' := tiles + band;
    assert tiles'[|tiles|..] == band;
    size' := GrownSize(size, tex, cols, rows);
    PackedBandAppended(tex, cols, rows, size.Height, unique, tiles, band, size'.Width);
  }

  /** Appending a packed band keeps the earlier tiles and lays the band out below `top`. */
  lemma PackedBandAppended(tex: TextureData, cols: nat, rows: nat, top: nat, unique: seq<int>,
                           tiles: seq<TileMapping>, band: seq<TileMapping>, width: nat)
    requires tex.NumTilesWidth > 0 && cols >= 1 && cols * rows >= |unique|
    requires cols * tex.TileWidth <= width
    requires PackedBand(tex, cols, top, unique, band)
    ensures BandAppended(tiles, tiles + band, width, top, top + rows * tex.TileHeight)
  {
    PackedBandLaysOut(tex, cols, rows, top, unique, band, width);
    AppendedBand(tiles, band, width, top, top + rows * tex.TileHeight);
  }

  /**
   * `after` is `before` followed by a band of tiles inside
   * [0, width) x [top, bottom) that do not overlap one another.
   */
  predicate BandAppended(before: seq<TileMapping>, after: seq<TileMapping>, width: int, top: int, bottom: int) {
    |before| <= |after| && after[..|before|] == before &&
    (forall k :: |before| <= k < |after| ==> Inside(after[k].SourceTile, width, top, bottom)) &&
    (forall i, j :: |before| <= i < j < |after| ==> Disjoint(after[i].SourceTile, after[j].SourceTile))
  }

  lemma AppendedBand(tiles: seq<TileMapping>, band: seq<TileMapping>, width: int, top: int, bottom: int)
    requires forall k :: 0 <= k < |band| ==> Inside(band[k].SourceTile, width, top, bottom)
    requires SourcesDisjoint(band)
    ensures BandAppended(tiles, tiles + band, width, top, bottom)
  {
    assert forall k :: |tiles| <= k < |tiles + band| ==> (tiles + band)[k] == band[k - |tiles|];
  }

  /**
   * What every planned sheet satisfies: it is filed under the row's path,
   * its height is SourceHeight plus the reserved AdditionalHeight, its bands
   * start at InitialHeight, and its source rectangles lie within
   * [0, Width) x [InitialHeight, SourceHeight) without overlapping.
   */
  predicate SheetInvariants(info: EntityMappingInfo, m: EntityMapping) {
    m.EntityPath == info.EntityPath && m.SourceSheet.Path == info.EntityPath &&
    m.SourceSheet.Size.Height == m.SourceHeight + info.AdditionalHeight &&
    info.InitialHeight <= m.SourceHeight &&
    (forall i :: 0 <= i < |m.SourceSheet.TileMap| ==>
      Inside(m.SourceSheet.TileMap[i].SourceTile, m.SourceSheet.Size.Width, info.InitialHeight, m.SourceHeight)) &&
    SourcesDisjoint(m.SourceSheet.TileMap)
  }

  /**
   * Tiles laid out in [top, mid), followed by a band laid out in [mid,
   * bottom), are laid out in [top, bottom) and still do not overlap.
   */
  lemma StackBand(before: seq<TileMapping>, after: seq<TileMapping>, w0: int, w1: int, top: int, mid: int, bottom: int)
    requires forall i :: 0 <= i < |before| ==> Inside(before[i].SourceTile, w0, top, mid)
    requires SourcesDisjoint(before) && BandAppended(before, after, w1, mid, bottom)
    requires w0 <= w1 && top <= mid <= bottom
    ensures forall i :: 0 <= i < |after| ==> Inside(after[i].SourceTile, w1, top, bottom)
    ensures SourcesDisjoint(after)
  {
    forall i | 0 <= i < |after|
      ensures Inside(after[i].SourceTile, w1, top, bottom)
    {
      if i < |before| { assert after[i] == before[i]; }
    }
    forall i, j | 0 <= i < j < |after|
      ensures Disjoint(after[i].SourceTile, after[j].SourceTile)
    {
      if j < |before| {
        assert after[i] == before[i] && after[j] == before[j];
      } else if i < |before| {
        assert after[i] == before[i];
        assert after[i].SourceTile.Bottom <= mid <= after[j].SourceTile.Top;
      }
    }
  }

  /** The sheet after a static entity's single tile is laid out below `tiles` and `size`. */
  function PlacedStatic(e: EntityData, tex: TextureData, tiles: seq<TileMapping>, size: SheetSize): Layout
    requires tex.NumTilesWidth > 0
  {
    Layout(tiles + [TileMapping(Tile(0, size.Height, tex.TileWidth, tex.TileHeight + size.Height),
                                AtlasTile(tex, e.TileY * tex.NumTilesWidth + e.TileX))],
           SheetSize(Max(size.Width, tex.TileWidth), size.Height + tex.TileHeight))
  }

  /** The sheet after an animated entity's packed grid is laid out below `tiles` and `size`. */
  function PlacedAnimated(e: EntityData, tex: TextureData, tiles: seq<TileMapping>, size: SheetSize): Layout
    requires EntityReady(e) && e.Animations != [] && tex.NumTilesWidth > 0
  {
    var unique := UniqueTiles(e);
    var cols := CeilSqrt(|unique|);
    assert cols >= 1;
    Layout(tiles + Band(tex, cols, size.Height, unique), GrownSize(size, tex, cols, CeilDiv(|unique|, cols)))
  }

  /**
   * The sheet after the band of one named entity is laid out below `tiles`
   * and `size`: unchanged for a missing entity or texture, one tile for a
   * static entity, the packed grid of unique tiles for an animated one.
   */
  function Placed(name: string, entities: Entities, textures: Textures, tiles: seq<TileMapping>, size: SheetSize): Layout
    requires Placeable(name, entities, textures)
  {
    if !Resolves(name, entities, textures) then Layout(tiles, size)
    else
      var e := entities[name];
      var tex := textures[e.TextureId];
      if e.Animations == [] then PlacedStatic(e, tex, tiles, size) else PlacedAnimated(e, tex, tiles, size)
  }

  /** A static entity's tile lies in a new band of one tile height, at least one tile wide. */
  lemma PlacedStaticBand(e: EntityData, tex: TextureData, tiles: seq<TileMapping>, size: SheetSize)
    requires tex.NumTilesWidth > 0
    ensures var r := PlacedStatic(e, tex, tiles, size);
      r.Size.Width >= size.Width && r.Size.Height >= size.Height &&
      BandAppended(tiles, r.Tiles, r.Size.Width, size.Height, r.Size.Height)
  {
    var r := PlacedStatic(e, tex, tiles, size);
    AppendedBand(tiles, r.Tiles[|tiles|..], r.Size.Width, size.Height, r.Size.Height);
    assert tiles + r.Tiles[|tiles|..] == r.Tiles;
  }

  /** An animated entity's grid lies in a new band of `rows` tile heights, without overlaps. */
  lemma PlacedAnimatedBand(e: EntityData, tex: TextureData, tiles: seq<TileMapping>, size: SheetSize)
    requires EntityReady(e) && e.Animations != [] && tex.NumTilesWidth > 0
    ensures var r := PlacedAnimated(e, tex, tiles, size);
      r.Size.Width >= size.Width && r.Size.Height >= size.Height &&
      BandAppended(tiles, r.Tiles, r.Size.Width, size.Height, r.Size.Height)
  {
    var unique := UniqueTiles(e);
    var cols := CeilSqrt(|unique|);
    var rows := CeilDiv(|unique|, cols);
    var band := Band(tex, cols, size.Height, unique);
    var width := GrownSize(size, tex, cols, rows).Width;
    PackedBandIsBand(tex, cols, size.Height, unique, band);
    PackedBandAppended(tex, cols, rows, size.Height, unique, tiles, band, width);
  }

  /**
   * One entity's band never shrinks the sheet, keeps the earlier tiles, and
   * lies below them: inside [0, new Width) x [old Height, new Height),
   * without overlaps.
   */
  lemma PlacedBand(name: string, entities: Entities, textures: Textures, tiles: seq<TileMapping>, size: SheetSize)
    requires Placeable(name, entities, textures)
    ensures var r := Placed(name, entities, textures, tiles, size);
      r.Size.Width >= size.Width && r.Size.Height >= size.Height &&
      BandAppended(tiles, r.Tiles, r.Size.Width, size.Height, r.Size.Height)
  {
    if Resolves(name, entities, textures) {
      var e := entities[name];
      var tex := textures[e.TextureId];
      if e.Animations == [] {
        PlacedStaticBand(e, tex, tiles, size);
      } else {
        PlacedAnimatedBand(e, tex, tiles, size);
      }
    }
  }

  /** The sheet after the bands of all `names`, placed in order below `start`. */
  function PlacedAll(names: seq<string>, entities: Entities, textures: Textures, start: Layout): Layout
    requires forall name :: name in names ==> Placeable(name, entities, textures)
  {
    if names == [] then start
    else
      var before := PlacedAll(names[..|names| - 1], entities, textures, start);
      Placed(names[|names| - 1], entities, textures, before.Tiles, before.Size)
  }

  /**
   * Bands stacked from an empty sheet of height h0 stay within [0, Width) x
   * [h0, Height) and do not overlap; when no name resolves, nothing changes.
   */
  lemma {:induction false} PlacedAllLaidOut(names: seq<string>, entities: Entities, textures: Textures, h0: nat)
    requires forall name :: name in names ==> Placeable(name, entities, textures)
    ensures var r := PlacedAll(names, entities, textures, Layout([], SheetSize(0, h0)));
      h0 <= r.Size.Height &&
      (forall i :: 0 <= i < |r.Tiles| ==> Inside(r.Tiles[i].SourceTile, r.Size.Width, h0, r.Size.Height)) &&
      SourcesDisjoint(r.Tiles) &&
      ((forall name :: name in names ==> !Resolves(name, entities, textures)) ==> r == Layout([], SheetSize(0, h0)))
  {
    if names != [] {
      var init := names[..|names| - 1];
      var last := names[|names| - 1];
      assert forall name :: name in init ==> name in names;
      PlacedAllLaidOut(init, entities, textures, h0);
      var before := PlacedAll(init, entities, textures, Layout([], SheetSize(0, h0)));
      var after := Placed(last, entities, textures, before.Tiles, before.Size);
      PlacedBand(last, entities, textures, before.Tiles, before.Size);
      StackBand(before.Tiles, after.Tiles, before.Size.Width, after.Size.Width, h0, before.Size.Height, after.Size.Height);
    }
  }

  /**
   * The planned mapping of one table row: start from width 0 and height
   * InitialHeight, place every named entity in order, then reserve
   * AdditionalHeight below the bands and record where they end.
   */
  function Plan(info: EntityMappingInfo, entities: Entities, textures: Textures): EntityMapping
    requires forall name :: name in info.EntityNames ==> Placeable(name, entities, textures)
  {
    var bands := PlacedAll(info.EntityNames, entities, textures, Layout([], SheetSize(0, info.InitialHeight)));
    var size := SheetSize(bands.Size.Width, bands.Size.Height + info.AdditionalHeight);
    EntityMapping(info.EntityPath, SourceSheet(info.EntityPath, size, bands.Tiles), size.Height - info.AdditionalHeight)
  }

  /**
   * Every planned mapping satisfies the sheet invariants, and a row none of
   * whose names resolves gets an empty sheet of width 0 and height
   * InitialHeight + AdditionalHeight.
   */
  lemma PlanInvariants(info: EntityMappingInfo, entities: Entities, textures: Textures)
    requires forall name :: name in info.EntityNames ==> Placeable(name, entities, textures)
    ensures SheetInvariants(info, Plan(info, entities, textures))
    ensures (forall name :: name in info.EntityNames ==> !Resolves(name, entities, textures)) ==>
      var m := Plan(info, entities, textures);
      m.SourceSheet.TileMap == [] && m.SourceSheet.Size == SheetSize(0, info.InitialHeight + info.AdditionalHeight)
  {
    PlacedAllLaidOut(info.EntityNames, entities, textures, info.InitialHeight);
  }

  /**
   * Plans the virtual sheet of one table row, walking its entity names in
   * order.
   */
  method PlanSheet(info: EntityMappingInfo, entities: Entities, textures: Textures) returns (m: EntityMapping)
    requires forall name :: name in info.EntityNames ==> Placeable(name, entities, textures)
    ensures m == Plan(info, entities, textures)
    ensures SheetInvariants(info, m)
  {
    var size := SheetSize(0, info.InitialHeight);
    var tileMap: seq<TileMapping> := [];
    ghost var start := Layout(tileMap, size);
    for n := 0 to |info.EntityNames|
      invariant Layout(tileMap, size) == PlacedAll(info.EntityNames[..n], entities, textures, start)
    {
      assert info.EntityNames[..n + 1][..n] == info.EntityNames[..n];
      tileMap, size := PlaceEntity(info.EntityNames[n], entities, textures, tileMap, size);
    }
    assert info.EntityNames[..|info.EntityNames|] == info.EntityNames;
    size := SheetSize(size.Width, size.Height + info.AdditionalHeight);
    m := EntityMapping(info.EntityPath, SourceSheet(info.EntityPath, size, tileMap), size.Height - info.AdditionalHeight);
    PlanInvariants(info, entities, textures);
  }

  // ---------------------------------------------------------------------
  // Lookups
  // ---------------------------------------------------------------------

  /** Index i holds the first stored mapping whose EntityPath is `path`. */
  predicate FirstMatch(ms: seq<EntityMapping>, path: string, i: int) {
    0 <= i < |ms| && ms[i].EntityPath == path && forall j :: 0 <= j < i ==> ms[j].EntityPath != path
  }

  /** There is only one first match. */
  lemma FirstMatchUnique(ms: seq<EntityMapping>, path: string, i: nat)
    requires FirstMatch(ms, path, i)
    ensures forall j :: FirstMatch(ms, path, j) ==> j == i
  {
  }

  /** algo::find over the stored mappings, searching from index `from`. */
  function FindMappingFrom(ms: seq<EntityMapping>, path: string, from: nat): (r: Option<nat>)
    requires from <= |ms|
    requires forall j :: 0 <= j < from ==> ms[j].EntityPath != path
    ensures r.None? <==> forall j :: 0 <= j < |ms| ==> ms[j].EntityPath != path
    ensures r.Some? ==> FirstMatch(ms, path, r.value)
    decreases |ms| - from
  {
    if from == |ms| then None
    else if ms[from].EntityPath == path then Some(from)
    else FindMappingFrom(ms, path, from + 1)
  }

  /** The same rectangle, dy pixels further down. */
  function MovedDown(t: Tile, dy: int): Tile {
    t.(Top := t.Top + dy, Bottom := t.Bottom + dy)
  }

  /**
   * The entity data extractor: the planned mappings, in table order.  The
   * table may name a sheet more than once; lookups take the first.
   */
  class EntityDataExtractor {
    var Mappings: seq<EntityMapping>

    constructor ()
      ensures Mappings == []
    {
      Mappings := [];
    }

    /** Plans one sheet per table row and appends it to the stored mappings. */
    method PreloadEntityMappings(table: seq<EntityMappingInfo>, entities: Entities, textures: Textures)
      requires forall i, name :: 0 <= i < |table| && name in table[i].EntityNames ==> Placeable(name, entities, textures)
      modifies this
      ensures |Mappings| == |old(Mappings)| + |table|
      ensures Mappings[..|old(Mappings)|] == old(Mappings)
      ensures forall i :: 0 <= i < |table| ==> Mappings[|old(Mappings)| + i] == Plan(table[i], entities, textures)
      ensures forall i :: 0 <= i < |table| ==> SheetInvariants(table[i], Mappings[|old(Mappings)| + i])
    {
      ghost var start := Mappings;
      for i := 0 to |table|
        invariant |Mappings| == |start| + i && Mappings[..|start|] == start
        invariant forall k :: 0 <= k < i ==> Mappings[|start| + k] == Plan(table[k], entities, textures)
        invariant forall k :: 0 <= k < i ==> SheetInvariants(table[k], Mappings[|start| + k])
      {
        var mapping := PlanSheet(table[i], entities, textures);
        Mappings := Mappings + [mapping];
      }
    }

    /** The planned sheet of the first mapping filed under `sheet`, or none. */
    function GetEntitySourceSheet(sheet: string): (r: Option<SourceSheet>)
      reads this
      ensures r.None? <==> forall i :: 0 <= i < |Mappings| ==> Mappings[i].EntityPath != sheet
      ensures forall i :: FirstMatch(Mappings, sheet, i) ==> r == Some(Mappings[i].SourceSheet)
    {
      match FindMappingFrom(Mappings, sheet, 0)
      case None => None
      case Some(i) =>
        FirstMatchUnique(Mappings, sheet, i);
        Some(Mappings[i].SourceSheet)
    }

    /**
     * A one-tile sheet that moves a user tile given relative to the reserved
     * region down by SourceHeight, into that region; the target is kept.
     */
    function GetAdditionalMapping(sheet: string, relativeSourceTile: Tile, targetTile: Tile): (r: Option<SourceSheet>)
      reads this
      ensures r.None? <==> forall i :: 0 <= i < |Mappings| ==> Mappings[i].EntityPath != sheet
      ensures forall i :: FirstMatch(Mappings, sheet, i) ==>
        r == Some(SourceSheet(sheet, Mappings[i].SourceSheet.Size,
                              [TileMapping(MovedDown(relativeSourceTile, Mappings[i].SourceHeight), targetTile)]))
    {
      match FindMappingFrom(Mappings, sheet, 0)
      case None => None
      case Some(i) =>
        FirstMatchUnique(Mappings, sheet, i);
        var mapping := Mappings[i];
        Some(SourceSheet(sheet, mapping.SourceSheet.Size,
                         [TileMapping(MovedDown(relativeSourceTile, mapping.SourceHeight), targetTile)]))
    }
  }

  /**
   * A tile given within [0, Width) x [0, AdditionalHeight), once moved down
   * by SourceHeight, lies in the reserved region of the sheet and overlaps
   * no planned tile.
   */
  lemma AdditionalTileInReservedBand(info: EntityMappingInfo, m: EntityMapping, relative: Tile)
    requires SheetInvariants(info, m)
    requires Inside(relative, m.SourceSheet.Size.Width, 0, info.AdditionalHeight)
    ensures var shifted := MovedDown(relative, m.SourceHeight);
      Inside(shifted, m.SourceSheet.Size.Width, m.SourceHeight, m.SourceSheet.Size.Height) &&
      forall i :: 0 <= i < |m.SourceSheet.TileMap| ==> Disjoint(m.SourceSheet.TileMap[i].SourceTile, shifted)
  {
  }

  /**
   * A worked example: a static entity at grid cell (3, 1) of an 8-wide atlas
   * of 128-pixel tiles offset by (16, 32), planned into a sheet with 100
   * reserved pixels.
   */
  lemma StaticEntityScenario()
    ensures var info := EntityMappingInfo("p.png", ["ENT_X"], 100, 0);
      var entities := map["ENT_X" := EntityData(0, [], 0, 3, 1)];
      var textures := map[0 := TextureData("", 0, 0, 8, 0, 128, 128, 16, 32)];
      Plan(info, entities, textures) ==
        EntityMapping("p.png", SourceSheet("p.png", SheetSize(128, 228),
          [TileMapping(Tile(0, 0, 128, 128), Tile(400, 160, 528, 288))]), 128)
  {
  }
}

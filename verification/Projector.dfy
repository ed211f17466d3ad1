/** The client side of the mirror (RemoteDesktop/projector.c): the screen is compared
    tile by tile with the last one sent, and a box around each tile's changes is sent. */
module Projection {
  import opened Frames

  const TILE := 128
  const FAR := 9999

  /** A box of pixels, as the server sees it once the payload is decoded. */
  datatype Region = Region(x: int, y: int, width: int, height: int, pixels: seq<Pixel>)

  predicate ValidRegion(r: Region, w: nat, h: nat) {
    && 0 <= r.x && 0 <= r.y && 0 < r.width && 0 < r.height && r.x + r.width <= w && r.y + r.height <= h
    && Sized(r.pixels, r.width, r.height)
  }

  predicate Covered(r: Region, x: int, y: int) {
    r.x <= x < r.x + r.width && r.y <= y < r.y + r.height
  }

  /** The payload's pixel for a place on the screen. */
  function Payload(r: Region, w: nat, h: nat, x: int, y: int): Pixel
    requires ValidRegion(r, w, h) && Covered(r, x, y)
  {
    Px(r.pixels, r.width, r.height, x - r.x, y - r.y)
  }

  ghost predicate IsCopy(r: Region, img: seq<Pixel>, w: nat, h: nat)
    requires ValidRegion(r, w, h) && Sized(img, w, h)
  {
    forall x, y :: OnScreen(w, h, x, y) && Covered(r, x, y) ==> Payload(r, w, h, x, y) == Px(img, w, h, x, y)
  }

  datatype Rect = Rect(x: int, y: int, width: int, height: int)

  /** Boxes are widened to nine pixels, to the right unless the edge is near. */
  function Grown(lo: int, hi: int, limit: int): (int, int) {
    if hi - lo >= 8 then (lo, hi)
    else if hi < limit - 8 then (lo, hi + (8 - (hi - lo)))
    else (lo - (8 - (hi - lo)), hi)
  }

  /** The widened box still covers the changes, and it stays on the screen exactly if
      the screen has at least 16 pixels in that direction. */
  lemma {:induction false} GrownOnScreen(limit: int)
    requires limit > 0
    ensures (forall lo, hi {:trigger Grown(lo, hi, limit)} :: 0 <= lo <= hi < limit ==>
               0 <= Grown(lo, hi, limit).0 <= lo && hi <= Grown(lo, hi, limit).1 < limit)
            <==> limit >= 16
  {
    if limit < 16 {
      var x := if limit < 8 then 0 else limit - 8;
      assert Grown(x, x, limit).0 < 0;
    }
  }

  /** The part of a tile that is on the screen. */
  function Tile(w: nat, h: nat, x: nat, y: nat): Rect {
    Rect(x, y, if x + TILE > w then w - x else TILE, if y + TILE > h then h - y else TILE)
  }

  /** A payload filled up to column x of row y. */
  ghost predicate CopiedTo(w: nat, h: nat, img: seq<Pixel>, r: Region, x: int, y: int)
    requires Sized(img, w, h) && ValidRegion(r, w, h)
  {
    forall u, v :: OnScreen(w, h, u, v) && Covered(r, u, v) && (v - r.y < y || (v - r.y == y && u - r.x < x)) ==>
      Payload(r, w, h, u, v) == Px(img, w, h, u, v)
  }

  // ----- one comparison: the screen against the pixels sent last

  datatype Comparison = Comparison(w: nat, h: nat, screen: seq<Pixel>, before: seq<Pixel>)

  function Row(x0: int, x1: int, y: int): Rect {
    Rect(x0, y, x1 - x0, 1)
  }

  datatype Bounds = Bounds(minX: int, minY: int, maxX: int, maxY: int)

  predicate SameSize(c: Comparison) {
    Sized(c.screen, c.w, c.h) && Sized(c.before, c.w, c.h)
  }

  predicate Inside(c: Comparison, t: Rect) {
    0 <= t.x && 0 <= t.y && 0 <= t.width && 0 <= t.height && t.x + t.width <= c.w && t.y + t.height <= c.h
  }

  predicate InRect(t: Rect, x: int, y: int) {
    t.x <= x < t.x + t.width && t.y <= y < t.y + t.height
  }

  predicate Differs(c: Comparison, x: int, y: int)
    requires SameSize(c) && OnScreen(c.w, c.h, x, y)
  {
    Px(c.screen, c.w, c.h, x, y) != Px(c.before, c.w, c.h, x, y)
  }

  predicate DiffersIn(c: Comparison, t: Rect, x: int, y: int)
    requires SameSize(c)
  {
    OnScreen(c.w, c.h, x, y) && InRect(t, x, y) && Differs(c, x, y)
  }

  predicate DiffersAt(c: Comparison, x0: int, x1: int, y: int, x: int)
    requires SameSize(c)
  {
    OnScreen(c.w, c.h, x, y) && x0 <= x < x1 && Differs(c, x, y)
  }

  /** `now` has the screen's pixels in the rectangle, and the earlier ones elsewhere. */
  ghost predicate Copied(c: Comparison, t: Rect, now: seq<Pixel>)
    requires SameSize(c) && Sized(now, c.w, c.h)
  {
    forall x, y :: OnScreen(c.w, c.h, x, y) ==>
      Px(now, c.w, c.h, x, y) == if InRect(t, x, y) then Px(c.screen, c.w, c.h, x, y) else Px(c.before, c.w, c.h, x, y)
  }

  ghost predicate ColumnDiffers(c: Comparison, t: Rect, x: int)
    requires SameSize(c)
  {
    exists y :: DiffersIn(c, t, x, y)
  }

  ghost predicate RowDiffers(c: Comparison, t: Rect, y: int)
    requires SameSize(c)
  {
    exists x :: DiffersIn(c, t, x, y)
  }

  /** The bounds cover all differences, and each is the coordinate of one, unless it still
      has its initial value. */
  ghost predicate Extent(c: Comparison, t: Rect, b: Bounds)
    requires SameSize(c)
  {
    && (forall x, y :: DiffersIn(c, t, x, y) ==> b.minX <= x <= b.maxX && b.minY <= y <= b.maxY)
    && b.minX <= FAR && b.minY <= FAR
    && (b.minX < FAR ==> ColumnDiffers(c, t, b.minX)) && (b.minY < FAR ==> RowDiffers(c, t, b.minY))
    && (b.maxX != -1 ==> ColumnDiffers(c, t, b.maxX)) && (b.maxY != -1 ==> RowDiffers(c, t, b.maxY))
  }

  /** The least box around the differences of a tile with one left of column 9999. Its top
      is row 9999 at most. */
  ghost predicate Spans(c: Comparison, t: Rect, b: Bounds)
    requires SameSize(c)
  {
    && (forall x, y :: DiffersIn(c, t, x, y) ==> b.minX <= x <= b.maxX && b.minY <= y <= b.maxY)
    && b.minX < FAR && ColumnDiffers(c, t, b.minX) && ColumnDiffers(c, t, b.maxX)
    && b.minY <= FAR && (b.minY == FAR || RowDiffers(c, t, b.minY)) && RowDiffers(c, t, b.maxY)
  }

  /** A region is the least box, grown. */
  predicate IsGrown(r: Region, b: Bounds, w: int, h: int) {
    && (r.x, r.x + r.width - 1) == Grown(b.minX, b.maxX, w)
    && (r.y, r.y + r.height - 1) == Grown(b.minY, b.maxY, h)
  }

  ghost predicate BoxOf(c: Comparison, t: Rect, r: Region)
    requires SameSize(c)
  {
    exists b :: Spans(c, t, b) && IsGrown(r, b, c.w, c.h)
  }

  /** What is sent of a tile: at least nine pixels a side, and no more than the changes call
      for. */
  lemma {:induction false} BoxIsTight(c: Comparison, t: Rect, r: Region)
    requires SameSize(c) && BoxOf(c, t, r)
    ensures r.width >= 9 && r.height >= 9
    ensures r.width > 9 ==> ColumnDiffers(c, t, r.x) && ColumnDiffers(c, t, r.x + r.width - 1)
    ensures r.height > 9 ==> (r.y == FAR || RowDiffers(c, t, r.y)) && RowDiffers(c, t, r.y + r.height - 1)
    ensures r.width == 9 ==> exists x :: r.x <= x < r.x + 9 && ColumnDiffers(c, t, x)
    ensures r.height == 9 ==> exists y :: r.y <= y < r.y + 9 && RowDiffers(c, t, y)
  {
    var b :| Spans(c, t, b) && IsGrown(r, b, c.w, c.h);
    hide ColumnDiffers, RowDiffers, DiffersIn;
    SpansOrdered(c, t, b);
    assert r.width == 9 ==> r.x <= b.minX <= b.maxX < r.x + 9;
    assert r.height == 9 ==> r.y <= b.minY <= b.maxY < r.y + 9;
  }

  lemma {:induction false} SpansOrdered(c: Comparison, t: Rect, b: Bounds)
    requires SameSize(c) && Spans(c, t, b)
    ensures 0 <= b.minX <= b.maxX < c.w && 0 <= b.minY <= b.maxY < c.h
  {
    hide Differs;
    var y0 :| DiffersIn(c, t, b.minX, y0);
    var y1 :| DiffersIn(c, t, b.maxX, y1);
    var x1 :| DiffersIn(c, t, x1, b.maxY);
    if b.minY < FAR {
      var x0 :| DiffersIn(c, t, x0, b.minY);
    }
  }

  /** Two rectangles one above the other. */
  lemma {:induction false} CopiedBelow(c: Comparison, t: Rect, mid: seq<Pixel>, now: seq<Pixel>)
    requires SameSize(c) && Sized(mid, c.w, c.h) && Sized(now, c.w, c.h) && t.height >= 0
    requires Copied(c, t, mid) && Copied(c.(before := mid), Row(t.x, t.x + t.width, t.y + t.height), now)
    ensures Copied(c, t.(height := t.height + 1), now)
  {
    hide Px;
  }

  // ----- the tiles

  datatype TileNo = TileNo(x: nat, y: nat)

  /** Row by row. */
  predicate Earlier(a: TileNo, b: TileNo) {
    a.y < b.y || (a.y == b.y && a.x < b.x)
  }

  function TileAt(c: Comparison, n: TileNo): Rect {
    Tile(c.w, c.h, n.x * TILE, n.y * TILE)
  }

  ghost predicate NearChange(c: Comparison, n: TileNo)
    requires SameSize(c)
  {
    exists x, y :: DiffersIn(c, TileAt(c, n), x, y) && x < FAR
  }

  /** The boxes of some tiles, in order. */
  ghost predicate Boxes(c: Comparison, tiles: seq<TileNo>, regions: seq<Region>)
    requires SameSize(c)
  {
    && |tiles| == |regions| && (forall i :: 0 <= i < |tiles| ==> BoxOf(c, TileAt(c, tiles[i]), regions[i]))
    && forall i, j :: 0 <= i < j < |tiles| ==> Earlier(tiles[i], tiles[j])
  }

  /** Of the tiles before `next`, those with a change left of column 9999. */
  ghost predicate ChangedTiles(c: Comparison, tiles: seq<TileNo>, next: TileNo)
    requires SameSize(c)
  {
    forall n :: n in tiles <==> n.x < Projector.Blocks(c.w) && n.y < Projector.Blocks(c.h) && Earlier(n, next) && NearChange(c, n)
  }

  /** Tiles do not overlap: what is left of this one is as it was. */
  lemma {:induction false} NextBox(c: Comparison, mid: Comparison, tiles: seq<TileNo>, regions: seq<Region>, n: TileNo, sent: bool, r: Region)
    requires SameSize(c) && SameSize(mid) && mid == c.(before := mid.before) && Progress(c, mid.before, n.x, n.y)
    requires n.x < Projector.Blocks(c.w) && n.y < Projector.Blocks(c.h)
    requires Boxes(c, tiles, regions) && ChangedTiles(c, tiles, n)
    requires sent <==> exists x, y :: DiffersIn(mid, Tile(c.w, c.h, n.x * TILE, n.y * TILE), x, y) && x < FAR
    requires sent ==> BoxOf(mid, Tile(c.w, c.h, n.x * TILE, n.y * TILE), r)
    ensures var more := if sent then tiles + [n] else tiles;
            Boxes(c, more, if sent then regions + [r] else regions) && ChangedTiles(c, more, n.(x := n.x + 1))
  {
    hide DiffersIn, Tile, Progress, Boxes, ChangedTiles, Projector.Blocks, BoxOf, NearChange;
    var t := TileAt(c, n);
    SameInTile(c, mid, n);
    SameNear(c, mid, n, t);
    if sent {
      SameBox(c, mid, t, r);
    }
    AllBefore(c, tiles, n);
    AppendBox(c, tiles, regions, n, r);
    NextChanged(c, tiles, n);
  }

  lemma {:induction false} SameNear(c: Comparison, mid: Comparison, n: TileNo, t: Rect)
    requires SameSize(c) && SameSize(mid) && t == TileAt(c, n)
    requires forall x, y :: DiffersIn(mid, t, x, y) <==> DiffersIn(c, t, x, y)
    ensures NearChange(c, n) <==> exists x, y :: DiffersIn(mid, t, x, y) && x < FAR
  {
    hide DiffersIn, TileAt;
  }

  lemma {:induction false} AllBefore(c: Comparison, tiles: seq<TileNo>, n: TileNo)
    requires SameSize(c) && ChangedTiles(c, tiles, n)
    ensures forall i :: 0 <= i < |tiles| ==> Earlier(tiles[i], n)
  {
    hide NearChange, Projector.Blocks;
    forall i | 0 <= i < |tiles|
      ensures Earlier(tiles[i], n)
    {
      assert tiles[i] in tiles;
    }
  }

  lemma {:induction false} AppendBox(c: Comparison, tiles: seq<TileNo>, regions: seq<Region>, n: TileNo, r: Region)
    requires SameSize(c) && Boxes(c, tiles, regions) && forall i :: 0 <= i < |tiles| ==> Earlier(tiles[i], n)
    ensures BoxOf(c, TileAt(c, n), r) ==> Boxes(c, tiles + [n], regions + [r])
  {
    hide BoxOf, TileAt;
  }

  lemma {:induction false} NextChanged(c: Comparison, tiles: seq<TileNo>, n: TileNo)
    requires SameSize(c) && ChangedTiles(c, tiles, n) && n.x < Projector.Blocks(c.w) && n.y < Projector.Blocks(c.h)
    ensures ChangedTiles(c, if NearChange(c, n) then tiles + [n] else tiles, n.(x := n.x + 1))
  {
    hide NearChange, Projector.Blocks;
    var next := n.(x := n.x + 1);
    assert forall m :: Earlier(m, next) <==> Earlier(m, n) || m == n;
  }

  lemma {:induction false} SameBox(c: Comparison, mid: Comparison, t: Rect, r: Region)
    requires SameSize(c) && SameSize(mid) && mid == c.(before := mid.before) && BoxOf(mid, t, r)
    requires forall x, y :: DiffersIn(mid, t, x, y) <==> DiffersIn(c, t, x, y)
    ensures BoxOf(c, t, r)
  {
    var b :| Spans(mid, t, b) && IsGrown(r, b, mid.w, mid.h);
    hide IsGrown;
    SameSpans(c, mid, t, b);
  }

  lemma {:induction false} SameInTile(c: Comparison, mid: Comparison, n: TileNo)
    requires SameSize(c) && SameSize(mid) && mid == c.(before := mid.before) && Progress(c, mid.before, n.x, n.y)
    ensures forall x, y :: DiffersIn(mid, TileAt(c, n), x, y) <==> DiffersIn(c, TileAt(c, n), x, y)
  {
    hide Px;
  }

  lemma {:induction false} SameSpans(c: Comparison, mid: Comparison, t: Rect, b: Bounds)
    requires SameSize(c) && SameSize(mid) && Spans(mid, t, b)
    requires forall x, y :: DiffersIn(mid, t, x, y) <==> DiffersIn(c, t, x, y)
    ensures Spans(c, t, b)
  {
    hide DiffersIn;
    forall x
      ensures ColumnDiffers(mid, t, x) ==> ColumnDiffers(c, t, x)
    {
    }
    forall y
      ensures RowDiffers(mid, t, y) ==> RowDiffers(c, t, y)
    {
    }
  }

  lemma {:induction false} NextTileRow(c: Comparison, tiles: seq<TileNo>, y: nat)
    requires SameSize(c) && ChangedTiles(c, tiles, TileNo(Projector.Blocks(c.w), y))
    ensures ChangedTiles(c, tiles, TileNo(0, y + 1))
  {
    hide NearChange, Projector.Blocks;
  }

  class Projector {
    const scrWidth: nat
    const scrHeight: nat
    const compareBuf: array<Pixel>
    var minX: int
    var minY: int
    var maxX: int
    var maxY: int

    ghost predicate Valid()
      reads this, compareBuf
    {
      compareBuf.Length == scrWidth * scrHeight
    }

    ghost function Against(fb: array<Pixel>): (c: Comparison)
      requires Valid() && fb.Length == scrWidth * scrHeight
      reads this, compareBuf, fb
      ensures SameSize(c)
    {
      Comparison(scrWidth, scrHeight, fb[..], compareBuf[..])
    }

    constructor (w: nat, h: nat)
      ensures Valid() && fresh(compareBuf) && scrWidth == w && scrHeight == h
      ensures forall i :: 0 <= i < compareBuf.Length ==> compareBuf[i] == 0
    {
      scrWidth, scrHeight := w, h;
      compareBuf := new Pixel[w * h](_ => 0);
      minX, minY, maxX, maxY := FAR, FAR, -1, -1;
    }

    /** One row of a tile. */
    method DiffRow(fb: array<Pixel>, x0: nat, x1: nat, y: nat) returns (changed: bool)
      requires Valid() && fb.Length == scrWidth * scrHeight && fb != compareBuf
      requires x0 <= x1 <= scrWidth && y < scrHeight
      modifies compareBuf, `minX, `maxX
      ensures fb[..] == old(fb[..]) && Copied(old(Against(fb)), Row(x0, x1, y), compareBuf[..])
      ensures changed <==> exists x :: DiffersAt(old(Against(fb)), x0, x1, y, x)
      ensures forall x :: DiffersAt(old(Against(fb)), x0, x1, y, x) ==> minX <= x <= maxX
      ensures minX <= old(minX) && maxX >= old(maxX)
      ensures minX == old(minX) || DiffersAt(old(Against(fb)), x0, x1, y, minX)
      ensures maxX == old(maxX) || DiffersAt(old(Against(fb)), x0, x1, y, maxX)
    {
      hide Index, Px, DiffersAt, Differs, Copied;
      changed := false;
      ghost var c := Against(fb);
      NoneYet(c, x0, y);
      for x := x0 to x1
        invariant fb[..] == c.screen
        invariant Copied(c, Row(x0, x, y), compareBuf[..])
        invariant changed <==> exists u :: DiffersAt(c, x0, x, y, u)
        invariant forall u :: DiffersAt(c, x0, x, y, u) ==> minX <= u <= maxX
        invariant minX <= old(minX) && maxX >= old(maxX)
        invariant minX == old(minX) || DiffersAt(c, x0, x, y, minX)
        invariant maxX == old(maxX) || DiffersAt(c, x0, x, y, maxX)
      {
        ghost var now := compareBuf[..];
        IndexBound(scrWidth, scrHeight, x, y);
        var i := Index(scrWidth, x, y);
        CopiedNext(c, x0, x, y, now, if now[i] != c.screen[i] then now[i := c.screen[i]] else now);
        DiffersNext(c, x0, x, x + 1, y);
        if fb[i] != compareBuf[i] {
          compareBuf[i] := fb[i];
          changed := true;
          if x < minX {
            minX := x;
          }
          if x > maxX {
            maxX := x;
          }
        }
      }
    }

    /** A tile, clipped to the screen already. */
    method DiffTile(fb: array<Pixel>, t: Rect)
      requires Valid() && fb.Length == scrWidth * scrHeight && fb != compareBuf
      requires Inside(Against(fb), t)
      modifies compareBuf, `minX, `maxX, `minY, `maxY
      ensures fb[..] == old(fb[..]) && Copied(old(Against(fb)), t, compareBuf[..])
      ensures Extent(old(Against(fb)), t, Bounds(minX, minY, maxX, maxY))
    {
      hide Index, Px, Copied, Extent, Differs;
      ghost var c := Against(fb);
      minX, minY, maxX, maxY := FAR, FAR, -1, -1;
      NothingCopied(c, t.(height := 0));
      for y := t.y to t.y + t.height
        invariant fb[..] == c.screen
        invariant Copied(c, t.(height := y - t.y), compareBuf[..])
        invariant Extent(c, t.(height := y - t.y), Bounds(minX, minY, maxX, maxY))
      {
        ghost var mid := Against(fb);
        ghost var b := Bounds(minX, minY, maxX, maxY);
        var changed := DiffRow(fb, t.x, t.x + t.width, y);
        CopiedBelow(c, t.(height := y - t.y), mid.before, compareBuf[..]);
        SameRow(c, t.(height := y - t.y), mid, t.x + t.width, y);
        if changed {
          if y < minY {
            minY := y;
          }
          if y > maxY {
            maxY := y;
          }
        }
        ExtentBelow(c, t.(height := y - t.y), t.x + t.width, b, Bounds(minX, minY, maxX, maxY), y, changed);
      }
    }

    /** The box out of a buffer, row by row. */
    method GetRawScreenData(img: array<Pixel>, regX: nat, regY: nat, regW: nat, regH: nat) returns (r: Region)
      requires img.Length == scrWidth * scrHeight && regW > 0 && regH > 0
      requires regX + regW <= scrWidth && regY + regH <= scrHeight
      ensures r.x == regX && r.y == regY && r.width == regW && r.height == regH
      ensures ValidRegion(r, scrWidth, scrHeight) && IsCopy(r, img[..], scrWidth, scrHeight)
    {
      hide Index, Px;
      var b := new Pixel[regW * regH](_ => 0);
      for y := 0 to regH
        invariant CopiedTo(scrWidth, scrHeight, img[..], Region(regX, regY, regW, regH, b[..]), 0, y)
      {
        for x := 0 to regW
          invariant CopiedTo(scrWidth, scrHeight, img[..], Region(regX, regY, regW, regH, b[..]), x, y)
        {
          ghost var now := b[..];
          IndexBound(regW, regH, x, y);
          IndexBound(scrWidth, scrHeight, regX + x, regY + y);
          PxSet(now, regW, regH, x, y, img[Index(scrWidth, x + regX, y + regY)]);
          PxIs(img[..], scrWidth, scrHeight, x + regX, y + regY);
          b[Index(regW, x, y)] := img[Index(scrWidth, x + regX, y + regY)];
          assert b[..] == now[Index(regW, x, y) := img[Index(scrWidth, x + regX, y + regY)]];
        }
      }
      r := Region(regX, regY, regW, regH, b[..]);
    }

    /** One tile of the screen: `sent` with a box if something changed. The payload is
        taken from the screen when it is compressed as JPEG, from the compare buffer
        otherwise. */
    method ScreenDiff(fb: array<Pixel>, regX: nat, regY: nat, jpeg: bool) returns (sent: bool, region: Region)
      requires Valid() && fb.Length == scrWidth * scrHeight && fb != compareBuf
      requires scrWidth >= 16 && scrHeight >= 16 && regX < scrWidth && regY < scrHeight
      modifies compareBuf, `minX, `maxX, `minY, `maxY
      ensures fb[..] == old(fb[..]) && Copied(old(Against(fb)), Tile(scrWidth, scrHeight, regX, regY), compareBuf[..])
      ensures sent <==> exists x, y :: DiffersIn(old(Against(fb)), Tile(scrWidth, scrHeight, regX, regY), x, y) && x < FAR
      ensures sent ==> ValidRegion(region, scrWidth, scrHeight)
                       && IsCopy(region, if jpeg then fb[..] else compareBuf[..], scrWidth, scrHeight)
      ensures sent ==> forall x, y :: DiffersIn(old(Against(fb)), Tile(scrWidth, scrHeight, regX, regY), x, y) ==> Covered(region, x, y)
      ensures sent ==> BoxOf(old(Against(fb)), Tile(scrWidth, scrHeight, regX, regY), region)
    {
      hide Px, Copied, Extent, Spans, Differs, Sized, IsCopy;
      var regW, regH := TILE, TILE;
      if regX + regW > scrWidth {
        regW := scrWidth - regX;
      }
      if regY + regH > scrHeight {
        regH := scrHeight - regY;
      }
      ghost var c, t := Against(fb), Tile(scrWidth, scrHeight, regX, regY);
      DiffTile(fb, Rect(regX, regY, regW, regH));
      ghost var b := Bounds(minX, minY, maxX, maxY);
      ExtentBounds(c, t, b);
      if minX < FAR {
        maxX := if maxX < 0 then minX else maxX;
        maxY := if maxY < 0 then minY else maxY;
        if maxX - minX < 8 {
          var need := 8 - (maxX - minX);
          if maxX < scrWidth - 8 {
            maxX := maxX + need;
          } else {
            minX := minX - need;
          }
        }
        if maxY - minY < 8 {
          var need := 8 - (maxY - minY);
          if maxY < scrHeight - 8 {
            maxY := maxY + need;
          } else {
            minY := minY - need;
          }
        }
        maxY := if maxY >= scrHeight then scrHeight - 1 else maxY;
        region := GetRawScreenData(if jpeg then fb else compareBuf, minX, minY, maxX - minX + 1, maxY - minY + 1);
        assert IsGrown(region, b, scrWidth, scrHeight);
        return true, region;
      }
      sent, region := false, Region(0, 0, 0, 0, []);
    }

    /** Tiles in a direction: enough to cover it. */
    static function Blocks(size: nat): (n: nat)
      ensures n * TILE >= size && (n > 0 ==> (n - 1) * TILE < size)
    {
      size / TILE + if size > size / TILE * TILE then 1 else 0
    }

    /** One update: the boxes of all changed tiles, in order. Whether a box goes out as
        JPEG depends on how well it compresses, so here on chance. A server that holds
        what was sent before and puts up the boxes in order shows the screen, as far as
        the columns below 9999. A box is sent for exactly the tiles that call for one. */
    method UpdateScreen(fb: array<Pixel>) returns (regions: seq<Region>, ghost tiles: seq<TileNo>)
      requires Valid() && fb.Length == scrWidth * scrHeight && fb != compareBuf
      requires scrWidth >= 16 && scrHeight >= 16
      modifies compareBuf, `minX, `maxX, `minY, `maxY
      ensures Valid() && fb[..] == old(fb[..]) && compareBuf[..] == fb[..]
      ensures AllValid(regions, scrWidth, scrHeight)
      ensures Follows(regions, old(Against(fb)), fb[..])
      ensures (forall x, y :: x < FAR ==> !DiffersIn(old(Against(fb)), Rect(0, 0, scrWidth, scrHeight), x, y)) ==> regions == []
      ensures Boxes(old(Against(fb)), tiles, regions) && ChangedTiles(old(Against(fb)), tiles, TileNo(0, Blocks(scrHeight)))
    {
      hide Px, Copied, Differs, Follows, Progress, IsCopy, Tile, Boxes, ChangedTiles, BoxOf;
      regions, tiles := [], [];
      ghost var c := Against(fb);
      NothingSent(c);
      NoBoxes(c);
      for y := 0 to Blocks(scrHeight)
        invariant fb[..] == c.screen
        invariant AllValid(regions, scrWidth, scrHeight) && Follows(regions, c, compareBuf[..])
        invariant Progress(c, compareBuf[..], 0, y)
        invariant NoNear(c) ==> regions == []
        invariant Boxes(c, tiles, regions) && ChangedTiles(c, tiles, TileNo(0, y))
      {
        for x := 0 to Blocks(scrWidth)
          invariant fb[..] == c.screen
          invariant AllValid(regions, scrWidth, scrHeight) && Follows(regions, c, compareBuf[..])
          invariant Progress(c, compareBuf[..], x, y)
          invariant NoNear(c) ==> regions == []
          invariant Boxes(c, tiles, regions) && ChangedTiles(c, tiles, TileNo(x, y))
        {
          ghost var mid := Against(fb);
          var jpeg := *;
          var sent, region := ScreenDiff(fb, x * TILE, y * TILE, jpeg);
          NextTile(c, mid, compareBuf[..], x, y);
          NextRegion(regions, c, mid, compareBuf[..], Tile(scrWidth, scrHeight, x * TILE, y * TILE), sent, region, jpeg);
          StillNear(c, mid, x, y, sent);
          NextBox(c, mid, tiles, regions, TileNo(x, y), sent, region);
          if sent {
            tiles := tiles + [TileNo(x, y)];
            regions := regions + [region];
          }
        }
        RowOfTiles(c, compareBuf[..], y);
        NextTileRow(c, tiles, y);
      }
      AllTiles(c, compareBuf[..]);
    }
  }

  lemma {:induction false} NoneYet(c: Comparison, x0: int, y: int)
    requires SameSize(c)
    ensures forall u :: !DiffersAt(c, x0, x0, y, u)
    ensures Copied(c, Row(x0, x0, y), c.before)
  {
  }

  lemma {:induction false} DiffersNext(c: Comparison, x0: int, x: int, next: int, y: int)
    requires SameSize(c) && x0 <= x && OnScreen(c.w, c.h, x, y) && next == x + 1
    ensures forall u :: DiffersAt(c, x0, next, y, u) <==> DiffersAt(c, x0, x, y, u) || (u == x && Differs(c, x, y))
    ensures DiffersAt(c, x0, next, y, x) <==> Differs(c, x, y)
  {
    hide Differs;
  }

  lemma {:induction false} NothingCopied(c: Comparison, t: Rect)
    requires SameSize(c) && t.height == 0
    ensures Copied(c, t, c.before) && Extent(c, t, Bounds(FAR, FAR, -1, -1))
  {
  }

  /** The rows above do not matter to the differences of a row. */
  lemma {:induction false} SameRow(c: Comparison, t: Rect, mid: Comparison, x1: int, y: int)
    requires SameSize(c) && mid == c.(before := mid.before) && SameSize(mid) && Copied(c, t, mid.before) && y == t.y + t.height
    ensures forall x :: DiffersAt(mid, t.x, x1, y, x) <==> DiffersAt(c, t.x, x1, y, x)
  {
    hide Px;
  }

  /** The bounds after one more row. */
  lemma {:induction false} ExtentBelow(c: Comparison, t: Rect, x1: int, b: Bounds, b2: Bounds, y: int, changed: bool)
    requires SameSize(c) && Extent(c, t, b) && t.height >= 0 && y == t.y + t.height && 0 <= y && x1 == t.x + t.width
    requires changed <==> exists x :: DiffersAt(c, t.x, x1, y, x)
    requires forall x :: DiffersAt(c, t.x, x1, y, x) ==> b2.minX <= x <= b2.maxX
    requires b2.minX <= b.minX && b2.maxX >= b.maxX
    requires b2.minX == b.minX || DiffersAt(c, t.x, x1, y, b2.minX)
    requires b2.maxX == b.maxX || DiffersAt(c, t.x, x1, y, b2.maxX)
    requires b2.minY == if changed && y < b.minY then y else b.minY
    requires b2.maxY == if changed && y > b.maxY then y else b.maxY
    ensures Extent(c, t.(height := t.height + 1), b2)
  {
    hide Differs;
    var taller := t.(height := t.height + 1);
    forall u, v
      ensures DiffersIn(c, taller, u, v) <==> DiffersIn(c, t, u, v) || (v == y && DiffersAt(c, t.x, x1, y, u))
    {
    }
    forall x
      ensures ColumnDiffers(c, t, x) || DiffersAt(c, t.x, x1, y, x) ==> ColumnDiffers(c, taller, x)
    {
      if ColumnDiffers(c, t, x) {
        var v :| DiffersIn(c, t, x, v);
        assert DiffersIn(c, taller, x, v);
      } else if DiffersAt(c, t.x, x1, y, x) {
        assert DiffersIn(c, taller, x, y);
      }
    }
    forall v
      ensures RowDiffers(c, t, v) || (v == y && changed) ==> RowDiffers(c, taller, v)
    {
      if RowDiffers(c, t, v) {
        var x :| DiffersIn(c, t, x, v);
        assert DiffersIn(c, taller, x, v);
      } else if v == y && changed {
        var x :| DiffersAt(c, t.x, x1, y, x);
        assert DiffersIn(c, taller, x, v);
      }
    }
    hide ColumnDiffers, RowDiffers;
    assert forall u, v :: DiffersIn(c, t, u, v) ==> v != y;
  }

  /** Copying a pixel that differs, or leaving one that does not. */
  lemma {:induction false} CopiedNext(c: Comparison, x0: int, x: nat, y: nat, now: seq<Pixel>, next: seq<Pixel>)
    requires SameSize(c) && Sized(now, c.w, c.h) && x0 <= x && OnScreen(c.w, c.h, x, y) && Copied(c, Row(x0, x, y), now)
    requires Index(c.w, x, y) < |now| == |c.screen|
    requires next == if now[Index(c.w, x, y)] != c.screen[Index(c.w, x, y)]
                     then now[Index(c.w, x, y) := c.screen[Index(c.w, x, y)]] else now
    ensures Sized(next, c.w, c.h) && Copied(c, Row(x0, x + 1, y), next)
    ensures now[Index(c.w, x, y)] != c.screen[Index(c.w, x, y)] <==> Differs(c, x, y)
  {
    PxSet(now, c.w, c.h, x, y, Px(c.screen, c.w, c.h, x, y));
    PxIs(c.screen, c.w, c.h, x, y);
    PxIs(now, c.w, c.h, x, y);
    hide Index, Px;
  }

  /** What bounds below 9999 amount to. */
  lemma {:induction false} ExtentBounds(c: Comparison, t: Rect, b: Bounds)
    requires SameSize(c) && Inside(c, t) && Extent(c, t, b)
    ensures b.minX < FAR <==> exists x, y :: DiffersIn(c, t, x, y) && x < FAR
    ensures b.minX < FAR ==> Spans(c, t, b) && 0 <= b.minX <= b.maxX < c.w && 0 <= b.minY <= b.maxY < c.h
    ensures forall x, y :: DiffersIn(c, t, x, y) ==> b.minX <= x <= b.maxX && b.minY <= y <= b.maxY
  {
    hide Px, Differs, Sized;
    if b.minX < FAR {
      var y :| DiffersIn(c, t, b.minX, y);
      assert Spans(c, t, b);
      SpansOrdered(c, t, b);
    }
  }

  lemma {:induction false} PxIs(img: seq<Pixel>, w: nat, h: nat, x: nat, y: nat)
    requires Sized(img, w, h) && OnScreen(w, h, x, y)
    ensures Index(w, x, y) < |img| && Px(img, w, h, x, y) == img[Index(w, x, y)]
  {
    IndexBound(w, h, x, y);
  }

  // ----- the boxes in order

  predicate AllValid(regions: seq<Region>, w: nat, h: nat) {
    forall i :: 0 <= i < |regions| ==> ValidRegion(regions[i], w, h)
  }

  /** What a server shows that held `base` and put up the boxes in order. */
  function Shown(regions: seq<Region>, base: seq<Pixel>, w: nat, h: nat, x: int, y: int): Pixel
    requires AllValid(regions, w, h) && Sized(base, w, h) && OnScreen(w, h, x, y)
  {
    if regions == [] then Px(base, w, h, x, y)
    else
      var n := |regions| - 1;
      if Covered(regions[n], x, y) then Payload(regions[n], w, h, x, y) else Shown(regions[..n], base, w, h, x, y)
  }

  /** Such a server shows every pixel as it is on the screen or in the compare buffer. */
  ghost predicate Follows(regions: seq<Region>, c: Comparison, cmp: seq<Pixel>)
    requires SameSize(c) && Sized(cmp, c.w, c.h) && AllValid(regions, c.w, c.h)
  {
    forall x, y :: OnScreen(c.w, c.h, x, y) && x < FAR ==>
      || Shown(regions, c.before, c.w, c.h, x, y) == Px(cmp, c.w, c.h, x, y)
      || Shown(regions, c.before, c.w, c.h, x, y) == Px(c.screen, c.w, c.h, x, y)
  }

  predicate Done(x: int, y: int, tx: int, ty: int) {
    y < TILE * ty || (y < TILE * (ty + 1) && x < TILE * tx)
  }

  /** The tiles before tx, ty are copied. */
  ghost predicate Progress(c: Comparison, cmp: seq<Pixel>, tx: int, ty: int)
    requires SameSize(c) && Sized(cmp, c.w, c.h)
  {
    forall x, y :: OnScreen(c.w, c.h, x, y) ==>
      Px(cmp, c.w, c.h, x, y) == if Done(x, y, tx, ty) then Px(c.screen, c.w, c.h, x, y) else Px(c.before, c.w, c.h, x, y)
  }

  ghost predicate NoNear(c: Comparison)
    requires SameSize(c)
  {
    forall x, y :: x < FAR ==> !DiffersIn(c, Rect(0, 0, c.w, c.h), x, y)
  }

  lemma {:induction false} NothingSent(c: Comparison)
    requires SameSize(c)
    ensures Follows([], c, c.before) && Progress(c, c.before, 0, 0)
  {
  }

  lemma {:induction false} NoBoxes(c: Comparison)
    requires SameSize(c)
    ensures Boxes(c, [], []) && ChangedTiles(c, [], TileNo(0, 0))
  {
  }

  lemma {:induction false} NextTile(c: Comparison, mid: Comparison, cmp: seq<Pixel>, tx: nat, ty: nat)
    requires SameSize(c) && SameSize(mid) && mid == c.(before := mid.before) && Sized(cmp, c.w, c.h)
    requires Progress(c, mid.before, tx, ty) && Copied(mid, Tile(c.w, c.h, tx * TILE, ty * TILE), cmp)
    ensures Progress(c, cmp, tx + 1, ty)
  {
    hide Px;
  }

  lemma {:induction false} RowOfTiles(c: Comparison, cmp: seq<Pixel>, ty: nat)
    requires SameSize(c) && Sized(cmp, c.w, c.h) && Progress(c, cmp, Projector.Blocks(c.w), ty)
    ensures Progress(c, cmp, 0, ty + 1)
  {
    hide Px;
  }

  lemma {:induction false} AllTiles(c: Comparison, cmp: seq<Pixel>)
    requires SameSize(c) && Sized(cmp, c.w, c.h) && Progress(c, cmp, 0, Projector.Blocks(c.h))
    ensures cmp == c.screen
  {
    hide Px;
    SameImage(cmp, c.screen, c.w, c.h);
  }

  /** One more box, or none: changed pixels are in the box, and the payload has the
      screen's pixels or those of the compare buffer. */
  lemma {:induction false} NextRegion(regions: seq<Region>, c: Comparison, mid: Comparison, cmp: seq<Pixel>, t: Rect, sent: bool, r: Region, jpeg: bool)
    requires SameSize(c) && SameSize(mid) && mid == c.(before := mid.before) && Sized(cmp, c.w, c.h)
    requires AllValid(regions, c.w, c.h) && Follows(regions, c, mid.before) && Copied(mid, t, cmp)
    requires sent <==> exists x, y :: DiffersIn(mid, t, x, y) && x < FAR
    requires sent ==> ValidRegion(r, c.w, c.h) && IsCopy(r, if jpeg then c.screen else cmp, c.w, c.h)
    requires sent ==> forall x, y :: DiffersIn(mid, t, x, y) ==> Covered(r, x, y)
    ensures sent ==> AllValid(regions + [r], c.w, c.h) && Follows(regions + [r], c, cmp)
    ensures !sent ==> Follows(regions, c, cmp)
  {
    hide Px, Payload, ValidRegion, Shown;
    var next := if sent then regions + [r] else regions;
    assert AllValid(next, c.w, c.h);
    forall x, y | OnScreen(c.w, c.h, x, y) && x < FAR
      ensures Shown(next, c.before, c.w, c.h, x, y) in {Px(cmp, c.w, c.h, x, y), Px(c.screen, c.w, c.h, x, y)}
    {
      if sent {
        ShownNext(regions, r, c.before, c.w, c.h, x, y);
      }
      assert !DiffersIn(mid, t, x, y) ==> Px(cmp, c.w, c.h, x, y) == Px(mid.before, c.w, c.h, x, y);
    }
  }

  lemma {:induction false} ShownNext(regions: seq<Region>, r: Region, base: seq<Pixel>, w: nat, h: nat, x: int, y: int)
    requires AllValid(regions, w, h) && ValidRegion(r, w, h) && Sized(base, w, h) && OnScreen(w, h, x, y)
    ensures AllValid(regions + [r], w, h)
    ensures Shown(regions + [r], base, w, h, x, y)
         == if Covered(r, x, y) then Payload(r, w, h, x, y) else Shown(regions, base, w, h, x, y)
  {
    hide Px, Payload;
    var all := regions + [r];
    assert all[..|all| - 1] == regions && all[|all| - 1] == r;
  }

  /** Without a difference below column 9999 no tile is sent. */
  lemma {:induction false} StillNear(c: Comparison, mid: Comparison, tx: nat, ty: nat, sent: bool)
    requires SameSize(c) && SameSize(mid) && mid == c.(before := mid.before) && Progress(c, mid.before, tx, ty)
    requires sent <==> exists x, y :: DiffersIn(mid, Tile(c.w, c.h, tx * TILE, ty * TILE), x, y) && x < FAR
    ensures NoNear(c) ==> !sent
  {
    hide Px;
    forall x, y | DiffersIn(mid, Tile(c.w, c.h, tx * TILE, ty * TILE), x, y)
      ensures DiffersIn(c, Rect(0, 0, c.w, c.h), x, y)
    {
    }
  }
}

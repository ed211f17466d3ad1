/** The server side of the mirror (ControlServer/main.c, fbops.c, translator.c), and
    the main result: every update makes the server's picture the client's screen. */
module Mirror {
  import opened Frames
  import opened Projection

  class Connection {
    const width: nat
    const height: nat
    const framebuffer: array<Pixel>

    ghost predicate Valid()
      reads this
    {
      framebuffer.Length == width * height
    }

    constructor (w: nat, h: nat)
      ensures Valid() && fresh(framebuffer) && width == w && height == h
      ensures forall i :: 0 <= i < framebuffer.Length ==> framebuffer[i] == 0
    {
      width, height := w, h;
      framebuffer := new Pixel[w * h](_ => 0);
    }

    /** Copy a box of four-byte pixels, clipped at the right and bottom edges; the two
        positions walk along row by row. */
    method Bitblit(src: seq<Pixel>, srcX: nat, srcY: nat, srcW: nat, srcH: nat)
      requires Valid() && Sized(src, srcW, srcH)
      modifies framebuffer
      ensures forall x, y :: OnScreen(width, height, x, y) ==>
                Px(framebuffer[..], width, height, x, y)
                == if srcX <= x < srcX + srcW && srcY <= y < srcY + srcH then Px(src, srcW, srcH, x - srcX, y - srcY)
                   else Px(old(framebuffer[..]), width, height, x, y)
    {
      hide Index, Px;
      ghost var before := framebuffer[..];
      var d, s := Index(width, srcX, srcY), 0;
      var y, rows := srcY, srcH;
      var w: int := if width - srcX < srcW then width - srcX else srcW;
      FirstRow(srcW);
      while rows != 0 && y < height
        invariant y == srcY + (srcH - rows) && 0 <= rows <= srcH && (y <= height || rows == srcH)
        invariant d == Index(width, srcX, y) && s == Index(srcW, 0, y - srcY)
        invariant Drawn(before, framebuffer[..], width, height, src, srcX, srcY, srcW, srcH, 0, y)
        decreases rows
      {
        for i := 0 to if w < 0 then 0 else w
          invariant Drawn(before, framebuffer[..], width, height, src, srcX, srcY, srcW, srcH, i, y)
        {
          ghost var now := framebuffer[..];
          IndexAlong(width, srcX, y, i);
          IndexAlong(srcW, 0, y - srcY, i);
          PxIs(src, srcW, srcH, i, y - srcY);
          PxSet(now, width, height, srcX + i, y, src[s + i]);
          framebuffer[d + i] := src[s + i];
          assert framebuffer[..] == now[Index(width, srcX + i, y) := src[s + i]];
        }
        RowDrawn(before, framebuffer[..], width, height, src, srcX, srcY, srcW, srcH, w, y);
        IndexDown(width, srcX, y);
        IndexDown(srcW, 0, y - srcY);
        d := d + width;
        s := s + srcW;
        rows := rows - 1;
        y := y + 1;
      }
    }
  }

  lemma {:induction false} RegionShape(r: Region, w: nat, h: nat)
    requires ValidRegion(r, w, h)
    ensures r.x >= 0 && r.y >= 0 && r.width >= 0 && r.height >= 0 && Sized(r.pixels, r.width, r.height)
  {
  }

  // ----- a box drawn up to column i of row y

  ghost predicate Drawn(before: seq<Pixel>, now: seq<Pixel>, w: nat, h: nat,
                        src: seq<Pixel>, x0: nat, y0: nat, sw: nat, sh: nat, i: int, y: int)
    requires Sized(before, w, h) && Sized(now, w, h) && Sized(src, sw, sh)
  {
    forall u, v :: OnScreen(w, h, u, v) ==>
      Px(now, w, h, u, v)
      == if x0 <= u < x0 + sw && y0 <= v < y0 + sh && (v < y || (v == y && u < x0 + i)) then Px(src, sw, sh, u - x0, v - y0)
         else Px(before, w, h, u, v)
  }

  lemma {:induction false} RowDrawn(before: seq<Pixel>, now: seq<Pixel>, w: nat, h: nat,
                 src: seq<Pixel>, x0: nat, y0: nat, sw: nat, sh: nat, i: int, y: int)
    requires Sized(before, w, h) && Sized(now, w, h) && Sized(src, sw, sh)
    requires i == (if w - x0 < sw then w - x0 else sw)
    requires Drawn(before, now, w, h, src, x0, y0, sw, sh, if i < 0 then 0 else i, y)
    ensures Drawn(before, now, w, h, src, x0, y0, sw, sh, 0, y + 1)
  {
    hide Px;
  }

  lemma {:induction false} FirstRow(w: nat)
    ensures Index(w, 0, 0) == 0
  {
  }

  lemma {:induction false} IndexAlong(w: nat, x: nat, y: nat, i: nat)
    ensures Index(w, x, y) + i == Index(w, x + i, y)
  {
  }

  lemma {:induction false} IndexDown(w: nat, x: nat, y: nat)
    ensures Index(w, x, y) + w == Index(w, x, y + 1)
  {
    assert (y + 1) * w == y * w + w;
  }

  // ----- the second copy, for VNC clients

  /** A marked rectangle, right and bottom edges excluded. */
  datatype Mark = Nothing | Marked(x1: int, y1: int, x2: int, y2: int)

  predicate InMark(m: Mark, x: int, y: int) {
    m.Marked? && m.x1 <= x < m.x2 && m.y1 <= y < m.y2
  }

  class Translator {
    const conn: Connection
    const framebufferVnc: array<Pixel>
    const framebufferCmp: array<Pixel>

    ghost predicate Valid()
      reads this, conn, framebufferVnc, framebufferCmp
    {
      && conn.Valid()
      && framebufferVnc.Length == framebufferCmp.Length == conn.width * conn.height
      && framebufferVnc != framebufferCmp && conn.framebuffer != framebufferVnc && conn.framebuffer != framebufferCmp
      && framebufferVnc[..] == framebufferCmp[..]
    }

    constructor (conn: Connection)
      requires conn.Valid()
      ensures Valid() && this.conn == conn && fresh(framebufferVnc) && fresh(framebufferCmp)
    {
      this.conn := conn;
      framebufferVnc := new Pixel[conn.width * conn.height](_ => 0);
      framebufferCmp := new Pixel[conn.width * conn.height](_ => 0);
    }

    /** Bring the VNC buffer up to date under the framebuffer's lock; every pixel that
        changed lies in the marked rectangle if one left of column 9999 did. The mark is the
        least box around them, and one column more. */
    method UpdateScreen() returns (mark: Mark)
      requires Valid()
      modifies framebufferVnc, framebufferCmp
      ensures Valid() && framebufferVnc[..] == conn.framebuffer[..]
      ensures (exists x, y :: Changed(conn.framebuffer[..], old(framebufferVnc[..]), conn.width, conn.height, x, y) && x < FAR)
              <==> mark != Nothing
      ensures mark != Nothing ==>
                forall x, y :: Changed(conn.framebuffer[..], old(framebufferVnc[..]), conn.width, conn.height, x, y) ==> InMark(mark, x, y)
      ensures mark != Nothing ==>
                Edges(conn.framebuffer[..], old(framebufferVnc[..]), conn.width, conn.height, mark.x1, mark.y1, mark.x2 - 2, mark.y2 - 1)
    {
      hide Index, Px, Changed;
      ghost var f0, c0, w, h := conn.framebuffer[..], framebufferCmp[..], conn.width, conn.height;
      var minX, minY, maxX, maxY := FAR, FAR, -1, -1;
      var f := 0;
      NothingSeen(f0, c0, w, h);
      for y := 0 to conn.height
        invariant f == Index(w, 0, y) && conn.framebuffer[..] == f0
        invariant framebufferVnc[..] == framebufferCmp[..] && Updated(f0, c0, framebufferCmp[..], w, h, 0, y)
        invariant Seen(f0, c0, w, h, 0, y, minX, minY, maxX, maxY)
      {
        for x := 0 to conn.width
          invariant f == Index(w, x, y) && conn.framebuffer[..] == f0
          invariant framebufferVnc[..] == framebufferCmp[..] && Updated(f0, c0, framebufferCmp[..], w, h, x, y)
          invariant Seen(f0, c0, w, h, x, y, minX, minY, maxX, maxY)
        {
          ghost var now := framebufferCmp[..];
          IndexBound(w, h, x, y);
          var pixel := conn.framebuffer[f];
          UpdatedNext(f0, c0, now, w, h, x, y);
          SeenNext(f0, c0, w, h, x, y, minX, minY, maxX, maxY);
          if pixel != framebufferCmp[f] {
            framebufferCmp[f] := pixel;
            framebufferVnc[f] := pixel;
            if x < minX {
              minX := x;
            }
            if x > maxX {
              maxX := x;
            }
            if y < minY {
              minY := y;
            }
            if y > maxY {
              maxY := y;
            }
          }
          IndexAlong(w, x, y, 1);
          f := f + 1;
        }
        RowSeen(f0, c0, framebufferCmp[..], w, h, y, minX, minY, maxX, maxY);
        IndexDown(w, 0, y);
        IndexAlong(w, 0, y, w);
      }
      AllUpdated(f0, c0, framebufferCmp[..], w, h);
      AllSeen(f0, c0, w, h, minX, minY, maxX, maxY);
      mark := Nothing;
      if minX < FAR {
        maxX := if maxX < 0 then minX else maxX;
        maxY := if maxY < 0 then minY else maxY;
        mark := Marked(minX, minY, maxX + 2, maxY + 1);
      }
    }
  }

  ghost predicate Changed(f: seq<Pixel>, c: seq<Pixel>, w: nat, h: nat, x: int, y: int)
    requires Sized(f, w, h) && Sized(c, w, h)
  {
    OnScreen(w, h, x, y) && Px(f, w, h, x, y) != Px(c, w, h, x, y)
  }

  ghost predicate ColumnChanged(f: seq<Pixel>, c: seq<Pixel>, w: nat, h: nat, x: int)
    requires Sized(f, w, h) && Sized(c, w, h)
  {
    exists y :: Changed(f, c, w, h, x, y)
  }

  ghost predicate RowChanged(f: seq<Pixel>, c: seq<Pixel>, w: nat, h: nat, y: int)
    requires Sized(f, w, h) && Sized(c, w, h)
  {
    exists x :: Changed(f, c, w, h, x, y)
  }

  /** Something changed on each edge, but for a top edge at row 9999. */
  ghost predicate Edges(f: seq<Pixel>, c: seq<Pixel>, w: nat, h: nat, minX: int, minY: int, maxX: int, maxY: int)
    requires Sized(f, w, h) && Sized(c, w, h)
  {
    && ColumnChanged(f, c, w, h, minX) && ColumnChanged(f, c, w, h, maxX)
    && (minY == FAR || RowChanged(f, c, w, h, minY)) && RowChanged(f, c, w, h, maxY)
  }

  predicate Visited(x1: int, y1: int, x: int, y: int) {
    y1 < y || (y1 == y && x1 < x)
  }

  /** The pixels visited are those of `f`, the others those of `c`. */
  ghost predicate Updated(f: seq<Pixel>, c: seq<Pixel>, now: seq<Pixel>, w: nat, h: nat, x: int, y: int)
    requires Sized(f, w, h) && Sized(c, w, h) && Sized(now, w, h)
  {
    forall u, v :: OnScreen(w, h, u, v) ==>
      Px(now, w, h, u, v) == if Visited(u, v, x, y) then Px(f, w, h, u, v) else Px(c, w, h, u, v)
  }

  ghost predicate Seen(f: seq<Pixel>, c: seq<Pixel>, w: nat, h: nat, x: int, y: int, minX: int, minY: int, maxX: int, maxY: int)
    requires Sized(f, w, h) && Sized(c, w, h)
  {
    && minX <= FAR
    && (forall u, v :: Changed(f, c, w, h, u, v) && Visited(u, v, x, y) ==> minX <= u <= maxX && minY <= v <= maxY)
    && (minX < FAR ==> Edges(f, c, w, h, minX, minY, maxX, maxY))
    && (minY == FAR || RowChanged(f, c, w, h, minY))
    && (maxX == -1 || ColumnChanged(f, c, w, h, maxX)) && (maxY == -1 || RowChanged(f, c, w, h, maxY))
  }

  lemma {:induction false} NothingSeen(f: seq<Pixel>, c: seq<Pixel>, w: nat, h: nat)
    requires Sized(f, w, h) && Sized(c, w, h)
    ensures Updated(f, c, c, w, h, 0, 0) && Seen(f, c, w, h, 0, 0, FAR, FAR, -1, -1) && Index(w, 0, 0) == 0
  {
  }

  lemma {:induction false} UpdatedNext(f: seq<Pixel>, c: seq<Pixel>, now: seq<Pixel>, w: nat, h: nat, x: nat, y: nat)
    requires Sized(f, w, h) && Sized(c, w, h) && Sized(now, w, h) && OnScreen(w, h, x, y) && Updated(f, c, now, w, h, x, y)
    ensures Index(w, x, y) < |f| == |now|
    ensures var i := Index(w, x, y);
            && (f[i] != now[i] <==> Changed(f, c, w, h, x, y))
            && Sized(now[i := f[i]], w, h) && Updated(f, c, now[i := f[i]], w, h, x + 1, y)
            && (f[i] == now[i] ==> Updated(f, c, now, w, h, x + 1, y))
  {
    PxIs(f, w, h, x, y);
    PxIs(now, w, h, x, y);
    PxSet(now, w, h, x, y, f[Index(w, x, y)]);
    hide Px, Index;
  }

  /** The bounds after one more pixel, changed or not. */
  lemma {:induction false} SeenNext(f: seq<Pixel>, c: seq<Pixel>, w: nat, h: nat, x: nat, y: nat, minX: int, minY: int, maxX: int, maxY: int)
    requires Sized(f, w, h) && Sized(c, w, h) && OnScreen(w, h, x, y) && Seen(f, c, w, h, x, y, minX, minY, maxX, maxY)
    ensures if Changed(f, c, w, h, x, y)
            then Seen(f, c, w, h, x + 1, y, if x < minX then x else minX, if y < minY then y else minY,
                      if x > maxX then x else maxX, if y > maxY then y else maxY)
            else Seen(f, c, w, h, x + 1, y, minX, minY, maxX, maxY)
  {
    hide Changed;
    if Changed(f, c, w, h, x, y) {
      ChangedThere(f, c, w, h, x, y);
      hide ColumnChanged, RowChanged;
      assert x >= 0 && y >= 0;
    } else {
      hide ColumnChanged, RowChanged;
    }
  }

  lemma {:induction false} ChangedThere(f: seq<Pixel>, c: seq<Pixel>, w: nat, h: nat, x: int, y: int)
    requires Sized(f, w, h) && Sized(c, w, h) && Changed(f, c, w, h, x, y)
    ensures ColumnChanged(f, c, w, h, x) && RowChanged(f, c, w, h, y)
  {
  }

  lemma {:induction false} RowSeen(f: seq<Pixel>, c: seq<Pixel>, now: seq<Pixel>, w: nat, h: nat, y: nat, minX: int, minY: int, maxX: int, maxY: int)
    requires Sized(f, w, h) && Sized(c, w, h) && Sized(now, w, h)
    requires Updated(f, c, now, w, h, w, y) && Seen(f, c, w, h, w, y, minX, minY, maxX, maxY)
    ensures Updated(f, c, now, w, h, 0, y + 1) && Seen(f, c, w, h, 0, y + 1, minX, minY, maxX, maxY)
  {
    hide Px;
  }

  lemma {:induction false} AllUpdated(f: seq<Pixel>, c: seq<Pixel>, now: seq<Pixel>, w: nat, h: nat)
    requires Sized(f, w, h) && Sized(c, w, h) && Sized(now, w, h) && Updated(f, c, now, w, h, 0, h)
    ensures now == f
  {
    hide Px;
    SameImage(now, f, w, h);
  }

  lemma {:induction false} AllSeen(f: seq<Pixel>, c: seq<Pixel>, w: nat, h: nat, minX: int, minY: int, maxX: int, maxY: int)
    requires Sized(f, w, h) && Sized(c, w, h) && Seen(f, c, w, h, 0, h, minX, minY, maxX, maxY)
    ensures (exists x, y :: Changed(f, c, w, h, x, y) && x < FAR) <==> minX < FAR
    ensures forall x, y :: Changed(f, c, w, h, x, y) ==> minX <= x <= maxX && minY <= y <= maxY && x >= 0 && y >= 0
  {
    hide Px;
  }

  // ----- both sides together

  /** The region loop: every box in the order it arrives. The translator's thread takes
      the framebuffer's lock between any two of them, or not. */
  method ReceiveRegions(conn: Connection, translator: Translator, regions: seq<Region>)
    requires conn.Valid() && AllValid(regions, conn.width, conn.height)
    requires translator.Valid() && translator.conn == conn
    modifies conn.framebuffer, translator.framebufferVnc, translator.framebufferCmp
    ensures conn.Valid() && translator.Valid()
    ensures forall x, y :: OnScreen(conn.width, conn.height, x, y) ==>
              Px(conn.framebuffer[..], conn.width, conn.height, x, y)
              == Shown(regions, old(conn.framebuffer[..]), conn.width, conn.height, x, y)
  {
    hide Px, ValidRegion, Changed;
    ghost var before, w, h := conn.framebuffer[..], conn.width, conn.height;
    for i := 0 to |regions|
      invariant conn.Valid() && translator.Valid()
      invariant forall x, y :: OnScreen(w, h, x, y) ==>
                  Px(conn.framebuffer[..], w, h, x, y) == Shown(regions[..i], before, w, h, x, y)
    {
      var r := regions[i];
      RegionShape(r, w, h);
      conn.Bitblit(r.pixels, r.x, r.y, r.width, r.height);
      forall x, y | OnScreen(w, h, x, y)
        ensures Px(conn.framebuffer[..], w, h, x, y) == Shown(regions[..i + 1], before, w, h, x, y)
      {
        ShownNext(regions[..i], r, before, w, h, x, y);
        assert regions[..i + 1] == regions[..i] + [r];
      }
      var run := *;
      if run {
        var _ := translator.UpdateScreen();
      }
    }
    assert regions[..|regions|] == regions;
  }

  /** One update. Server and client agreed before on what was shown; afterwards the
      server shows the client's screen, and so does the VNC buffer. */
  method Update(projector: Projector, conn: Connection, translator: Translator, fb: array<Pixel>)
    requires projector.Valid() && conn.Valid() && translator.Valid() && translator.conn == conn
    requires conn.width == projector.scrWidth && conn.height == projector.scrHeight
    requires 16 <= projector.scrWidth <= FAR && 16 <= projector.scrHeight
    requires fb.Length == projector.scrWidth * projector.scrHeight
    requires fb !in {projector.compareBuf, conn.framebuffer, translator.framebufferVnc, translator.framebufferCmp}
    requires projector.compareBuf !in {conn.framebuffer, translator.framebufferVnc, translator.framebufferCmp}
    requires conn.framebuffer[..] == projector.compareBuf[..]
    modifies projector, projector.compareBuf, conn.framebuffer, translator.framebufferVnc, translator.framebufferCmp
    ensures projector.Valid() && conn.Valid() && translator.Valid()
    ensures fb[..] == old(fb[..]) && conn.framebuffer[..] == fb[..] == projector.compareBuf[..]
    ensures translator.framebufferVnc[..] == fb[..]
  {
    hide Px, Differs, Changed;
    ghost var c := projector.Against(fb);
    var regions, _ := projector.UpdateScreen(fb);
    ReceiveRegions(conn, translator, regions);
    Converged(c, regions, conn.framebuffer[..]);
    var _ := translator.UpdateScreen();
  }

  lemma {:induction false} Converged(c: Comparison, regions: seq<Region>, shown: seq<Pixel>)
    requires SameSize(c) && Sized(shown, c.w, c.h) && AllValid(regions, c.w, c.h) && c.w <= FAR
    requires Follows(regions, c, c.screen)
    requires forall x, y :: OnScreen(c.w, c.h, x, y) ==> Px(shown, c.w, c.h, x, y) == Shown(regions, c.before, c.w, c.h, x, y)
    ensures shown == c.screen
  {
    hide Px, Shown;
    SameImage(shown, c.screen, c.w, c.h);
  }

  /** A whole session, from zeroed buffers on both sides: after every update the
      server's framebuffer and the VNC buffer are the grabbed screen. */
  method Session(w: nat, h: nat, screens: seq<seq<Pixel>>) returns (shown: seq<seq<Pixel>>, vnc: seq<seq<Pixel>>)
    requires 16 <= w <= FAR && 16 <= h
    requires forall i :: 0 <= i < |screens| ==> Sized(screens[i], w, h)
    ensures shown == screens && vnc == screens
  {
    var projector := new Projector(w, h);
    var conn := new Connection(w, h);
    var translator := new Translator(conn);
    assert conn.framebuffer[..] == projector.compareBuf[..];
    shown, vnc := [], [];
    for i := 0 to |screens|
      invariant shown == vnc == screens[..i]
      invariant projector.Valid() && conn.Valid() && translator.Valid() && translator.conn == conn
      invariant conn.framebuffer[..] == projector.compareBuf[..]
      invariant fresh(projector) && fresh(projector.compareBuf) && fresh(conn.framebuffer)
      invariant fresh(translator.framebufferVnc) && fresh(translator.framebufferCmp)
      invariant conn.width == projector.scrWidth == w && conn.height == projector.scrHeight == h
      invariant projector.compareBuf !in {conn.framebuffer, translator.framebufferVnc, translator.framebufferCmp}
    {
      var screen := screens[i];
      var fb := new Pixel[w * h](k requires 0 <= k < |screen| => screen[k]);
      assert fb[..] == screen;
      Update(projector, conn, translator, fb);
      shown := shown + [conn.framebuffer[..]];
      vnc := vnc + [translator.framebufferVnc[..]];
      assert screens[..i + 1] == screens[..i] + [screen];
    }
    assert screens[..|screens|] == screens;
  }

  /** The limit of 9999 columns is real: changes at or behind it, and no others, are noted
      by the client and not sent, so the server goes on showing the old screen. */
  method FarChangesAreLost(projector: Projector, conn: Connection, translator: Translator, fb: array<Pixel>)
    requires projector.Valid() && conn.Valid() && translator.Valid() && translator.conn == conn
    requires conn.width == projector.scrWidth && conn.height == projector.scrHeight
    requires 16 <= projector.scrWidth && 16 <= projector.scrHeight
    requires fb.Length == projector.scrWidth * projector.scrHeight
    requires fb !in {projector.compareBuf, conn.framebuffer, translator.framebufferVnc, translator.framebufferCmp}
    requires projector.compareBuf !in {conn.framebuffer, translator.framebufferVnc, translator.framebufferCmp}
    requires conn.framebuffer[..] == projector.compareBuf[..] != fb[..]
    requires forall x, y :: DiffersIn(projector.Against(fb), Rect(0, 0, projector.scrWidth, projector.scrHeight), x, y) ==> x >= FAR
    modifies projector, projector.compareBuf, conn.framebuffer, translator.framebufferVnc, translator.framebufferCmp
    ensures projector.Valid() && conn.Valid() && translator.Valid()
    ensures fb[..] == old(fb[..]) && projector.compareBuf[..] == fb[..]
    ensures conn.framebuffer[..] == old(conn.framebuffer[..]) != fb[..]
  {
    hide Px, Differs, Changed;
    ghost var before, w, h := conn.framebuffer[..], conn.width, conn.height;
    var regions, _ := projector.UpdateScreen(fb);
    ReceiveRegions(conn, translator, regions);
    NothingShown(before, w, h);
    SameImage(conn.framebuffer[..], before, w, h);
  }

  /** It happens on every screen that is wider, with a change of a single pixel. */
  method WideScreenLosesPixel(w: nat, h: nat) returns (screen: seq<Pixel>, shown: seq<Pixel>)
    requires w > FAR && h >= 16
    ensures Sized(screen, w, h) && shown != screen
    ensures shown == seq(w * h, _ => 0) && screen == shown[Index(w, FAR, 0) := 1]
  {
    hide Px, Index, Differs, Shown;
    var projector := new Projector(w, h);
    var conn := new Connection(w, h);
    var translator := new Translator(conn);
    IndexBound(w, h, FAR, 0);
    var fb := new Pixel[w * h](_ => 0);
    ghost var before := fb[..];
    PxSet(before, w, h, FAR, 0, 1);
    PxIs(before, w, h, FAR, 0);
    fb[Index(w, FAR, 0)] := 1;
    assert fb[..] == before[Index(w, FAR, 0) := 1] && projector.compareBuf[..] == before == conn.framebuffer[..];
    OnlyFar(projector.Against(fb));
    assert fb[..][Index(w, FAR, 0)] == 1;
    FarChangesAreLost(projector, conn, translator, fb);
    screen, shown := fb[..], conn.framebuffer[..];
  }

  lemma {:induction false} OnlyFar(c: Comparison)
    requires SameSize(c) && OnScreen(c.w, c.h, FAR, 0)
    requires forall x, y :: OnScreen(c.w, c.h, x, y) ==>
               Px(c.screen, c.w, c.h, x, y) == if x == FAR && y == 0 then 1 else Px(c.before, c.w, c.h, x, y)
    ensures forall x, y :: x < FAR ==> !DiffersIn(c, Rect(0, 0, c.w, c.h), x, y)
  {
  }

  lemma {:induction false} NothingShown(base: seq<Pixel>, w: nat, h: nat)
    requires Sized(base, w, h)
    ensures forall x, y :: OnScreen(w, h, x, y) ==> Shown([], base, w, h, x, y) == Px(base, w, h, x, y)
  {
  }
}

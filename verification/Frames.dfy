/** Framebuffers: flat arrays of 32-bit pixels, row after row. */
module Frames {
  import opened Shifts

  type Pixel = p: int | 0 <= p < 0x1_0000_0000

  /** Position of a pixel in a buffer of row length `w`. */
  function Index(w: nat, x: nat, y: nat): nat {
    y * w + x
  }

  predicate OnScreen(w: nat, h: nat, x: int, y: int) {
    0 <= x < w && 0 <= y < h
  }

  predicate Sized(img: seq<Pixel>, w: nat, h: nat) {
    |img| == w * h
  }

  lemma {:induction false} IndexBound(w: nat, h: nat, x: nat, y: nat)
    requires OnScreen(w, h, x, y)
    ensures Index(w, x, y) < w * h
  {
    MulMonotone(y + 1, h, w);
    assert (y + 1) * w == y * w + w;
    assert h * w == w * h;
  }

  lemma {:induction false} IndexInjective(w: nat, x1: nat, y1: nat, x2: nat, y2: nat)
    requires x1 < w && x2 < w
    ensures Index(w, x1, y1) == Index(w, x2, y2) <==> x1 == x2 && y1 == y2
  {
    MulMonotone(y1 + 1, y2, w);
    MulMonotone(y2 + 1, y1, w);
    assert (y1 + 1) * w == y1 * w + w && (y2 + 1) * w == y2 * w + w;
  }

  function Px(img: seq<Pixel>, w: nat, h: nat, x: int, y: int): Pixel
    requires Sized(img, w, h) && OnScreen(w, h, x, y)
  {
    IndexBound(w, h, x, y);
    img[Index(w, x, y)]
  }

  /** One pixel changed, the others not. */
  lemma {:induction false} PxSet(img: seq<Pixel>, w: nat, h: nat, x: nat, y: nat, v: Pixel)
    requires Sized(img, w, h) && OnScreen(w, h, x, y)
    ensures Index(w, x, y) < |img| && Sized(img[Index(w, x, y) := v], w, h)
    ensures forall x2, y2 :: OnScreen(w, h, x2, y2) ==>
              Px(img[Index(w, x, y) := v], w, h, x2, y2) == if x2 == x && y2 == y then v else Px(img, w, h, x2, y2)
  {
    IndexBound(w, h, x, y);
    var next := img[Index(w, x, y) := v];
    forall x2, y2 | OnScreen(w, h, x2, y2)
      ensures Px(next, w, h, x2, y2) == if x2 == x && y2 == y then v else Px(img, w, h, x2, y2)
    {
      IndexBound(w, h, x2, y2);
      IndexInjective(w, x, y, x2, y2);
      hide Index;
    }
  }

  /** Images that agree in every pixel are the same. */
  lemma {:induction false} SameImage(a: seq<Pixel>, b: seq<Pixel>, w: nat, h: nat)
    requires Sized(a, w, h) && Sized(b, w, h)
    requires forall x, y :: OnScreen(w, h, x, y) ==> Px(a, w, h, x, y) == Px(b, w, h, x, y)
    ensures a == b
  {
    forall i | 0 <= i < |a|
      ensures a[i] == b[i]
    {
      var x, y := Locate(w, h, i);
      assert Px(a, w, h, x, y) == Px(b, w, h, x, y);
    }
  }

  lemma {:induction false} Locate(w: nat, h: nat, i: nat) returns (x: nat, y: nat)
    requires i < w * h
    ensures OnScreen(w, h, x, y) && Index(w, x, y) == i
  {
    assert w == 0 ==> w * h == 0;
    x, y := i % w, i / w;
    assert i == i / w * w + i % w;
    MulMonotone(h, y, w);
    assert h * w == w * h;
  }
}

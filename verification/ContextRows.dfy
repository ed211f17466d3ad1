/** The row buffer that gives the downsampler context above and below (jcprepct.c,
    context case): three row groups in a ring, seen through wraparound pointers. */
module ContextRows {
  import opened Shifts

  type Row = seq<int>

  function Clamp(x: int, height: nat): nat
    requires height > 0
  {
    if x < 0 then 0 else if x >= height then height - 1 else x
  }

  /** What the downsampler must see for row group `g`: the group with one group above
      and one below, the edge rows repeated outside the image. */
  function Window(image: seq<Row>, v: nat, g: nat): seq<Row>
    requires image != []
  {
    seq(3 * v, i requires 0 <= i < 3 * v => image[Clamp(g * v - v + i, |image|)])
  }

  /** The real row behind row pointer `x`. */
  function Real(v: nat, x: int): int {
    if x < 0 then x + 3 * v else if x >= 3 * v then x - 3 * v else x
  }

  /** The image row, counted past either edge, that real row `q` holds when rows up to
      `base + n` have been stored and the ring is at `n`. */
  function Held(v: nat, base: int, n: int, q: int): int {
    if q < n then base + q else base + q - 3 * v
  }

  /** The ring holds the last three groups' worth of rows, repeated at the edges. */
  ghost predicate Ring(v: nat, image: seq<Row>, rows: seq<Row>, base: int, n: int)
    requires image != [] && |rows| == 3 * v
  {
    forall q :: 0 <= q < 3 * v && Held(v, base, n, q) + v >= 0 ==> rows[q] == image[Clamp(Held(v, base, n, q), |image|)]
  }

  /** Storing the next `m` rows. */
  lemma {:induction false} RingStored(v: nat, image: seq<Row>, before: seq<Row>, after: seq<Row>, base: int, n: nat, m: nat)
    requires image != [] && |before| == |after| == 3 * v && n + m <= 3 * v && 0 <= base + n && base + n + m <= |image|
    requires Ring(v, image, before, base, n)
    requires forall q :: 0 <= q < 3 * v ==> after[q] == if n <= q < n + m then image[base + q] else before[q]
    ensures Ring(v, image, after, base, n + m)
  {
  }

  /** Storing the first rows, with copies above them. */
  lemma {:induction false} RingStarted(v: nat, image: seq<Row>, after: seq<Row>, m: nat)
    requires image != [] && |after| == 3 * v && 0 < m <= 2 * v && m <= |image|
    requires forall q :: 0 <= q < m ==> after[q] == image[q]
    requires forall q :: 2 * v <= q < 3 * v ==> after[q] == image[0]
    ensures Ring(v, image, after, 0, m)
  {
  }

  /** Padding at the bottom. */
  lemma {:induction false} RingPadded(v: nat, image: seq<Row>, before: seq<Row>, after: seq<Row>, base: int, n: nat, stop: nat)
    requires image != [] && |before| == |after| == 3 * v && n <= stop <= 3 * v && base + n >= |image|
    requires Ring(v, image, before, base, n)
    requires forall q :: 0 <= q < 3 * v ==> after[q] == if n <= q < stop then image[|image| - 1] else before[q]
    ensures Ring(v, image, after, base, stop)
  {
  }

  /** A full ring shows the window of its group. */
  lemma {:induction false} RingShows(v: nat, image: seq<Row>, rows: seq<Row>, base: int, n: int, t: int, group: int)
    requires image != [] && v >= 1 && |rows| == 3 * v && Ring(v, image, rows, base, n)
    requires (n, t) in {(v, 2 * v), (2 * v, 0), (3 * v, v)} && base + n == group + 2 * v && group >= 0
    ensures forall x :: t - v <= x < t + 2 * v ==>
              0 <= Real(v, x) < 3 * v && rows[Real(v, x)] == image[Clamp(group - t + x, |image|)]
  {
    forall x | t - v <= x < t + 2 * v
      ensures 0 <= Real(v, x) < 3 * v && rows[Real(v, x)] == image[Clamp(group - t + x, |image|)]
    {
      assert Held(v, base, n, Real(v, x)) == group - t + x;
    }
  }

  /** A new lap. */
  lemma {:induction false} RingWraps(v: nat, image: seq<Row>, rows: seq<Row>, base: int)
    requires image != [] && |rows| == 3 * v && Ring(v, image, rows, base, 3 * v)
    ensures Ring(v, image, rows, base + 3 * v, 0)
  {
    forall q | 0 <= q < 3 * v
      ensures Held(v, base + 3 * v, 0, q) == Held(v, base, 3 * v, q)
    {
    }
  }

  class PrepController {
    const v: nat                     // max_v_samp_factor
    const image: seq<Row>            // the source image, after colour conversion
    const buffer: array<Row>         // the three real row groups
    const pointers: seq<nat>         // row pointers from -v up to 4v
    var rowsToGo: nat
    var nextBufRow: nat
    var thisRowGroup: nat
    var nextBufStop: nat
    var seen: seq<seq<Row>>          // what each downsample call saw

    ghost var base: int              // image row stored at real row 0 of this lap
    ghost var group: int             // first image row of the next group

    ghost predicate Shape()
      reads this, buffer
    {
      && v >= 1 && image != [] && buffer.Length == 3 * v && |pointers| == 5 * v
      && forall i :: 0 <= i < 5 * v ==> pointers[i] == Real(v, i - v)
    }

    /** How the counters relate: the ring stops two groups past the next group. */
    ghost predicate Counters()
      reads this
    {
      && v >= 1 && nextBufRow <= nextBufStop
      && (nextBufStop, thisRowGroup) in {(v, 2 * v), (2 * v, 0), (3 * v, v)}
      && base + nextBufStop == group + 2 * v && group == |seen| * v
      && rowsToGo <= |image| && (rowsToGo == |image| ==> nextBufRow == 0 == base && nextBufStop == 2 * v)
      && if rowsToGo > 0 then base + nextBufRow == |image| - rowsToGo else base + nextBufRow >= |image|
    }

    ghost predicate Filled()
      requires Shape()
      reads this, buffer
    {
      Ring(v, image, buffer[..], base, nextBufRow)
    }

    ghost predicate SeenRight()
      requires image != []
      reads this
    {
      forall g :: 0 <= g < |seen| ==> seen[g] == Window(image, v, g)
    }

    ghost predicate Valid()
      reads this, buffer
    {
      Shape() && Counters() && nextBufRow < nextBufStop && (rowsToGo < |image| ==> Filled()) && SeenRight()
    }

    constructor (v: nat, image: seq<Row>)
      requires v >= 1 && image != []
      ensures Valid() && this.v == v && this.image == image && rowsToGo == |image| && seen == [] && fresh(buffer)
    {
      this.v, this.image := v, image;
      buffer := new Row[3 * v](_ => []);
      var table := ContextPointers(v);
      pointers := table;
      rowsToGo, nextBufRow, thisRowGroup, nextBufStop := |image|, 0, 0, 2 * v;
      seen, base, group := [], 0, 0;
    }

    /** Rows taken from the input into the ring. */
    method Store(input: seq<Row>)
      requires Valid() && 0 < |input| <= rowsToGo && nextBufRow + |input| <= nextBufStop
      requires input == image[|image| - rowsToGo..|image| - rowsToGo + |input|]
      modifies `nextBufRow, `rowsToGo, buffer
      ensures Shape() && Counters() && Filled() && SeenRight() && rowsToGo < |image|
      ensures nextBufRow == old(nextBufRow) + |input| && rowsToGo == old(rowsToGo) - |input|
    {
      hide Ring, Window, Held;
      ghost var before, n, m := buffer[..], nextBufRow, |input|;
      for i := 0 to |input|
        modifies buffer
        invariant forall q :: 0 <= q < 3 * v ==>
          buffer[q] == if nextBufRow <= q < nextBufRow + i then input[q - nextBufRow] else old(buffer[q])
      {
        buffer[nextBufRow + i] := input[i];
      }
      if rowsToGo == |image| {
        PadTop();
        RingStarted(v, image, buffer[..], m);
      } else {
        RingStored(v, image, before, buffer[..], base, n, m);
      }
      nextBufRow := nextBufRow + |input|;
      rowsToGo := rowsToGo - |input|;
    }

    /** The row pointers above the first row get copies of it. */
    method PadTop()
      requires Shape()
      modifies buffer
      ensures forall q :: 0 <= q < 3 * v ==> buffer[q] == old(buffer[if q >= 2 * v then 0 else q])
    {
      var row := 1;
      while row <= v
        invariant 1 <= row <= v + 1
        invariant forall q :: 0 <= q < 3 * v ==> buffer[q] == old(buffer[if q > 3 * v - row then 0 else q])
      {
        buffer[pointers[v - row]] := buffer[pointers[v + 0]];
        row := row + 1;
      }
    }

    /** Copies of the last row stored, up to the stop. */
    method ExpandBottomEdge()
      requires Valid() && rowsToGo == 0
      modifies `nextBufRow, buffer
      ensures Shape() && Counters() && Filled() && SeenRight() && nextBufRow == nextBufStop
    {
      ghost var last, before := image[|image| - 1], buffer[..];
      var input, output := nextBufRow, nextBufStop;
      assert Held(v, base, input, Real(v, input - 1)) == base + input - 1;
      assert buffer[pointers[v + input - 1]] == last;
      hide Ring, Held, Window;
      for row := input to output
        modifies buffer
        invariant forall q :: 0 <= q < 3 * v ==> buffer[q] == if input <= q < row then last else old(buffer[q])
      {
        buffer[pointers[v + row]] := buffer[pointers[v + input - 1]];
      }
      RingPadded(v, image, before, buffer[..], base, input, output);
      nextBufRow := nextBufStop;
    }

    /** Enough rows: the downsampler sees three groups around the current one. */
    method Downsample()
      requires Shape() && Counters() && Filled() && SeenRight() && nextBufRow == nextBufStop && rowsToGo < |image|
      modifies `seen, `thisRowGroup, `nextBufRow, `nextBufStop, `base, `group
      ensures Valid() && |seen| == old(|seen|) + 1
    {
      hide Ring, Held, Window;
      RingShows(v, image, buffer[..], base, nextBufRow, thisRowGroup, group);
      var window := seq(3 * v, i requires 0 <= i < 3 * v reads this, buffer requires Shape() && thisRowGroup <= 2 * v =>
        buffer[pointers[thisRowGroup + i]]);
      SeenWindow(window, image, v, |seen|);
      seen := seen + [window];
      Advance();
    }

    /** Advance the counters, with wraparound as necessary. */
    method Advance()
      requires Shape() && SeenRight() && Filled() && nextBufRow == nextBufStop && rowsToGo < |image|
      requires (nextBufStop, thisRowGroup) in {(v, 2 * v), (2 * v, 0), (3 * v, v)}
      requires base + nextBufStop == group + 2 * v && |seen| > 0 && group == (|seen| - 1) * v
      requires if rowsToGo > 0 then base + nextBufRow == |image| - rowsToGo else base + nextBufRow >= |image|
      modifies `thisRowGroup, `nextBufRow, `nextBufStop, `base, `group
      ensures Valid()
    {
      hide Ring, Held, Window;
      OneMoreGroup(|seen| - 1, v);
      group := group + v;
      thisRowGroup := thisRowGroup + v;
      if thisRowGroup >= 3 * v {
        thisRowGroup := 0;
      }
      if nextBufRow >= 3 * v {
        RingWraps(v, image, buffer[..], base);
        nextBufRow := 0;
        base := base + 3 * v;
      }
      nextBufStop := nextBufRow + v;
    }

    /** One call: take rows and produce row groups until the output is full, or until the
        input is used up before the bottom of the image. */
    method PreProcessContext(input: seq<Row>, inStart: nat, outStart: nat, outAvail: nat) returns (inCtr: nat, outCtr: nat)
      requires Valid() && inStart <= |input| && |input| - inStart <= rowsToGo
      requires input[inStart..] == image[|image| - rowsToGo..|image| - rowsToGo + (|input| - inStart)]
      modifies this, buffer
      ensures Valid() && inStart <= inCtr <= |input| && rowsToGo == old(rowsToGo) - (inCtr - inStart)
      ensures outStart <= outCtr && |seen| == old(|seen|) + (outCtr - outStart)
      ensures outCtr >= outAvail || (inCtr == |input| && rowsToGo != 0)
      ensures outStart <= outAvail ==> outCtr <= outAvail
    {
      hide Window, Ring;
      inCtr, outCtr := inStart, outStart;
      while outCtr < outAvail
        invariant Valid() && inStart <= inCtr <= |input| && rowsToGo == old(rowsToGo) - (inCtr - inStart)
        invariant outStart <= outCtr && |seen| == old(|seen|) + (outCtr - outStart)
        invariant outStart <= outAvail ==> outCtr <= outAvail
        invariant |input| - inCtr <= rowsToGo
        invariant input[inCtr..] == image[|image| - rowsToGo..|image| - rowsToGo + (|input| - inCtr)]
        decreases outAvail - outCtr, |input| - inCtr
      {
        if inCtr < |input| {
          var inRows := |input| - inCtr;
          var numRows := if nextBufStop - nextBufRow < inRows then nextBufStop - nextBufRow else inRows;
          TakeRows(input, image, inCtr, |image| - rowsToGo, numRows);
          Store(input[inCtr..inCtr + numRows]);
          inCtr := inCtr + numRows;
        } else {
          if rowsToGo != 0 {
            break;
          }
          if nextBufRow < nextBufStop {
            ExpandBottomEdge();
          }
        }
        if nextBufRow == nextBufStop {
          Downsample();
          outCtr := outCtr + 1;
        }
      }
    }
  }

  lemma {:induction false} SeenWindow(window: seq<Row>, image: seq<Row>, v: nat, g: nat)
    requires image != [] && |window| == 3 * v
    requires forall i :: 0 <= i < 3 * v ==> window[i] == image[Clamp(g * v - v + i, |image|)]
    ensures window == Window(image, v, g)
  {
  }

  /** Rows handed over in order. */
  lemma {:induction false} TakeRows(input: seq<Row>, image: seq<Row>, at: nat, from: nat, n: nat)
    requires at + n <= |input| && from + (|input| - at) <= |image|
    requires input[at..] == image[from..from + (|input| - at)]
    ensures input[at..at + n] == image[from..from + n]
    ensures input[at + n..] == image[from + n..from + n + (|input| - at - n)]
  {
    assert input[at..at + n] == input[at..][..n] && image[from..from + n] == image[from..from + (|input| - at)][..n];
    assert input[at + n..] == input[at..][n..];
  }

  lemma {:induction false} OneMoreGroup(g: nat, v: nat)
    ensures (g + 1) * v == g * v + v
  {
  }

  /** create_context_buffer: 5v row pointers around the 3v real rows. */
  method ContextPointers(v: nat) returns (pointers: seq<nat>)
    requires v >= 1
    ensures |pointers| == 5 * v && forall i :: 0 <= i < 5 * v ==> pointers[i] == Real(v, i - v)
  {
    var fake := new nat[5 * v](_ => 0);
    for i := v to 4 * v
      invariant forall k :: v <= k < i ==> fake[k] == k - v
    {
      fake[i] := i - v;
    }
    for i := 0 to v
      invariant forall k :: v <= k < 4 * v ==> fake[k] == k - v
      invariant forall k :: 0 <= k < i ==> fake[k] == 2 * v + k
      invariant forall k :: 4 * v <= k < 4 * v + i ==> fake[k] == k - 4 * v
    {
      fake[i] := 2 * v + i;
      fake[4 * v + i] := i;
    }
    pointers := fake[..];
  }

  /** A call of the caller: up to so many of the rows not taken yet, for up to so many row
      groups. */
  datatype Call = Call(rows: nat, groups: nat)

  /** What a call took and gave. */
  datatype Progress = Progress(taken: nat, made: nat)

  function Taken(done: seq<Progress>): nat {
    if done == [] then 0 else Taken(done[..|done| - 1]) + done[|done| - 1].taken
  }

  function Made(done: seq<Progress>): nat {
    if done == [] then 0 else Made(done[..|done| - 1]) + done[|done| - 1].made
  }

  lemma {:induction false} TakenNext(done: seq<Progress>, p: Progress)
    ensures Taken(done + [p]) == Taken(done) + p.taken && Made(done + [p]) == Made(done) + p.made
    ensures forall i :: 0 <= i < |done| ==> (done + [p])[..i] == done[..i]
  {
    assert (done + [p])[..|done|] == done;
  }

  function Offered(image: seq<Row>, from: nat, call: Call): nat
    requires from <= |image|
  {
    if call.rows < |image| - from then call.rows else |image| - from
  }

  /** A call takes no more than it is offered and gives no more than it is asked for; and it
      gives less only if it has used up what it was offered and the image is not finished. */
  predicate Serves(image: seq<Row>, from: nat, call: Call, p: Progress)
    requires from <= |image|
  {
    && p.taken <= Offered(image, from, call) && p.made <= call.groups
    && (p.made < call.groups ==> p.taken == Offered(image, from, call) && from + p.taken < |image|)
  }

  /** A whole image over any calls, each offering any number of rows and asking for any
      number of row groups: the groups come in order, each once, with its context. */
  method PreProcessImage(v: nat, image: seq<Row>, calls: seq<Call>) returns (seen: seq<seq<Row>>, done: seq<Progress>)
    requires v >= 1 && image != []
    ensures |done| == |calls| && |seen| == Made(done)
    ensures forall g :: 0 <= g < |seen| ==> seen[g] == Window(image, v, g)
    ensures forall i :: 0 <= i < |calls| ==> Taken(done[..i]) <= |image| && Serves(image, Taken(done[..i]), calls[i], done[i])
  {
    hide Window, Taken, Made;
    var prep := new PrepController(v, image);
    done := [];
    NothingTaken();
    var row := 0;
    for i := 0 to |calls|
      invariant fresh(prep) && fresh(prep.buffer) && prep.Valid() && prep.v == v && prep.image == image
      invariant |done| == i && row == |image| - prep.rowsToGo == Taken(done) && |prep.seen| == Made(done)
      invariant forall j :: 0 <= j < i ==> Taken(done[..j]) <= |image| && Serves(image, Taken(done[..j]), calls[j], done[j])
    {
      var taken, made := prep.PreProcessContext(image[row..row + Offered(image, row, calls[i])], 0, 0, calls[i].groups);
      TakenNext(done, Progress(taken, made));
      assert done[..i] == done;
      done := done + [Progress(taken, made)];
      assert done[..i] == done[..|done| - 1];
      row := row + taken;
    }
    seen := prep.seen;
  }

  lemma {:induction false} NothingTaken()
    ensures Taken([]) == 0 && Made([]) == 0
  {
  }
}

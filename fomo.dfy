/**
 * The FOMO detector: the shape gate that decides whether an engine's tensors
 * suit the model, and the int8 grid decoder that turns the per-cell class
 * heat map into at most one bounding box per cell.
 *
 * The inference engine is abstract: it is represented only by the shapes of
 * its input tensors and by its output tensors (shape, element type,
 * quantisation zero point and scale, raw values).
 */
module Fomo {
  import opened MaTypes

  datatype TensorType = S8 | U8 | S16 | S32 | F32 | OtherType

  /** One output tensor as the engine reports it. */
  datatype Tensor = Tensor(shape: seq<nat>, ttype: TensorType, zeroPoint: int, scale: real, data: seq<int>)

  /** The engine as FOMO sees it. */
  datatype Engine = Engine(inputShapes: seq<seq<nat>>, outputs: seq<Tensor>)

  // ---------------------------------------------------------------------------
  // isValid
  // ---------------------------------------------------------------------------

  datatype Layout = NHWC | NCHW

  /** The input is read as NHWC when its last dimension is a plausible channel count. */
  function DetectLayout(dims: seq<nat>): (l: Layout)
    requires |dims| == 4
    ensures l == NHWC <==> dims[3] == 1 || dims[3] == 3
  {
    if dims[3] == 3 || dims[3] == 1 then NHWC else NCHW
  }

  datatype InputDims = InputDims(n: nat, h: nat, w: nat, c: nat)

  function ReadInputDims(dims: seq<nat>): (d: InputDims)
    requires |dims| == 4
    ensures dims == [d.n, d.h, d.w, d.c] || dims == [d.n, d.c, d.h, d.w]
    ensures d.n == dims[0]
    ensures DetectLayout(dims) == NHWC ==> d == InputDims(dims[0], dims[1], dims[2], dims[3])
    ensures DetectLayout(dims) == NCHW ==> d == InputDims(dims[0], dims[2], dims[3], dims[1])
  {
    match DetectLayout(dims)
    case NHWC => InputDims(dims[0], dims[1], dims[2], dims[3])
    case NCHW => InputDims(dims[0], dims[2], dims[3], dims[1])
  }

  /**
   * The compatibility gate. The output checks compare `dims[1]` with the
   * input width and `dims[2]` with the input height, as the source does.
   */
  function IsValid(e: Engine): (r: bool)
    ensures r ==> |e.inputShapes| == 1 && |e.outputs| == 1
    ensures r ==> |e.inputShapes[0]| == 4 && |e.outputs[0].shape| == 4
  {
    if |e.inputShapes| != 1 || |e.outputs| != 1 then false
    else
      var input := e.inputShapes[0];
      var output := e.outputs[0].shape;
      if |input| != 4 then false
      else
        var d := ReadInputDims(input);
        // `h ^ w` is non-zero exactly when h != w
        if d.n != 1 || d.h != d.w || d.h < 32 || d.h % 32 != 0 || (d.c != 3 && d.c != 1) then false
        else if |output| != 4 || output[0] != 1
                || output[1] < 2 || output[1] > d.w
                || output[2] < 2 || output[2] > d.h
                || output[3] < 2 then false
        else true
  }

  /** A square input of side `s` with `c` channels, in either memory layout. */
  predicate SquareInput(dims: seq<nat>, s: nat, c: nat)
  {
    s >= 32 && s % 32 == 0 && (c == 1 || c == 3) && (dims == [1, s, s, c] || dims == [1, c, s, s])
  }

  /** A batch-1 output grid at least 2x2, no larger than `s` on either axis, with at least two classes. */
  predicate GridFits(out: seq<nat>, s: nat)
  {
    |out| == 4 && out[0] == 1 && 2 <= out[1] <= s && 2 <= out[2] <= s && out[3] >= 2
  }

  /** The compatibility rule stated independently of how `IsValid` sniffs the layout. */
  ghost predicate Compatible(e: Engine)
  {
    && |e.inputShapes| == 1
    && |e.outputs| == 1
    && exists s: nat, c: nat :: SquareInput(e.inputShapes[0], s, c) && GridFits(e.outputs[0].shape, s)
  }

  /** The gate accepts exactly the engines with one square input and one fitting output grid. */
  lemma IsValidIffCompatible(e: Engine)
    ensures IsValid(e) <==> Compatible(e)
  {
    if IsValid(e) {
      var dims := e.inputShapes[0];
      var d := ReadInputDims(dims);
      if DetectLayout(dims) == NHWC {
        assert dims == [1, d.h, d.h, d.c];
      } else {
        assert dims == [1, d.c, d.h, d.h];
      }
      assert SquareInput(dims, d.h, d.c) && GridFits(e.outputs[0].shape, d.h);
    }
    if Compatible(e) {
      var dims := e.inputShapes[0];
      var s: nat, c: nat :| SquareInput(dims, s, c) && GridFits(e.outputs[0].shape, s);
      if dims == [1, s, s, c] {
        assert DetectLayout(dims) == NHWC;
      } else {
        assert dims[3] == s;
        assert DetectLayout(dims) == NCHW;
      }
    }
  }

  /**
   * The decoder reads `dims[1]` as the grid height and `dims[2]` as the grid
   * width, while the gate bounded them by the input width and height; the
   * square-input rule makes the two readings agree.
   */
  lemma GridWithinInput(e: Engine)
    requires IsValid(e)
    ensures ReadInputDims(e.inputShapes[0]).h == ReadInputDims(e.inputShapes[0]).w
    ensures 2 <= e.outputs[0].shape[1] <= ReadInputDims(e.inputShapes[0]).h
    ensures 2 <= e.outputs[0].shape[2] <= ReadInputDims(e.inputShapes[0]).w
  {
  }

  // ---------------------------------------------------------------------------
  // postProcessI8: specification
  // ---------------------------------------------------------------------------

  /** A detection. Coordinates are in pixels: the cell centre and the cell span. */
  datatype BBox = BBox(cx: nat, cy: nat, w: nat, h: nat, score: real, target: nat)

  /**
   * The dequantised, percentage-scaled score of a raw int8 value. With a
   * positive scale, a value is scored above zero exactly when it lies above
   * the zero point; the zero point itself scores zero.
   */
  function Score(raw: int, zeroPoint: int, scale: real): (s: real)
    ensures scale > 0.0 ==> (s > 0.0 <==> raw > zeroPoint)
    ensures raw == zeroPoint ==> s == 0.0
  {
    (raw - zeroPoint) as real * 100.0 * scale
  }

  /** Everything one decode pass reads: the tensor, its grid size, quantisation, threshold and cell span. */
  datatype Grid = Grid(data: seq<int>, predH: nat, predW: nat, predT: nat,
                       zeroPoint: int, scale: real, threshold: real, bw: nat, bh: nat)

  /** The tensor holds exactly one value per cell and channel. */
  predicate WellFormed(g: Grid)
  {
    |g.data| == g.predH * g.predW * g.predT
  }

  /** Growing one factor grows the product (kept apart so the index proof stays small). */
  lemma MulMono(x: nat, y: nat, z: nat)
    requires x <= y
    ensures x * z <= y * z
  {
  }

  /** Every flat index the decoder reads lies inside the tensor. */
  lemma CellIndexInBounds(h: nat, w: nat, t: nat, i: nat, j: nat, k: nat)
    requires i < h && j < w && k < t
    ensures i * w * t + j * t + k < h * w * t
  {
    var wt := w * t;
    assert j * t + k < (j + 1) * t;
    MulMono(j + 1, w, t);
    assert j * t + k < wt;
    MulMono(i + 1, h, wt);
    assert (i + 1) * wt == i * wt + wt;
    assert i * w * t == i * wt;
    assert h * w * t == h * wt;
  }

  predicate InGrid(g: Grid, i: nat, j: nat)
  {
    WellFormed(g) && i < g.predH && j < g.predW
  }

  /** The score of channel `k` of cell (i, j). */
  function ChannelScore(g: Grid, i: nat, j: nat, k: nat): real
    requires InGrid(g, i, j) && k < g.predT
  {
    CellIndexInBounds(g.predH, g.predW, g.predT, i, j, k);
    Score(g.data[i * g.predW * g.predT + j * g.predT + k], g.zeroPoint, g.scale)
  }

  /** The score of channel `t` is the value the decoder reads at the flat index of (i, j, t). */
  lemma ChannelScoreAt(g: Grid, i: nat, j: nat, t: nat, idx: nat)
    requires InGrid(g, i, j) && t < g.predT
    requires idx == i * g.predW * g.predT + j * g.predT + t
    ensures idx < |g.data| && ChannelScore(g, i, j, t) == Score(g.data[idx], g.zeroPoint, g.scale)
  {
    CellIndexInBounds(g.predH, g.predW, g.predT, i, j, t);
  }

  /**
   * The running (maximum, target) after scanning channels [0, t) of a cell,
   * seeded with (threshold, -1) and replaced only on a strictly larger score.
   */
  function BestPrefix(g: Grid, i: nat, j: nat, t: nat): (r: (real, int))
    requires InGrid(g, i, j) && t <= g.predT
    ensures -1 <= r.1 < t
    decreases t
  {
    if t == 0 then (g.threshold, -1)
    else
      var prev := BestPrefix(g, i, j, t - 1);
      var s := ChannelScore(g, i, j, t - 1);
      if s > prev.0 then (s, t - 1) else prev
  }

  /**
   * After scanning channels [0, t): target -1 means no channel beat the
   * threshold; otherwise the target attains the maximum, above the
   * threshold, and is the first channel to do so.
   */
  lemma {:induction false} BestPrefixSpec(g: Grid, i: nat, j: nat, t: nat)
    requires InGrid(g, i, j) && t <= g.predT
    ensures var r := BestPrefix(g, i, j, t);
            && (r.1 == -1 ==> r.0 == g.threshold)
            && (r.1 != -1 ==> r.0 == ChannelScore(g, i, j, r.1) && r.0 > g.threshold)
            && (forall u :: 0 <= u < t ==> ChannelScore(g, i, j, u) <= r.0)
            && (forall u :: 0 <= u < r.1 ==> ChannelScore(g, i, j, u) < r.0)
    decreases t
  {
    if t > 0 {
      BestPrefixSpec(g, i, j, t - 1);
    }
  }

  /** The box a cell contributes: none when no channel beats the threshold. */
  function CellBox(g: Grid, i: nat, j: nat): (b: Option<BBox>)
    requires InGrid(g, i, j)
    ensures b.Some? ==> b.value.target < g.predT
  {
    var best := BestPrefix(g, i, j, g.predT);
    if best.1 == -1 then None
    else Some(BBox(j * g.bw + g.bw / 2, i * g.bh + g.bh / 2, g.bw, g.bh, best.0, best.1))
  }

  /**
   * A cell emits no box exactly when no channel beats the threshold; an
   * emitted box names the first channel attaining the cell maximum.
   */
  lemma CellBoxSpec(g: Grid, i: nat, j: nat)
    requires InGrid(g, i, j)
    ensures var b := CellBox(g, i, j);
            && (b.None? <==> forall u :: 0 <= u < g.predT ==> ChannelScore(g, i, j, u) <= g.threshold)
            && (b.Some? ==> && b.value.target < g.predT
                            && b.value.score > g.threshold
                            && b.value.score == ChannelScore(g, i, j, b.value.target)
                            && (forall u :: 0 <= u < g.predT ==> ChannelScore(g, i, j, u) <= b.value.score)
                            && (forall u :: 0 <= u < b.value.target ==> ChannelScore(g, i, j, u) < b.value.score))
  {
    BestPrefixSpec(g, i, j, g.predT);
  }

  function OptionSeq<T>(o: Option<T>): seq<T>
  {
    if o.Some? then [o.value] else []
  }

  /** Boxes of cells (i, 0) .. (i, j-1), left to right: at most one per cell, each naming a channel. */
  function RowBoxes(g: Grid, i: nat, j: nat): (r: seq<BBox>)
    requires WellFormed(g) && i < g.predH && j <= g.predW
    ensures |r| <= j
    ensures forall k :: 0 <= k < |r| ==> r[k].target < g.predT
  {
    if j == 0 then [] else RowBoxes(g, i, j - 1) + OptionSeq(CellBox(g, i, j - 1))
  }

  /** Boxes of rows 0 .. i-1, top to bottom: the row-major scan, never more boxes than cells scanned. */
  function GridBoxes(g: Grid, i: nat): (r: seq<BBox>)
    requires WellFormed(g) && i <= g.predH
    ensures |r| <= i * g.predW
  {
    if i == 0 then []
    else
      assert (i - 1) * g.predW + g.predW == i * g.predW;
      GridBoxes(g, i - 1) + RowBoxes(g, i - 1, g.predW)
  }

  /** The complete result of one decode pass: at most one box per cell of the grid. */
  function Decode(g: Grid): (r: seq<BBox>)
    requires WellFormed(g)
    ensures |r| <= g.predH * g.predW
  {
    GridBoxes(g, g.predH)
  }

  /** The cells that emitted a box, in the order the decoder visits them. */
  function RowCells(g: Grid, i: nat, j: nat): seq<(nat, nat)>
    requires WellFormed(g) && i < g.predH && j <= g.predW
  {
    if j == 0 then []
    else RowCells(g, i, j - 1) + (if CellBox(g, i, j - 1).Some? then [(i, j - 1)] else [])
  }

  function GridCells(g: Grid, i: nat): seq<(nat, nat)>
    requires WellFormed(g) && i <= g.predH
  {
    if i == 0 then [] else GridCells(g, i - 1) + RowCells(g, i - 1, g.predW)
  }

  /** Strict row-major order on cells. */
  predicate Before(a: (nat, nat), b: (nat, nat))
  {
    a.0 < b.0 || (a.0 == b.0 && a.1 < b.1)
  }

  lemma {:induction false} RowCellsSpec(g: Grid, i: nat, j: nat)
    requires WellFormed(g) && i < g.predH && j <= g.predW
    ensures |RowCells(g, i, j)| == |RowBoxes(g, i, j)| <= j
    ensures forall k :: 0 <= k < |RowCells(g, i, j)| ==>
              && RowCells(g, i, j)[k].0 == i
              && RowCells(g, i, j)[k].1 < j
              && CellBox(g, i, RowCells(g, i, j)[k].1) == Some(RowBoxes(g, i, j)[k])
    ensures forall k, l :: 0 <= k < l < |RowCells(g, i, j)| ==> Before(RowCells(g, i, j)[k], RowCells(g, i, j)[l])
  {
    if j > 0 {
      RowCellsSpec(g, i, j - 1);
    }
  }

  /**
   * Decoding emits at most one box per cell, in strict row-major cell order:
   * the k-th box is the box of the k-th emitting cell.
   */
  lemma {:induction false} GridCellsSpec(g: Grid, i: nat)
    requires WellFormed(g) && i <= g.predH
    ensures |GridCells(g, i)| == |GridBoxes(g, i)|
    ensures forall k :: 0 <= k < |GridCells(g, i)| ==>
              && GridCells(g, i)[k].0 < i
              && GridCells(g, i)[k].1 < g.predW
              && CellBox(g, GridCells(g, i)[k].0, GridCells(g, i)[k].1) == Some(GridBoxes(g, i)[k])
    ensures forall k, l :: 0 <= k < l < |GridCells(g, i)| ==> Before(GridCells(g, i)[k], GridCells(g, i)[l])
  {
    if i > 0 {
      GridCellsSpec(g, i - 1);
      RowCellsSpec(g, i - 1, g.predW);
      var a := GridCells(g, i - 1);
      var b := RowCells(g, i - 1, g.predW);
      assert GridCells(g, i) == a + b;
      forall k, l | 0 <= k < l < |a + b| ensures Before((a + b)[k], (a + b)[l]) {
        if l < |a| {
        } else if k >= |a| {
          assert (a + b)[k] == b[k - |a|] && (a + b)[l] == b[l - |a|];
        } else {
          assert (a + b)[k] == a[k] && (a + b)[l] == b[l - |a|];
        }
      }
    }
  }

  /** Every emitted box beats the threshold and names a channel that attains the cell maximum first. */
  lemma DecodeBoxesSound(g: Grid)
    requires WellFormed(g)
    ensures |Decode(g)| <= g.predH * g.predW
    ensures forall k :: 0 <= k < |Decode(g)| ==>
              Decode(g)[k].score > g.threshold && Decode(g)[k].target < g.predT
  {
    GridCellsSpec(g, g.predH);
    forall k | 0 <= k < |Decode(g)|
      ensures Decode(g)[k].score > g.threshold && Decode(g)[k].target < g.predT
    {
      var c := GridCells(g, g.predH)[k];
      assert CellBox(g, c.0, c.1) == Some(Decode(g)[k]);
      CellBoxSpec(g, c.0, c.1);
    }
  }

  // ---------------------------------------------------------------------------
  // The detector object
  // ---------------------------------------------------------------------------

  /** The output tensor holds one int8 value per cell and channel of its [1, H, W, T] shape. */
  predicate TensorSized(t: Tensor)
  {
    |t.shape| == 4 && |t.data| == t.shape[1] * t.shape[2] * t.shape[3]
  }

  /** The decode parameters `postProcessI8` derives from the output tensor and the input image size. */
  function GridOf(out: Tensor, width: nat, height: nat, threshold: real): (g: Grid)
    requires TensorSized(out) && out.shape[1] > 0 && out.shape[2] > 0
    ensures WellFormed(g)
  {
    Grid(out.data, out.shape[1], out.shape[2], out.shape[3], out.zeroPoint, out.scale, threshold,
         width / out.shape[2], height / out.shape[1])
  }

  /**
   * The channel scan of one cell: the strict arg-max over the channels,
   * seeded with the score threshold and target -1.
   */
  method BestChannel(g: Grid, i: nat, j: nat) returns (maxScore: real, maxTarget: int)
    requires InGrid(g, i, j)
    ensures (maxScore, maxTarget) == BestPrefix(g, i, j, g.predT)
  {
    maxScore := g.threshold;
    maxTarget := -1;
    var t := 0;
    while t < g.predT
      invariant 0 <= t <= g.predT
      invariant (maxScore, maxTarget) == BestPrefix(g, i, j, t)
    {
      var idx := i * g.predW * g.predT + j * g.predT + t;
      ChannelScoreAt(g, i, j, t, idx);
      var score := Score(g.data[idx], g.zeroPoint, g.scale);
      if score > maxScore {
        maxScore := score;
        maxTarget := t;
      }
      t := t + 1;
    }
  }

  class FomoModel {
    /** `results_`: rebuilt by every int8 decode pass. */
    var results: seq<BBox>
    /** `threshold_score_`. */
    const thresholdScore: real

    constructor (threshold: real)
      ensures results == [] && thresholdScore == threshold
    {
      results := [];
      thresholdScore := threshold;
    }

    /** Dispatch on the output element type: only int8 is decoded. */
    method PostProcess(e: Engine, width: nat, height: nat) returns (err: Err)
      requires IsValid(e) && TensorSized(e.outputs[0])
      modifies this
      ensures e.outputs[0].ttype != S8 ==> err == ENotSup && results == old(results)
      ensures e.outputs[0].ttype == S8 ==>
                err == Ok && results == Decode(GridOf(e.outputs[0], width, height, thresholdScore))
    {
      var out := e.outputs[0];
      match out.ttype {
        case S8 =>
          err := PostProcessI8(e, width, height);
        case _ =>
          err := ENotSup;
      }
    }

    /** One row of the scan: appends the box of every emitting cell (i, j), left to right. */
    method DecodeRow(g: Grid, i: nat)
      requires WellFormed(g) && i < g.predH
      modifies this
      ensures results == old(results) + RowBoxes(g, i, g.predW)
    {
      var j := 0;
      while j < g.predW
        invariant 0 <= j <= g.predW
        invariant results == old(results) + RowBoxes(g, i, j)
      {
        var maxScore, maxTarget := BestChannel(g, i, j);
        assert RowBoxes(g, i, j + 1) == RowBoxes(g, i, j) + OptionSeq(CellBox(g, i, j));
        if maxTarget != -1 {
          var box := BBox(j * g.bw + (g.bw / 2), i * g.bh + (g.bh / 2), g.bw, g.bh, maxScore, maxTarget);
          assert CellBox(g, i, j) == Some(box);
          results := results + [box];
        } else {
          assert CellBox(g, i, j) == None;
        }
        j := j + 1;
      }
    }

    /** The int8 grid decode: clears the results, then scans the cells row-major. */
    method PostProcessI8(e: Engine, width: nat, height: nat) returns (err: Err)
      requires IsValid(e) && TensorSized(e.outputs[0])
      modifies this
      ensures err == Ok
      ensures results == Decode(GridOf(e.outputs[0], width, height, thresholdScore))
    {
      results := [];
      var out := e.outputs[0];
      GridWithinInput(e);
      var predH := out.shape[1];
      var g := GridOf(out, width, height, thresholdScore);
      assert predH == g.predH && WellFormed(g);

      var i := 0;
      while i < predH
        invariant 0 <= i <= predH
        invariant results == GridBoxes(g, i)
      {
        DecodeRow(g, i);
        assert GridBoxes(g, i + 1) == GridBoxes(g, i) + RowBoxes(g, i, g.predW);
        i := i + 1;
      }
      err := Ok;
    }
  }
}

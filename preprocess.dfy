/**
 * `WebOCR.preprocessImage`: the image is drawn onto a canvas 64 pixels high,
 * keeping its aspect ratio, and each RGBA pixel of the canvas becomes one
 * grayscale value in [0, 1] of a `float32` tensor shaped `[1, 1, 64, width]`.
 * Drawing and reading back the canvas are left to the browser: the RGBA
 * bytes the canvas returns are an input. A target width of 0 makes
 * `getImageData` throw an `IndexSizeError`.
 */
module Preprocess {
  import opened Wrappers

  newtype byte = x: int | 0 <= x < 256

  /** The height every image is scaled to. */
  const TargetHeight: nat := 64

  /**
   * `Math.floor(originalWidth * (64 / originalHeight))`, in exact arithmetic:
   * the largest width whose ratio to 64 does not exceed that of the image.
   */
  function TargetWidth(w: nat, h: nat): (tw: nat)
    requires h > 0
    ensures tw * h <= w * TargetHeight < (tw + 1) * h
  {
    var tw := w * TargetHeight / h;
    assert w * TargetHeight == tw * h + w * TargetHeight % h;
    tw
  }

  /** `(0.299 * r + 0.587 * g + 0.114 * b) / 255`. */
  function Gray(r: byte, g: byte, b: byte): (v: real)
    ensures 0.0 <= v <= 1.0
  {
    (299 * r as int + 587 * g as int + 114 * b as int) as real / 255000.0
  }

  /** The values the conversion loop stores, four canvas bytes at a time. */
  function Pixels(rgba: seq<byte>): (r: seq<real>)
    requires |rgba| % 4 == 0
    ensures |r| == |rgba| / 4
    decreases |rgba|
  {
    if rgba == [] then [] else [Gray(rgba[0], rgba[1], rgba[2])] + Pixels(rgba[4..])
  }

  /** `new ort.Tensor('float32', data, dims)`. */
  datatype Tensor = Tensor(data: seq<real>, dims: seq<nat>)

  /** The tensor `preprocessImage` returns for canvas bytes `rgba` of an image `w` by `h`. */
  function Preprocessed(w: nat, h: nat, rgba: seq<byte>): Tensor
    requires h > 0 && |rgba| == 4 * (TargetWidth(w, h) * TargetHeight)
  {
    Tensor(Pixels(rgba), [1, 1, TargetHeight, TargetWidth(w, h)])
  }

  /** Entry `k` of the pixels is the gray of bytes `4k`, `4k + 1` and `4k + 2`. */
  lemma {:induction false} PixelsAt(rgba: seq<byte>, k: nat)
    requires |rgba| % 4 == 0 && k < |rgba| / 4
    ensures 4 * k + 3 < |rgba|
    ensures Pixels(rgba)[k] == Gray(rgba[4 * k], rgba[4 * k + 1], rgba[4 * k + 2])
    decreases k
  {
    if k > 0 {
      PixelsAt(rgba[4..], k - 1);
    }
  }

  /** A buffer holding the gray of every four canvas bytes is the pixels of the canvas. */
  lemma PixelsAre(rgba: seq<byte>, data: seq<real>)
    requires |rgba| == 4 * |data|
    requires forall k :: 0 <= k < |data| ==> data[k] == Gray(rgba[4 * k], rgba[4 * k + 1], rgba[4 * k + 2])
    ensures data == Pixels(rgba)
  {
    forall k | 0 <= k < |data|
      ensures data[k] == Pixels(rgba)[k]
    {
      PixelsAt(rgba, k);
    }
  }

  /** The alpha byte of each pixel is never read: canvases that differ only in alpha give the same pixels. */
  lemma {:induction false} AlphaNeverRead(a: seq<byte>, b: seq<byte>)
    requires |a| == |b| && |a| % 4 == 0
    requires forall i :: 0 <= i < |a| && i % 4 != 3 ==> a[i] == b[i]
    ensures Pixels(a) == Pixels(b)
    decreases |a|
  {
    if a != [] {
      assert a[0] == b[0] && a[1] == b[1] && a[2] == b[2];
      forall i | 0 <= i < |a[4..]| && i % 4 != 3
        ensures a[4..][i] == b[4..][i]
      {
        assert (i + 4) % 4 == i % 4;
      }
      AlphaNeverRead(a[4..], b[4..]);
    }
  }

  /** Every value of the tensor is between 0 and 1. */
  lemma PixelsInRange(rgba: seq<byte>)
    requires |rgba| % 4 == 0
    ensures forall k :: 0 <= k < |Pixels(rgba)| ==> 0.0 <= Pixels(rgba)[k] <= 1.0
  {
    forall k | 0 <= k < |Pixels(rgba)|
      ensures 0.0 <= Pixels(rgba)[k] <= 1.0
    {
      PixelsAt(rgba, k);
    }
  }

  /** The error `getImageData` throws for a canvas without pixels. */
  const IndexSizeError: string := "IndexSizeError"

  /**
   * The conversion loop: `for (i = 0; i < data.length; i += 4)` writes the gray
   * of pixel `i / 4` into a `Float32Array` of `n` entries, four canvas bytes
   * per entry.
   */
  method GrayBuffer(rgba: seq<byte>, n: nat) returns (data: seq<real>)
    requires |rgba| == 4 * n
    ensures data == Pixels(rgba)
    ensures |data| == n
    ensures forall k :: 0 <= k < n ==> data[k] == Gray(rgba[4 * k], rgba[4 * k + 1], rgba[4 * k + 2])
  {
    var inputData := new real[n];
    var i := 0;
    while i < |rgba|
      invariant i % 4 == 0 && 0 <= i <= 4 * n
      invariant forall k :: 0 <= k < i / 4 ==> inputData[k] == Gray(rgba[4 * k], rgba[4 * k + 1], rgba[4 * k + 2])
    {
      inputData[i / 4] := Gray(rgba[i], rgba[i + 1], rgba[i + 2]);
      i := i + 4;
    }
    data := inputData[..];
    PixelsAre(rgba, data);
  }

  /**
   * `preprocessImage`: the canvas is `targetWidth` by 64, so it holds exactly
   * four bytes per tensor entry. A canvas of width 0 has no pixels to read,
   * and `getImageData` throws.
   */
  method PreprocessImage(w: nat, h: nat, rgba: seq<byte>) returns (t: Result<Tensor, string>)
    requires h > 0
    requires |rgba| == 4 * (TargetWidth(w, h) * TargetHeight)
    ensures t.Failure? <==> TargetWidth(w, h) == 0
    ensures t.Failure? ==> t.error == IndexSizeError
    ensures t.Success? ==> t.value == Preprocessed(w, h, rgba)
    ensures t.Success? ==> t.value.dims == [1, 1, TargetHeight, TargetWidth(w, h)]
    ensures t.Success? ==> |t.value.data| == TargetWidth(w, h) * TargetHeight
    ensures t.Success? ==> forall k :: 0 <= k < |t.value.data| ==>
      t.value.data[k] == Gray(rgba[4 * k], rgba[4 * k + 1], rgba[4 * k + 2])
  {
    var targetWidth := w * TargetHeight / h;
    assert targetWidth == TargetWidth(w, h);
    if targetWidth == 0 {
      return Failure(IndexSizeError);
    }
    var data := GrayBuffer(rgba, targetWidth * TargetHeight);
    t := Success(Tensor(data, [1, 1, TargetHeight, targetWidth]));
  }
}

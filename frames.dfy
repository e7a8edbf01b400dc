/**
 * Decoded images and the per-pixel maximum that turns a sequence of night-sky frames into a
 * star-trail image.
 *
 * `cv2.imread` in its default colour mode yields a height x width x 3 array of 8-bit samples;
 * the stacking loop converts it to `float32`, which holds every value 0..255 exactly, so the
 * accumulator is modelled over unbounded integers.
 */
module Frames {
  import opened Wrappers

  /** Colour channels per pixel of a decoded image (BGR). */
  const Channels: nat := 3

  /** A height x width x Channels buffer, flattened row by row. */
  datatype Image = Image(height: nat, width: nat, samples: seq<int>)

  predicate WellShaped(img: Image) {
    |img.samples| == img.height * img.width * Channels
  }

  predicate IsByte(x: int) {
    0 <= x <= 255
  }

  /** An image whose samples are all valid 8-bit values. */
  predicate IsByteImage(img: Image) {
    WellShaped(img) && forall k :: 0 <= k < |img.samples| ==> IsByte(img.samples[k])
  }

  /** What a successful `cv2.imread` returns: an 8-bit colour image. */
  type Frame = img: Image | IsByteImage(img) witness Image(0, 0, [])

  /** Decoding of one file: `Some(frame)`, or `None` where `cv2.imread` returns nothing. */
  type Decoder = string -> Option<Frame>

  predicate SameShape(a: Image, b: Image) {
    a.height == b.height && a.width == b.width
  }

  function Max(x: int, y: int): int {
    if x < y then y else x
  }

  /** `np.maximum(a, b)` on two arrays of the same shape. */
  function MaxImage(a: Image, b: Image): (r: Image)
    requires WellShaped(a) && WellShaped(b) && SameShape(a, b)
    ensures WellShaped(r) && SameShape(r, a)
    ensures forall k :: 0 <= k < |r.samples| ==>
      r.samples[k] >= a.samples[k] && r.samples[k] >= b.samples[k] &&
      (r.samples[k] == a.samples[k] || r.samples[k] == b.samples[k])
  {
    Image(a.height, a.width, seq(|a.samples|, k requires 0 <= k < |a.samples| => Max(a.samples[k], b.samples[k])))
  }

  /**
   * `np.uint8(img)`: every sample reduced to 8 bits. Values already in 0..255 stay as they are;
   * others are taken modulo 256 (the conversion of an out-of-range float is platform-specific
   * in NumPy, and the model never needs it).
   */
  function Narrow(img: Image): (r: Image)
    ensures SameShape(r, img) && |r.samples| == |img.samples|
    ensures forall k :: 0 <= k < |r.samples| ==> IsByte(r.samples[k])
    ensures forall k :: 0 <= k < |r.samples| && IsByte(img.samples[k]) ==> r.samples[k] == img.samples[k]
  {
    Image(img.height, img.width, seq(|img.samples|, k requires 0 <= k < |img.samples| => img.samples[k] % 256))
  }

  /** Narrowing an 8-bit image loses nothing. */
  lemma NarrowByteImage(img: Image)
    requires IsByteImage(img)
    ensures Narrow(img) == img
  {
    assert Narrow(img).samples == img.samples;
  }

  /** Why stacking stopped: the list was empty, a file did not decode, or a frame's shape differs. */
  datatype Failure = NoImages | Unreadable(path: string) | ShapeMismatch(path: string)

  /**
   * The stacking of `files` in list order: the first decoded frame, with each later frame folded
   * in by `np.maximum`; the first file that does not decode, or whose shape differs from the
   * accumulator's, ends it with an error.
   */
  function Stack(files: seq<string>, decode: Decoder): (r: Result<Image, Failure>)
    ensures r.Ok? ==> |files| > 0 && decode(files[0]).Some?
    ensures r.Ok? ==> WellShaped(r.value) && SameShape(r.value, decode(files[0]).value)
    decreases |files|
  {
    if files == [] then Err(NoImages)
    else if |files| == 1 then
      match decode(files[0])
      case None => Err(Unreadable(files[0]))
      case Some(first) => Ok(first)
    else
      var init := files[..|files| - 1];
      var last := files[|files| - 1];
      assert init[0] == files[0];
      match Stack(init, decode)
      case Err(e) => Err(e)
      case Ok(acc) =>
        match decode(last)
        case None => Err(Unreadable(last))
        case Some(f) => if SameShape(acc, f) then Ok(MaxImage(acc, f)) else Err(ShapeMismatch(last))
  }

  /** Stacking one more file onto a successful prefix: what one iteration of the loop does. */
  lemma StackStep(files: seq<string>, i: nat, decode: Decoder)
    requires 0 < i < |files|
    ensures Stack(files[..i + 1], decode) ==
      match Stack(files[..i], decode)
      case Err(e) => Err(e)
      case Ok(acc) =>
        match decode(files[i])
        case None => Err(Unreadable(files[i]))
        case Some(f) => if SameShape(acc, f) then Ok(MaxImage(acc, f)) else Err(ShapeMismatch(files[i]))
  {
    assert files[..i + 1][..i] == files[..i];
  }

  /** Once stacking a prefix has failed, the whole list fails with the same error. */
  lemma {:induction false} StackErrorPersists(files: seq<string>, i: nat, decode: Decoder)
    requires 0 < i <= |files| && Stack(files[..i], decode).Err?
    ensures Stack(files, decode) == Stack(files[..i], decode)
    decreases |files| - i
  {
    if i < |files| {
      StackStep(files, i, decode);
      StackErrorPersists(files, i + 1, decode);
    } else {
      assert files[..i] == files;
    }
  }

  /** Every file decodes to a frame of the first frame's shape. */
  predicate Uniform(files: seq<string>, decode: Decoder) {
    |files| > 0 &&
    (forall i :: 0 <= i < |files| ==> decode(files[i]).Some?) &&
    (forall i :: 0 <= i < |files| ==> SameShape(decode(files[i]).value, decode(files[0]).value))
  }

  /**
   * The accumulator after the whole list: at every sample it is at least each
   * frame's value there, and equal to one of them.
   */
  predicate IsPointwiseMax(r: Image, files: seq<string>, decode: Decoder)
    requires forall i :: 0 <= i < |files| ==> decode(files[i]).Some?
  {
    WellShaped(r) &&
    (forall i :: 0 <= i < |files| ==> |decode(files[i]).value.samples| == |r.samples|) &&
    (forall k, i :: 0 <= k < |r.samples| && 0 <= i < |files| ==> decode(files[i]).value.samples[k] <= r.samples[k]) &&
    (forall k :: 0 <= k < |r.samples| ==> exists i :: 0 <= i < |files| && decode(files[i]).value.samples[k] == r.samples[k])
  }

  /** Stacking succeeds exactly when every file decodes to a frame of the first frame's shape. */
  lemma {:induction false} StackSucceedsIff(files: seq<string>, decode: Decoder)
    ensures Stack(files, decode).Ok? <==> Uniform(files, decode)
    decreases |files|
  {
    if |files| > 1 {
      var n := |files|;
      var init := files[..n - 1];
      assert init[0] == files[0];
      StackSucceedsIff(init, decode);
      if Uniform(files, decode) {
        assert Uniform(init, decode) by {
          forall i | 0 <= i < |init| ensures decode(init[i]).Some? && SameShape(decode(init[i]).value, decode(init[0]).value) {
            assert init[i] == files[i];
          }
        }
        assert SameShape(Stack(init, decode).value, decode(files[n - 1]).value);
      }
      if Stack(files, decode).Ok? {
        assert Stack(init, decode).Ok?;
        forall i | 0 <= i < n ensures decode(files[i]).Some? && SameShape(decode(files[i]).value, decode(files[0]).value) {
          if i < n - 1 { assert files[i] == init[i]; }
        }
      }
    }
  }

  /**
   * After the whole list, every sample of the accumulator is the maximum of that sample over
   * all frames: at least each of them and equal to one of them.
   */
  lemma {:induction false} StackIsPointwiseMax(files: seq<string>, decode: Decoder)
    requires Uniform(files, decode)
    ensures Stack(files, decode).Ok?
    ensures IsPointwiseMax(Stack(files, decode).value, files, decode)
    decreases |files|
  {
    StackSucceedsIff(files, decode);
    var r := Stack(files, decode).value;
    var n := |files|;
    forall i | 0 <= i < n ensures |decode(files[i]).value.samples| == |r.samples| {
      assert WellShaped(decode(files[i]).value);
    }
    if n == 1 {
      forall k | 0 <= k < |r.samples| ensures exists i :: 0 <= i < n && decode(files[i]).value.samples[k] == r.samples[k] {
        assert decode(files[0]).value.samples[k] == r.samples[k];
      }
    } else {
      var init := files[..n - 1];
      assert init[0] == files[0];
      assert Uniform(init, decode) by {
        forall i | 0 <= i < |init| ensures decode(init[i]).Some? && SameShape(decode(init[i]).value, decode(init[0]).value) {
          assert init[i] == files[i];
        }
      }
      StackIsPointwiseMax(init, decode);
      var acc := Stack(init, decode).value;
      var f := decode(files[n - 1]).value;
      assert r == MaxImage(acc, f);
      forall k, i | 0 <= k < |r.samples| && 0 <= i < n ensures decode(files[i]).value.samples[k] <= r.samples[k] {
        if i < n - 1 { assert files[i] == init[i]; }
      }
      forall k | 0 <= k < |r.samples| ensures exists i :: 0 <= i < n && decode(files[i]).value.samples[k] == r.samples[k] {
        if r.samples[k] == acc.samples[k] {
          var i :| 0 <= i < |init| && decode(init[i]).value.samples[k] == acc.samples[k];
          assert files[i] == init[i];
        } else {
          assert decode(files[n - 1]).value.samples[k] == r.samples[k];
        }
      }
    }
  }

  /** The stacked image is again an 8-bit image, so the final `np.uint8` conversion loses nothing. */
  lemma StackIsByteImage(files: seq<string>, decode: Decoder)
    requires Stack(files, decode).Ok?
    ensures IsByteImage(Stack(files, decode).value)
    ensures Narrow(Stack(files, decode).value) == Stack(files, decode).value
  {
    StackSucceedsIff(files, decode);
    StackIsPointwiseMax(files, decode);
    var r := Stack(files, decode).value;
    forall k | 0 <= k < |r.samples| ensures IsByte(r.samples[k]) {
      var i :| 0 <= i < |files| && decode(files[i]).value.samples[k] == r.samples[k];
      var f: Frame := decode(files[i]).value;
      assert IsByte(f.samples[k]);
    }
    NarrowByteImage(r);
  }

  /** Stacking a one-file list yields exactly that file's frame. */
  lemma StackSingle(path: string, decode: Decoder)
    requires decode(path).Some?
    ensures Stack([path], decode) == Ok(decode(path).value)
  {
  }

  /** Two images that are both the pointwise maximum of the same frames are equal. */
  lemma PointwiseMaxUnique(r: Image, r': Image, files: seq<string>, files': seq<string>, decode: Decoder)
    requires forall p :: p in files <==> p in files'
    requires forall i :: 0 <= i < |files| ==> decode(files[i]).Some?
    requires forall i :: 0 <= i < |files'| ==> decode(files'[i]).Some?
    requires IsPointwiseMax(r, files, decode) && IsPointwiseMax(r', files', decode)
    requires SameShape(r, r') && |files| > 0
    ensures r == r'
  {
    assert |r.samples| == |r'.samples| == |decode(files[0]).value.samples| by {
      assert files[0] in files';
      var j :| 0 <= j < |files'| && files'[j] == files[0];
    }
    forall k | 0 <= k < |r.samples| ensures r.samples[k] == r'.samples[k] {
      var i :| 0 <= i < |files| && decode(files[i]).value.samples[k] == r.samples[k];
      var i' :| 0 <= i' < |files'| && decode(files'[i']).value.samples[k] == r'.samples[k];
      assert files[i] in files';
      var j :| 0 <= j < |files'| && files'[j] == files[i];
      assert files'[i'] in files;
      var j' :| 0 <= j' < |files| && files[j'] == files'[i'];
      assert decode(files'[j]).value.samples[k] <= r'.samples[k];
      assert decode(files[j']).value.samples[k] <= r.samples[k];
    }
  }

  /**
   * The order of the list, and files listed more than once, do not change the stacked image:
   * any two lists naming the same files stack to the same result.
   */
  lemma StackOrderIndependent(files: seq<string>, files': seq<string>, decode: Decoder)
    requires forall p :: p in files <==> p in files'
    requires Stack(files, decode).Ok?
    ensures Stack(files', decode) == Stack(files, decode)
  {
    StackSucceedsIff(files, decode);
    assert files[0] in files';
    assert |files'| > 0;
    assert files'[0] in files;
    var j0 :| 0 <= j0 < |files| && files[j0] == files'[0];
    assert Uniform(files', decode) by {
      forall i | 0 <= i < |files'| ensures decode(files'[i]).Some? && SameShape(decode(files'[i]).value, decode(files'[0]).value) {
        assert files'[i] in files;
        var j :| 0 <= j < |files| && files[j] == files'[i];
      }
    }
    StackSucceedsIff(files', decode);
    StackIsPointwiseMax(files, decode);
    StackIsPointwiseMax(files', decode);
    PointwiseMaxUnique(Stack(files, decode).value, Stack(files', decode).value, files, files', decode);
  }
}

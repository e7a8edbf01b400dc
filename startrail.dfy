/**
 * The star-trail generator window: choosing a folder builds the list of frames, and "Generate
 * Star Trail" stacks them by per-pixel maximum, writes the 8-bit result, and writes an animated
 * GIF of the frames that PIL can open.
 *
 * Decoding (`cv2.imread`) and opening (`PIL.Image.open`) are parameters of the operations that
 * use them; the files the application writes are recorded in a map from path to content.
 */
module StarTrailApp {
  import opened Wrappers
  import opened Frames
  import Seqs
  import Manifest
  import Digits
  import Text

  /** Whether `PIL.Image.open` succeeds on a path. */
  type Opener = string -> bool

  /** The text the output file name entries and the duration spinbox start with. */
  const DefaultImageFilename: string := "star_trail.jpg"
  const DefaultGifFilename: string := "star_trail_timelapse.gif"
  const DefaultGifDuration: string := "50"

  /** The frame duration used when the spinbox text is not an integer. */
  const FallbackDuration: int := 50

  /** The text of the status bar. */
  datatype Status =
    | Ready
    | Found(count: nat)
    | Reading
    | Processing(index: nat, total: nat, percent: int)
    | CreatingGif
    | CouldNotOpen(name: string)
    | Completed(folder: string)
    | NoGifImages
    | Failed(error: Failure)

  /** The message boxes the window shows. */
  datatype Dialog =
    | NoImagesSelected
    | NoOutputFolder
    | Success(folder: string)
    | GifFailed
    | ErrorOccurred(error: Failure)

  /** What the application writes to a path: the stacked image, or an animation of frames. */
  datatype Output =
    | Raster(image: Image)
    | Animation(frames: seq<string>, durationMs: int, loop: nat)

  /*
   * Progress.
   */

  /**
   * `int((i / total) * 100)`: the percentage shown after frame `i` of `total`, rounded down.
   */
  function Progress(i: nat, total: nat): (p: nat)
    requires total > 0
    ensures p * total <= i * 100 < (p + 1) * total
  {
    (i * 100) / total
  }

  /**
   * The values the progress bar shows while stacking `total` frames: 1 once the first frame is
   * read, then the percentage after each later frame.
   */
  function ProgressTrace(total: nat): (t: seq<nat>)
    ensures |t| == total
  {
    seq(total, j requires 0 <= j < total => if j == 0 then 1 else Progress(j, total))
  }

  /** A product grows with its first factor. */
  lemma MulMono(a: nat, b: nat, c: nat)
    requires a <= b
    ensures a * c <= b * c
  {
  }

  /** The percentage never falls as more frames are done. */
  lemma ProgressMonotone(i: nat, j: nat, total: nat)
    requires total > 0 && i <= j
    ensures Progress(i, total) <= Progress(j, total)
  {
    var p, q := Progress(i, total), Progress(j, total);
    if q < p {
      MulMono(q + 1, p, total);
    }
  }

  /** Inside the loop the bar never reaches 100: every value shown is below it. */
  lemma ProgressBelowHundred(total: nat)
    ensures forall j :: 0 <= j < total ==> ProgressTrace(total)[j] < 100
  {
    forall j | 1 <= j < total ensures Progress(j, total) < 100 {
      var p := Progress(j, total);
      if 100 <= p {
        MulMono(100, p, total);
      }
    }
  }

  /**
   * The bar moves only forward exactly when there are at most 100 frames; with more, the
   * percentage after the second frame is 0, below the 1 shown for the first.
   */
  lemma ProgressTraceMonotoneIff(total: nat)
    requires total > 0
    ensures (forall a, b :: 0 <= a <= b < total ==> ProgressTrace(total)[a] <= ProgressTrace(total)[b])
      <==> total <= 100
  {
    var t := ProgressTrace(total);
    if total <= 100 {
      forall a, b | 0 <= a <= b < total ensures t[a] <= t[b] {
        if a == 0 {
          if b > 0 {
            ProgressMonotone(1, b, total);
          }
        } else {
          ProgressMonotone(a, b, total);
        }
      }
    } else {
      var p := Progress(1, total);
      if 1 <= p {
        MulMono(1, p, total);
      }
      assert t[0] == 1 && t[1] == 0;
    }
  }

  /*
   * The GIF frame duration.
   */

  /** `int(self.gif_duration.get())`, falling back to 50 ms when that raises `ValueError`. */
  function GifDuration(text: string): (ms: int)
    ensures Digits.ParseInt(text).Some? ==> ms == Digits.ParseInt(text).value
    ensures Digits.ParseInt(text).None? ==> ms == FallbackDuration
  {
    match Digits.ParseInt(text)
    case Some(n) => n
    case None => FallbackDuration
  }

  /** A duration typed as an integer is used as it is. */
  lemma GifDurationOfInteger(n: int)
    ensures GifDuration(Digits.IntToString(n)) == n
  {
    Digits.ParseIntOfIntToString(n);
  }

  /** The spinbox's initial text gives 50 ms. */
  lemma GifDurationDefault()
    ensures GifDuration(DefaultGifDuration) == 50
  {
    assert Digits.IntToString(50) == DefaultGifDuration;
    GifDurationOfInteger(50);
  }

  /** Text without a single digit is not an integer, so the duration falls back to 50 ms. */
  lemma GifDurationFallback(text: string)
    requires forall k :: 0 <= k < |text| ==> !Digits.IsDigit(text[k])
    ensures GifDuration(text) == FallbackDuration
  {
    var l := Text.LStrip(text);
    var t := Text.RStrip(l);
    assert Text.Strip(text) == t;
    assert forall k :: 0 <= k < |l| ==> l[k] == text[|text| - |l| + k];
    assert forall k :: 0 <= k < |t| ==> t[k] == l[k];
    if |t| > 1 {
      assert !Digits.IsDigit(t[1]);
    }
    if |t| > 0 {
      assert !Digits.IsDigit(t[0]);
    }
  }

  /*
   * How far the stacking loop gets.
   */

  /**
   * The number of files the stacking loop folds in before it stops: all of them when stacking
   * succeeds, otherwise the files before the one that fails.
   */
  function Stacked(files: seq<string>, decode: Decoder): (n: nat)
    ensures n <= |files|
    ensures 0 < n ==> Stack(files[..n], decode).Ok?
    ensures n < |files| ==> Stack(files[..n + 1], decode).Err?
    decreases |files|
  {
    if files == [] then 0
    else if Stack(files, decode).Ok? then
      assert files[..|files|] == files;
      |files|
    else
      var init := files[..|files| - 1];
      var n := Stacked(init, decode);
      assert init[..n] == files[..n];
      if n < |init| then
        assert init[..n + 1] == files[..n + 1];
        n
      else
        assert files[..n + 1] == files;
        n
  }

  /** The files `cv2.imread` is called on: those folded in, and the one that failed, if any. */
  function ReadCount(files: seq<string>, decode: Decoder): (n: nat)
    ensures Stacked(files, decode) <= n <= |files|
  {
    var k := Stacked(files, decode);
    if k < |files| then k + 1 else k
  }

  /** The first file whose stacking fails is the first one not folded in. */
  lemma {:induction false} StackedStopsAt(files: seq<string>, decode: Decoder, i: nat)
    requires i < |files| && (i == 0 || Stack(files[..i], decode).Ok?) && Stack(files[..i + 1], decode).Err?
    ensures Stacked(files, decode) == i
    decreases |files|
  {
    var init := files[..|files| - 1];
    if i + 1 == |files| {
      assert files[..i + 1] == files;
      assert init == files[..i];
      if i == 0 {
        assert init == [];
      }
    } else {
      StackErrorPersists(files, i + 1, decode);
      assert init[..i] == files[..i] && init[..i + 1] == files[..i + 1];
      StackedStopsAt(init, decode, i);
    }
  }

  /** Where stacking first fails, the loop has folded in the files before and read one more. */
  lemma StopsAt(files: seq<string>, decode: Decoder, i: nat)
    requires i < |files| && (i == 0 || Stack(files[..i], decode).Ok?) && Stack(files[..i + 1], decode).Err?
    ensures Stacked(files, decode) == i && ReadCount(files, decode) == i + 1
    ensures Stack(files, decode) == Stack(files[..i + 1], decode)
  {
    StackedStopsAt(files, decode, i);
    StackErrorPersists(files, i + 1, decode);
  }

  /** Appending the next element of `s` to a log that ends with a slice of `s` extends the slice. */
  lemma SnocSlice<T>(log: seq<T>, s: seq<T>, lo: nat, i: nat)
    requires lo <= i < |s|
    ensures log + s[lo..i] + [s[i]] == log + s[lo..i + 1]
  {
    assert s[lo..i + 1] == s[lo..i] + [s[i]];
  }

  /** A log that ends with the first element of `s` and then a slice of the rest ends with a prefix of `s`. */
  lemma ConsSlice<T>(log: seq<T>, s: seq<T>, n: nat)
    requires 1 <= n <= |s|
    ensures log + [s[0]] + s[1..n] == log + s[..n]
  {
    assert s[..n] == [s[0]] + s[1..n];
  }

  /** A successful stacking folds in, and reads, every file. */
  lemma AllStacked(files: seq<string>, decode: Decoder)
    requires Stack(files, decode).Ok?
    ensures Stacked(files, decode) == |files| && ReadCount(files, decode) == |files|
  {
  }

  /** One more frame of the same shape extends a successful stacking by its maximum with that frame. */
  lemma StackExtends(files: seq<string>, i: nat, decode: Decoder, acc: Image, frame: Frame)
    requires 0 < i < |files| && Stack(files[..i], decode) == Ok(acc)
    requires decode(files[i]) == Some(frame) && SameShape(acc, frame)
    ensures WellShaped(acc) && Stack(files[..i + 1], decode) == Ok(MaxImage(acc, frame))
  {
    StackStep(files, i, decode);
  }

  /** A frame that does not decode, or differs in shape, ends the stacking of the whole list with its error. */
  lemma StackBreaks(files: seq<string>, i: nat, decode: Decoder, acc: Image)
    requires 0 < i < |files| && Stack(files[..i], decode) == Ok(acc)
    requires decode(files[i]).None? || !SameShape(acc, decode(files[i]).value)
    ensures Stacked(files, decode) == i && ReadCount(files, decode) == i + 1
    ensures Stack(files, decode) ==
      if decode(files[i]).None? then Err(Unreadable(files[i])) else Err(ShapeMismatch(files[i]))
  {
    StackStep(files, i, decode);
    StopsAt(files, decode, i);
  }

  /** A first file that does not decode ends the stacking before anything is folded in. */
  lemma FirstUnreadable(files: seq<string>, decode: Decoder)
    requires 0 < |files| && decode(files[0]).None?
    ensures Stacked(files, decode) == 0 && ReadCount(files, decode) == 1
    ensures Stack(files, decode) == Err(Unreadable(files[0]))
  {
    assert files[..1] == [files[0]];
    StopsAt(files, decode, 0);
  }

  /*
   * One run of `_process_thread`.
   */

  /** What a run leaves behind: the last stacked image, the files written, the status text and the message box. */
  datatype RunResult = RunResult(finalImage: Option<Image>, written: map<string, Output>, status: Status, dialog: Dialog)

  /**
   * The outcome of stacking `files` and writing the results into `outputFolder`, starting from
   * the files already `written` and the previous `finalImage`. A decoding error or a shape
   * mismatch ends the run before anything is written. Otherwise the 8-bit image is written, then
   * the GIF of the files PIL opens, unless it opens none.
   */
  function Run(files: seq<string>, decode: Decoder, open: Opener, outputFolder: string,
               imageFilename: string, gifFilename: string, durationText: string,
               written: map<string, Output>, finalImage: Option<Image>): (r: RunResult)
    ensures r.status.Failed? <==> Stack(files, decode).Err?
    ensures r.status.Failed? ==> r.written == written && r.finalImage == finalImage
    ensures r.status.Failed? ==> r.dialog == ErrorOccurred(r.status.error)
  {
    match Stack(files, decode)
    case Err(e) => RunResult(finalImage, written, Failed(e), ErrorOccurred(e))
    case Ok(acc) =>
      Finish(outputFolder, Manifest.Join(outputFolder, imageFilename), Manifest.Join(outputFolder, gifFilename),
             written, Narrow(acc), Seqs.Filter(files, open), GifDuration(durationText))
  }

  /**
   * The part of a run after stacking succeeded: write `image` to `imagePath`, then, unless
   * no frame opened, the animation of `frames` to `gifPath`.
   */
  function Finish(outputFolder: string, imagePath: string, gifPath: string,
                  written: map<string, Output>, image: Image, frames: seq<string>, duration: int): (r: RunResult)
    ensures r.finalImage == Some(image)
    ensures r.status == Completed(outputFolder) || r.status == NoGifImages
  {
    var withImage := written[imagePath := Raster(image)];
    if frames == [] then
      RunResult(Some(image), withImage, NoGifImages, GifFailed)
    else
      RunResult(Some(image), withImage[gifPath := Animation(frames, duration, 0)],
                Completed(outputFolder), Success(outputFolder))
  }

  /** A run whose stacking fails with `e` reports `e` and changes nothing else. */
  lemma RunFailed(files: seq<string>, decode: Decoder, open: Opener, outputFolder: string,
                  imageFilename: string, gifFilename: string, durationText: string,
                  written: map<string, Output>, finalImage: Option<Image>, e: Failure)
    requires Stack(files, decode) == Err(e)
    ensures Run(files, decode, open, outputFolder, imageFilename, gifFilename, durationText, written, finalImage) ==
      RunResult(finalImage, written, Failed(e), ErrorOccurred(e))
  {
  }

  /** A run whose stacking succeeds with `acc` goes on to write its outputs. */
  lemma RunStacked(files: seq<string>, decode: Decoder, open: Opener, outputFolder: string,
                   imageFilename: string, gifFilename: string, durationText: string,
                   written: map<string, Output>, finalImage: Option<Image>, acc: Image)
    requires Stack(files, decode) == Ok(acc)
    ensures Run(files, decode, open, outputFolder, imageFilename, gifFilename, durationText, written, finalImage) ==
      Finish(outputFolder, Manifest.Join(outputFolder, imageFilename), Manifest.Join(outputFolder, gifFilename),
             written, Narrow(acc), Seqs.Filter(files, open), GifDuration(durationText))
  {
  }

  /** A run writes nothing but the image path and the GIF path; every other file is left as it was. */
  lemma RunKeepsOtherFiles(files: seq<string>, decode: Decoder, open: Opener, outputFolder: string,
                           imageFilename: string, gifFilename: string, durationText: string,
                           written: map<string, Output>, finalImage: Option<Image>, p: string)
    requires p != Manifest.Join(outputFolder, imageFilename) && p != Manifest.Join(outputFolder, gifFilename)
    ensures var r := Run(files, decode, open, outputFolder, imageFilename, gifFilename, durationText, written, finalImage);
      (p in r.written <==> p in written) && (p in written ==> r.written[p] == written[p])
  {
  }

  /** A run fails exactly when some file does not decode or differs in shape from the first. */
  lemma RunFailsIff(files: seq<string>, decode: Decoder, open: Opener, outputFolder: string,
                    imageFilename: string, gifFilename: string, durationText: string,
                    written: map<string, Output>, finalImage: Option<Image>)
    ensures Run(files, decode, open, outputFolder, imageFilename, gifFilename, durationText, written, finalImage).status.Failed?
      <==> !Uniform(files, decode)
  {
    StackSucceedsIff(files, decode);
  }

  /**
   * A successful run keeps, and writes to the image path, the per-pixel maximum over all frames,
   * which is an 8-bit image; a GIF written to the same path afterwards replaces it.
   */
  lemma RunWritesStackedImage(files: seq<string>, decode: Decoder, open: Opener, outputFolder: string,
                              imageFilename: string, gifFilename: string, durationText: string,
                              written: map<string, Output>, finalImage: Option<Image>)
    requires Uniform(files, decode)
    ensures var r := Run(files, decode, open, outputFolder, imageFilename, gifFilename, durationText, written, finalImage);
      var imagePath := Manifest.Join(outputFolder, imageFilename);
      r.finalImage.Some? && IsPointwiseMax(r.finalImage.value, files, decode) && IsByteImage(r.finalImage.value) &&
      imagePath in r.written &&
      (imagePath != Manifest.Join(outputFolder, gifFilename) || Seqs.Filter(files, open) == [] ==>
        r.written[imagePath] == Raster(r.finalImage.value))
  {
    StackIsPointwiseMax(files, decode);
    StackIsByteImage(files, decode);
  }

  /**
   * When at least one file opens, the GIF holds the files that open, in manifest order, with
   * the chosen frame duration, looping forever; the run reports success.
   */
  lemma RunWritesAnimation(files: seq<string>, decode: Decoder, open: Opener, outputFolder: string,
                           imageFilename: string, gifFilename: string, durationText: string,
                           written: map<string, Output>, finalImage: Option<Image>, k: nat)
    requires Uniform(files, decode) && k < |files| && open(files[k])
    ensures var r := Run(files, decode, open, outputFolder, imageFilename, gifFilename, durationText, written, finalImage);
      var gifPath := Manifest.Join(outputFolder, gifFilename);
      gifPath in r.written && r.written[gifPath] == Animation(Seqs.Filter(files, open), GifDuration(durationText), 0) &&
      r.status == Completed(outputFolder) && r.dialog == Success(outputFolder)
  {
    StackSucceedsIff(files, decode);
    Seqs.FilterMembers(files, open, files[k]);
  }

  /** When no file opens, no GIF is written: only the image is, and the run reports the failure. */
  lemma RunWithoutAnimation(files: seq<string>, decode: Decoder, open: Opener, outputFolder: string,
                            imageFilename: string, gifFilename: string, durationText: string,
                            written: map<string, Output>, finalImage: Option<Image>)
    requires Uniform(files, decode)
    requires forall k :: 0 <= k < |files| ==> !open(files[k])
    ensures var r := Run(files, decode, open, outputFolder, imageFilename, gifFilename, durationText, written, finalImage);
      r.finalImage.Some? && r.written == written[Manifest.Join(outputFolder, imageFilename) := Raster(r.finalImage.value)] &&
      r.status == NoGifImages && r.dialog == GifFailed
  {
    StackSucceedsIff(files, decode);
    Seqs.FilterEmpty(files, open);
  }

  /** A one-file manifest produces exactly that file's frame. */
  lemma RunSingleImage(path: string, decode: Decoder, open: Opener, outputFolder: string,
                       imageFilename: string, gifFilename: string, durationText: string,
                       written: map<string, Output>, finalImage: Option<Image>)
    requires decode(path).Some?
    ensures Run([path], decode, open, outputFolder, imageFilename, gifFilename, durationText, written, finalImage).finalImage
      == Some(decode(path).value)
  {
    StackSingle(path, decode);
    NarrowByteImage(decode(path).value);
  }

  /** The stacked image depends only on which files are listed, not on their order. */
  lemma RunOrderIndependent(files: seq<string>, files': seq<string>, decode: Decoder, open: Opener, outputFolder: string,
                            imageFilename: string, gifFilename: string, durationText: string,
                            written: map<string, Output>, finalImage: Option<Image>)
    requires forall p :: p in files <==> p in files'
    ensures Run(files, decode, open, outputFolder, imageFilename, gifFilename, durationText, written, finalImage).finalImage ==
      Run(files', decode, open, outputFolder, imageFilename, gifFilename, durationText, written, finalImage).finalImage
  {
    if Stack(files, decode).Ok? {
      StackOrderIndependent(files, files', decode);
    } else if Stack(files', decode).Ok? {
      StackOrderIndependent(files', files, decode);
    }
  }

  /*
   * The window.
   */

  /** The application's state: what the entries hold, the progress bar, the status bar and what it has written. */
  class StarTrailGenerator {
    var imageFolder: string
    var imageFiles: seq<string>
    var outputFolder: string
    /** The texts of the two file name entries and of the duration spinbox, as the user left them. */
    var imageFilename: string
    var gifFilename: string
    var gifDuration: string
    var finalImage: Option<Image>
    var progress: int
    var status: Status
    var processEnabled: bool
    /** The message boxes shown so far, oldest first. */
    var dialogs: seq<Dialog>
    /** The files written so far, by path. */
    var written: map<string, Output>
    /** The paths `cv2.imread` has been called on, in order. */
    ghost var readLog: seq<string>
    /** Every value the progress bar has shown, in order; the last one is the current value. */
    ghost var progressLog: seq<int>

    ghost predicate Valid()
      reads this
    {
      |progressLog| > 0 && progress == progressLog[|progressLog| - 1]
    }

    /** The window as `__init__` and `setup_ui` leave it. */
    constructor ()
      ensures Valid()
      ensures imageFolder == "" && imageFiles == [] && outputFolder == "" && finalImage == None
      ensures imageFilename == DefaultImageFilename && gifFilename == DefaultGifFilename && gifDuration == DefaultGifDuration
      ensures progress == 0 && status == Ready && processEnabled && dialogs == [] && written == map[]
      ensures readLog == [] && progressLog == [0]
    {
      imageFolder, imageFiles, outputFolder, finalImage := "", [], "", None;
      imageFilename, gifFilename, gifDuration := DefaultImageFilename, DefaultGifFilename, DefaultGifDuration;
      progress, status, processEnabled, dialogs, written := 0, Ready, true, [], map[];
      readLog, progressLog := [], [0];
    }

    /**
     * `browse_folder`: `folder` is what the folder dialog returns (empty when cancelled) and
     * `listing` the folder's entries. The folder becomes the input and the output folder, and
     * its image files, sorted, become the manifest.
     */
    method BrowseFolder(folder: string, listing: seq<string>)
      modifies this`imageFolder, this`outputFolder, this`imageFiles, this`status
      ensures folder == "" ==> (imageFolder == old(imageFolder) && outputFolder == old(outputFolder) &&
        imageFiles == old(imageFiles) && status == old(status))
      ensures folder != "" ==> (imageFolder == folder && outputFolder == folder &&
        imageFiles == Manifest.ImageManifest(folder, listing) && status == Found(|imageFiles|))
    {
      if folder != "" {
        imageFolder := folder;
        outputFolder := folder;
        imageFiles := Manifest.ImageManifest(folder, listing);
        status := Found(|imageFiles|);
      }
    }

    /**
     * The stacking of `_process_thread`: show that frames are being read, read the first frame,
     * then fold in the others; an empty list fails at once, as indexing its first element raises.
     */
    method StackFiles(decode: Decoder) returns (r: Result<Image, Failure>)
      requires Valid()
      modifies this`progress, this`progressLog, this`readLog, this`status
      ensures Valid()
      ensures r == Stack(imageFiles, decode)
      ensures readLog == old(readLog) + imageFiles[..ReadCount(imageFiles, decode)]
      ensures progressLog == old(progressLog) + ProgressTrace(|imageFiles|)[..Stacked(imageFiles, decode)]
    {
      status := Reading;
      var files := imageFiles;
      if files == [] {
        return Err(NoImages);
      }
      readLog := readLog + [files[0]];
      var first := decode(files[0]);
      if first.None? {
        FirstUnreadable(files, decode);
        assert files[..1] == [files[0]];
        return Err(Unreadable(files[0]));
      }
      assert files[..1] == [files[0]];
      ghost var reads0, shown0 := old(readLog), old(progressLog);
      progress := 1;
      progressLog := progressLog + [1];
      r := FoldFrames(decode, first.value);
      ConsSlice(reads0, files, ReadCount(files, decode));
      ConsSlice(shown0, ProgressTrace(|files|), Stacked(files, decode));
    }

    /**
     * The loop over `image_files[1:]`: fold each frame into the accumulator with `np.maximum`
     * and show the percentage done.
     */
    method FoldFrames(decode: Decoder, first: Image) returns (r: Result<Image, Failure>)
      requires Valid() && 0 < |imageFiles| && Stack(imageFiles[..1], decode) == Ok(first)
      modifies this`progress, this`progressLog, this`readLog, this`status
      ensures Valid()
      ensures r == Stack(imageFiles, decode)
      ensures 1 <= Stacked(imageFiles, decode)
      ensures readLog == old(readLog) + imageFiles[1..ReadCount(imageFiles, decode)]
      ensures progressLog == old(progressLog) + ProgressTrace(|imageFiles|)[1..Stacked(imageFiles, decode)]
    {
      var files := imageFiles;
      var acc := first;
      var i := 1;
      while i < |files|
        invariant 1 <= i <= |files|
        invariant Stack(files[..i], decode) == Ok(acc)
        invariant readLog == old(readLog) + files[1..i]
        invariant progressLog == old(progressLog) + ProgressTrace(|files|)[1..i]
        invariant Valid()
      {
        SnocSlice(old(readLog), files, 1, i);
        readLog := readLog + [files[i]];
        var frame := decode(files[i]);
        if frame.None? || !SameShape(acc, frame.value) {
          StackBreaks(files, i, decode, acc);
          return if frame.None? then Err(Unreadable(files[i])) else Err(ShapeMismatch(files[i]));
        }
        StackExtends(files, i, decode, acc, frame.value);
        acc := MaxImage(acc, frame.value);
        var percent := Progress(i, |files|);
        progress := percent;
        progressLog := progressLog + [percent];
        status := Processing(i, |files|, percent);
        SnocSlice(old(progressLog), ProgressTrace(|files|), 1, i);
        i := i + 1;
      }
      assert files[..|files|] == files;
      AllStacked(files, decode);
      return Ok(acc);
    }

    /**
     * The GIF frame loop of `_process_thread`: every file that PIL opens, in manifest order;
     * a file that does not open is reported in the status bar and skipped.
     */
    method OpenAll(open: Opener) returns (frames: seq<string>)
      modifies this`status
      ensures frames == Seqs.Filter(imageFiles, open)
      ensures (forall k :: 0 <= k < |imageFiles| ==> open(imageFiles[k])) ==> status == old(status)
      ensures status == old(status) || status.CouldNotOpen?
    {
      frames := [];
      var i := 0;
      while i < |imageFiles|
        invariant 0 <= i <= |imageFiles|
        invariant frames == Seqs.Filter(imageFiles[..i], open)
        invariant (forall k :: 0 <= k < i ==> open(imageFiles[k])) ==> status == old(status)
        invariant status == old(status) || status.CouldNotOpen?
      {
        var path := imageFiles[i];
        if open(path) {
          frames := frames + [path];
        } else {
          status := CouldNotOpen(Manifest.Basename(path));
        }
        assert imageFiles[..i + 1] == imageFiles[..i] + [path];
        Seqs.FilterSnoc(imageFiles[..i], path, open);
        i := i + 1;
      }
      assert imageFiles[..|imageFiles|] == imageFiles;
    }

    /**
     * `_process_thread`: stack, write the image, then write the GIF. Any error ends the run
     * with an error message; the button is enabled again in every case.
     */
    method ProcessThread(decode: Decoder, open: Opener)
      requires Valid()
      modifies this`finalImage, this`written, this`status, this`dialogs, this`processEnabled
      modifies this`progress, this`progressLog, this`readLog
      ensures Valid()
      ensures var r := Run(imageFiles, decode, open, outputFolder, imageFilename, gifFilename, gifDuration,
                           old(written), old(finalImage));
        finalImage == r.finalImage && written == r.written && status == r.status &&
        dialogs == old(dialogs) + [r.dialog] && processEnabled &&
        readLog == old(readLog) + imageFiles[..ReadCount(imageFiles, decode)] &&
        progressLog == old(progressLog) + ProgressTrace(|imageFiles|)[..Stacked(imageFiles, decode)]
    {
      var stacked := StackFiles(decode);
      Conclude(stacked, decode, open);
      processEnabled := true;
    }

    /** What `_process_thread` does with the outcome of stacking: report the error, or write the outputs. */
    method Conclude(stacked: Result<Image, Failure>, decode: Decoder, open: Opener)
      requires stacked == Stack(imageFiles, decode)
      modifies this`finalImage, this`written, this`status, this`dialogs
      ensures var r := Run(imageFiles, decode, open, outputFolder, imageFilename, gifFilename, gifDuration,
                           old(written), old(finalImage));
        finalImage == r.finalImage && written == r.written && status == r.status && dialogs == old(dialogs) + [r.dialog]
    {
      match stacked {
        case Err(e) =>
          RunFailed(imageFiles, decode, open, outputFolder, imageFilename, gifFilename, gifDuration, written, finalImage, e);
          status := Failed(e);
          dialogs := dialogs + [ErrorOccurred(e)];
        case Ok(acc) =>
          ghost var written0, finalImage0 := written, finalImage;
          var imagePath, gifPath := Manifest.Join(outputFolder, imageFilename), Manifest.Join(outputFolder, gifFilename);
          WriteOutputs(Narrow(acc), open, GifDuration(gifDuration), imagePath, gifPath);
          assert outputFolder == old(outputFolder) && imageFilename == old(imageFilename) && gifFilename == old(gifFilename);
          RunStacked(imageFiles, decode, open, outputFolder, imageFilename, gifFilename, gifDuration, written0, finalImage0, acc);
      }
    }

    /** Writing the 8-bit stacked image to `path`, as `cv2.imwrite` does, and keeping it. */
    method SaveImage(image: Image, path: string)
      modifies this`finalImage, this`written, this`status
      ensures finalImage == Some(image)
      ensures written == old(written)[path := Raster(image)]
      ensures status == CreatingGif
    {
      finalImage := Some(image);
      written := written[path := Raster(image)];
      status := CreatingGif;
    }

    /**
     * Saving the opened `frames` to `path` as a looping GIF with the chosen frame duration and
     * reporting success, or, when none opened, reporting that there was nothing to animate.
     */
    method SaveAnimation(frames: seq<string>, path: string, duration: int)
      modifies this`written, this`status, this`dialogs
      ensures frames != [] ==>
        written == old(written)[path := Animation(frames, duration, 0)] &&
        status == Completed(outputFolder) && dialogs == old(dialogs) + [Success(outputFolder)]
      ensures frames == [] ==> written == old(written) && status == NoGifImages && dialogs == old(dialogs) + [GifFailed]
    {
      if frames != [] {
        written := written[path := Animation(frames, duration, 0)];
        status := Completed(outputFolder);
        dialogs := dialogs + [Success(outputFolder)];
      } else {
        status := NoGifImages;
        dialogs := dialogs + [GifFailed];
      }
    }

    /**
     * The rest of `_process_thread` once stacking succeeded: `image` is the stack converted to
     * 8 bits, `duration` the frame duration read from the spinbox, and `imagePath` and `gifPath`
     * the output folder joined with the two file names.
     */
    method WriteOutputs(image: Image, open: Opener, duration: int, imagePath: string, gifPath: string)
      modifies this`finalImage, this`written, this`status, this`dialogs
      ensures var r := Finish(outputFolder, imagePath, gifPath, old(written), image, Seqs.Filter(imageFiles, open), duration);
        finalImage == r.finalImage && written == r.written && status == r.status && dialogs == old(dialogs) + [r.dialog]
    {
      SaveImage(image, imagePath);
      var frames := OpenAll(open);
      SaveAnimation(frames, gifPath, duration);
    }

    /**
     * `process_images`: with no manifest, or no output folder, show an error and stop before any
     * frame is read; otherwise start processing.
     */
    method ProcessImages(decode: Decoder, open: Opener)
      requires Valid()
      modifies this`finalImage, this`written, this`status, this`dialogs, this`processEnabled
      modifies this`progress, this`progressLog, this`readLog
      ensures Valid()
      ensures imageFiles == [] || outputFolder == "" ==>
        dialogs == old(dialogs) + [if imageFiles == [] then NoImagesSelected else NoOutputFolder] &&
        readLog == old(readLog) && progressLog == old(progressLog) && written == old(written) &&
        finalImage == old(finalImage) && status == old(status) && processEnabled == old(processEnabled)
      ensures imageFiles != [] && outputFolder != "" ==>
        var r := Run(imageFiles, decode, open, outputFolder, imageFilename, gifFilename, gifDuration,
                     old(written), old(finalImage));
        finalImage == r.finalImage && written == r.written && status == r.status &&
        dialogs == old(dialogs) + [r.dialog] && processEnabled &&
        readLog == old(readLog) + imageFiles[..ReadCount(imageFiles, decode)] &&
        progressLog == old(progressLog) + [0] + ProgressTrace(|imageFiles|)[..Stacked(imageFiles, decode)]
    {
      if imageFiles == [] {
        dialogs := dialogs + [NoImagesSelected];
        return;
      }
      if outputFolder == "" {
        dialogs := dialogs + [NoOutputFolder];
        return;
      }
      StartProcessing(decode, open);
    }

    /**
     * The end of `process_images`: disable the button, reset the bar and run `_process_thread`
     * (here to completion, where the application starts it on a worker thread).
     */
    method StartProcessing(decode: Decoder, open: Opener)
      requires Valid()
      modifies this`finalImage, this`written, this`status, this`dialogs, this`processEnabled
      modifies this`progress, this`progressLog, this`readLog
      ensures Valid()
      ensures var r := Run(imageFiles, decode, open, outputFolder, imageFilename, gifFilename, gifDuration,
                           old(written), old(finalImage));
        finalImage == r.finalImage && written == r.written && status == r.status &&
        dialogs == old(dialogs) + [r.dialog] && processEnabled &&
        readLog == old(readLog) + imageFiles[..ReadCount(imageFiles, decode)] &&
        progressLog == old(progressLog) + [0] + ProgressTrace(|imageFiles|)[..Stacked(imageFiles, decode)]
    {
      processEnabled := false;
      progress := 0;
      progressLog := progressLog + [0];
      ProcessThread(decode, open);
    }
  }
}

/**
 * The decisions of the photography compressor: which files it picks, how it
 * normalises the colour mode, how far it scales an image down, which encoder
 * settings it saves with, and how the batch loop counts successes.
 * Pixels are not modelled: an image is its mode and size, and every Pillow
 * call is an operation recorded in the order it is applied.
 */
module CompressPhotography {
  import opened Wrappers
  import opened Ordering
  import opened Paths
  import opened Filesystem

  const MaxWidth: nat := 3000
  const JpegQuality: nat := 85
  const ImageExtensions: set<string> := {".jpg", ".jpeg", ".png", ".jpe", ".webp"}

  /** `is_image`: the lowercased suffix of the name is one of the image extensions. */
  predicate IsImage(name: string)
  {
    HasSuffixIn(name, ImageExtensions)
  }

  /** A name is an image exactly when it ends, ignoring case, with an image extension after a non-empty stem. */
  lemma IsImageIff(name: string)
    ensures IsImage(name) <==>
      exists e :: e in ImageExtensions && |e| < |name| && Lower(name[|name| - |e|..]) == e
  {
    HasSuffixInIff(name, ImageExtensions);
  }

  /** Case is ignored, and a hidden file with an image extension counts. */
  lemma IsImageAccepts()
    ensures IsImage("A.JPG") && IsImage(".hidden.webp")
  {
    SuffixAt("A.JPG", 1);
    assert Lower("A.JPG"[1..]) == ".jpg";
    SuffixAt(".hidden.webp", 7);
    assert Lower(".hidden.webp"[7..]) == ".webp";
  }

  /** GIF is not an image here, and a name that is only an extension, or ends in a dot, has no suffix. */
  lemma IsImageRejects()
    ensures !IsImage("photo.gif") && !IsImage(".jpg") && !IsImage("photo.")
  {
    assert Suffix("photo.") == "";
    SuffixAt("photo.gif", 5);
    assert Lower("photo.gif"[5..]) == ".gif";
    assert ".jpg"[1] != '.' && ".jpg"[2] != '.' && ".jpg"[3] != '.';
  }

  /**
   * Pillow's image modes: the four the compressor tests for by name, LA and
   * CMYK as examples of the rest, and `OtherMode` for every other mode name.
   */
  datatype Mode = RGB | L | RGBA | P | LA | CMYK | OtherMode(name: OtherModeName)

  /** The name of any mode without a constructor of its own. */
  type OtherModeName = s: string | s !in {"RGB", "L", "RGBA", "P", "LA", "CMYK"} witness "I"

  /** What the model keeps of a Pillow image: its mode and its size. */
  datatype Image = Image(mode: Mode, width: nat, height: nat)

  /** The Pillow operations the compressor can apply to an opened image. */
  datatype Op =
    | Convert(mode: Mode)              // im.convert(mode)
    | FlattenOnWhite                     // paste through the alpha band onto a new white RGB image
    | Resize(width: nat, height: nat)    // im.resize((width, height), LANCZOS)

  function Apply(im: Image, op: Op): Image
  {
    match op
    case Convert(m) => Image(m, im.width, im.height)
    case FlattenOnWhite => Image(RGB, im.width, im.height)
    case Resize(w, h) => Image(im.mode, w, h)
  }

  /** The image after applying `ops` from first to last. */
  function ApplyAll(im: Image, ops: seq<Op>): Image
  {
    if ops == [] then im else Apply(ApplyAll(im, ops[..|ops| - 1]), ops[|ops| - 1])
  }

  /** The operations of the colour-mode normalisation, for an image opened in `mode`. */
  function NormalizeOps(mode: Mode): seq<Op>
  {
    if mode == RGBA then [FlattenOnWhite]
    else if mode == P then [Convert(RGBA), FlattenOnWhite]
    else if mode == RGB || mode == L then []
    else [Convert(RGB)]
  }

  /** Normalisation always ends in RGB or L, keeps the size, and leaves RGB and L images alone. */
  lemma NormalizeYieldsRgbOrL(im: Image)
    ensures ApplyAll(im, NormalizeOps(im.mode)).mode in {RGB, L}
    ensures ApplyAll(im, NormalizeOps(im.mode)).width == im.width
    ensures ApplyAll(im, NormalizeOps(im.mode)).height == im.height
    ensures im.mode in {RGB, L} <==> NormalizeOps(im.mode) == []
  {
    var ops := NormalizeOps(im.mode);
    if ops != [] {
      ApplyAllSnoc(im, ops[..|ops| - 1], ops[|ops| - 1]);
      assert ops == ops[..|ops| - 1] + [ops[|ops| - 1]];
      if |ops| == 2 {
        ApplyAllSnoc(im, [], ops[0]);
      }
    }
  }

  /**
   * Only RGBA and P images are composited onto white, and a P image is
   * expanded to RGBA first; every other mode that is neither RGB nor L is
   * plainly converted, with no compositing (so LA loses its alpha band).
   */
  lemma NormalizeRoutes(mode: Mode)
    ensures FlattenOnWhite in NormalizeOps(mode) <==> mode == RGBA || mode == P
    ensures Convert(RGBA) in NormalizeOps(mode) <==> mode == P
    ensures NormalizeOps(mode) == [Convert(RGB)] <==> mode !in {RGBA, P, RGB, L}
    ensures NormalizeOps(LA) == [Convert(RGB)]
  {
  }

  /**
   * The size after the downscale step: wider than MaxWidth scales to
   * MaxWidth with the height truncated (`int(height * ratio)`), else as is.
   */
  function ResizeTarget(width: nat, height: nat): (size: (nat, nat))
    ensures size.0 <= MaxWidth && size.1 <= height
    ensures width <= MaxWidth ==> size == (width, height)
    ensures width > MaxWidth ==>
      && size.0 == MaxWidth
      && size.1 * width <= height * MaxWidth < (size.1 + 1) * width
  {
    if width > MaxWidth then (MaxWidth, height * MaxWidth / width) else (width, height)
  }

  lemma ResizeExample()
    ensures ResizeTarget(4000, 2000) == (3000, 1500)
    ensures ResizeTarget(4000, 3) == (3000, 2)
    ensures ResizeTarget(3000, 5000) == (3000, 5000)
  {
  }

  /** The resize operation, if any, for an image of this size. */
  function ResizeOps(im: Image): seq<Op>
  {
    if im.width > MaxWidth then
      var size := ResizeTarget(im.width, im.height);
      [Resize(size.0, size.1)]
    else []
  }

  datatype Format = JPEG | PNG | WEBP

  /**
   * The arguments of `im.save(path, format, ...)` (`effort` is `method=`):
   * `None` where the call passes no `quality=` or `method=`, and `optimize`
   * false where it passes no `optimize=` (the WEBP call).
   */
  datatype SaveAction = SaveAction(format: Format, quality: Option<nat>, optimize: bool, effort: Option<nat>)

  /** The branch of the `if` chain on the extension that is taken. */
  datatype SaveBranch = JpegFamily | PngFile | WebpFile | Fallback

  function SaveBranchOf(ext: string): SaveBranch
  {
    if ext in {".jpg", ".jpeg", ".jpe"} then JpegFamily
    else if ext == ".png" then PngFile
    else if ext == ".webp" then WebpFile
    else Fallback
  }

  function ActionOf(b: SaveBranch): SaveAction
  {
    match b
    case JpegFamily => SaveAction(JPEG, Some(JpegQuality), true, None)
    case PngFile => SaveAction(PNG, None, true, None)
    case WebpFile => SaveAction(WEBP, Some(JpegQuality), false, Some(6))
    case Fallback => SaveAction(JPEG, Some(JpegQuality), true, None)
  }

  /**
   * For every name `is_image` accepts, the fallback branch is never taken,
   * and the format follows the lowercased extension.
   */
  lemma SaveFormatByExtension(name: string)
    requires IsImage(name)
    ensures SaveBranchOf(Lower(Suffix(name))) != Fallback
    ensures ActionOf(SaveBranchOf(Lower(Suffix(name)))).format == PNG <==> Lower(Suffix(name)) == ".png"
    ensures ActionOf(SaveBranchOf(Lower(Suffix(name)))).format == WEBP <==> Lower(Suffix(name)) == ".webp"
    ensures ActionOf(SaveBranchOf(Lower(Suffix(name)))).format == JPEG <==>
      Lower(Suffix(name)) in {".jpg", ".jpeg", ".jpe"}
  {
  }

  /** The steps of `optimize_image` at which Pillow may raise. */
  datatype Stage = Decoding | Converting | Flattening | Resizing | Saving

  function StageOf(op: Op): Stage
  {
    match op
    case Convert(_) => Converting
    case FlattenOnWhite => Flattening
    case Resize(_, _) => Resizing
  }

  /**
   * What one file yields when processed: the image Pillow decodes from it,
   * and the steps at which a Pillow call raises for it.
   */
  datatype Trial = Trial(image: Image, raisesAt: set<Stage>)

  /** What is written back over the file: the final image, the operations that made it, the save call. */
  datatype Written = Written(image: Image, ops: seq<Op>, action: SaveAction)

  /** The result of `optimize_image` and what it wrote. */
  datatype Outcome = Outcome(ok: bool, written: Option<Written>)

  /** All operations applied to an opened image, in order. */
  function PlannedOps(im: Image): seq<Op>
  {
    NormalizeOps(im.mode) + ResizeOps(ApplyAll(im, NormalizeOps(im.mode)))
  }

  /**
   * The image that reaches the save call is RGB or L, at most MaxWidth
   * wide and no taller than the original; an RGB or L image that is not
   * too wide goes through untouched.
   */
  lemma PlannedImage(im: Image)
    ensures ApplyAll(im, PlannedOps(im)).mode in {RGB, L}
    ensures ApplyAll(im, PlannedOps(im)).width <= MaxWidth
    ensures ApplyAll(im, PlannedOps(im)).height <= im.height
    ensures im.mode in {RGB, L} && im.width <= MaxWidth ==> PlannedOps(im) == []
    ensures ApplyAll(im, PlannedOps(im)) ==
      Image(if im.mode == L then L else RGB, ResizeTarget(im.width, im.height).0, ResizeTarget(im.width, im.height).1)
  {
    NormalizeYieldsRgbOrL(im);
    var normalized := NormalizeOps(im.mode);
    var ops := PlannedOps(im);
    if im.width > MaxWidth {
      ApplyAllSnoc(im, normalized, ops[|ops| - 1]);
      assert ops == normalized + [ops[|ops| - 1]];
    } else {
      assert ops == normalized;
    }
    if normalized != [] {
      ApplyAllSnoc(im, normalized[..|normalized| - 1], normalized[|normalized| - 1]);
      assert normalized == normalized[..|normalized| - 1] + [normalized[|normalized| - 1]];
    }
  }

  /** No step of `ops` raises. */
  predicate NoneRaises(ops: seq<Op>, raisesAt: set<Stage>)
  {
    forall k :: 0 <= k < |ops| ==> StageOf(ops[k]) !in raisesAt
  }

  /**
   * `optimize_image` as one expression: it succeeds exactly when no step it
   * reaches raises, and then writes the normalised, downscaled image with
   * the settings chosen by the extension.
   */
  function Optimize(name: string, t: Trial): Outcome
  {
    var ops := PlannedOps(t.image);
    if Decoding !in t.raisesAt && NoneRaises(ops, t.raisesAt) && Saving !in t.raisesAt then
      Outcome(true, Some(Written(ApplyAll(t.image, ops), ops, ActionOf(SaveBranchOf(Lower(Suffix(name)))))))
    else
      Outcome(false, None)
  }

  /**
   * What `optimize_image` promises: True exactly when something was written;
   * True when nothing raises and False when opening or saving raises; and
   * what it writes is RGB or L, at most MaxWidth wide, no taller than the
   * original, saved with the settings for its extension.
   */
  lemma OptimizeOutcome(name: string, t: Trial)
    ensures Optimize(name, t).ok <==> Optimize(name, t).written.Some?
    ensures t.raisesAt == {} ==> Optimize(name, t).ok
    ensures Decoding in t.raisesAt || Saving in t.raisesAt ==> !Optimize(name, t).ok
    ensures Optimize(name, t).ok ==>
      && Optimize(name, t).written.value.image.mode in {RGB, L}
      && Optimize(name, t).written.value.image.width <= MaxWidth
      && Optimize(name, t).written.value.image.height <= t.image.height
      && Optimize(name, t).written.value.action == ActionOf(SaveBranchOf(Lower(Suffix(name))))
      && Optimize(name, t).written.value.image == Image(if t.image.mode == L then L else RGB,
           ResizeTarget(t.image.width, t.image.height).0, ResizeTarget(t.image.width, t.image.height).1)
    ensures Optimize(name, t).ok && t.image.mode in {RGB, L} && t.image.width <= MaxWidth ==>
      Optimize(name, t).written.value.image == t.image && Optimize(name, t).written.value.ops == []
    ensures Optimize(name, t).ok <==>
      && Decoding !in t.raisesAt
      && Saving !in t.raisesAt
      && (t.image.mode == P ==> Converting !in t.raisesAt)
      && (t.image.mode in {RGBA, P} ==> Flattening !in t.raisesAt)
      && (t.image.mode !in {RGB, L, RGBA, P} ==> Converting !in t.raisesAt)
      && (t.image.width > MaxWidth ==> Resizing !in t.raisesAt)
  {
    PlannedImage(t.image);
    NormalizeYieldsRgbOrL(t.image);
    NormalizeStages(t.image.mode, t.raisesAt);
    var normalized := ApplyAll(t.image, NormalizeOps(t.image.mode));
    NoneRaisesConcat(NormalizeOps(t.image.mode), ResizeOps(normalized), t.raisesAt);
    if t.image.width > MaxWidth {
      assert StageOf(ResizeOps(normalized)[0]) == Resizing;
    }
  }

  lemma JpgSaveAction()
    ensures ActionOf(SaveBranchOf(Lower(Suffix("x.jpg")))) == SaveAction(JPEG, Some(85), true, None)
  {
    SuffixAt("x.jpg", 1);
    assert Lower("x.jpg"[1..]) == ".jpg";
  }

  lemma WideRgbPlan()
    ensures PlannedOps(Image(RGB, 4000, 2000)) == [Resize(3000, 1500)]
    ensures ApplyAll(Image(RGB, 4000, 2000), [Resize(3000, 1500)]) == Image(RGB, 3000, 1500)
  {
    ApplyAllSnoc(Image(RGB, 4000, 2000), [], Resize(3000, 1500));
  }

  /** A 4000×2000 RGB `.jpg` that nothing fails on is saved as a 3000×1500 JPEG at quality 85. */
  lemma OptimizeExample()
    ensures Optimize("x.jpg", Trial(Image(RGB, 4000, 2000), {})) ==
      Outcome(true, Some(Written(Image(RGB, 3000, 1500), [Resize(3000, 1500)], SaveAction(JPEG, Some(85), true, None))))
  {
    JpgSaveAction();
    WideRgbPlan();
  }

  lemma ApplyAllSnoc(im: Image, ops: seq<Op>, op: Op)
    ensures ApplyAll(im, ops + [op]) == Apply(ApplyAll(im, ops), op)
  {
    assert (ops + [op])[..|ops|] == ops;
  }

  lemma {:induction false} ApplyAllConcat(im: Image, a: seq<Op>, b: seq<Op>)
    ensures ApplyAll(im, a + b) == ApplyAll(ApplyAll(im, a), b)
  {
    if b != [] {
      var init, last := b[..|b| - 1], b[|b| - 1];
      assert a + b == (a + init) + [last];
      ApplyAllSnoc(im, a + init, last);
      ApplyAllConcat(im, a, init);
    } else {
      assert a + b == a;
    }
  }

  lemma NoneRaisesConcat(a: seq<Op>, b: seq<Op>, raisesAt: set<Stage>)
    ensures NoneRaises(a + b, raisesAt) <==> NoneRaises(a, raisesAt) && NoneRaises(b, raisesAt)
  {
    if NoneRaises(a + b, raisesAt) {
      forall k | 0 <= k < |a| ensures StageOf(a[k]) !in raisesAt {
        assert (a + b)[k] == a[k];
      }
      forall k | 0 <= k < |b| ensures StageOf(b[k]) !in raisesAt {
        assert (a + b)[|a| + k] == b[k];
      }
    }
  }

  /** Which Pillow calls of the colour-mode step an image in `mode` reaches. */
  lemma NormalizeStages(mode: Mode, raisesAt: set<Stage>)
    ensures NoneRaises(NormalizeOps(mode), raisesAt) <==>
      && (mode == P ==> Converting !in raisesAt)
      && (mode in {RGBA, P} ==> Flattening !in raisesAt)
      && (mode !in {RGB, L, RGBA, P} ==> Converting !in raisesAt)
  {
    var ops := NormalizeOps(mode);
    if mode == P {
      assert StageOf(ops[0]) == Converting && StageOf(ops[1]) == Flattening;
    } else if mode == RGBA {
      assert StageOf(ops[0]) == Flattening;
    } else if mode !in {RGB, L} {
      assert StageOf(ops[0]) == Converting;
    }
  }

  /**
   * The colour-mode step of `optimize_image`: P is expanded to RGBA, RGBA is
   * composited onto a white RGB background, and any other mode but RGB and L
   * is converted to RGB. `ok` is false when one of these Pillow calls raises.
   */
  method NormalizeMode(image: Image, raisesAt: set<Stage>) returns (ok: bool, im: Image, ops: seq<Op>)
    ensures ok <==> NoneRaises(NormalizeOps(image.mode), raisesAt)
    ensures ok ==> ops == NormalizeOps(image.mode) && im == ApplyAll(image, ops)
  {
    NormalizeStages(image.mode, raisesAt);
    im, ops := image, [];
    if im.mode == RGBA || im.mode == P {
      assert NormalizeOps(image.mode) == if image.mode == P then [Convert(RGBA), FlattenOnWhite] else [FlattenOnWhite];
      var background := Image(RGB, im.width, im.height);
      if im.mode == P {
        if Converting in raisesAt {
          return false, im, ops;
        }
        ApplyAllSnoc(image, ops, Convert(RGBA));
        im, ops := Apply(im, Convert(RGBA)), ops + [Convert(RGBA)];
      }
      if im.mode == RGBA {
        if Flattening in raisesAt {
          return false, im, ops;
        }
        ApplyAllSnoc(image, ops, FlattenOnWhite);
        im, ops := background, ops + [FlattenOnWhite];
      } else {
        // unreachable: a P image has just been converted to RGBA
        assert false;
      }
    } else if im.mode != RGB && im.mode != L {
      assert NormalizeOps(image.mode) == [Convert(RGB)];
      if Converting in raisesAt {
        return false, im, ops;
      }
      ApplyAllSnoc(image, ops, Convert(RGB));
      im, ops := Apply(im, Convert(RGB)), ops + [Convert(RGB)];
    }
    assert ops == NormalizeOps(image.mode);
    return true, im, ops;
  }

  /**
   * The downscale step of `optimize_image`: an image wider than MaxWidth is
   * resized to `ResizeTarget`. `ok` is false when the resize raises.
   */
  method Downscale(image: Image, raisesAt: set<Stage>) returns (ok: bool, im: Image, ops: seq<Op>)
    ensures ok <==> NoneRaises(ResizeOps(image), raisesAt)
    ensures ok ==> ops == ResizeOps(image) && im == ApplyAll(image, ops)
  {
    im, ops := image, [];
    var width, height := im.width, im.height;
    if width > MaxWidth {
      var size := ResizeTarget(width, height);
      if Resizing in raisesAt {
        assert StageOf(ResizeOps(image)[0]) == Resizing;
        return false, im, ops;
      }
      ApplyAllSnoc(image, [], Resize(size.0, size.1));
      im, ops := Apply(im, Resize(size.0, size.1)), [Resize(size.0, size.1)];
    }
    return true, im, ops;
  }

  /**
   * `optimize_image`, step by step: each Pillow call either raises, which
   * ends the call with False and nothing written, or rebinds `im`.
   */
  method OptimizeImage(name: string, t: Trial) returns (ok: bool, written: Option<Written>)
    ensures Outcome(ok, written) == Optimize(name, t)
  {
    if Decoding in t.raisesAt {
      return false, None;
    }
    NoneRaisesConcat(NormalizeOps(t.image.mode), ResizeOps(ApplyAll(t.image, NormalizeOps(t.image.mode))), t.raisesAt);
    var normalized, im, ops := NormalizeMode(t.image, t.raisesAt);
    if !normalized {
      return false, None;
    }
    var resized, im', ops' := Downscale(im, t.raisesAt);
    if !resized {
      return false, None;
    }
    ApplyAllConcat(t.image, ops, ops');
    im, ops := im', ops + ops';
    var action := ActionOf(SaveBranchOf(Lower(Suffix(name))));
    if Saving in t.raisesAt {
      return false, None;
    }
    return true, Some(Written(im, ops, action));
  }

  /** The number of outcomes that succeeded. */
  function CountOk(outcomes: seq<Outcome>): (n: nat)
    ensures n <= |outcomes|
    ensures n == |outcomes| <==> forall i :: 0 <= i < |outcomes| ==> outcomes[i].ok
    ensures n == 0 <==> forall i :: 0 <= i < |outcomes| ==> !outcomes[i].ok
  {
    if outcomes == [] then 0
    else CountOk(outcomes[..|outcomes| - 1]) + (if outcomes[|outcomes| - 1].ok then 1 else 0)
  }

  /** `path.name`: the last part of a path. */
  function Name(path: seq<string>): string
  {
    if path == [] then "" else path[|path| - 1]
  }

  /** The files `main` picks: every file below the root whose name `is_image` accepts. */
  function ImageFiles(root: Node): (r: set<seq<string>>)
    ensures forall p :: p in r <==> |p| >= 1 && Lookup(root, p) == Some(File) && IsImage(Name(p))
  {
    var r := set p | p in FilesUnder(root) && IsImage(Name(p));
    forall p ensures p in FilesUnder(root) <==> |p| >= 1 && Lookup(root, p) == Some(File) {
      FilesUnderIsFilesBelow(root, p);
    }
    r
  }

  /** The outcome of `optimize_image` for each of `files`, in order. */
  function Outcomes(files: seq<seq<string>>, trials: seq<string> -> Trial): (r: seq<Outcome>)
    ensures |r| == |files|
  {
    if files == [] then []
    else
      var last := files[|files| - 1];
      Outcomes(files[..|files| - 1], trials) + [Optimize(Name(last), trials(last))]
  }

  /** Each file's outcome depends on that file alone: earlier failures change nothing. */
  lemma {:induction false} OutcomesAt(files: seq<seq<string>>, trials: seq<string> -> Trial, k: nat)
    requires k < |files|
    ensures Outcomes(files, trials)[k] == Optimize(Name(files[k]), trials(files[k]))
  {
    if k < |files| - 1 {
      OutcomesAt(files[..|files| - 1], trials, k);
    }
  }

  /** How a run of `main` ends. */
  datatype Run =
    | DirectoryNotFound      // prints "Directory not found", exits with status 1
    | NoImages               // prints "No image files found", returns
    | Processed(files: seq<seq<string>>, outcomes: seq<Outcome>, ok: nat)

  function ExitStatus(r: Run): int
  {
    if r.DirectoryNotFound? then 1 else 0
  }

  /**
   * `main`: processes every image file below the root once, in sorted path
   * order, goes on after a failure, and counts the successes.
   */
  method CompressAll(root: Option<Node>, trials: seq<string> -> Trial) returns (r: Run)
    ensures r.DirectoryNotFound? <==> !(root.Some? && root.value.Dir?)
    ensures ExitStatus(r) == 1 <==> !(root.Some? && root.value.Dir?)
    ensures r.NoImages? <==> root.Some? && root.value.Dir? && ImageFiles(root.value) == {}
    ensures r.Processed? ==>
      && root.Some?
      && (forall p :: p in r.files <==> p in ImageFiles(root.value))
      && StrictlySorted(r.files, PathLess)
      && |r.outcomes| == |r.files|
      && (forall i :: 0 <= i < |r.files| ==> r.outcomes[i] == Optimize(Name(r.files[i]), trials(r.files[i])))
      && r.ok == CountOk(r.outcomes)
  {
    if !(root.Some? && root.value.Dir?) {
      return DirectoryNotFound;
    }
    PathLessIsStrictTotal();
    var files := SortSet(ImageFiles(root.value), PathLess);
    var total := |files|;
    if total == 0 {
      return NoImages;
    }
    var outcomes, ok := ProcessFiles(files, trials);
    return Processed(files, outcomes, ok);
  }

  /**
   * The loop of `main`: every file in turn, in the given order; a failure
   * is counted out and the loop goes on with the next file.
   */
  method ProcessFiles(files: seq<seq<string>>, trials: seq<string> -> Trial) returns (outcomes: seq<Outcome>, ok: nat)
    ensures |outcomes| == |files|
    ensures forall i :: 0 <= i < |files| ==> outcomes[i] == Optimize(Name(files[i]), trials(files[i]))
    ensures ok == CountOk(outcomes)
  {
    ok := 0;
    outcomes := [];
    for i := 0 to |files|
      invariant outcomes == Outcomes(files[..i], trials)
      invariant ok == CountOk(outcomes)
    {
      var success, written := OptimizeImage(Name(files[i]), trials(files[i]));
      assert files[..i + 1][..i] == files[..i];
      assert (outcomes + [Outcome(success, written)])[..i] == outcomes;
      outcomes := outcomes + [Outcome(success, written)];
      if success {
        ok := ok + 1;
      }
    }
    assert files[..|files|] == files;
    forall i | 0 <= i < |files| ensures outcomes[i] == Optimize(Name(files[i]), trials(files[i])) {
      OutcomesAt(files, trials, i);
    }
  }
}

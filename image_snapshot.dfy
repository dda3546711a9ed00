/**
  The snapshot comparator: size reconciliation of a candidate image and its
  stored reference, the mismatch test on the padded images, and the
  lifecycle decision of the `image_snapshot` fixture (write, pass or raise).
 */
module ImageSnapshot {
  import opened Raster

  /** A snapshot's file path, used as given by the caller. */
  type Path = string

  function Max(a: nat, b: nat): (m: nat)
    ensures m >= a && m >= b && (m == a || m == b)
  {
    if a < b then b else a
  }

  // ---------------------------------------------------------------------------
  // Size reconciliation

  /**
    The inner `extend_image`: an image already of the target size comes back as
    it is; any other is pasted, through its own alpha band, at the origin of a
    fresh fully transparent canvas of the target size.
   */
  function ExtendImage(img: Image, maxWidth: nat, maxHeight: nat): (r: Image)
    ensures r.width == maxWidth && r.height == maxHeight
    ensures img.width == maxWidth && img.height == maxHeight ==> r == img
  {
    if img.width == maxWidth && img.height == maxHeight then img
    else Paste(New(maxWidth, maxHeight, Transparent), img)
  }

  /**
    Each pixel of an extended image: outside the original's extent it is fully
    transparent; inside it, an opaque pixel is kept as it is, and any other
    pixel of an image that needed padding is composited onto transparency
    (a fully transparent one becoming exactly (0, 0, 0, 0)).
   */
  lemma ExtendImageAt(img: Image, maxWidth: nat, maxHeight: nat, x: nat, y: nat)
    requires x < maxWidth && y < maxHeight
    ensures var r := ExtendImage(img, maxWidth, maxHeight);
      InBounds(r, x, y) &&
      (!InBounds(img, x, y) ==> At(r, x, y) == Transparent) &&
      (InBounds(img, x, y) && At(img, x, y).a == 255 ==> At(r, x, y) == At(img, x, y)) &&
      (InBounds(img, x, y) && (img.width != maxWidth || img.height != maxHeight) ==>
         At(r, x, y) == Composite(Transparent, At(img, x, y)))
  {
    if img.width != maxWidth || img.height != maxHeight {
      var canvas := New(maxWidth, maxHeight, Transparent);
      NewAt(maxWidth, maxHeight, Transparent, x, y);
      PasteAt(canvas, img, x, y);
    }
  }

  /**
    `extend_to_match_size_rgba`: both images brought to the larger width and
    the larger height of the two.
   */
  function ExtendToMatchSize(img1: Image, img2: Image): (r: (Image, Image))
    ensures r.0.width == r.1.width == Max(img1.width, img2.width)
    ensures r.0.height == r.1.height == Max(img1.height, img2.height)
    ensures img1.width >= img2.width && img1.height >= img2.height ==> r.0 == img1
    ensures img2.width >= img1.width && img2.height >= img1.height ==> r.1 == img2
  {
    var maxWidth := Max(img1.width, img2.width);
    var maxHeight := Max(img1.height, img2.height);
    (ExtendImage(img1, maxWidth, maxHeight), ExtendImage(img2, maxWidth, maxHeight))
  }

  // ---------------------------------------------------------------------------
  // The mismatch test

  /** The two images differ in some channel of some pixel once both are padded. */
  ghost predicate Differs(img: Image, reference: Image) {
    var padded := ExtendToMatchSize(img, reference);
    exists x: nat, y: nat :: InBounds(padded.0, x, y) && At(padded.0, x, y) != At(padded.1, x, y)
  }

  /** The two images differ in the alpha band of some pixel once both are padded. */
  ghost predicate AlphaDiffers(img: Image, reference: Image) {
    var padded := ExtendToMatchSize(img, reference);
    exists x: nat, y: nat :: InBounds(padded.0, x, y) && At(padded.0, x, y).a != At(padded.1, x, y).a
  }

  /** `ImageChops.difference` of the candidate and the reference after padding. */
  function PaddedDifference(img: Image, reference: Image): (diff: Image)
    ensures diff.width == Max(img.width, reference.width)
    ensures diff.height == Max(img.height, reference.height)
  {
    var padded := ExtendToMatchSize(img, reference);
    Difference(padded.0, padded.1)
  }

  /**
    The mismatch test with a bounding box taken over every channel of the
    difference: it fails exactly when some padded pixel differs.
   */
  function Mismatch(img: Image, reference: Image): (m: bool)
    ensures m <==> Differs(img, reference)
  {
    var padded := ExtendToMatchSize(img, reference);
    var diff := PaddedDifference(img, reference);
    if HasBBox(diff, false) then
      var x: nat, y: nat :| InBounds(diff, x, y) && Counted(At(diff, x, y), false);
      DifferenceAt(padded.0, padded.1, x, y);
      assert At(padded.0, x, y) != At(padded.1, x, y);
      true
    else
      assert !Differs(img, reference) by {
        forall x: nat, y: nat | InBounds(padded.0, x, y)
          ensures At(padded.0, x, y) == At(padded.1, x, y)
        {
          DifferenceAt(padded.0, padded.1, x, y);
        }
      }
      false
  }

  /**
    The mismatch test as `diff.getbbox()` performs it on an RGBA difference:
    the library's default bounding box of an image with an alpha band looks at
    the alpha band alone, so only an alpha difference is noticed.
   */
  function MismatchAsWritten(img: Image, reference: Image): (m: bool)
    ensures m <==> AlphaDiffers(img, reference)
  {
    var padded := ExtendToMatchSize(img, reference);
    var diff := PaddedDifference(img, reference);
    if HasBBox(diff, true) then
      var x: nat, y: nat :| InBounds(diff, x, y) && Counted(At(diff, x, y), true);
      DifferenceAt(padded.0, padded.1, x, y);
      assert At(padded.0, x, y).a != At(padded.1, x, y).a;
      true
    else
      assert !AlphaDiffers(img, reference) by {
        forall x: nat, y: nat | InBounds(padded.0, x, y)
          ensures At(padded.0, x, y).a == At(padded.1, x, y).a
        {
          DifferenceAt(padded.0, padded.1, x, y);
        }
      }
      false
  }

  // ---------------------------------------------------------------------------
  // The fixture's outcome

  /** `ImageMismatchError`, an `AssertionError` carrying a message. */
  datatype ImageMismatchError = ImageMismatchError(message: string)

  /** How a call of the fixture ends: it returns, or it raises. */
  datatype Outcome = Returned | Raised(error: ImageMismatchError)

  /** One call of an image viewer: the window title and the image shown. */
  datatype Shown = Shown(title: string, image: Image)

  function MismatchMessage(imgPath: Path): string {
    "Image does not match the snapshot stored in " + imgPath
  }

  /**
    The viewers opened on a mismatch: none at verbosity 0; the difference at
    any other verbosity (a negative one, from -q, included); and also the
    stored original and the new image above verbosity 1.
   */
  function Viewed(verbose: int, diff: Image, original: Image, candidate: Image): (s: seq<Shown>)
    ensures verbose == 0 <==> s == []
    ensures verbose != 0 ==> s[0] == Shown("diff", diff)
    ensures |s| == if verbose == 0 then 0 else if verbose > 1 then 3 else 1
    ensures |s| == 3 ==> s[1] == Shown("original", original) && s[2] == Shown("new", candidate)
  {
    if verbose == 0 then []
    else [Shown("diff", diff)] + if verbose > 1 then [Shown("original", original), Shown("new", candidate)] else []
  }

  /**
    The viewers opened before the error is raised, in the order they are opened.
   */
  method ShowMismatch(verbose: int, diff: Image, original: Image, candidate: Image) returns (shown: seq<Shown>)
    ensures shown == Viewed(verbose, diff, original, candidate)
  {
    shown := [];
    if verbose != 0 {
      shown := shown + [Shown("diff", diff)];
      if verbose > 1 {
        shown := shown + [Shown("original", original)];
        shown := shown + [Shown("new", candidate)];
      }
    }
  }

  /** The snapshot files on disk, each decoded to its bitmap. */
  class SnapshotStore {
    var files: map<Path, Image>

    constructor (files: map<Path, Image>)
      ensures this.files == files
    {
      this.files := files;
    }

    /**
      `_image_snapshot(img, img_path)`: with the update flag set, or with no
      file at the path, the candidate is written there; otherwise it is
      compared with the stored image, returning silently on a match and
      raising, without writing, on a mismatch. `alphaOnly` is the bounding
      box's mode: `true` is the library default that `diff.getbbox()` uses
      on an RGBA difference (the code as written), `false` examines every
      channel (the evidently intended test).
     */
    method ImageSnapshot(img: Image, imgPath: Path, updateSnapshots: bool, verbose: int, alphaOnly: bool)
      returns (outcome: Outcome, shown: seq<Shown>)
      modifies this
      ensures outcome.Raised? <==>
                !updateSnapshots && imgPath in old(files) &&
                (if alphaOnly then AlphaDiffers(img, old(files)[imgPath]) else Differs(img, old(files)[imgPath]))
      ensures outcome.Raised? ==>
                outcome.error == ImageMismatchError(MismatchMessage(imgPath)) &&
                files == old(files) &&
                shown == Viewed(verbose, PaddedDifference(img, old(files)[imgPath]), old(files)[imgPath], img)
      ensures outcome.Returned? ==> shown == []
      ensures outcome.Returned? && (updateSnapshots || imgPath !in old(files)) ==>
                files == old(files)[imgPath := img]
      ensures outcome.Returned? && !updateSnapshots && imgPath in old(files) ==>
                files == old(files)
    {
      if !updateSnapshots && imgPath in files {
        var srcImage := files[imgPath];
        var diff := PaddedDifference(img, srcImage);
        assert HasBBox(diff, alphaOnly) == if alphaOnly then MismatchAsWritten(img, srcImage) else Mismatch(img, srcImage);
        if HasBBox(diff, alphaOnly) {
          shown := ShowMismatch(verbose, diff, srcImage, img);
          outcome := Raised(ImageMismatchError(MismatchMessage(imgPath)));
          return;
        } else {
          outcome, shown := Returned, [];
          return;
        }
      }
      files := files[imgPath := img];
      outcome, shown := Returned, [];
    }
  }
}

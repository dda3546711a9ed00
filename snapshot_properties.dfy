/**
  What the size reconciliation and the mismatch test promise about every pair
  of images, and what a caller sees over two consecutive calls of the fixture.
 */
module SnapshotProperties {
  import opened Raster
  import opened ImageSnapshot

  /** An image always matches itself: a snapshot just written passes the next comparison. */
  lemma SelfNeverDiffers(img: Image)
    ensures !Differs(img, img)
  {
    var padded := ExtendToMatchSize(img, img);
    assert padded.0 == img && padded.1 == img;
  }

  /** Which image is the candidate and which the reference does not matter. */
  lemma DiffersSymmetric(img: Image, reference: Image)
    ensures Differs(img, reference) <==> Differs(reference, img)
  {
    var maxWidth := Max(img.width, reference.width);
    var maxHeight := Max(img.height, reference.height);
    assert Max(reference.width, img.width) == maxWidth;
    assert Max(reference.height, img.height) == maxHeight;
    var p := ExtendToMatchSize(img, reference);
    var q := ExtendToMatchSize(reference, img);
    assert p.0 == q.1 && p.1 == q.0;
    if Differs(img, reference) {
      var x: nat, y: nat :| InBounds(p.0, x, y) && At(p.0, x, y) != At(p.1, x, y);
      assert InBounds(q.0, x, y) && At(q.0, x, y) != At(q.1, x, y);
    }
    if Differs(reference, img) {
      var x: nat, y: nat :| InBounds(q.0, x, y) && At(q.0, x, y) != At(q.1, x, y);
      assert InBounds(p.0, x, y) && At(p.0, x, y) != At(p.1, x, y);
    }
  }

  /** Every pixel of the image is either fully opaque or exactly the padding colour. */
  ghost predicate OpaqueOrClear(img: Image) {
    forall x: nat, y: nat :: InBounds(img, x, y) ==> At(img, x, y).a == 255 || At(img, x, y) == Transparent
  }

  /**
    Size-tolerant equality: a candidate that repeats the reference on the
    reference's extent and is transparent padding elsewhere matches it, as
    long as the reference holds only opaque or padding-coloured pixels.
   */
  lemma TransparentMarginMatches(img: Image, reference: Image)
    requires reference.width <= img.width && reference.height <= img.height
    requires forall x: nat, y: nat :: InBounds(img, x, y) && InBounds(reference, x, y) ==>
               At(img, x, y) == At(reference, x, y)
    requires forall x: nat, y: nat :: InBounds(img, x, y) && !InBounds(reference, x, y) ==>
               At(img, x, y) == Transparent
    requires OpaqueOrClear(reference)
    ensures !Differs(img, reference)
  {
    var padded := ExtendToMatchSize(img, reference);
    assert padded.0 == img;
    assert padded.1 == ExtendImage(reference, img.width, img.height);
    forall x: nat, y: nat | InBounds(img, x, y)
      ensures At(padded.0, x, y) == At(padded.1, x, y)
    {
      ExtendImageAt(reference, img.width, img.height, x, y);
      if InBounds(reference, x, y) && At(reference, x, y).a != 255 {
        assert At(reference, x, y) == Transparent;
      }
    }
  }

  /**
    A candidate larger than the reference whose extra area holds a pixel other
    than the padding colour does not match: a size change alone is a mismatch.
   */
  lemma OpaqueMarginDiffers(img: Image, reference: Image, x: nat, y: nat)
    requires reference.width <= img.width && reference.height <= img.height
    requires InBounds(img, x, y) && !InBounds(reference, x, y)
    requires At(img, x, y) != Transparent
    ensures Differs(img, reference)
  {
    var padded := ExtendToMatchSize(img, reference);
    assert padded.0 == img;
    assert padded.1 == ExtendImage(reference, img.width, img.height);
    ExtendImageAt(reference, img.width, img.height, x, y);
    assert At(padded.1, x, y) == Transparent;
  }

  /**
    A change of an opaque pixel inside the region both images cover is always
    noticed, whatever the two sizes.
   */
  lemma OverlapChangeDiffers(img: Image, reference: Image, x: nat, y: nat)
    requires InBounds(img, x, y) && InBounds(reference, x, y)
    requires At(img, x, y).a == 255 && At(reference, x, y).a == 255
    requires At(img, x, y) != At(reference, x, y)
    ensures Differs(img, reference)
  {
    var padded := ExtendToMatchSize(img, reference);
    ExtendImageAt(img, padded.0.width, padded.0.height, x, y);
    ExtendImageAt(reference, padded.0.width, padded.0.height, x, y);
    assert InBounds(padded.0, x, y) && At(padded.0, x, y) != At(padded.1, x, y);
  }

  /** An alpha difference is a difference: the alpha-only test never fails where the full test passes. */
  lemma AlphaDiffersImpliesDiffers(img: Image, reference: Image)
    ensures AlphaDiffers(img, reference) ==> Differs(img, reference)
  {
    if AlphaDiffers(img, reference) {
      var padded := ExtendToMatchSize(img, reference);
      var x: nat, y: nat :| InBounds(padded.0, x, y) && At(padded.0, x, y).a != At(padded.1, x, y).a;
      assert At(padded.0, x, y) != At(padded.1, x, y);
    }
  }

  /** Every pixel of the image is fully opaque. */
  ghost predicate Opaque(img: Image) {
    forall x: nat, y: nat :: InBounds(img, x, y) ==> At(img, x, y).a == 255
  }

  /**
    Two fully opaque images of the same size never differ in alpha, so the
    alpha-only test passes them whatever their colours.
   */
  lemma OpaqueSameSizeNoAlphaDifference(img: Image, reference: Image)
    requires img.width == reference.width && img.height == reference.height
    requires Opaque(img) && Opaque(reference)
    ensures !AlphaDiffers(img, reference)
  {
    var padded := ExtendToMatchSize(img, reference);
    assert padded.0 == img && padded.1 == reference;
  }

  /**
    Two solid opaque images of one size but different colours differ, yet not
    in alpha: the full test fails them and the alpha-only test passes them.
   */
  lemma SolidRecolour(width: nat, height: nat, colour: Pixel, other: Pixel)
    requires width > 0 && height > 0
    requires colour.a == 255 && other.a == 255 && colour != other
    ensures Differs(New(width, height, colour), New(width, height, other))
    ensures !AlphaDiffers(New(width, height, colour), New(width, height, other))
  {
    var img, reference := New(width, height, colour), New(width, height, other);
    NewAt(width, height, colour, 0, 0);
    NewAt(width, height, other, 0, 0);
    OverlapChangeDiffers(img, reference, 0, 0);
    forall x: nat, y: nat | InBounds(img, x, y)
      ensures At(img, x, y).a == 255 && At(reference, x, y).a == 255
    {
      NewAt(width, height, colour, x, y);
      NewAt(width, height, other, x, y);
    }
    OpaqueSameSizeNoAlphaDifference(img, reference);
  }

  /**
    A solid opaque image larger than a solid reference of the same colour
    differs from it, in alpha too: the reference's padding is transparent.
   */
  lemma SolidGrown(width: nat, height: nat, refWidth: nat, refHeight: nat, colour: Pixel)
    requires refWidth <= width && refHeight <= height && (refWidth < width || refHeight < height)
    requires 0 < width && 0 < height
    requires colour.a == 255
    ensures Differs(New(width, height, colour), New(refWidth, refHeight, colour))
    ensures AlphaDiffers(New(width, height, colour), New(refWidth, refHeight, colour))
  {
    var img, reference := New(width, height, colour), New(refWidth, refHeight, colour);
    var x, y := width - 1, height - 1;
    NewAt(width, height, colour, x, y);
    OpaqueMarginDiffers(img, reference, x, y);
    var padded := ExtendToMatchSize(img, reference);
    assert padded.1 == ExtendImage(reference, width, height);
    ExtendImageAt(reference, width, height, x, y);
    assert At(padded.0, x, y).a != At(padded.1, x, y).a;
  }

  /**
    Two calls of the fixture in a row, with the update flag off and either
    bounding box mode: when the first creates the snapshot, or finds a
    matching one, neither call raises, and the second leaves the store as the
    first left it.
   */
  method CompareTwice(store: SnapshotStore, img: Image, imgPath: Path, verbose: int, alphaOnly: bool)
    returns (first: Outcome, second: Outcome)
    modifies store
    ensures imgPath !in old(store.files) ==>
              first == Returned && second == Returned && store.files == old(store.files)[imgPath := img]
    ensures imgPath in old(store.files) &&
            !(if alphaOnly then AlphaDiffers(img, old(store.files)[imgPath]) else Differs(img, old(store.files)[imgPath])) ==>
              first == Returned && second == Returned && store.files == old(store.files)
  {
    var shown;
    first, shown := store.ImageSnapshot(img, imgPath, false, verbose, alphaOnly);
    SelfNeverDiffers(img);
    AlphaDiffersImpliesDiffers(img, img);
    second, shown := store.ImageSnapshot(img, imgPath, false, verbose, alphaOnly);
  }
}

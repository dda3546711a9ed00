/**
  The concrete comparisons exercised by the plugin's own tests, and the
  opaque recolouring that the alpha-only bounding box lets through.
 */
module SnapshotCases {
  import opened Raster
  import opened ImageSnapshot
  import opened SnapshotProperties

  /** `Image.new('RGB', size, 'white')` once converted to RGBA. */
  const White: Pixel := Pixel(255, 255, 255, 255)

  /** `Image.new('RGB', size, 'red')` once converted to RGBA. */
  const Red: Pixel := Pixel(255, 0, 0, 255)

  /** A 100x100 white candidate against the same stored image passes. */
  lemma SameWhiteMatches()
    ensures !Mismatch(New(100, 100, White), New(100, 100, White))
  {
    SelfNeverDiffers(New(100, 100, White));
  }

  /**
    A 150x150 white candidate against a 100x100 white reference fails: the
    reference's transparent padding differs from opaque white, in the alpha
    band too, so the alpha-only test notices it as well.
   */
  lemma LargerWhiteMismatches()
    ensures Mismatch(New(150, 150, White), New(100, 100, White))
    ensures MismatchAsWritten(New(150, 150, White), New(100, 100, White))
  {
    SolidGrown(150, 150, 100, 100, White);
  }

  /**
    A 100x100 red candidate against a 100x100 white reference: the full
    test fails it, while the alpha-only test passes it, since both images
    are opaque and their difference has a zero alpha band everywhere.
   */
  lemma RecolourPassesAsWritten()
    ensures Mismatch(New(100, 100, Red), New(100, 100, White))
    ensures !MismatchAsWritten(New(100, 100, Red), New(100, 100, White))
  {
    SolidRecolour(100, 100, Red, White);
  }

  /** The snapshot file the tests start from. */
  const WhitePng: Path := "white.png"

  /** The snapshot file the tests expect to be created. */
  const RedPng: Path := "red.png"

  /** The directory the plugin's tests start from: `white.png` holds a 100x100 white image. */
  function WhiteFixture(): map<Path, Image> {
    map[WhitePng := New(100, 100, White)]
  }

  /** `test_image`: the stored image itself passes, with `-v`. */
  method TestImage() returns (outcome: Outcome)
    ensures outcome == Returned
  {
    var store := new SnapshotStore(WhiteFixture());
    var white := New(100, 100, White);
    SelfNeverDiffers(white);
    AlphaDiffersImpliesDiffers(white, white);
    var shown;
    outcome, shown := store.ImageSnapshot(white, WhitePng, false, 1, true);
  }

  /** The 150x150 white candidate differs from the fixture's `white.png` in the alpha band. */
  lemma LargerWhiteDiffersFromFixture()
    ensures WhitePng in WhiteFixture()
    ensures AlphaDiffers(New(150, 150, White), WhiteFixture()[WhitePng])
  {
    SolidGrown(150, 150, 100, 100, White);
  }

  /** `test_different_image`: a 150x150 white image raises `ImageMismatchError`. */
  method TestDifferentImage() returns (outcome: Outcome)
    ensures outcome == Raised(ImageMismatchError(MismatchMessage(WhitePng)))
  {
    var store := new SnapshotStore(WhiteFixture());
    var larger := New(150, 150, White);
    LargerWhiteDiffersFromFixture();
    var shown;
    outcome, shown := store.ImageSnapshot(larger, WhitePng, false, 1, true);
  }

  /** `test_create_image_if_missing`: `red.png` does not exist before the call and does after it. */
  method TestCreateImageIfMissing() returns (existedBefore: bool, outcome: Outcome, existsAfter: bool)
    ensures !existedBefore && outcome == Returned && existsAfter
  {
    var store := new SnapshotStore(WhiteFixture());
    assert RedPng != WhitePng by {
      assert RedPng[0] != WhitePng[0];
    }
    existedBefore := RedPng in store.files;
    var shown;
    outcome, shown := store.ImageSnapshot(New(100, 100, Red), RedPng, false, 1, true);
    existsAfter := RedPng in store.files;
  }

  /** A 100x100 red candidate differs from the fixture's `white.png`, but not in the alpha band. */
  lemma RedRecoloursFixture()
    ensures WhitePng in WhiteFixture()
    ensures Differs(New(100, 100, Red), WhiteFixture()[WhitePng])
    ensures !AlphaDiffers(New(100, 100, Red), WhiteFixture()[WhitePng])
  {
    SolidRecolour(100, 100, Red, White);
  }

  /**
    Comparing a 100x100 red image with `white.png`: the fixture as written
    returns, leaving the snapshot in place, while the all-channel test raises.
   */
  method RecolourAgainstFixture() returns (asWritten: Outcome, corrected: Outcome)
    ensures asWritten == Returned
    ensures corrected.Raised?
  {
    var red := New(100, 100, Red);
    RedRecoloursFixture();
    var store := new SnapshotStore(WhiteFixture());
    var shown;
    asWritten, shown := store.ImageSnapshot(red, WhitePng, false, 0, true);
    store := new SnapshotStore(WhiteFixture());
    corrected, shown := store.ImageSnapshot(red, WhitePng, false, 0, false);
  }
}

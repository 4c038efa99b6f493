/** The scroll-driven frame-sequence component: the state it keeps while the 40
    frames preload, the canvas it draws on, and its event handlers (an image's
    `onload` or `onerror`, the join of all loads, a change of the frame
    position, a window resize). Each handler runs to completion before the next
    event, as on the browser's event loop. */
module Scroller {
  import opened Wrappers
  import opened FrameAssets
  import opened LoadProgress
  import opened ScrollMapping
  import opened CoverFit

  class SunglassesScroll {
    /** Number of frames whose `onload` has fired. */
    var loadedCount: nat
    /** The preload array, one slot per frame position. */
    var loadedImages: Slots
    /** The percentage shown on the loading overlay. */
    var loadProgress: int
    /** Frame positions whose `onerror` fired, rejecting the join of all loads. */
    var failed: set<nat>
    var isLoading: bool
    /** The frame sequence drawn from; empty until every frame has loaded. */
    var images: seq<Frame>
    var canvasWidth: nat
    var canvasHeight: nat

    ghost predicate Valid()
      reads this
    {
      && |loadedImages| == TotalFrames
      && Placed(loadedImages)
      && Sized(loadedImages)
      && loadedCount == Filled(loadedImages)
      && loadProgress == LoadPercent(loadedCount)
      && (forall i :: i in failed ==> i < TotalFrames && loadedImages[i].None?)
      && (failed != {} ==> isLoading)
      && (isLoading ==> images == [])
      && (!isLoading ==> AllFilled(loadedImages) && images == Values(loadedImages))
      && canvasWidth > 0 && canvasHeight > 0
    }

    /** What `renderCanvas(index)` draws: the cover-fit rectangle of `images[index - 1]`,
        or nothing when that element does not exist. */
    function DrawRect(index: int): (r: Option<Rect>)
      reads this
      requires Valid()
      ensures r.Some? <==> 1 <= index <= |images|
      ensures isLoading ==> r == None
      ensures r.Some? ==>
                var f := images[index - 1];
                && f.src == FramePath(index - 1)
                && CoversCentred(r.value, canvasWidth as real, canvasHeight as real, f.width as real, f.height as real)
                // the tight fit: one side is exactly the canvas side
                && (r.value.width == canvasWidth as real || r.value.height == canvasHeight as real)
    {
      if 1 <= index <= |images| then
        var f := images[index - 1];
        // the published images are the slots in order, each holding its own frame
        assert f == loadedImages[index - 1].value;
        Some(Cover(canvasWidth as real, canvasHeight as real, f.width as real, f.height as real))
      else None
    }

    /** Once loaded, the floored frame index always addresses a published image. */
    lemma FrameIndexInBounds(p: real)
      requires Valid() && 0.0 <= p <= 1.0
      ensures !isLoading ==> 0 <= FrameIndex(p) - 1 < |images|
    {
    }

    /** The component as first mounted: nothing loaded, the overlay showing, and a
        canvas of the HTML default size 300 x 150. */
    constructor ()
      ensures Valid()
      ensures loadedCount == 0 && loadedImages == EmptySlots() && loadProgress == 0
      ensures failed == {} && isLoading && images == []
      ensures canvasWidth == 300 && canvasHeight == 150
    {
      // no slot is filled, so the counter and the percentage agree with the slots
      var empty := EmptySlots();
      assert Filled(empty) == 0 && Placed(empty);
      loadedCount := 0;
      loadedImages := empty;
      loadProgress := 0;
      failed := {};
      isLoading := true;
      images := [];
      canvasWidth := 300;
      canvasHeight := 150;
    }

    /** `img.onload` for frame position `i`: count it, update the percentage and
        store the decoded image in its own slot. */
    method OnLoad(i: nat, width: nat, height: nat)
      requires Valid()
      requires i < TotalFrames && loadedImages[i].None? && i !in failed
      requires width > 0 && height > 0
      modifies this
      ensures Valid()
      ensures loadedCount == old(loadedCount) + 1 <= TotalFrames
      ensures loadProgress == LoadPercent(loadedCount) && old(loadProgress) <= loadProgress <= 100
      ensures loadedImages == Store(old(loadedImages), i, width, height)
      ensures failed == old(failed) && isLoading == old(isLoading) && images == old(images)
      ensures canvasWidth == old(canvasWidth) && canvasHeight == old(canvasHeight)
    {
      // a slot is empty, so the sequence is still loading and has no images yet
      assert !AllFilled(loadedImages);
      assert isLoading && images == [];
      StoreFillsOne(loadedImages, i, width, height);
      StoreKeepsPlaced(loadedImages, i, width, height);
      StoreKeepsSized(loadedImages, i, width, height);
      LoadPercentMonotone(loadedCount, loadedCount + 1);
      LoadPercentBounds(loadedCount + 1);
      loadedCount := loadedCount + 1;
      loadProgress := LoadPercent(loadedCount);
      loadedImages := Store(loadedImages, i, width, height);
    }

    /** `img.onerror` for frame position `i`: the join of all loads rejects, the error
        is logged, and the component stays on the loading overlay. */
    method OnError(i: nat)
      requires Valid()
      requires i < TotalFrames && loadedImages[i].None? && i !in failed
      modifies this
      ensures Valid()
      ensures failed == old(failed) + {i} && isLoading && images == []
      ensures loadedCount == old(loadedCount) && loadedImages == old(loadedImages)
      ensures loadProgress == old(loadProgress)
      ensures canvasWidth == old(canvasWidth) && canvasHeight == old(canvasHeight)
    {
      assert !AllFilled(loadedImages);
      failed := failed + {i};
    }

    /** The continuation of `await Promise.all(...)`: once every frame has loaded,
        publish the frame sequence and clear the loading flag; while a frame is
        outstanding or has failed, nothing happens. */
    method OnAllLoaded()
      requires Valid()
      modifies this
      ensures Valid()
      ensures !isLoading <==> AllFilled(loadedImages)
      ensures AllFilled(loadedImages) ==> images == Values(loadedImages)
      ensures !AllFilled(loadedImages) ==> isLoading == old(isLoading) && images == old(images)
      ensures old(failed) != {} ==> isLoading && images == []
      ensures loadedCount == old(loadedCount) && loadedImages == old(loadedImages)
      ensures loadProgress == old(loadProgress) && failed == old(failed)
      ensures canvasWidth == old(canvasWidth) && canvasHeight == old(canvasHeight)
    {
      if Filled(loadedImages) == TotalFrames {
        images := Values(loadedImages);
        isLoading := false;
      }
    }

    /** `renderCanvas(index)`: the rectangle `images[index - 1]` is drawn into, or
        nothing when there is no such image; the component's state is not changed. */
    method Render(index: int) returns (drawn: Option<Rect>)
      requires Valid()
      ensures drawn == DrawRect(index)
    {
      drawn := DrawRect(index);
    }

    /** The two effects that run on mount and again after `images` and `isLoading`
        change, in the order they are declared: the resize effect (window size
        `width` x `height`, smoothed progress `p`) and then the initial-render effect.
        Once loaded, the last draw is frame 1 whatever the progress selects; it
        stays on screen until the next change of the frame position. */
    method RunEffects(width: nat, height: nat, p: real) returns (resized: Option<Rect>, initial: Option<Rect>)
      requires Valid() && width > 0 && height > 0 && 0.0 <= p <= 1.0
      modifies this
      ensures Valid()
      ensures canvasWidth == width && canvasHeight == height
      ensures loadedCount == old(loadedCount) && loadedImages == old(loadedImages)
      ensures loadProgress == old(loadProgress) && failed == old(failed)
      ensures isLoading == old(isLoading) && images == old(images)
      ensures resized == DrawRect(FrameIndex(p))
      ensures initial == (if isLoading then None else DrawRect(1))
      ensures !isLoading ==> resized.Some? && initial.Some?
    {
      resized := Resize(width, height, p);
      if !isLoading && |images| > 0 {
        initial := Render(1);
      } else {
        initial := None;
      }
    }

    /** The `change` listener on the frame position for smoothed progress `p`: draw the
        floored frame index. Once loaded, some frame is always drawn. */
    method OnFrameChange(p: real) returns (drawn: Option<Rect>)
      requires Valid() && 0.0 <= p <= 1.0
      ensures drawn == DrawRect(FrameIndex(p))
      ensures drawn.Some? <==> !isLoading
    {
      drawn := Render(FrameIndex(p));
    }

    /** `handleResize`: give the canvas the window's size and redraw the frame that the
        current smoothed progress `p` selects. */
    method Resize(width: nat, height: nat, p: real) returns (drawn: Option<Rect>)
      requires Valid() && width > 0 && height > 0 && 0.0 <= p <= 1.0
      modifies this
      ensures Valid()
      ensures canvasWidth == width && canvasHeight == height
      ensures loadedCount == old(loadedCount) && loadedImages == old(loadedImages)
      ensures loadProgress == old(loadProgress) && failed == old(failed)
      ensures isLoading == old(isLoading) && images == old(images)
      ensures drawn == DrawRect(FrameIndex(p))
      ensures drawn.Some? <==> !isLoading
    {
      canvasWidth := width;
      canvasHeight := height;
      drawn := Render(FrameIndex(p));
    }
  }
}

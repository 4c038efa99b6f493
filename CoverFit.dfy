/** The "object-cover" placement used to draw a frame onto the canvas: the image
    is scaled, keeping its aspect ratio, until it covers the whole canvas, and is
    centred, so that the overflow on one axis is cut off equally on both sides. */
module CoverFit {

  /** The rectangle passed to `drawImage`: its top-left corner and its size. */
  datatype Rect = Rect(x: real, y: real, width: real, height: real)

  function Max(a: real, b: real): (m: real)
    ensures m >= a && m >= b && (m == a || m == b)
  {
    if a < b then b else a
  }

  /** `r` covers a `cw` x `ch` canvas, has the aspect ratio `iw` : `ih` of the image,
      so the image is not stretched, and is centred on both axes. */
  ghost predicate CoversCentred(r: Rect, cw: real, ch: real, iw: real, ih: real) {
    && r.width >= cw && r.height >= ch
    && r.width * ih == r.height * iw
    && 2.0 * r.x + r.width == cw && 2.0 * r.y + r.height == ch
  }

  /** The draw rectangle for an image of size `iw` x `ih` on a canvas of size `cw` x `ch`. */
  function Cover(cw: real, ch: real, iw: real, ih: real): (r: Rect)
    requires cw > 0.0 && ch > 0.0 && iw > 0.0 && ih > 0.0
    // a canvas relatively wider than the image fixes the width, otherwise the height
    ensures cw / ch < iw / ih ==> r.height == ch && r.y == 0.0
    ensures !(cw / ch < iw / ih) ==> r.width == cw && r.x == 0.0
    ensures CoversCentred(r, cw, ch, iw, ih)
  {
    var canvasRatio := cw / ch;
    var imgRatio := iw / ih;
    if canvasRatio < imgRatio then
      var drawWidth := ch * imgRatio;
      assert drawWidth >= cw by {
        assert cw == ch * canvasRatio;
      }
      Rect((cw - drawWidth) / 2.0, 0.0, drawWidth, ch)
    else
      var drawHeight := cw / imgRatio;
      assert drawHeight >= ch by {
        assert cw == ch * canvasRatio;
        assert drawHeight * imgRatio == cw;
      }
      Rect(0.0, (ch - drawHeight) / 2.0, cw, drawHeight)
  }

  /** The rectangle is the image scaled by `max(cw / iw, ch / ih)`. */
  lemma CoverIsMaxScale(cw: real, ch: real, iw: real, ih: real)
    requires cw > 0.0 && ch > 0.0 && iw > 0.0 && ih > 0.0
    ensures var s := Max(cw / iw, ch / ih);
            Cover(cw, ch, iw, ih).width == s * iw && Cover(cw, ch, iw, ih).height == s * ih
  {
    var r := Cover(cw, ch, iw, ih);
    var s := Max(cw / iw, ch / ih);
    if cw / ch < iw / ih {
      assert cw / iw < ch / ih by {
        assert cw * ih < iw * ch;
      }
      assert s == ch / ih;
      assert r.height == ch && r.width * ih == ch * iw;
      assert r.width == ch / ih * iw;
    } else {
      assert ch / ih <= cw / iw by {
        assert iw * ch <= cw * ih;
      }
      assert s == cw / iw;
      assert r.width == cw && cw * ih == r.height * iw;
      assert r.height == cw / iw * ih;
    }
  }

  /** No smaller unstretched rectangle covers the canvas. */
  lemma CoverIsSmallest(cw: real, ch: real, iw: real, ih: real, w: real, h: real)
    requires cw > 0.0 && ch > 0.0 && iw > 0.0 && ih > 0.0
    requires w * ih == h * iw && w >= cw && h >= ch
    ensures Cover(cw, ch, iw, ih).width <= w && Cover(cw, ch, iw, ih).height <= h
  {
    var r := Cover(cw, ch, iw, ih);
    if r.height == ch {
      assert r.width * ih <= w * ih;
    } else {
      assert r.height * iw <= h * iw;
    }
  }

  /** A covering, unstretched, centred rectangle with one side equal to the canvas side is
      exactly the cover rectangle: these properties determine what is drawn. */
  lemma TightCoverUnique(r: Rect, cw: real, ch: real, iw: real, ih: real)
    requires cw > 0.0 && ch > 0.0 && iw > 0.0 && ih > 0.0
    requires CoversCentred(r, cw, ch, iw, ih) && (r.width == cw || r.height == ch)
    ensures r == Cover(cw, ch, iw, ih)
  {
    var c := Cover(cw, ch, iw, ih);
    CoverIsSmallest(cw, ch, iw, ih, r.width, r.height);
    if r.width == cw {
      assert c.width == cw;
      assert c.height * iw == r.height * iw by {
        assert c.width * ih == c.height * iw && r.width * ih == r.height * iw;
      }
      assert c.height == r.height;
    } else {
      assert c.height == ch;
      assert c.width * ih == r.width * ih by {
        assert c.width * ih == c.height * iw && r.width * ih == r.height * iw;
      }
      assert c.width == r.width;
    }
  }

  /** An image with the canvas's own aspect ratio is drawn at exactly the canvas size. */
  lemma CoverSameRatio()
    ensures Cover(800.0, 600.0, 400.0, 300.0) == Rect(0.0, 0.0, 800.0, 600.0)
  {
    assert 800.0 / 600.0 == 400.0 / 300.0 == 4.0 / 3.0;
    assert 800.0 / (4.0 / 3.0) == 600.0;
  }

  /** A square image on a landscape canvas overflows vertically and is cut equally at top and bottom. */
  lemma CoverSquareOnLandscape()
    ensures Cover(800.0, 600.0, 300.0, 300.0) == Rect(0.0, -100.0, 800.0, 800.0)
  {
    assert 800.0 / 600.0 == 4.0 / 3.0 && 300.0 / 300.0 == 1.0;
  }
}

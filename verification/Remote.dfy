/** The remote display as the protocol describes it, and what an image
    instruction does to it. */
module Remote {
  import opened Argb
  import opened Pixels
  import opened Rects

  datatype Encoding = Png | Jpeg | WebP

  /** An image of the backing buffer's pixels within rect, composited OVER the
      layer; rgb when it was made with CAIRO_FORMAT_RGB24. */
  datatype Image = Image(rect: Rect, encoding: Encoding, rgb: bool) {

    /** What one destination pixel shows after delivery. A PNG with alpha has its
        rectangle cleared first; WebP with alpha has not. */
    function Shown(s: Pixel, d: Pixel): Pixel {
      if rgb then s.Solid()
      else if encoding == Png then Over(CLEAR, s)
      else Over(d, s)
    }

    /** The pixel is delivered as it is, whatever the remote display shows there. */
    predicate ExactAt(s: Pixel) {
      s.Opaque() || (!rgb && encoding == Png)
    }
  }

  /** The guard ExactAt decides exactly which pixels reach the display unchanged. */
  lemma ExactAtIff(img: Image, s: Pixel)
    ensures img.ExactAt(s) <==> forall d :: img.Shown(s, d) == s
  {
    if img.rgb {
      assert img.Shown(s, CLEAR) == s <==> s.Opaque();
    } else if img.encoding != Png {
      OverReplacesIff(s);
      if !s.Opaque() {
        var d :| Over(d, s) != s;
        assert img.Shown(s, d) != s;
      }
    }
  }

  ghost predicate Sized<T>(rows: seq<seq<T>>, width: int, height: int) {
    |rows| == height && forall py :: 0 <= py < height ==> |rows[py]| == width
  }

  predicate Inside(px: int, py: int, width: int, height: int) {
    0 <= px < width && 0 <= py < height
  }

  function Area(width: int, height: int): Rect { Rect(0, 0, width, height) }

  ghost predicate CoveredBy(images: seq<Image>, px: int, py: int) {
    exists k :: 0 <= k < |images| && Contains(images[k].rect, px, py)
  }

  ghost predicate AllWithin(images: seq<Image>, width: int, height: int) {
    forall k :: 0 <= k < |images| ==> !images[k].rect.Empty() && Within(images[k].rect, Area(width, height))
  }

  /** Every pixel of every image is delivered as it is. */
  ghost predicate Exact(images: seq<Image>, buffer: Raster) {
    forall k, px, py ::
      0 <= k < |images| && Contains(images[k].rect, px, py) && 0 <= py < |buffer| && 0 <= px < |buffer[py]| ==>
        images[k].ExactAt(buffer[py][px])
  }

  ghost predicate AllPng(images: seq<Image>) {
    forall k :: 0 <= k < |images| ==> images[k].encoding == Png
  }

  /** The layer after one image, and after a run of them. */
  ghost function Delivered(shown: Raster, buffer: Raster, img: Image): Raster
    requires Covers(buffer, img.rect) && Covers(shown, img.rect)
  {
    Combined(buffer, img.rect.x, img.rect.y, (s, d) => img.Shown(s, d), shown, img.rect)
  }

  ghost function Replayed(shown: Raster, buffer: Raster, images: seq<Image>, width: int, height: int): (rows: Raster)
    requires Sized(shown, width, height) && Sized(buffer, width, height) && AllWithin(images, width, height)
    ensures Sized(rows, width, height)
    decreases |images|
  {
    if images == [] then shown
    else
      var rest := images[..|images| - 1];
      assert AllWithin(rest, width, height);
      Delivered(Replayed(shown, buffer, rest, width, height), buffer, images[|images| - 1])
  }

  /** Exact images put the buffer's pixels wherever they reach, and nothing elsewhere. */
  lemma {:induction false} ReplayedAt(shown: Raster, buffer: Raster, images: seq<Image>, width: int, height: int,
                                      px: int, py: int)
    requires Sized(shown, width, height) && Sized(buffer, width, height) && AllWithin(images, width, height)
    requires Exact(images, buffer) && Inside(px, py, width, height)
    ensures Replayed(shown, buffer, images, width, height)[py][px]
            == if CoveredBy(images, px, py) then buffer[py][px] else shown[py][px]
    decreases |images|
  {
    if images != [] {
      var rest, last := images[..|images| - 1], images[|images| - 1];
      assert AllWithin(rest, width, height) && Exact(rest, buffer);
      ReplayedAt(shown, buffer, rest, width, height, px, py);
      var before := Replayed(shown, buffer, rest, width, height);
      CombinedAt(buffer, last.rect.x, last.rect.y, (s, d) => last.Shown(s, d), before, last.rect, px, py);
      if Contains(last.rect, px, py) {
        ExactAtIff(last, buffer[py][px]);
      } else if CoveredBy(images, px, py) {
        assert CoveredBy(rest, px, py);
      }
    }
  }

  lemma ReplayedAppend(shown: Raster, buffer: Raster, images: seq<Image>, last: Image, width: int, height: int)
    requires Sized(shown, width, height) && Sized(buffer, width, height)
    requires AllWithin(images, width, height) && AllWithin(images + [last], width, height)
    ensures Covers(Replayed(shown, buffer, images, width, height), last.rect) && Covers(buffer, last.rect)
    ensures Replayed(shown, buffer, images + [last], width, height)
            == Delivered(Replayed(shown, buffer, images, width, height), buffer, last)
  {
    assert (images + [last])[..|images|] == images && (images + [last])[|images|] == last;
  }

  lemma {:induction false} ReplayedBoth(shown: Raster, buffer: Raster, first: seq<Image>, second: seq<Image>,
                                        width: int, height: int)
    requires Sized(shown, width, height) && Sized(buffer, width, height)
    requires AllWithin(first, width, height) && AllWithin(second, width, height)
    ensures AllWithin(first + second, width, height)
    ensures Replayed(shown, buffer, first + second, width, height)
            == Replayed(Replayed(shown, buffer, first, width, height), buffer, second, width, height)
    decreases |second|
  {
    if second == [] {
      assert first + second == first;
    } else {
      var rest := second[..|second| - 1];
      assert AllWithin(rest, width, height);
      ReplayedBoth(shown, buffer, first, rest, width, height);
      assert (first + second)[..|first + second| - 1] == first + rest;
    }
  }

  lemma CoveredByBoth(first: seq<Image>, second: seq<Image>, px: int, py: int)
    ensures CoveredBy(first + second, px, py) <==> CoveredBy(first, px, py) || CoveredBy(second, px, py)
  {
    var both := first + second;
    forall k | 0 <= k < |first| && Contains(first[k].rect, px, py) ensures CoveredBy(both, px, py) {
      assert both[k] == first[k];
    }
    forall k | 0 <= k < |second| && Contains(second[k].rect, px, py) ensures CoveredBy(both, px, py) {
      assert both[|first| + k] == second[k];
    }
  }

  ghost predicate Opaque(rows: Raster) {
    forall py, px :: 0 <= py < |rows| && 0 <= px < |rows[py]| ==> rows[py][px].Opaque()
  }
}

/**
 * Image helpers: the power-of-two sample size chosen before decoding a
 * bitmap, and the listener that fades an image in the first time it is
 * shown. Decoding, file streams and the animation itself are platform code.
 */
module ImageUtils {
  import opened JavaLang

  // ---------------------------------------------------------------------
  // decodeFile: the sample size
  // ---------------------------------------------------------------------

  predicate IsPow2(n: int)
    decreases if n > 0 then n else 0
  {
    n == 1 || (n > 1 && n % 2 == 0 && IsPow2(n / 2))
  }

  function Pow2(k: nat): (p: int)
    ensures p >= 1
  {
    if k == 0 then 1 else 2 * Pow2(k - 1)
  }

  lemma DivUnique(a: int, m: int, q: int, r: int)
    requires m > 0 && a == m * q + r && 0 <= r < m
    ensures a / m == q
  {
    var d := a / m - q;
    assert m * d == r - a % m;
    assert d >= 1 ==> m * d >= m * 1;
    assert d <= -1 ==> m * d <= m * -1;
  }

  /** Halving a quotient is dividing by twice the divisor. */
  lemma DivHalf(a: nat, m: int)
    requires m > 0
    ensures a / m / 2 == a / (m * 2)
  {
    var q, r := a / (m * 2), a % (m * 2);
    assert a == (m * 2) * q + r;
    if r < m {
      DivUnique(a, m, 2 * q, r);
    } else {
      DivUnique(a, m, 2 * q + 1, r - m);
    }
    DivUnique(a / m, 2, q, a / m - 2 * q);
  }

  /** The same for Java's truncating division. */
  lemma JDivHalf(a: int, m: int)
    requires m > 0
    ensures JDiv(JDiv(a, m), 2) == JDiv(a, m * 2)
  {
    if a >= 0 {
      DivHalf(a, m);
    } else {
      DivHalf(-a, m);
    }
  }

  /**
   * The sample size for an image of outWidth x outHeight: halve both sides
   * while each half would still be at least requiredSize, doubling the scale
   * each time. A requiredSize of 0 or less would never stop the loop.
   */
  method DecodeScale(outWidth: int, outHeight: int, requiredSize: int) returns (scale: int)
    requires requiredSize >= 1
    ensures IsPow2(scale)
    ensures JDiv(outWidth, 2 * scale) < requiredSize || JDiv(outHeight, 2 * scale) < requiredSize
    ensures scale > 1 ==> JDiv(outWidth, scale) >= requiredSize && JDiv(outHeight, scale) >= requiredSize
  {
    var widthTmp, heightTmp := outWidth, outHeight;
    scale := 1;
    while true
      invariant IsPow2(scale)
      invariant widthTmp == JDiv(outWidth, scale) && heightTmp == JDiv(outHeight, scale)
      invariant scale > 1 ==> widthTmp >= requiredSize && heightTmp >= requiredSize
      decreases if widthTmp > 0 then widthTmp else 0
    {
      if JDiv(widthTmp, 2) < requiredSize || JDiv(heightTmp, 2) < requiredSize {
        JDivHalf(outWidth, scale);
        JDivHalf(outHeight, scale);
        break;
      }
      JDivHalf(outWidth, scale);
      JDivHalf(outHeight, scale);
      assert IsPow2(scale * 2) by {
        assert (scale * 2) / 2 == scale;
      }
      widthTmp := JDiv(widthTmp, 2);
      heightTmp := JDiv(heightTmp, 2);
      scale := scale * 2;
    }
  }

  lemma {:induction false} Pow2Positive(n: int)
    requires IsPow2(n)
    ensures n >= 1
    decreases if n > 0 then n else 0
  {
    if n != 1 {
      Pow2Positive(n / 2);
    }
  }

  /**
   * The chosen scale is the largest power of two that keeps both sides at
   * least requiredSize: every further doubling leaves a side below it.
   */
  lemma {:induction false} ScaleIsLargest(outWidth: int, outHeight: int, requiredSize: int, scale: int, j: nat)
    requires requiredSize >= 1 && IsPow2(scale) && j >= 1
    requires JDiv(outWidth, 2 * scale) < requiredSize || JDiv(outHeight, 2 * scale) < requiredSize
    ensures JDiv(outWidth, scale * Pow2(j)) < requiredSize || JDiv(outHeight, scale * Pow2(j)) < requiredSize
    decreases j
  {
    Pow2Positive(scale);
    assert Pow2(j) == 2 * Pow2(j - 1);
    if j == 1 {
      assert scale * Pow2(j) == 2 * scale;
    } else {
      ScaleIsLargest(outWidth, outHeight, requiredSize, scale, j - 1);
      var m := scale * Pow2(j - 1);
      assert scale * Pow2(j) == m * 2;
      JDivHalf(outWidth, m);
      JDivHalf(outHeight, m);
      if JDiv(outWidth, m) < requiredSize {
        HalfStaysBelow(JDiv(outWidth, m), requiredSize);
      } else {
        HalfStaysBelow(JDiv(outHeight, m), requiredSize);
      }
    }
  }

  lemma HalfStaysBelow(x: int, bound: int)
    requires bound >= 1 && x < bound
    ensures JDiv(x, 2) < bound
  {
  }

  // ---------------------------------------------------------------------
  // AnimateFirstDisplayListener
  // ---------------------------------------------------------------------

  /** What the loaded image's view is: nothing, an ImageView, or another kind of view. */
  datatype ViewKind = NoView | ImageViewKind | OtherView

  predicate NoDuplicates(s: seq<string>)
  {
    forall i, j :: 0 <= i < j < |s| ==> s[i] != s[j]
  }

  /**
   * The record of the URIs already shown, oldest first. Java keeps it in one
   * static list that every listener reads and extends, so here it is one
   * object that every listener is given; it starts out empty when the class
   * is loaded.
   */
  class DisplayedImages {
    var uris: seq<string>

    constructor ()
      ensures uris == []
    {
      uris := [];
    }
  }

  class AnimateFirstDisplayListener {
    /** The shared record: every listener holds the same one. */
    const displayedImages: DisplayedImages

    /** A new listener uses the shared record as it stands; it clears nothing. */
    constructor (shared: DisplayedImages)
      ensures displayedImages == shared
    {
      displayedImages := shared;
    }

    /**
     * A successful load of a URI not shown before fades it in and records it.
     * A failed load (no bitmap) does nothing. The view is cast to ImageView
     * first, which throws for any other kind of view.
     */
    method OnLoadingComplete(imageUri: string, view: ViewKind, loaded: bool) returns (r: Outcome<bool>)
      requires NoDuplicates(displayedImages.uris)
      modifies displayedImages
      ensures NoDuplicates(displayedImages.uris)
      ensures loaded && view == OtherView ==> r == Thrown(ClassCast) && displayedImages.uris == old(displayedImages.uris)
      ensures !loaded ==> r == Value(false) && displayedImages.uris == old(displayedImages.uris)
      ensures loaded && view != OtherView ==>
        && r == Value(imageUri !in old(displayedImages.uris))
        && displayedImages.uris == old(displayedImages.uris) + (if imageUri in old(displayedImages.uris) then [] else [imageUri])
      ensures imageUri in displayedImages.uris <==> imageUri in old(displayedImages.uris) || (loaded && view != OtherView)
    {
      if !loaded {
        return Value(false);
      }
      if view == OtherView {
        return Thrown(ClassCast);
      }
      var firstDisplay := imageUri !in displayedImages.uris;
      if firstDisplay {
        // the fade-in animation starts here
        displayedImages.uris := displayedImages.uris + [imageUri];
      }
      return Value(firstDisplay);
    }
  }

  /**
   * An image is faded in once per process, not once per listener: after one
   * listener has shown a URI, a listener created later for another display
   * call finds it in the shared record and does not fade it in again.
   */
  method FadesInOncePerProcess(imageUri: string) returns (first: Outcome<bool>, second: Outcome<bool>)
    ensures first == Value(true) && second == Value(false)
  {
    var record := new DisplayedImages();
    var a := new AnimateFirstDisplayListener(record);
    first := a.OnLoadingComplete(imageUri, ImageViewKind, true);
    var b := new AnimateFirstDisplayListener(record);
    second := b.OnLoadingComplete(imageUri, ImageViewKind, true);
  }

  /** The record is exactly the distinct URIs loaded successfully into image views, in first-load order. */
  function Displayed(loads: seq<(string, ViewKind, bool)>): (r: seq<string>)
    ensures NoDuplicates(r)
    ensures forall u :: u in r <==> exists i :: 0 <= i < |loads| && loads[i].0 == u && loads[i].2 && loads[i].1 != OtherView
  {
    if loads == [] then []
    else
      var prev := Displayed(loads[..|loads| - 1]);
      var (u, v, ok) := loads[|loads| - 1];
      if ok && v != OtherView && u !in prev then prev + [u] else prev
  }

  /**
   * A process that runs the display calls in `loads` one after another, each
   * with a listener of its own on the one shared record, ends with the
   * record `Displayed` describes.
   */
  method DisplayAll(loads: seq<(string, ViewKind, bool)>) returns (record: DisplayedImages)
    ensures record.uris == Displayed(loads)
  {
    record := new DisplayedImages();
    var i := 0;
    while i < |loads|
      invariant 0 <= i <= |loads|
      invariant record.uris == Displayed(loads[..i])
    {
      var listener := new AnimateFirstDisplayListener(record);
      var (u, v, ok) := loads[i];
      var shown := listener.OnLoadingComplete(u, v, ok);
      assert loads[..i + 1][..i] == loads[..i];
      i := i + 1;
    }
    assert loads[..i] == loads;
  }
}

/** Digital zoom crop and focus area arithmetic (common/hardware/camera/V4L2CameraDevice.cpp:
    calculateCrop; common/hardware/camera/CameraHardware.cpp: checkFocusArea, parse_focus_areas and
    the zoom range check in setParameters), on numbers that are already parsed. */
module CropFocus {
  /** C's integer division, which truncates towards zero. */
  function TruncDiv(a: int, b: int): int
    requires b != 0
  {
    var q := (if a < 0 then -a else a) / (if b < 0 then -b else b);
    if (a < 0) == (b < 0) then q else -q
  }

  datatype Area = Area(left: int, top: int, right: int, bottom: int)

  /** No zoom, or what the range check in setParameters lets through. */
  predicate ZoomAllowed(zoom: int, maxZoom: int) {
    zoom == 0 || 0 <= zoom <= maxZoom
  }

  /** The zoom factor in percent, 100 to 300 for settings that are allowed. */
  function Ratio(zoom: int, maxZoom: int): (ratio: int)
    ensures ZoomAllowed(zoom, maxZoom) ==> 100 <= ratio <= 300
  {
    if maxZoom == 0 then 100
    else
      FactorBounds(zoom, maxZoom);
      TruncDiv(zoom * 2 * 100, maxZoom) + 100
  }

  /** Where calculateCrop puts one side of the crop. */
  function Low(extent: nat, ratio: int): int
    requires ratio != 0
  {
    TruncDiv(extent - TruncDiv(extent * 100, ratio), 2)
  }

  function High(extent: nat, ratio: int): int
    requires ratio != 0
  {
    Low(extent, ratio) + TruncDiv(extent * 100, ratio)
  }

  /** The area calculateCrop fills in; it divides by the zoom factor. */
  function Crop(zoom: int, maxZoom: int, width: nat, height: nat): Area
    requires Ratio(zoom, maxZoom) != 0
  {
    var ratio := Ratio(zoom, maxZoom);
    Area(Low(width, ratio), Low(height, ratio), High(width, ratio), High(height, ratio))
  }

  lemma MulMonotone(a: int, b: int, d: nat)
    requires a <= b
    ensures a * d <= b * d && d * a <= d * b
  {
  }

  lemma DivMonotone(a: int, b: int, d: int)
    requires 0 <= a <= b && d > 0
    ensures a / d <= b / d
  {
    var p, q := a / d, b / d;
    if p > q {
      MulMonotone(q + 1, p, d);
    }
  }

  lemma MulDiv(q: nat, d: int)
    requires d > 0
    ensures q * d / d == q
  {
    var p := q * d / d;
    if p < q {
      MulMonotone(p + 1, q, d);
    } else {
      MulMonotone(q, p, d);
    }
  }

  /** A larger divisor gives a smaller quotient. */
  lemma DivAntitone(a: nat, d: int, e: int)
    requires 0 < d <= e
    ensures a / e <= a / d
  {
    var p := a / e;
    MulMonotone(d, e, p);
    assert p * e <= a;
    DivMonotone(p * d, a, d);
    MulDiv(p, d);
  }

  lemma FactorBounds(zoom: int, maxZoom: int)
    requires maxZoom != 0
    ensures ZoomAllowed(zoom, maxZoom) ==> 0 <= TruncDiv(zoom * 2 * 100, maxZoom) <= 200
    ensures zoom == maxZoom ==> TruncDiv(zoom * 2 * 100, maxZoom) == 200
  {
    if maxZoom > 0 && 0 <= zoom <= maxZoom {
      DivMonotone(zoom * 200, maxZoom * 200, maxZoom);
      MulDiv(200, maxZoom);
    } else if maxZoom < 0 && zoom == maxZoom {
      MulDiv(200, -maxZoom);
      assert -(zoom * 2 * 100) == 200 * -maxZoom;
    }
  }

  lemma RatioBounds(zoom: int, maxZoom: int)
    requires ZoomAllowed(zoom, maxZoom)
    ensures 100 <= Ratio(zoom, maxZoom) <= 300
    ensures maxZoom > 0 && zoom == maxZoom ==> Ratio(zoom, maxZoom) == 300
  {
    if maxZoom != 0 {
      FactorBounds(zoom, maxZoom);
    }
  }

  lemma RatioMonotone(smaller: int, larger: int, maxZoom: int)
    requires 0 <= smaller <= larger <= maxZoom && maxZoom > 0
    ensures Ratio(smaller, maxZoom) <= Ratio(larger, maxZoom)
  {
    DivMonotone(smaller * 200, larger * 200, maxZoom);
  }

  predicate Inside(inner: Area, outer: Area) {
    && outer.left <= inner.left <= inner.right <= outer.right
    && outer.top <= inner.top <= inner.bottom <= outer.bottom
  }

  /** The crop of one side: inside the frame, centred to within one pixel, at least a third. */
  lemma SideBounds(extent: nat, ratio: int)
    requires 100 <= ratio <= 300
    ensures var c := extent * 100 / ratio;
      && 0 <= (extent - c) / 2 && (extent - c) / 2 + c <= extent
      && extent / 3 <= c <= extent
      && 0 <= extent - ((extent - c) / 2 + c) - (extent - c) / 2 <= 1
  {
    DivAntitone(extent * 100, 100, ratio);
    DivAntitone(extent * 100, ratio, 300);
    assert extent * 100 / 100 == extent && extent * 100 / 300 == extent / 3;
  }

  /** The crop lies inside the frame, is centred in it and at least a third of it each way; without
      zoom it is the whole frame. */
  lemma CropInsideFrame(zoom: int, maxZoom: int, width: nat, height: nat)
    requires ZoomAllowed(zoom, maxZoom)
    ensures var c := Crop(zoom, maxZoom, width, height);
      && Inside(c, Area(0, 0, width, height))
      && c.right - c.left >= width / 3 && c.bottom - c.top >= height / 3
      && 0 <= (width - c.right) - c.left <= 1 && 0 <= (height - c.bottom) - c.top <= 1
      && (zoom == 0 ==> c == Area(0, 0, width, height))
  {
    RatioBounds(zoom, maxZoom);
    SideBounds(width, Ratio(zoom, maxZoom));
    SideBounds(height, Ratio(zoom, maxZoom));
    if zoom == 0 {
      assert maxZoom != 0 ==> TruncDiv(0, maxZoom) == 0;
      assert width * 100 / 100 == width && height * 100 / 100 == height;
    }
  }

  /** Zooming in never leaves the crop of a smaller zoom. */
  lemma CropsNest(smaller: int, larger: int, maxZoom: int, width: nat, height: nat)
    requires 0 <= smaller <= larger <= maxZoom && maxZoom > 0
    ensures Inside(Crop(larger, maxZoom, width, height), Crop(smaller, maxZoom, width, height))
  {
    RatioBounds(smaller, maxZoom);
    RatioBounds(larger, maxZoom);
    RatioMonotone(smaller, larger, maxZoom);
    DivAntitone(width * 100, Ratio(smaller, maxZoom), Ratio(larger, maxZoom));
    DivAntitone(height * 100, Ratio(smaller, maxZoom), Ratio(larger, maxZoom));
    SideBounds(width, Ratio(larger, maxZoom));
    SideBounds(height, Ratio(larger, maxZoom));
  }

  lemma QuotientIsExact(a: int, d: int)
    requires a >= 0 && d > 0
    ensures TruncDiv(a, d) * d <= a < (TruncDiv(a, d) + 1) * d
  {
  }

  /** The zoom factor grows from 100 percent by 200 percent of the share of the maximum, rounded down. */
  lemma RatioIsExact(zoom: int, maxZoom: int)
    requires maxZoom > 0 && zoom >= 0
    ensures (Ratio(zoom, maxZoom) - 100) * maxZoom <= 200 * zoom < (Ratio(zoom, maxZoom) - 99) * maxZoom
  {
    QuotientIsExact(zoom * 2 * 100, maxZoom);
  }

  /** Each side of the crop is that of the frame divided by the zoom factor, rounded down, and what is
      left over is split evenly, an odd pixel going to the far end. */
  lemma SideIsExact(extent: nat, ratio: int)
    requires ratio >= 100
    ensures var side := High(extent, ratio) - Low(extent, ratio);
      && side * ratio <= 100 * extent < (side + 1) * ratio
      && 0 <= (extent - High(extent, ratio)) - Low(extent, ratio) <= 1
  {
    var a := extent * 100;
    QuotientIsExact(a, ratio);
    DivAntitone(a, 100, ratio);
    assert a / 100 == extent;
  }

  // ---------------------------------------------------------------- settings that are not allowed

  lemma DivAtMost(a: nat, d: nat, n: nat)
    requires d > 0
    ensures a / d <= n <==> a < (n + 1) * d
  {
    var q := a / d;
    assert q * d <= a < q * d + d;
    if q <= n {
      MulMonotone(q + 1, n + 1, d);
    } else {
      MulMonotone(n + 1, q, d);
    }
  }

  /** For one side and any zoom factor: the crop is no larger than the frame, and not turned round. */
  predicate SideFits(extent: nat, ratio: int) {
    if ratio > 0 then 100 * extent < (extent + 1) * ratio else 100 * extent < -ratio
  }

  lemma CentredFits(extent: nat, c: int)
    ensures 0 <= TruncDiv(extent - c, 2) <= TruncDiv(extent - c, 2) + c <= extent <==> 0 <= c <= extent
  {
  }

  lemma TruncDivNegative(a: nat, d: int)
    requires d < 0
    ensures TruncDiv(a, d) == -(a / -d)
  {
  }

  lemma QuotientFits(extent: nat, ratio: int)
    requires ratio != 0
    ensures 0 <= TruncDiv(extent * 100, ratio) <= extent <==> SideFits(extent, ratio)
  {
    var a := extent * 100;
    if ratio > 0 {
      DivAtMost(a, ratio, extent);
      assert TruncDiv(a, ratio) == a / ratio;
    } else {
      DivAtMost(a, -ratio, 0);
      TruncDivNegative(a, ratio);
    }
  }

  lemma SideFitsIff(extent: nat, ratio: int)
    requires ratio != 0
    ensures 0 <= Low(extent, ratio) <= High(extent, ratio) <= extent <==> SideFits(extent, ratio)
  {
    QuotientFits(extent, ratio);
    CentredFits(extent, TruncDiv(extent * 100, ratio));
  }

  /** For any settings at all, the crop lies inside the frame exactly if both sides fit. */
  lemma CropInsideIff(zoom: int, maxZoom: int, width: nat, height: nat)
    requires Ratio(zoom, maxZoom) != 0
    ensures Inside(Crop(zoom, maxZoom, width, height), Area(0, 0, width, height))
            <==> SideFits(width, Ratio(zoom, maxZoom)) && SideFits(height, Ratio(zoom, maxZoom))
  {
    SideFitsIff(width, Ratio(zoom, maxZoom));
    SideFitsIff(height, Ratio(zoom, maxZoom));
  }

  /** mNewZoom after the first i of the two stores that each setCrop(zoom, maximum) call makes. */
  function NewZoomAfter(calls: seq<(int, int)>, i: nat): int
    requires i <= 2 * |calls|
  {
    if i == 0 then 0 else calls[(i - 1) / 2].0
  }

  /** mMaxZoom after the first i stores. */
  function MaxZoomAfter(calls: seq<(int, int)>, i: nat): int
    requires i <= 2 * |calls|
  {
    if i < 2 then -1 else calls[i / 2 - 1].1
  }

  /** The calls the code makes: one without zoom at initialization, then those that pass the range
      check, all with the configured maximum. */
  predicate CallsOf(calls: seq<(int, int)>, maximum: int) {
    forall k :: 0 <= k < |calls| ==> calls[k].1 == maximum && if k == 0 then calls[k].0 == 0 else 0 <= calls[k].0 <= maximum
  }

  /** The stores are not protected by a lock. A thread that reads mNewZoom after i stores and mMaxZoom
      after j stores, in either order, gets settings that are allowed exactly if it reads no zoom or
      the first call had stored its maximum. */
  lemma TornReadAllowedIff(calls: seq<(int, int)>, maximum: int, i: nat, j: nat)
    requires CallsOf(calls, maximum) && i <= 2 * |calls| && j <= 2 * |calls|
    ensures ZoomAllowed(NewZoomAfter(calls, i), MaxZoomAfter(calls, j)) <==> NewZoomAfter(calls, i) == 0 || j >= 2
  {
    if i > 0 {
      var k := (i - 1) / 2;
      assert calls[k].1 == maximum;
    }
    if j >= 2 {
      assert calls[j / 2 - 1].1 == maximum;
    }
  }

  /** A thread that reads the maximum before the first call and the zoom after the second one gets a
      crop that is turned round. */
  lemma TornReadExample()
    ensures var calls := [(0, 10), (1, 10)];
      && CallsOf(calls, 10) && NewZoomAfter(calls, 4) == 1 && MaxZoomAfter(calls, 0) == -1
      && Ratio(1, -1) == -100 && Crop(1, -1, 640, 480) == Area(640, 480, 0, 0)
  {
  }

  // ---------------------------------------------------------------- focus areas

  /** The rule of checkFocusArea on [left, top, right, bottom, weight]. */
  predicate FocusAreaAllowed(a: seq<int>) {
    && |a| == 5
    && (|| (a[0] == 0 && a[1] == 0 && a[2] == 0 && a[3] == 0 && a[4] == 0)
        || (a[4] >= 1 && -1000 <= a[0] < a[2] <= 1000 && -1000 <= a[1] < a[3] <= 1000))
  }

  /** The answer to an area string with these numbers, if the array they are parsed into held
      `stale` before: fewer than five of them leave the rest of it uninitialised. */
  predicate Accepted(numbers: seq<int>, stale: seq<int>)
    requires |stale| == 5
  {
    |numbers| <= 5 && FocusAreaAllowed(numbers + stale[|numbers|..])
  }

  /** checkFocusArea on the numbers of the area string. */
  method CheckFocusArea(numbers: seq<int>, stale: seq<int>) returns (ok: bool)
    requires |stale| == 5
    ensures ok == Accepted(numbers, stale)
  {
    var arr := stale;
    var i := 0;
    while i < |numbers|
      invariant 0 <= i <= |numbers| && i <= 5 && arr == numbers[..i] + stale[i..]
    {
      if i >= 5 {
        return false;
      }
      arr := arr[i := numbers[i]];
      i := i + 1;
    }
    assert numbers[..i] == numbers;
    ok := CheckNumbers(arr);
  }

  /** The rest of checkFocusArea, on the array. */
  method CheckNumbers(arr: seq<int>) returns (ok: bool)
    requires |arr| == 5
    ensures ok == FocusAreaAllowed(arr)
  {
    if arr[0] == 0 && arr[1] == 0 && arr[2] == 0 && arr[3] == 0 && arr[4] == 0 {
      return true;
    }
    if arr[4] < 1 {
      return false;
    }
    var i := 0;
    while i < 4
      invariant 0 <= i <= 4 && forall k :: 0 <= k < i ==> -1000 <= arr[k] <= 1000
    {
      if arr[i] < -1000 || arr[i] > 1000 {
        return false;
      }
      i := i + 1;
    }
    if arr[0] >= arr[2] || arr[1] >= arr[3] {
      return false;
    }
    return true;
  }

  /** The numbers can still be completed to an area that is allowed. */
  predicate Completable(numbers: seq<int>) {
    || (forall k :: 0 <= k < |numbers| ==> numbers[k] == 0)
    || (&& (forall k :: 0 <= k < |numbers| ==> -1000 <= numbers[k] <= 1000)
        && (|numbers| > 0 ==> numbers[0] < 1000) && (|numbers| > 1 ==> numbers[1] < 1000)
        && (|numbers| > 2 ==> numbers[0] < numbers[2]) && (|numbers| > 3 ==> numbers[1] < numbers[3]))
  }

  ghost predicate Undetermined(numbers: seq<int>) {
    exists s: seq<int>, t: seq<int> :: |s| == |t| == 5 && Accepted(numbers, s) && !Accepted(numbers, t)
  }

  /** Two numbers that are accepted or not, depending on what the array held before. */
  lemma UndeterminedExample()
    ensures Accepted([-100, -100], [0, 0, 100, 100, 1]) && !Accepted([-100, -100], [0, 0, 100, 100, 0])
  {
    assert [-100, -100] + [0, 0, 100, 100, 1][2..] == [-100, -100, 100, 100, 1];
    assert [-100, -100] + [0, 0, 100, 100, 0][2..] == [-100, -100, 100, 100, 0];
  }

  lemma FiveNumbersSuffice(numbers: seq<int>, stale: seq<int>)
    requires |stale| == |numbers| == 5
    ensures Accepted(numbers, stale) <==> FocusAreaAllowed(numbers)
  {
    assert numbers + stale[5..] == numbers;
  }

  lemma AcceptedCompletable(numbers: seq<int>, stale: seq<int>)
    requires |stale| == 5 && |numbers| < 5 && Accepted(numbers, stale)
    ensures Completable(numbers)
  {
    var a := numbers + stale[|numbers|..];
    assert forall k :: 0 <= k < |numbers| ==> numbers[k] == a[k];
  }

  lemma Complete(numbers: seq<int>) returns (stale: seq<int>)
    requires |numbers| < 5 && Completable(numbers)
    ensures |stale| == 5 && Accepted(numbers, stale)
  {
    if forall k :: 0 <= k < |numbers| ==> numbers[k] == 0 {
      stale := [0, 0, 0, 0, 0];
      assert numbers + stale[|numbers|..] == stale;
    } else {
      stale := [-1000, -1000, 1000, 1000, 1];
      var a := numbers + stale[|numbers|..];
      assert |a| == 5 && a[4] == 1;
      assert forall k :: 0 <= k < 4 ==> a[k] == if k < |numbers| then numbers[k] else stale[k];
    }
  }

  lemma Spoil(numbers: seq<int>) returns (stale: seq<int>)
    requires |numbers| < 5
    ensures |stale| == 5 && !Accepted(numbers, stale)
  {
    stale := [0, 0, 0, 0, -1];
    assert (numbers + stale[|numbers|..])[4] == -1;
  }

  /** The answer depends on uninitialised memory exactly if there are fewer than five numbers and
      nothing is wrong with them yet. */
  lemma UndeterminedIff(numbers: seq<int>)
    ensures Undetermined(numbers) <==> |numbers| < 5 && Completable(numbers)
  {
    if Undetermined(numbers) {
      var s: seq<int>, t: seq<int> :| |s| == |t| == 5 && Accepted(numbers, s) && !Accepted(numbers, t);
      if |numbers| == 5 {
        FiveNumbersSuffice(numbers, s);
        FiveNumbersSuffice(numbers, t);
      } else {
        AcceptedCompletable(numbers, s);
      }
    }
    if |numbers| < 5 && Completable(numbers) {
      var s := Complete(numbers);
      var t := Spoil(numbers);
    }
  }

  /** The middle of a focus area along one axis, in the driver's -1000..1000 coordinates. */
  function Middle(lo: int, hi: int): int {
    lo + TruncDiv(hi - lo, 2)
  }

  /** Where that middle falls in the crop. */
  function FocusPoint(middle: int, lo: int, hi: int): int {
    hi - TruncDiv((1000 - middle) * (hi - lo), 2000)
  }

  /** The middle is half way between the ends, rounded towards the low one. */
  lemma MiddleIsHalfWay(lo: int, hi: int)
    requires lo <= hi
    ensures 0 <= (hi - Middle(lo, hi)) - (Middle(lo, hi) - lo) <= 1
  {
  }

  /** Its distance from the high edge of the crop is in proportion to that from 1000, rounded down. */
  lemma FocusPointIsExact(middle: int, lo: int, hi: int)
    requires middle <= 1000 && lo <= hi
    ensures var gap := hi - FocusPoint(middle, lo, hi);
      gap * 2000 <= (1000 - middle) * (hi - lo) < (gap + 1) * 2000
  {
    var product := (1000 - middle) * (hi - lo);
    MulMonotone(0, 1000 - middle, hi - lo);
    QuotientIsExact(product, 2000);
  }

  lemma FocusPointBounds(middle: int, lo: int, hi: int)
    requires -1000 <= middle <= 1000 && lo <= hi
    ensures lo <= FocusPoint(middle, lo, hi) <= hi
    ensures FocusPoint(middle, lo, hi) == hi <==> (1000 - middle) * (hi - lo) < 2000
    ensures FocusPoint(-1000, lo, hi) == lo
  {
    var product := (1000 - middle) * (hi - lo);
    MulMonotone(0, 1000 - middle, hi - lo);
    MulMonotone(1000 - middle, 2000, hi - lo);
    assert 0 <= product <= 2000 * (hi - lo);
    DivMonotone(product, 2000 * (hi - lo), 2000);
    assert 2000 * (hi - lo) / 2000 == hi - lo;
  }

  /** Areas further to the right (or down) are mapped no further to the left (or up). */
  lemma FocusPointMonotone(m: int, n: int, lo: int, hi: int)
    requires -1000 <= m <= n <= 1000 && lo <= hi
    ensures FocusPoint(m, lo, hi) <= FocusPoint(n, lo, hi)
  {
    MulMonotone(1000 - n, 1000 - m, hi - lo);
    MulMonotone(0, 1000 - n, hi - lo);
    DivMonotone((1000 - n) * (hi - lo), (1000 - m) * (hi - lo), 2000);
  }

  /** Along one axis, an area's middle is mapped between its two ends, inside the crop. */
  lemma FocusBetween(from: int, to: int, lo: int, hi: int)
    requires -1000 <= from <= to <= 1000 && lo <= hi
    ensures lo <= FocusPoint(from, lo, hi) <= FocusPoint(Middle(from, to), lo, hi) <= FocusPoint(to, lo, hi) <= hi
  {
    FocusPointBounds(from, lo, hi);
    FocusPointBounds(to, lo, hi);
    FocusPointMonotone(from, Middle(from, to), lo, hi);
    FocusPointMonotone(Middle(from, to), to, lo, hi);
  }

  /** Every focus area that checkFocusArea lets through is mapped to a point between the images of
      its edges, inside the current crop, and so inside the frame. */
  lemma FocusStaysInCrop(a: seq<int>, zoom: int, maxZoom: int, width: nat, height: nat)
    requires FocusAreaAllowed(a) && ZoomAllowed(zoom, maxZoom)
    ensures var c := Crop(zoom, maxZoom, width, height);
      && Inside(c, Area(0, 0, width, height))
      && c.left <= FocusPoint(a[0], c.left, c.right) <= FocusPoint(Middle(a[0], a[2]), c.left, c.right)
      && FocusPoint(Middle(a[0], a[2]), c.left, c.right) <= FocusPoint(a[2], c.left, c.right) <= c.right
      && c.top <= FocusPoint(a[1], c.top, c.bottom) <= FocusPoint(Middle(a[1], a[3]), c.top, c.bottom)
      && FocusPoint(Middle(a[1], a[3]), c.top, c.bottom) <= FocusPoint(a[3], c.top, c.bottom) <= c.bottom
  {
    var c := Crop(zoom, maxZoom, width, height);
    CropInsideFrame(zoom, maxZoom, width, height);
    FocusBetween(a[0], a[2], c.left, c.right);
    FocusBetween(a[1], a[3], c.top, c.bottom);
  }

  // ---------------------------------------------------------------- the code

  class Rect {
    var left: int
    var top: int
    var right: int
    var bottom: int

    function Value(): Area
      reads this
    {
      Area(left, top, right, bottom)
    }

    /** calculateCrop fills the rectangle in place. */
    method CalculateCrop(zoom: int, maxZoom: int, width: nat, height: nat)
      requires Ratio(zoom, maxZoom) != 0
      modifies this
      ensures Value() == Crop(zoom, maxZoom, width, height)
      ensures Inside(Value(), Area(0, 0, width, height))
              <==> SideFits(width, Ratio(zoom, maxZoom)) && SideFits(height, Ratio(zoom, maxZoom))
      ensures ZoomAllowed(zoom, maxZoom) ==> Inside(Value(), Area(0, 0, width, height))
    {
      if ZoomAllowed(zoom, maxZoom) { CropInsideFrame(zoom, maxZoom, width, height); }
      CropInsideIff(zoom, maxZoom, width, height);
      if maxZoom == 0 {
        left, top, right, bottom := 0, 0, width, height;
      } else {
        var ratio := TruncDiv(zoom * 2 * 100, maxZoom) + 100;
        left := TruncDiv(width - TruncDiv(width * 100, ratio), 2);
        top := TruncDiv(height - TruncDiv(height * 100, ratio), 2);
        right := left + TruncDiv(width * 100, ratio);
        bottom := top + TruncDiv(height * 100, ratio);
      }
    }
  }

  class CameraHardware {
    const rectCrop: Rect    // mRectCrop
    var focusWidth: int     // mFocusAreas
    var focusHeight: int

    constructor (rect: Rect)
      ensures rectCrop == rect
    {
      rectCrop := rect;
      focusWidth, focusHeight := 0, 0;
    }

    /** parse_focus_areas from the point where the numbers are parsed, for the current crop. */
    method ParseFocusAreas(a: seq<int>, ghost zoom: int, ghost maxZoom: int, ghost width: nat, ghost height: nat)
      requires FocusAreaAllowed(a)
      requires ZoomAllowed(zoom, maxZoom) && rectCrop.Value() == Crop(zoom, maxZoom, width, height)
      modifies this`focusWidth, this`focusHeight
      ensures rectCrop.left <= focusWidth <= rectCrop.right && rectCrop.top <= focusHeight <= rectCrop.bottom
      ensures focusWidth == FocusPoint(Middle(a[0], a[2]), rectCrop.left, rectCrop.right)
      ensures focusHeight == FocusPoint(Middle(a[1], a[3]), rectCrop.top, rectCrop.bottom)
    {
      CropInsideFrame(zoom, maxZoom, width, height);
      MapFocus(a);
    }

    /** The arithmetic of parse_focus_areas, for any crop that is not turned round. */
    method MapFocus(a: seq<int>)
      requires FocusAreaAllowed(a) && rectCrop.left <= rectCrop.right && rectCrop.top <= rectCrop.bottom
      modifies this`focusWidth, this`focusHeight
      ensures rectCrop.left <= focusWidth <= rectCrop.right && rectCrop.top <= focusHeight <= rectCrop.bottom
      ensures focusWidth == FocusPoint(Middle(a[0], a[2]), rectCrop.left, rectCrop.right)
      ensures focusHeight == FocusPoint(Middle(a[1], a[3]), rectCrop.top, rectCrop.bottom)
    {
      FocusBetween(a[0], a[2], rectCrop.left, rectCrop.right);
      FocusBetween(a[1], a[3], rectCrop.top, rectCrop.bottom);
      var l, t, r, b := a[0], a[1], a[2], a[3];
      var w := l + TruncDiv(r - l, 2);
      var h := t + TruncDiv(b - t, 2);
      focusWidth := rectCrop.right - TruncDiv((1000 - w) * (rectCrop.right - rectCrop.left), 2000);
      focusHeight := rectCrop.bottom - TruncDiv((1000 - h) * (rectCrop.bottom - rectCrop.top), 2000);
    }
  }
}

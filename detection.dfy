/**
 * Pest counting and the result branch of script.py. OpenCV's contour search
 * is the collaborator: it supplies each contour's area (`cv2.contourArea`)
 * and bounding rectangle (`cv2.boundingRect`). The image is an object whose
 * drawn rectangles grow as `cv2.rectangle` paints on it in place.
 */
module Detection {
  import opened Wrappers

  /** Contours with an area strictly above this many pixels count as beetles. */
  const MinPestArea: real := 150.0

  /** `cv2.boundingRect`: top-left corner, width and height. */
  datatype Rect = Rect(x: int, y: int, w: int, h: int)

  datatype Contour = Contour(area: real, bounds: Rect)

  /** One `cv2.rectangle` call: opposite corners, BGR colour and line thickness. */
  datatype Stroke = Stroke(x1: int, y1: int, x2: int, y2: int, color: (int, int, int), thickness: int)

  /** The red, 3-pixel box drawn around a counted contour. */
  function BoxAround(c: Contour): Stroke
  {
    Stroke(c.bounds.x, c.bounds.y, c.bounds.x + c.bounds.w, c.bounds.y + c.bounds.h, (0, 0, 255), 3)
  }

  /** The picture being annotated; only what is drawn on it is modelled. */
  class Image {
    var strokes: seq<Stroke>

    constructor ()
      ensures strokes == []
    {
      strokes := [];
    }

    /** `cv2.rectangle(img, ...)`: paints one more box onto the picture. */
    method DrawBox(s: Stroke)
      modifies this
      ensures strokes == old(strokes) + [s]
    {
      strokes := strokes + [s];
    }
  }

  /** The contours that pass the size filter, in their original order. */
  function RealPests(contours: seq<Contour>): (r: seq<Contour>)
    ensures |r| <= |contours|
  {
    if contours == [] then []
    else (if contours[0].area > MinPestArea then [contours[0]] else []) + RealPests(contours[1..])
  }

  /** The boxes drawn for a list of counted contours, one each, in order. */
  function Boxes(pests: seq<Contour>): (r: seq<Stroke>)
    ensures |r| == |pests|
    ensures forall i :: 0 <= i < |pests| ==> r[i] == BoxAround(pests[i])
  {
    if pests == [] then [] else [BoxAround(pests[0])] + Boxes(pests[1..])
  }

  /** Indices of the contours whose area exceeds the threshold. */
  function LargeIndices(contours: seq<Contour>): set<nat>
  {
    set i: nat | i < |contours| && contours[i].area > MinPestArea
  }

  /** Filtering distributes over concatenation: survivors keep their relative order. */
  lemma {:induction false} RealPestsAppend(a: seq<Contour>, b: seq<Contour>)
    ensures RealPests(a + b) == RealPests(a) + RealPests(b)
  {
    if a == [] {
      assert a + b == b;
    } else {
      assert (a + b)[1..] == a[1..] + b;
      RealPestsAppend(a[1..], b);
    }
  }

  /** The detected count is the number of contours with area strictly above 150. */
  lemma {:induction false} RealPestsCount(contours: seq<Contour>)
    ensures |RealPests(contours)| == |LargeIndices(contours)|
  {
    if contours == [] {
      assert LargeIndices(contours) == {};
    } else {
      var n := |contours| - 1;
      var front, last := contours[..n], contours[n];
      assert contours == front + [last];
      RealPestsCount(front);
      RealPestsAppend(front, [last]);
      assert RealPests([last]) == if last.area > MinPestArea then [last] else [] by {
        assert [last][1..] == [];
      }
      if last.area > MinPestArea {
        assert LargeIndices(contours) == LargeIndices(front) + {n};
      } else {
        assert LargeIndices(contours) == LargeIndices(front);
      }
    }
  }

  /** A contour survives the filter exactly when it is one of the input contours and larger than 150. */
  lemma {:induction false} RealPestsMembers(contours: seq<Contour>, c: Contour)
    ensures c in RealPests(contours) <==> c in contours && c.area > MinPestArea
  {
    if contours != [] {
      RealPestsMembers(contours[1..], c);
      assert contours == [contours[0]] + contours[1..];
    }
  }

  /** A contour of area exactly 150 is not counted. */
  lemma BoundaryAreaNotCounted(contours: seq<Contour>, bounds: Rect)
    ensures RealPests(contours + [Contour(MinPestArea, bounds)]) == RealPests(contours)
  {
    RealPestsAppend(contours, [Contour(MinPestArea, bounds)]);
    assert RealPests([Contour(MinPestArea, bounds)]) == [];
  }

  /**
   * The filter loop of script.py: keeps each contour whose area exceeds 150
   * and draws one box per kept contour on the image, in the same order.
   */
  method FilterContours(contours: seq<Contour>, img: Image) returns (realPests: seq<Contour>)
    modifies img
    ensures realPests == RealPests(contours)
    ensures img.strokes == old(img.strokes) + Boxes(realPests)
  {
    realPests := [];
    var i := 0;
    while i < |contours|
      invariant 0 <= i <= |contours|
      invariant realPests == RealPests(contours[..i])
      invariant img.strokes == old(img.strokes) + Boxes(realPests)
    {
      var cnt := contours[i];
      RealPestsStep(contours, i);
      if cnt.area > MinPestArea {
        BoxesSnoc(realPests, cnt);
        realPests := realPests + [cnt];
        img.DrawBox(BoxAround(cnt));
      }
      i := i + 1;
    }
    assert contours[..i] == contours;
  }

  lemma RealPestsStep(contours: seq<Contour>, i: int)
    requires 0 <= i < |contours|
    ensures RealPests(contours[..i + 1])
         == RealPests(contours[..i]) + (if contours[i].area > MinPestArea then [contours[i]] else [])
  {
    RealPestsAppend(contours[..i], [contours[i]]);
    assert contours[..i + 1] == contours[..i] + [contours[i]];
    assert [contours[i]][1..] == [];
  }

  lemma BoxesSnoc(pests: seq<Contour>, c: Contour)
    ensures Boxes(pests + [c]) == Boxes(pests) + [BoxAround(c)]
  {
    BoxesAppend(pests, [c]);
    assert [c][1..] == [];
  }

  lemma {:induction false} BoxesAppend(a: seq<Contour>, b: seq<Contour>)
    ensures Boxes(a + b) == Boxes(a) + Boxes(b)
  {
    if a == [] {
      assert a + b == b;
    } else {
      assert (a + b)[1..] == a[1..] + b;
      BoxesAppend(a[1..], b);
    }
  }

  /** What the result section shows: the alert with count and temperature, or the all-clear. */
  datatype Verdict = Alert(count: nat, temperature: Option<real>) | Clear

  /** The result branch: a positive count raises the alert, zero gives the all-clear. */
  function ResultBranch(detectedCount: nat, currentTemp: Option<real>): (v: Verdict)
    ensures v.Alert? <==> detectedCount > 0
    ensures v.Alert? ==> v.count == detectedCount && v.temperature == currentTemp
  {
    if detectedCount > 0 then Alert(detectedCount, currentTemp) else Clear
  }

  /** The alert is raised exactly when some contour is larger than 150. */
  lemma AlertIffLargeContour(contours: seq<Contour>, currentTemp: Option<real>)
    ensures ResultBranch(|RealPests(contours)|, currentTemp).Alert?
        <==> exists i :: 0 <= i < |contours| && contours[i].area > MinPestArea
  {
    RealPestsCount(contours);
    if exists i :: 0 <= i < |contours| && contours[i].area > MinPestArea {
      var i :| 0 <= i < |contours| && contours[i].area > MinPestArea;
      assert i in LargeIndices(contours);
    } else {
      assert LargeIndices(contours) == {};
    }
  }
}

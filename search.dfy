// bmpgrep's sliding-window search: every candidate top-left corner of the
// big image, in row-major order, compared pixel by pixel against the small
// image with an early exit on the first mismatch, writing each match as it
// is found.

module Search {
  import opened Raster
  import opened Compare
  import opened Render

  /** The small image lies inside the big one with its top-left corner at (x, y). */
  predicate InBounds(big: Image, small: Image, x: int, y: int)
  {
    0 <= x && x + small.width <= big.width && 0 <= y && y + small.height <= big.height
  }

  /** Every small pixel is accepted for the big pixel at the same offset from (x, y). */
  predicate Occurs(big: Image, small: Image, t: Tolerance, x: int, y: int)
    requires Valid(big) && Valid(small) && InBounds(big, small, x, y)
  {
    forall sy, sx :: 0 <= sy < small.height && 0 <= sx < small.width ==>
      PixelMatches(At(big, x + sx, y + sy), At(small, sx, sy), t)
  }

  /**
   * A window is reported only once its last small pixel has been compared,
   * so a small image without pixels is never reported.
   */
  predicate Hit(big: Image, small: Image, t: Tolerance, x: int, y: int)
    requires Valid(big) && Valid(small) && InBounds(big, small, x, y)
  {
    small.width > 0 && small.height > 0 && Occurs(big, small, t, x, y)
  }

  /** Windows with x < cols and y < rows keep the small image inside the big one. */
  predicate Fits(big: Image, small: Image, cols: nat, rows: nat)
  {
    (cols == 0 || cols + small.width <= big.width + 1) &&
    (rows == 0 || rows + small.height <= big.height + 1)
  }

  function Clip(n: int): nat
  {
    if n < 0 then 0 else n
  }

  /** The corners reported in row y among columns 0 .. n-1, left to right. */
  function RowHits(big: Image, small: Image, t: Tolerance, y: nat, n: nat): seq<Coord>
    requires Valid(big) && Valid(small)
    requires Fits(big, small, n, y + 1)
  {
    if n == 0 then []
    else
      RowHits(big, small, t, y, n - 1) +
      (if Hit(big, small, t, n - 1, y) then [Coord(n - 1, y)] else [])
  }

  /** The corners reported in rows 0 .. rows-1 and columns 0 .. cols-1, in scan order. */
  function Hits(big: Image, small: Image, t: Tolerance, cols: nat, rows: nat): seq<Coord>
    requires Valid(big) && Valid(small)
    requires Fits(big, small, cols, rows)
  {
    if rows == 0 then []
    else Hits(big, small, t, cols, rows - 1) + RowHits(big, small, t, rows - 1, cols)
  }

  /** What the program reports: corners strictly left of and above the flush position. */
  function Matches(big: Image, small: Image, t: Tolerance): seq<Coord>
    requires Valid(big) && Valid(small)
  {
    Hits(big, small, t, Clip(big.width - small.width), Clip(big.height - small.height))
  }

  /** Every corner at which the small image lies inside the big one. */
  function Containments(big: Image, small: Image, t: Tolerance): seq<Coord>
    requires Valid(big) && Valid(small)
  {
    Hits(big, small, t, Clip(big.width - small.width + 1), Clip(big.height - small.height + 1))
  }

  /** Row-major order: y first, then x. */
  predicate Before(a: Coord, b: Coord)
  {
    a.y < b.y || (a.y == b.y && a.x < b.x)
  }

  predicate Ascending(hits: seq<Coord>)
  {
    forall i, j :: 0 <= i < j < |hits| ==> Before(hits[i], hits[j])
  }

  /**
   * The two inner loops for one window: rows of the small image, and in
   * each row its pixels left to right, abandoning the window at the first
   * pixel that is not accepted.
   */
  method CheckWindow(big: Image, small: Image, t: Tolerance, hasTolerance: bool, x: nat, y: nat)
    returns (found: bool)
    requires Valid(big) && Valid(small)
    requires hasTolerance == HasTolerance(t)
    requires InBounds(big, small, x, y)
    ensures found == Hit(big, small, t, x, y)
  {
    found := false;
    var bigOffsetY := 0;
    var smallY := 0;
    while smallY < small.height
      invariant 0 <= smallY <= small.height
      invariant bigOffsetY == smallY
      invariant forall sy, sx :: 0 <= sy < smallY && 0 <= sx < small.width ==>
        PixelMatches(At(big, x + sx, y + sy), At(small, sx, sy), t)
      invariant found <==> smallY == small.height && small.width > 0 && smallY > 0
    {
      var allXPixelsMatched := true;
      var bigOffsetX := 0;
      var smallX := 0;
      while smallX < small.width
        invariant 0 <= smallX <= small.width
        invariant bigOffsetX == smallX
        invariant forall sx :: 0 <= sx < smallX ==>
          PixelMatches(At(big, x + sx, y + smallY), At(small, sx, smallY), t)
        invariant found <==> smallY == small.height - 1 && smallX == small.width && smallX > 0
      {
        var allChannelsMatched :=
          ComparePixel(At(big, x + bigOffsetX, y + bigOffsetY), At(small, smallX, smallY), t, hasTolerance);
        if !allChannelsMatched {
          allXPixelsMatched := false;
          break;
        }
        if smallX == small.width - 1 && smallY == small.height - 1 {
          found := true;
        }
        bigOffsetX := bigOffsetX + 1;
        smallX := smallX + 1;
      }
      if !allXPixelsMatched {
        break;
      }
      bigOffsetY := bigOffsetY + 1;
      smallY := smallY + 1;
    }
  }

  /**
   * The two outer loops over candidate corners x < maxX, y < maxY, writing
   * each reported corner as it is found and the newline at the end.
   */
  method ScanWindows(big: Image, small: Image, t: Tolerance, maxX: int, maxY: int)
    returns (hits: seq<Coord>, out: string)
    requires Valid(big) && Valid(small)
    requires Fits(big, small, Clip(maxX), Clip(maxY))
    ensures hits == Hits(big, small, t, Clip(maxX), Clip(maxY))
    ensures out == Output(hits)
  {
    var hasTolerance := HasTolerance(t);
    var hasWrittenResults := false;
    hits, out := [], [];
    var bigY: nat := 0;
    while bigY < maxY
      invariant bigY <= Clip(maxY)
      invariant hits == Hits(big, small, t, Clip(maxX), bigY)
      invariant out == Line(hits) && hasWrittenResults == (hits != [])
    {
      var bigX: nat := 0;
      while bigX < maxX
        invariant bigX <= Clip(maxX)
        invariant hits == Hits(big, small, t, Clip(maxX), bigY) + RowHits(big, small, t, bigY, bigX)
        invariant out == Line(hits) && hasWrittenResults == (hits != [])
      {
        var found := CheckWindow(big, small, t, hasTolerance, bigX, bigY);
        RowHitsStep(big, small, t, Clip(maxX), bigY, bigX);
        if found {
          LineAppend(hits, Coord(bigX, bigY));
          if hasWrittenResults {
            out := out + ",";
          }
          out := out + Decimal(bigX) + "," + Decimal(bigY);
          hasWrittenResults := true;
          hits := hits + [Coord(bigX, bigY)];
        }
        bigX := bigX + 1;
      }
      bigY := bigY + 1;
    }
    if hasWrittenResults {
      out := out + "\n";
    }
  }

  lemma RowHitsStep(big: Image, small: Image, t: Tolerance, cols: nat, y: nat, x: nat)
    requires Valid(big) && Valid(small)
    requires Fits(big, small, cols, y + 1) && x < cols
    ensures Hits(big, small, t, cols, y) + RowHits(big, small, t, y, x + 1) ==
      Hits(big, small, t, cols, y) + RowHits(big, small, t, y, x) +
      (if Hit(big, small, t, x, y) then [Coord(x, y)] else [])
  {
  }

  /** The program as written: corners strictly before the flush position. */
  method Scan(big: Image, small: Image, t: Tolerance) returns (hits: seq<Coord>, out: string)
    requires Valid(big) && Valid(small)
    ensures hits == Matches(big, small, t)
    ensures out == Output(hits)
  {
    var maxY := big.height - small.height;
    var maxX := big.width - small.width;
    assert Matches(big, small, t) == Hits(big, small, t, Clip(maxX), Clip(maxY));
    hits, out := ScanWindows(big, small, t, maxX, maxY);
  }

  /** The search with the flush position included, as the comment at the bounds intends. */
  method ScanContained(big: Image, small: Image, t: Tolerance) returns (hits: seq<Coord>, out: string)
    requires Valid(big) && Valid(small)
    ensures hits == Containments(big, small, t)
    ensures out == Output(hits)
  {
    var maxY := big.height - small.height + 1;
    var maxX := big.width - small.width + 1;
    assert Containments(big, small, t) == Hits(big, small, t, Clip(maxX), Clip(maxY));
    hits, out := ScanWindows(big, small, t, maxX, maxY);
  }

  // ---------------------------------------------------------------------
  // What is reported

  lemma {:induction false} RowHitsMembers(big: Image, small: Image, t: Tolerance, y: nat, n: nat, c: Coord)
    requires Valid(big) && Valid(small)
    requires Fits(big, small, n, y + 1)
    ensures c in RowHits(big, small, t, y, n) <==>
      c.y == y && c.x < n && Hit(big, small, t, c.x, c.y)
  {
    if n > 0 {
      RowHitsMembers(big, small, t, y, n - 1, c);
    }
  }

  /** A corner is listed exactly when it is a candidate and its window is a hit. */
  lemma {:induction false} HitsMembers(big: Image, small: Image, t: Tolerance, cols: nat, rows: nat, c: Coord)
    requires Valid(big) && Valid(small)
    requires Fits(big, small, cols, rows)
    ensures c in Hits(big, small, t, cols, rows) <==>
      c.x < cols && c.y < rows && Hit(big, small, t, c.x, c.y)
  {
    if rows > 0 {
      HitsMembers(big, small, t, cols, rows - 1, c);
      RowHitsMembers(big, small, t, rows - 1, cols, c);
    }
  }

  /**
   * The program reports (x, y) exactly when 0 <= x < bigWidth - smallWidth,
   * 0 <= y < bigHeight - smallHeight, the small image has pixels and every
   * one of them is accepted for the big pixel at the same offset.
   */
  lemma MatchesIff(big: Image, small: Image, t: Tolerance, c: Coord)
    requires Valid(big) && Valid(small)
    ensures c in Matches(big, small, t) <==>
      c.x < big.width - small.width && c.y < big.height - small.height &&
      small.width > 0 && small.height > 0 && Occurs(big, small, t, c.x, c.y)
  {
    var cols, rows := Clip(big.width - small.width), Clip(big.height - small.height);
    assert Matches(big, small, t) == Hits(big, small, t, cols, rows);
    HitsMembers(big, small, t, cols, rows, c);
    if c.x < big.width - small.width && c.y < big.height - small.height {
      assert c.x < cols && c.y < rows;
      assert c in Hits(big, small, t, cols, rows) <==> Hit(big, small, t, c.x, c.y);
    } else {
      assert c !in Hits(big, small, t, cols, rows);
    }
  }

  /** The window flush with the right edge is never reported. */
  lemma FlushColumnNeverReported(big: Image, small: Image, t: Tolerance, y: nat)
    requires Valid(big) && Valid(small)
    requires small.width <= big.width
    ensures Coord(big.width - small.width, y) !in Matches(big, small, t)
  {
    MatchesIff(big, small, t, Coord(big.width - small.width, y));
  }

  /** The window flush with the bottom edge is never reported. */
  lemma FlushRowNeverReported(big: Image, small: Image, t: Tolerance, x: nat)
    requires Valid(big) && Valid(small)
    requires small.height <= big.height
    ensures Coord(x, big.height - small.height) !in Matches(big, small, t)
  {
    MatchesIff(big, small, t, Coord(x, big.height - small.height));
  }

  /** Unless the big image is strictly larger in both dimensions nothing is reported. */
  lemma NoRoomNoMatches(big: Image, small: Image, t: Tolerance)
    requires Valid(big) && Valid(small)
    requires big.width <= small.width || big.height <= small.height
    ensures Matches(big, small, t) == []
  {
    var m := Matches(big, small, t);
    if m != [] {
      assert m[0] in m;
      MatchesIff(big, small, t, m[0]);
    }
  }

  /** A literal copy of the small image inside the candidate range is always found. */
  lemma CopyIsFound(big: Image, small: Image, t: Tolerance, x: nat, y: nat)
    requires Valid(big) && Valid(small)
    requires NonNegative(t)
    requires small.width > 0 && small.height > 0
    requires x < big.width - small.width && y < big.height - small.height
    requires forall sy, sx :: 0 <= sy < small.height && 0 <= sx < small.width ==>
      At(big, x + sx, y + sy) == At(small, sx, sy)
    ensures Coord(x, y) in Matches(big, small, t)
  {
    forall sy, sx | 0 <= sy < small.height && 0 <= sx < small.width
      ensures PixelMatches(At(big, x + sx, y + sy), At(small, sx, sy), t)
    {
      PixelMatchesItself(At(small, sx, sy), t);
    }
    MatchesIff(big, small, t, Coord(x, y));
  }

  /** Raising any tolerance never turns a hit window into a rejected one. */
  lemma HitMonotone(big: Image, small: Image, t: Tolerance, u: Tolerance, x: nat, y: nat)
    requires Valid(big) && Valid(small) && InBounds(big, small, x, y)
    requires NonNegative(t) && AtMost(t, u)
    requires Hit(big, small, t, x, y)
    ensures Hit(big, small, u, x, y)
  {
  }

  /** Over any candidate range, raising any tolerance never removes a listed corner. */
  lemma HitsMonotone(big: Image, small: Image, t: Tolerance, u: Tolerance, cols: nat, rows: nat, c: Coord)
    requires Valid(big) && Valid(small)
    requires Fits(big, small, cols, rows)
    requires NonNegative(t) && AtMost(t, u)
    requires c in Hits(big, small, t, cols, rows)
    ensures c in Hits(big, small, u, cols, rows)
  {
    HitsMembers(big, small, t, cols, rows, c);
    HitMonotone(big, small, t, u, c.x, c.y);
    HitsMembers(big, small, u, cols, rows, c);
  }

  /** Raising any tolerance never removes a reported corner. */
  lemma MatchesMonotone(big: Image, small: Image, t: Tolerance, u: Tolerance, c: Coord)
    requires Valid(big) && Valid(small)
    requires NonNegative(t) && AtMost(t, u)
    requires c in Matches(big, small, t)
    ensures c in Matches(big, small, u)
  {
    var cols, rows := Clip(big.width - small.width), Clip(big.height - small.height);
    assert Matches(big, small, t) == Hits(big, small, t, cols, rows);
    assert Matches(big, small, u) == Hits(big, small, u, cols, rows);
    HitsMonotone(big, small, t, u, cols, rows, c);
  }

  /** The same for the search with the flush position included. */
  lemma ContainmentsMonotone(big: Image, small: Image, t: Tolerance, u: Tolerance, c: Coord)
    requires Valid(big) && Valid(small)
    requires NonNegative(t) && AtMost(t, u)
    requires c in Containments(big, small, t)
    ensures c in Containments(big, small, u)
  {
    var cols, rows := Clip(big.width - small.width + 1), Clip(big.height - small.height + 1);
    assert Containments(big, small, t) == Hits(big, small, t, cols, rows);
    assert Containments(big, small, u) == Hits(big, small, u, cols, rows);
    HitsMonotone(big, small, t, u, cols, rows, c);
  }

  // ---------------------------------------------------------------------
  // Order of the report

  lemma {:induction false} RowHitsAscending(big: Image, small: Image, t: Tolerance, y: nat, n: nat)
    requires Valid(big) && Valid(small)
    requires Fits(big, small, n, y + 1)
    ensures Ascending(RowHits(big, small, t, y, n))
    ensures forall i :: 0 <= i < |RowHits(big, small, t, y, n)| ==>
      RowHits(big, small, t, y, n)[i].y == y && RowHits(big, small, t, y, n)[i].x < n
  {
    if n > 0 {
      RowHitsAscending(big, small, t, y, n - 1);
    }
  }

  lemma {:induction false} HitsAscending(big: Image, small: Image, t: Tolerance, cols: nat, rows: nat)
    requires Valid(big) && Valid(small)
    requires Fits(big, small, cols, rows)
    ensures Ascending(Hits(big, small, t, cols, rows))
    ensures forall i :: 0 <= i < |Hits(big, small, t, cols, rows)| ==>
      Hits(big, small, t, cols, rows)[i].y < rows
  {
    if rows > 0 {
      HitsAscending(big, small, t, cols, rows - 1);
      RowHitsAscending(big, small, t, rows - 1, cols);
      var a := Hits(big, small, t, cols, rows - 1);
      var b := RowHits(big, small, t, rows - 1, cols);
      var h := a + b;
      forall i, j | 0 <= i < j < |h| ensures Before(h[i], h[j]) {
        if j < |a| {
          assert h[i] == a[i] && h[j] == a[j];
        } else if i < |a| {
          assert h[i] == a[i] && h[j] == b[j - |a|];
        } else {
          assert h[i] == b[i - |a|] && h[j] == b[j - |a|];
        }
      }
    }
  }

  /**
   * Corners come out in row-major scan order, each at most once.
   */
  lemma MatchesInScanOrder(big: Image, small: Image, t: Tolerance)
    requires Valid(big) && Valid(small)
    ensures Ascending(Matches(big, small, t))
    ensures forall i, j :: 0 <= i < j < |Matches(big, small, t)| ==>
      Matches(big, small, t)[i] != Matches(big, small, t)[j]
  {
    HitsAscending(big, small, t, Clip(big.width - small.width), Clip(big.height - small.height));
  }

  // ---------------------------------------------------------------------
  // The exclusive window bound

  /**
   * An image searched for inside itself occurs at (0, 0), yet the program
   * reports nothing: the only window that holds it is the flush one.
   */
  lemma SelfSearchMissed(img: Image, t: Tolerance)
    requires Valid(img) && NonNegative(t)
    requires img.width > 0 && img.height > 0
    ensures Matches(img, img, t) == []
    ensures Occurs(img, img, t, 0, 0)
  {
  }

  /** With the flush position included every containing corner is reported. */
  lemma ContainmentsIff(big: Image, small: Image, t: Tolerance, c: Coord)
    requires Valid(big) && Valid(small)
    ensures c in Containments(big, small, t) <==>
      InBounds(big, small, c.x, c.y) && small.width > 0 && small.height > 0 &&
      Occurs(big, small, t, c.x, c.y)
  {
    var cols, rows := Clip(big.width - small.width + 1), Clip(big.height - small.height + 1);
    assert Containments(big, small, t) == Hits(big, small, t, cols, rows);
    HitsMembers(big, small, t, cols, rows, c);
    if InBounds(big, small, c.x, c.y) {
      assert c.x < cols && c.y < rows;
      assert c in Hits(big, small, t, cols, rows) <==> Hit(big, small, t, c.x, c.y);
    } else {
      assert c !in Hits(big, small, t, cols, rows);
    }
  }

  /** The corrected search finds the whole image inside itself. */
  lemma SelfSearchFound(img: Image, t: Tolerance)
    requires Valid(img) && NonNegative(t)
    requires img.width > 0 && img.height > 0
    ensures Containments(img, img, t) == [Coord(0, 0)]
  {
    SelfSearchMissed(img, t);
    assert Hit(img, img, t, 0, 0);
    assert RowHits(img, img, t, 0, 1) == [Coord(0, 0)];
    assert Containments(img, img, t) == Hits(img, img, t, 1, 1);
  }
}

/** Rendering a whole outline into a fresh bitmap, and what follows for the image. */
module Glyph {
  import opened Ints
  import opened Segments
  import opened LineWalk
  import opened Curves
  import opened Cubics
  import opened Contours
  import opened Cells
  import opened Sweep
  import opened GrayWorker

  /** The bitmap index of pixel (x, y): rows are stored top-down. */
  function BitmapIndex(width: nat, height: nat, x: int, y: int): int {
    (height - 1 - y) * width + x
  }

  /** The bitmap that rendering leaves: nothing for an empty size, zeros for an empty outline, and
      otherwise row by row, top-down, the fill rule of every pixel's area. */
  ghost function Image(pts: seq<OutlinePoint>, tags: seq<int>, contours: seq<int>, nContours: nat, evenOdd: bool,
                       dx: int, dy: int, width: nat, height: nat): (r: Parsed<seq<byte>>)
    requires PointsFit(pts, Vec(dx, dy)) && forall i :: 0 <= i < |contours| ==> contours[i] < |pts|
  {
    if width == 0 || height == 0 then Ok([])
    else if pts == [] || nContours == 0 then Ok(seq(width * height, _ => 0))
    else
      var all := ContoursFrom(pts, tags, Taken(contours, nContours), -1);
      if all.Err? then Err(all.error)
      else
        ContoursFromFit(pts, tags, Taken(contours, nContours), -1, Vec(dx, dy));
        Ok(seq(width * height, k requires 0 <= k < width * height =>
          PixelByte(GlyphSegments(all.value, Vec(dx, dy), 0, height), evenOdd, k % width, height - 1 - k / width)))
  }

  lemma IndexOfPixel(width: nat, height: nat, x: int, y: int)
    requires 0 <= x < width && 0 <= y < height
    ensures var k := BitmapIndex(width, height, x, y);
            0 <= k < width * height && k % width == x && height - 1 - k / width == y
  {
    var q := height - 1 - y;
    DivUnique(q * width + x, width, q, x);
    MulMonotone(q + 1, height, width);
    MulMonotone(0, q, width);
    Distribute(width, q, 1);
  }

  lemma PixelOfIndex(width: nat, height: nat, k: nat)
    requires k < width * height
    ensures 0 < width && 0 <= k % width < width && 0 <= height - 1 - k / width < height
    ensures BitmapIndex(width, height, k % width, height - 1 - k / width) == k
  {
    if width != 0 {
      QuotientBelow(k, width, height);
      QuotientIsNat(k, width);
      assert k == width * (k / width) + k % width;
    }
  }

  /** Each byte of a rendered bitmap, by its place. */
  lemma ImageAt(pts: seq<OutlinePoint>, tags: seq<int>, contours: seq<int>, nContours: nat, evenOdd: bool,
                dx: int, dy: int, width: nat, height: nat, x: int, y: int)
    requires PointsFit(pts, Vec(dx, dy)) && (forall i :: 0 <= i < |contours| ==> contours[i] < |pts|)
    requires pts != [] && nContours != 0 && 0 <= x < width && 0 <= y < height
    requires ContoursFrom(pts, tags, Taken(contours, nContours), -1).Ok?
    ensures var all := ContoursFrom(pts, tags, Taken(contours, nContours), -1).value;
            var image := Image(pts, tags, contours, nContours, evenOdd, dx, dy, width, height);
            && ContoursFit(all, Vec(dx, dy)) && image.Ok? && |image.value| == width * height
            && 0 <= (height - 1 - y) * width + x < |image.value|
            && image.value[(height - 1 - y) * width + x]
               == PixelByte(GlyphSegments(all, Vec(dx, dy), 0, height), evenOdd, x, y)
  {
    hide GlyphSegments, ContoursFrom, PixelByte, PointsFit, ContoursFit;
    ContoursFromFit(pts, tags, Taken(contours, nContours), -1, Vec(dx, dy));
    IndexOfPixel(width, height, x, y);
  }

  /** Bytes that show every pixel are the image. */
  lemma ImageFilled(pts: seq<OutlinePoint>, tags: seq<int>, contours: seq<int>, nContours: nat, evenOdd: bool,
                    dx: int, dy: int, width: nat, height: nat, bytes: seq<byte>)
    requires PointsFit(pts, Vec(dx, dy)) && (forall i :: 0 <= i < |contours| ==> contours[i] < |pts|)
    requires pts != [] && nContours != 0 && width != 0 && height != 0 && |bytes| == width * height
    requires ContoursFrom(pts, tags, Taken(contours, nContours), -1).Ok?
    requires ContoursFit(ContoursFrom(pts, tags, Taken(contours, nContours), -1).value, Vec(dx, dy))
    requires var all := ContoursFrom(pts, tags, Taken(contours, nContours), -1).value;
             forall x, y :: 0 <= x < width && 0 <= y < height ==>
               && 0 <= BitmapIndex(width, height, x, y) < |bytes|
               && bytes[BitmapIndex(width, height, x, y)]
                  == PixelByte(GlyphSegments(all, Vec(dx, dy), 0, height), evenOdd, x, y)
    ensures Image(pts, tags, contours, nContours, evenOdd, dx, dy, width, height) == Ok(bytes)
  {
    hide GlyphSegments, ContoursFrom, PixelByte, PointsFit, ContoursFit;
    var image := Image(pts, tags, contours, nContours, evenOdd, dx, dy, width, height);
    assert image.Ok? && |image.value| == |bytes| by {
      MulStrict(0, width, height);
      ImageAt(pts, tags, contours, nContours, evenOdd, dx, dy, width, height, 0, 0);
    }
    hide Image;
    forall k | 0 <= k < |bytes| ensures bytes[k] == image.value[k] {
      PixelOfIndex(width, height, k);
      var x, y := k % width, height - 1 - k / width;
      ImageAt(pts, tags, contours, nContours, evenOdd, dx, dy, width, height, x, y);
      assert BitmapIndex(width, height, x, y) == k;
    }
    assert bytes == image.value;
  }

  /** `rasterize_shifted_in_box`: renders the outline, translated by (dx, dy), into a zeroed
      width x height bitmap whose lower left pixel is (0, 0). */
  method RasterizeShiftedInBox(pts: seq<OutlinePoint>, tags: seq<int>, contours: seq<int>, nContours: nat,
                               evenOdd: bool, dx: int, dy: int, width: nat, height: nat)
    returns (r: Parsed<seq<byte>>)
    requires PointsFit(pts, Vec(dx, dy))
    requires forall i :: 0 <= i < |contours| ==> contours[i] < |pts|
    ensures r == Image(pts, tags, contours, nContours, evenOdd, dx, dy, width, height)
    ensures width == 0 || height == 0 ==> r == Ok([])
    ensures var all := ContoursFrom(pts, tags, Taken(contours, nContours), -1);
            width != 0 && height != 0 ==>
              if pts == [] || nContours == 0 then
                r.Ok? && |r.value| == width * height && forall b :: b in r.value ==> b == 0
              else if all.Err? then r == Err(all.error)
              else
                && r.Ok? && |r.value| == width * height && ContoursFit(all.value, Vec(dx, dy))
                && forall x, y :: 0 <= x < width && 0 <= y < height ==>
                     && 0 <= BitmapIndex(width, height, x, y) < |r.value|
                     && r.value[BitmapIndex(width, height, x, y)]
                        == PixelByte(GlyphSegments(all.value, Vec(dx, dy), 0, height), evenOdd, x, y)
  {
    hide GlyphSegments, ContoursFrom, PixelByte, PointsFit, ContoursFit, Layout.Address, Taken;
    if width == 0 || height == 0 {
      return Ok([]);
    }
    var target := new byte[width * height](_ => 0);
    if pts == [] || nContours == 0 {
      assert target[..] == seq(width * height, _ => 0);
      return Ok(target[..]);
    }
    var layout := Layout(width, height, width, 1, 0);
    var b := Box(0, width, 0, height);
    var worker := new Worker(target, layout, evenOdd, dx, dy, false);
    DenseLayout(layout, width, height, target.Length);
    var w := worker.ConvertGlyph(pts, tags, contours, nContours, b);
    if w.Err? {
      return Err(w.error);
    }
    r := Ok(target[..]);
    forall x, y | 0 <= x < width && 0 <= y < height
      ensures 0 <= BitmapIndex(width, height, x, y) < target.Length
      ensures target[BitmapIndex(width, height, x, y)] == worker.Shown(x, y) && b.Contains(x, y)
    {
      AddressInBounds(layout, target.Length, x, y);
      DenseAddress(layout, width, height, x, y);
    }
    ImageFilled(pts, tags, contours, nContours, evenOdd, dx, dy, width, height, target[..]);
  }

  lemma DenseLayout(l: Layout, width: nat, height: nat, length: nat)
    requires 0 < width && 0 < height && l == Layout(width, height, width, 1, 0) && length == width * height
    ensures l.FitsIn(length)
  {
    assert (height - 1) * width == height * width - width;
  }

  lemma DenseAddress(l: Layout, width: nat, height: nat, x: int, y: int)
    requires l == Layout(width, height, width, 1, 0)
    ensures l.Address(x, y) == BitmapIndex(width, height, x, y)
  {
  }

  // ---------------------------------------------------------------- the image of a closed outline

  /** Beyond everything drawn, a pixel holds the whole cover of its scanline. */
  lemma {:induction false} PixelRightOfAll(segs: seq<Segment>, x: int, y: int)
    requires forall s :: s in segs ==> s.ex < x
    ensures PixelArea(segs, x, y) == 2 * ONE_PIXEL * RowCover(segs, y)
  {
    if segs != [] {
      assert segs[0] in segs;
      PixelRightOfAll(segs[1..], x, y);
    }
  }

  /** Nothing leaks to the right: an outline whose contours land leaves the pixels beyond its rightmost
      cell blank, because each contour adds no cover to any scanline. */
  lemma NoInkRightOfGlyph(cs: seq<Contour>, off: Vec, low: int, high: int, evenOdd: bool, x: int, y: int)
    requires ContoursFit(cs, off) && (forall i :: 0 <= i < |cs| ==> Lands(cs[i], off))
    requires forall s :: s in GlyphSegments(cs, off, low, high) ==> s.ex < x
    ensures PixelByte(GlyphSegments(cs, off, low, high), evenOdd, x, y) == 0
  {
    hide GlyphSegments, ContoursFit, Lands;
    PixelRightOfAll(GlyphSegments(cs, off, low, high), x, y);
    GlyphCover(cs, off, low, high, y);
  }

  /** A parsed contour lands exactly when it is closed by a line or a cubic or starts on a 32-bit
      position. */
  lemma ParsedLands(pts: seq<OutlinePoint>, tags: seq<int>, first: nat, last: int, off: Vec)
    requires first <= last < |pts| && ContourOf(pts, tags, first, last).Ok?
    ensures var c := ContourOf(pts, tags, first, last).value;
            c.commands != [] &&
            (Lands(c, off) <==> !c.commands[|c.commands| - 1].ConicCmd? || Fits32(Placed(c.start, off)))
  {
    ContourIsClosed(pts, tags, first, last);
  }

  // ---------------------------------------------------------------- contour order

  lemma {:induction false} GlyphConcat(a: seq<Contour>, b: seq<Contour>, off: Vec, low: int, high: int)
    requires ContoursFit(a, off) && ContoursFit(b, off)
    ensures ContoursFit(a + b, off)
    ensures GlyphSegments(a + b, off, low, high) == GlyphSegments(a, off, low, high) + GlyphSegments(b, off, low, high)
    decreases |a|
  {
    hide ContourFits;
    forall i | 0 <= i < |a + b| ensures ContourFits((a + b)[i], off) {
      if i < |a| {
        assert (a + b)[i] == a[i];
      } else {
        assert (a + b)[i] == b[i - |a|];
      }
    }
    if a == [] {
      assert a + b == b;
    } else {
      assert ContourFits(a[0], off);
      assert ContoursFit(a[1..], off);
      assert (a + b)[1..] == a[1..] + b;
      GlyphConcat(a[1..], b, off, low, high);
    }
  }

  lemma FitsByMember(cs: seq<Contour>, off: Vec)
    ensures ContoursFit(cs, off) <==> forall c :: c in cs ==> ContourFits(c, off)
  {
  }

  /** Listing the contours in another order does not change a single byte. */
  lemma {:induction false} ContourOrderIsIrrelevant(a: seq<Contour>, b: seq<Contour>, off: Vec, low: int, high: int,
                                                    x: int, y: int)
    requires multiset(a) == multiset(b) && ContoursFit(a, off)
    ensures ContoursFit(b, off)
    ensures PixelArea(GlyphSegments(a, off, low, high), x, y) == PixelArea(GlyphSegments(b, off, low, high), x, y)
    decreases |a|
  {
    hide ContourFits, GlyphSegments, PixelArea;
    FitsByMember(a, off);
    FitsByMember(b, off);
    forall c | c in b ensures ContourFits(c, off) {
      assert c in multiset(b);
    }
    if a == [] {
      assert |b| == |multiset(b)| == 0;
      assert a == b;
    } else {
      var i := FindHead(a, b);
      MoveFirst(a[0], a[1..], b[..i], b[i + 1..], off, low, high, x, y);
      ContourOrderIsIrrelevant(a[1..], b[..i] + b[i + 1..], off, low, high, x, y);
    }
  }

  /** Taking one contour out of the middle of a list and out of the front of another. */
  lemma MoveFirst(c: Contour, rest: seq<Contour>, head: seq<Contour>, tail: seq<Contour>, off: Vec, low: int, high: int,
                  x: int, y: int)
    requires ContoursFit([c] + rest, off) && ContoursFit(head + ([c] + tail), off)
    ensures ContoursFit([c], off) && ContoursFit(rest, off) && ContoursFit(head + tail, off)
    ensures PixelArea(GlyphSegments([c] + rest, off, low, high), x, y)
            == PixelArea(GlyphSegments([c], off, low, high), x, y)
              + PixelArea(GlyphSegments(rest, off, low, high), x, y)
    ensures PixelArea(GlyphSegments(head + ([c] + tail), off, low, high), x, y)
            == PixelArea(GlyphSegments([c], off, low, high), x, y)
              + PixelArea(GlyphSegments(head + tail, off, low, high), x, y)
  {
    hide ContourFits, GlyphSegments, PixelArea;
    FitsByMember([c] + rest, off);
    FitsByMember(head + ([c] + tail), off);
    FitsByMember([c], off);
    FitsByMember(rest, off);
    FitsByMember(head, off);
    FitsByMember(tail, off);
    GlyphConcat([c], rest, off, low, high);
    GlyphConcat([c], tail, off, low, high);
    GlyphConcat(head, [c] + tail, off, low, high);
    GlyphConcat(head, tail, off, low, high);
    var own, before, after := GlyphSegments([c], off, low, high), GlyphSegments(head, off, low, high),
      GlyphSegments(tail, off, low, high);
    PixelAreaConcat(own, GlyphSegments(rest, off, low, high), x, y);
    PixelAreaConcat(before, own + after, x, y);
    PixelAreaConcat(own, after, x, y);
    PixelAreaConcat(before, after, x, y);
  }

  // ---------------------------------------------------------------- the band

  /** A command whose points all lie in 32-bit subpixels. */
  ghost predicate Command32(c: Command, off: Vec) {
    Fits32(Placed(c.to, off)) && (c.ConicCmd? ==> Fits32(Placed(c.c, off)))
  }

  ghost predicate Contour32(c: Contour, off: Vec) {
    Fits32(Placed(c.start, off)) && forall i :: 0 <= i < |c.commands| ==> Command32(c.commands[i], off)
  }

  /** A command in 32-bit subpixels ends on its point and gives a pixel the same in every band. */
  lemma CommandBand(c: Command, here: Point, off: Vec, low: int, high: int, low': int, high': int, x: int, y: int)
    requires Fits32(here) && IsPosition(here) && CommandFits(c, off) && Command32(c, off)
    requires low <= y < high && low' <= y < high'
    ensures CommandEnd(c, here, off, low, high) == Placed(c.to, off) && Fits32(Placed(c.to, off))
    ensures PixelArea(PathSegments(here, CommandPoints(c, here, off, low, high)), x, y)
         == PixelArea(PathSegments(here, CommandPoints(c, here, off, low', high')), x, y)
  {
    hide PixelArea, PathSegments, CubicPoints, DrawnConic, Fits32;
    if c.ConicCmd? {
      var p1, p2 := Placed(c.c, off), Placed(c.to, off);
      PlacedIsPosition(c.c, off);
      PlacedIsPosition(c.to, off);
      DrawnConicEnds(here, p1, p2, low, high);
      SkippingIsInvisible(here, p1, p2, low, high, x, y);
      SkippingIsInvisible(here, p1, p2, low', high', x, y);
    }
  }

  lemma {:induction false} CommandsBand(cs: seq<Command>, here: Point, off: Vec, low: int, high: int, low': int,
                                        high': int, x: int, y: int)
    requires Fits32(here) && IsPosition(here) && AllFit(cs, off) && forall i :: 0 <= i < |cs| ==> Command32(cs[i], off)
    requires low <= y < high && low' <= y < high'
    ensures PixelArea(CommandSegments(cs, here, off, low, high), x, y)
         == PixelArea(CommandSegments(cs, here, off, low', high'), x, y)
    decreases |cs|
  {
    hide PixelArea, PathSegments, CommandPoints, Command32, CommandFits, Fits32;
    if cs != [] {
      CommandBand(cs[0], here, off, low, high, low', high', x, y);
      CommandBand(cs[0], here, off, low', high', low, high, x, y);
      var next := Placed(cs[0].to, off);
      CommandsBand(cs[1..], next, off, low, high, low', high', x, y);
      FirstArea(cs[0], cs[1..], here, off, low, high, x, y);
      FirstArea(cs[0], cs[1..], here, off, low', high', x, y);
      assert [cs[0]] + cs[1..] == cs;
    } else {
      assert Flattened(cs, here, off, low, high) == Flattened(cs, here, off, low', high');
    }
  }

  /** The area of a command list is that of its first command and that of the rest. */
  lemma FirstArea(c: Command, rest: seq<Command>, here: Point, off: Vec, low: int, high: int, x: int, y: int)
    requires IsPosition(here) && CommandFits(c, off) && AllFit([c] + rest, off) && AllFit(rest, off)
    ensures PixelArea(CommandSegments([c] + rest, here, off, low, high), x, y)
         == PixelArea(PathSegments(here, CommandPoints(c, here, off, low, high)), x, y)
            + PixelArea(CommandSegments(rest, CommandEnd(c, here, off, low, high), off, low, high), x, y)
  {
    hide PixelArea, PathSegments, CommandPoints;
    var next := CommandEnd(c, here, off, low, high);
    var points, more := CommandPoints(c, here, off, low, high), Flattened(rest, next, off, low, high);
    assert ([c] + rest)[1..] == rest;
    assert Flattened([c] + rest, here, off, low, high) == points + more;
    PathConcat(here, points, more);
    PixelAreaConcat(PathSegments(here, points), PathSegments(next, more), x, y);
  }

  /** For an outline in 32-bit subpixels the band cannot be seen: a pixel gets the same from every
      band that contains its scanline. */
  lemma {:induction false} BandIsInvisible(cs: seq<Contour>, off: Vec, low: int, high: int, low': int, high': int,
                                           x: int, y: int)
    requires ContoursFit(cs, off) && (forall i :: 0 <= i < |cs| ==> Contour32(cs[i], off))
    requires low <= y < high && low' <= y < high'
    ensures PixelArea(GlyphSegments(cs, off, low, high), x, y) == PixelArea(GlyphSegments(cs, off, low', high'), x, y)
    decreases |cs|
  {
    hide PixelArea, CommandSegments, Command32, AllFit;
    if cs != [] {
      var c, rest := cs[0], cs[1..];
      assert ContourFits(c, off) && Contour32(c, off);
      PlacedIsPosition(c.start, off);
      CommandsBand(c.commands, Placed(c.start, off), off, low, high, low', high', x, y);
      assert forall i :: 0 <= i < |rest| ==> rest[i] == cs[i + 1];
      BandIsInvisible(rest, off, low, high, low', high', x, y);
      PixelAreaConcat(ContourSegments(c, off, low, high), GlyphSegments(rest, off, low, high), x, y);
      PixelAreaConcat(ContourSegments(c, off, low', high'), GlyphSegments(rest, off, low', high'), x, y);
    }
  }
}

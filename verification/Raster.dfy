/** The integer rasterisers of the LCD driver, with the pixels they plot as a sequence. */
module Raster {

  datatype Pixel = Pixel(x: int, y: int)

  type Int16 = x: int | -0x8000 <= x < 0x8000

  type UInt16 = x: int | 0 <= x < 0x1_0000

  /** Conversion to a signed 16-bit number. */
  function Signed(x: int): (r: Int16)
    ensures -0x8000 <= x < 0x8000 ==> r == x
  {
    (x + 0x8000) % 0x1_0000 - 0x8000
  }

  lemma SignedSum(x: int, y: int)
    ensures Signed(Signed(x) + y) == Signed(x + y)
  {
  }

  function Abs(x: int): (r: nat)
    ensures r == x || r == -x
  {
    if x > 0 then x else -x
  }

  // ---------- lines ----------

  /** The minor coordinate of the ideal line at step k of n, for a minor span d, rounded to the nearest integer. */
  function Rounded(k: nat, d: nat, n: nat): nat {
    if n == 0 then 0 else (n / 2 + k * d) / n
  }

  /** The rounded coordinate is within half a pixel of the ideal one, and the last one is the end point. */
  lemma RoundedIsNear(k: nat, d: nat, n: nat)
    ensures n > 0 ==> 2 * Abs(Rounded(k, d, n) * n - k * d) <= n
    ensures n > 0 && k == n ==> Rounded(k, d, n) == d
  {
    if n > 0 {
      var x, m := n / 2 + k * d, Rounded(k, d, n);
      Quotient(x, n);
      assert m * n <= x < m * n + n;
      if k == n {
        Unique(d, n / 2, m, x - m * n, n);
      }
    }
  }

  lemma Quotient(x: nat, n: nat)
    requires n > 0
    ensures x / n * n <= x < x / n * n + n
  {
  }

  lemma Monotone(a: nat, b: nat, n: nat)
    requires a <= b
    ensures a * n <= b * n
  {
  }

  lemma Unique(q1: nat, r1: nat, q2: nat, r2: nat, n: nat)
    requires r1 < n && r2 < n && q1 * n + r1 == q2 * n + r2
    ensures q1 == q2
  {
    assert (q1 + 1) * n == q1 * n + n && (q2 + 1) * n == q2 * n + n;
    if q1 < q2 {
      Monotone(q1 + 1, q2, n);
    } else if q2 < q1 {
      Monotone(q2 + 1, q1, n);
    }
  }

  lemma RoundedIs(k: nat, d: nat, n: nat, m: nat, r: nat)
    requires r < n && n / 2 + k * d == m * n + r
    ensures Rounded(k, d, n) == m
  {
    var x := n / 2 + k * d;
    Quotient(x, n);
    Unique(m, r, x / n, x - x / n * n, n);
  }

  /** Pixel k of the line from (x1, y1) to (x2, y2): the coordinate with the larger span moves one step at a
      time, the other one is the rounded ideal line. */
  function LinePixel(x1: int, y1: int, x2: int, y2: int, k: nat): Pixel {
    var dx, dy := Abs(x2 - x1), Abs(y2 - y1);
    var sx, sy := if x2 >= x1 then 1 else -1, if y2 >= y1 then 1 else -1;
    if dx >= dy then Pixel(x1 + sx * k, y1 + sy * Rounded(k, dy, dx))
    else Pixel(x1 + sx * Rounded(k, dx, dy), y1 + sy * k)
  }

  function LineLength(x1: int, y1: int, x2: int, y2: int): nat {
    if Abs(x2 - x1) >= Abs(y2 - y1) then Abs(x2 - x1) else Abs(y2 - y1)
  }

  /** A line begins and ends where it should. */
  lemma LineEnds(x1: int, y1: int, x2: int, y2: int)
    ensures LinePixel(x1, y1, x2, y2, 0) == Pixel(x1, y1)
    ensures LinePixel(x1, y1, x2, y2, LineLength(x1, y1, x2, y2)) == Pixel(x2, y2)
  {
    var dx, dy, n := Abs(x2 - x1), Abs(y2 - y1), LineLength(x1, y1, x2, y2);
    RoundedIsNear(n, dy, dx);
    RoundedIsNear(n, dx, dy);
    RoundedIsNear(0, dy, dx);
    RoundedIsNear(0, dx, dy);
    StartIsZero(dy, dx);
    StartIsZero(dx, dy);
  }

  lemma StartIsZero(d: nat, n: nat)
    ensures Rounded(0, d, n) == 0
  {
    if n > 0 {
      RoundedIs(0, d, n, 0, n / 2);
    }
  }

  /** A pixel as the signed coordinates of the drawing loop show it; pixels with negative ones are not drawn. */
  function Shown(p: Pixel): Pixel {
    Pixel(Signed(p.x), Signed(p.y))
  }

  /** Between end points whose coordinates are positive as signed numbers all pixels are shown where they are. */
  lemma LineIsShown(x1: UInt16, y1: UInt16, x2: UInt16, y2: UInt16, k: nat)
    requires x1 < 0x8000 && y1 < 0x8000 && x2 < 0x8000 && y2 < 0x8000 && k <= LineLength(x1, y1, x2, y2)
    ensures Shown(LinePixel(x1, y1, x2, y2, k)) == LinePixel(x1, y1, x2, y2, k)
  {
    hide Rounded;
    RoundedBelow(k, Abs(y2 - y1), Abs(x2 - x1));
    RoundedBelow(k, Abs(x2 - x1), Abs(y2 - y1));
  }

  lemma RoundedBelow(k: nat, d: nat, n: nat)
    ensures k <= n ==> Rounded(k, d, n) <= d
  {
    if 0 < n && k <= n {
      var x, m := n / 2 + k * d, Rounded(k, d, n);
      Quotient(x, n);
      Monotone(k, n, d);
      assert (d + 1) * n == n * d + n;
      Less(m, d + 1, n);
    }
  }

  lemma Less(a: nat, b: nat, n: nat)
    requires a * n < b * n
    ensures a < b
  {
    if b <= a {
      Monotone(b, a, n);
    }
  }

  /** The 16-bit pixel counter of the drawing loop after k rounds. */
  function Counter(k: nat): Int16 {
    if k == 0 then 0 else Signed(Counter(k - 1) + 1)
  }

  lemma {:induction false} CounterIs(k: nat)
    ensures Counter(k) == Signed(k)
  {
    if k > 0 {
      CounterIs(k - 1);
      SignedSum(k - 1, 1);
    }
  }

  /** The loop of LCD_DrawUniLine ends if and only if the counter can get past the number of pixels, which is the
      length of the line: that is, for every length but the largest that a 16-bit number has. */
  lemma LoopEnds(x1: UInt16, y1: UInt16, x2: UInt16, y2: UInt16)
    requires LineLength(x1, y1, x2, y2) < 0x8000
    ensures (exists k: nat :: Counter(k) > LineLength(x1, y1, x2, y2)) <==> LineLength(x1, y1, x2, y2) < 0x7FFF
  {
    var n := LineLength(x1, y1, x2, y2);
    CounterIs(n + 1);
    assert n < 0x7FFF ==> Counter(n + 1) > n;
  }

  /** The line from (0, 0) to (0x7FFF, 0): the counter wraps around before it gets past the end, for ever. */
  lemma LongestLineNeverEnds(k: nat)
    ensures LineLength(0, 0, 0x7FFF, 0) == 0x7FFF
    ensures Counter(k) <= LineLength(0, 0, 0x7FFF, 0)
    ensures k == 0x7FFF ==> Counter(k) == 0x7FFF && Counter(k + 1) == -0x8000
  {
    hide Counter;
    CounterIs(k);
    CounterIs(k + 1);
  }

  /** LCD_DrawUniLine, for spans whose 16-bit differences and sums do not overflow, and for which its loop ends. */
  method DrawUniLine(x1: UInt16, y1: UInt16, x2: UInt16, y2: UInt16) returns (plotted: seq<Pixel>)
    requires LineLength(x1, y1, x2, y2) < 0x7FFF && Abs(x2 - x1) + Abs(y2 - y1) <= 0x8000
    ensures |plotted| == LineLength(x1, y1, x2, y2) + 1
    ensures forall k :: 0 <= k < |plotted| ==> plotted[k] == Shown(LinePixel(x1, y1, x2, y2, k))
  {
    hide Rounded, Signed;
    var deltax: Int16, deltay: Int16 := Abs(x2 - x1), Abs(y2 - y1);
    var xinc1, xinc2, yinc1, yinc2;
    if x2 >= x1 {
      xinc1, xinc2 := 1, 1;
    } else {
      xinc1, xinc2 := -1, -1;
    }
    if y2 >= y1 {
      yinc1, yinc2 := 1, 1;
    } else {
      yinc1, yinc2 := -1, -1;
    }
    if deltax >= deltay {
      xinc1, yinc2 := 0, 0;
      plotted := PlotLine(x1, y1, xinc1, xinc2, yinc1, yinc2, deltax, deltay);
    } else {
      xinc2, yinc1 := 0, 0;
      plotted := PlotLine(x1, y1, xinc1, xinc2, yinc1, yinc2, deltay, deltax);
    }
  }

  /** A coordinate after k steps, m of which have moved the minor one. */
  function Coord(start: int, inc1: int, inc2: int, m: nat, k: nat): int {
    start + inc1 * m + inc2 * k
  }

  lemma CoordNext(start: int, inc1: int, inc2: int, m: nat, k: nat)
    ensures Coord(start, inc1, inc2, m, k + 1) == Coord(start, inc1, inc2, m, k) + inc2
    ensures Coord(start, inc1, inc2, m + 1, k + 1) == Coord(start, inc1, inc2, m, k) + inc1 + inc2
    ensures Coord(start, inc1, inc2, 0, 0) == start
  {
  }

  /** The plotting loop of LCD_DrawUniLine. */
  method PlotLine(x1: UInt16, y1: UInt16, xinc1: int, xinc2: int, yinc1: int, yinc2: int, den: Int16, numadd: Int16) returns (plotted: seq<Pixel>)
    requires 0 <= numadd <= den < 0x7FFF && numadd + den <= 0x8000
    ensures |plotted| == den + 1
    ensures forall k :: 0 <= k <= den ==>
              plotted[k] == Shown(Pixel(Coord(x1, xinc1, xinc2, Rounded(k, numadd, den), k), Coord(y1, yinc1, yinc2, Rounded(k, numadd, den), k)))
  {
    hide Rounded, Signed, Coord;
    var num: Int16 := den / 2;
    var x: Int16, y: Int16, curpixel: Int16 := Signed(x1), Signed(y1), 0;
    plotted := [];
    ghost var m: nat := 0;
    CoordNext(x1, xinc1, xinc2, 0, 0);
    CoordNext(y1, yinc1, yinc2, 0, 0);
    while curpixel <= den
      invariant 0 <= curpixel <= den + 1 && |plotted| == curpixel
      invariant x == Signed(Coord(x1, xinc1, xinc2, m, curpixel)) && y == Signed(Coord(y1, yinc1, yinc2, m, curpixel))
      invariant num >= 0 && den / 2 + curpixel * numadd == m * den + num
      invariant den > 0 ==> num < den
      invariant curpixel == 0 ==> m == 0
      invariant forall k :: 0 <= k < curpixel ==>
                  plotted[k] == Shown(Pixel(Coord(x1, xinc1, xinc2, Rounded(k, numadd, den), k), Coord(y1, yinc1, yinc2, Rounded(k, numadd, den), k)))
    {
      Arrived(curpixel, numadd, den, m, num);
      plotted := plotted + [Pixel(x, y)];
      StepOn(curpixel, numadd, den, m, num);
      CoordNext(x1, xinc1, xinc2, m, curpixel);
      CoordNext(y1, yinc1, yinc2, m, curpixel);
      ghost var cx, cy := Coord(x1, xinc1, xinc2, m, curpixel), Coord(y1, yinc1, yinc2, m, curpixel);
      num := num + numadd;
      if num >= den {
        num := num - den;
        SignedSum(cx, xinc1);
        SignedSum(cy, yinc1);
        x := Signed(x + xinc1);
        y := Signed(y + yinc1);
        m := m + 1;
        cx, cy := cx + xinc1, cy + yinc1;
      }
      SignedSum(cx, xinc2);
      SignedSum(cy, yinc2);
      x := Signed(x + xinc2);
      y := Signed(y + yinc2);
      curpixel := Signed(curpixel + 1);
    }
  }

  lemma Arrived(k: nat, d: nat, n: nat, m: nat, r: nat)
    requires n / 2 + k * d == m * n + r && (n > 0 ==> r < n) && (k == 0 ==> m == 0) && k <= n
    ensures Rounded(k, d, n) == m
  {
    if n > 0 {
      RoundedIs(k, d, n, m, r);
    }
  }

  lemma StepOn(k: nat, d: nat, n: nat, m: nat, r: nat)
    requires n / 2 + k * d == m * n + r
    ensures n / 2 + (k + 1) * d == m * n + r + d == (m + 1) * n + r + d - n
  {
  }

  // ---------- circles ----------

  /** The signed distance of a point from a circle, in squares. */
  function Error(x: int, y: int, r: int): int {
    x * x + y * y - r * r
  }

  /** The point lies in the band around the circle that LCD_DrawCircle keeps to. */
  predicate OnCircle(x: int, y: int, r: int) {
    -y <= Error(x, y, r) <= y - 1
  }

  /** Each column has at most one point of the upper half in the band; above the band it stays above. */
  lemma OnePerColumn(x: int, y: nat, z: nat, r: int)
    requires Error(x, y, r) + y >= 0 && y < z
    ensures !OnCircle(x, z, r)
  {
    Monotone(1, z - y, z + y);
    DifferenceOfSquares(z, y);
  }

  lemma DifferenceOfSquares(z: int, y: int)
    ensures (z - y) * (z + y) == z * z - y * y
  {
  }

  /** The eight pixels of an octant point. */
  function Reflections(cx: int, cy: int, x: int, y: int): (r: seq<Pixel>)
    ensures |r| == 8
  {
    [Pixel(cx + x, cy + y), Pixel(cx + x, cy - y), Pixel(cx - x, cy + y), Pixel(cx - x, cy - y),
     Pixel(cx + y, cy + x), Pixel(cx + y, cy - x), Pixel(cx - y, cy + x), Pixel(cx - y, cy - x)]
  }

  /** They are exactly the pixels whose distances from the centre along the two axes are x and y, either way round. */
  lemma ReflectionsAre(cx: int, cy: int, x: int, y: int, p: Pixel)
    ensures p in Reflections(cx, cy, x, y) <==>
              (Abs(p.x - cx) == Abs(x) && Abs(p.y - cy) == Abs(y)) || (Abs(p.x - cx) == Abs(y) && Abs(p.y - cy) == Abs(x))
  {
    var r := Reflections(cx, cy, x, y);
    assert p in r <==> p == r[0] || p == r[1] || p == r[2] || p == r[3] || p == r[4] || p == r[5] || p == r[6] || p == r[7];
  }

  /** The decision variable of LCD_DrawCircle. */
  function Decision(x: int, y: int, r: int): int {
    2 * ((x + 1) * (x + 1)) + y * y + (y - 1) * (y - 1) - 2 * (r * r)
  }

  /** A step that keeps y. */
  lemma StepEast(x: int, y: int, r: int)
    requires Decision(x, y, r) < 0 && Error(x, y, r) + y >= 0 && x >= 0
    ensures Decision(x + 1, y, r) == Decision(x, y, r) + 4 * x + 6
    ensures OnCircle(x + 1, y, r) && Error(x + 1, y, r) + y >= 0
  {
    assert (x + 1) * (x + 1) == x * x + 2 * x + 1 && (x + 2) * (x + 2) == x * x + 4 * x + 4;
    assert (y - 1) * (y - 1) == y * y - 2 * y + 1;
  }

  /** A step that lowers y. */
  lemma StepSouthEast(x: int, y: int, r: int)
    requires Decision(x, y, r) >= 0 && OnCircle(x, y, r) && x >= 0
    ensures Decision(x + 1, y - 1, r) == Decision(x, y, r) + 4 * (x - y) + 10
    ensures Error(x + 1, y - 1, r) + (y - 1) >= 0 && (x + 1 <= y - 1 ==> OnCircle(x + 1, y - 1, r))
  {
    assert (x + 1) * (x + 1) == x * x + 2 * x + 1 && (x + 2) * (x + 2) == x * x + 4 * x + 4;
    assert (y - 1) * (y - 1) == y * y - 2 * y + 1 && (y - 2) * (y - 2) == y * y - 4 * y + 4;
  }

  /** LCD_DrawCircle: every octant point it plots lies in the band around the circle, there is exactly one for
      each column from 0 on, and it stops where the band leaves the octant. */
  method DrawCircle(cx: int, cy: int, radius: nat) returns (plotted: seq<Pixel>, octant: seq<Pixel>)
    requires 1 <= radius < 0x1_0000
    ensures |plotted| == 8 * |octant| && octant != [] && octant[0] == Pixel(0, radius)
    ensures forall k {:trigger octant[k]} :: 0 <= k < |octant| ==>
              octant[k].x == k <= octant[k].y <= radius && OnCircle(octant[k].x, octant[k].y, radius)
    ensures forall k {:trigger octant[k]} :: 0 <= k < |octant| ==>
              plotted[8 * k..8 * k + 8] == Reflections(cx, cy, octant[k].x, octant[k].y)
    ensures forall y :: y >= |octant| ==> !OnCircle(|octant|, y, radius)
  {
    hide OnCircle, Error, Decision, Reflections;
    var d: int := 3 - 2 * radius;
    var curX: nat, curY: nat := 0, radius;
    plotted, octant := [], [];
    Start(radius);
    while curX <= curY
      invariant d == Decision(curX, curY, radius) && Error(curX, curY, radius) + curY >= 0 && curY <= radius
      invariant curX <= curY ==> OnCircle(curX, curY, radius)
      invariant |octant| == curX && |plotted| == 8 * curX && (curX == 0 ==> curY == radius)
      invariant curX > 0 ==> octant[0] == Pixel(0, radius)
      invariant forall k {:trigger octant[k]} :: 0 <= k < |octant| ==>
                  octant[k].x == k <= octant[k].y <= radius && OnCircle(octant[k].x, octant[k].y, radius)
      invariant forall k {:trigger octant[k]} :: 0 <= k < |octant| ==>
                  plotted[8 * k..8 * k + 8] == Reflections(cx, cy, octant[k].x, octant[k].y)
      decreases radius + curY + 1 - curX
    {
      BelowTop(curX, curY, radius);
      SlicesStay(plotted, Reflections(cx, cy, curX, curY), curX);
      plotted := plotted + Reflections(cx, cy, curX, curY);
      octant := octant + [Pixel(curX, curY)];
      if d < 0 {
        StepEast(curX, curY, radius);
        d := d + 4 * curX + 6;
      } else {
        StepSouthEast(curX, curY, radius);
        d := d + 4 * (curX - curY) + 10;
        curY := curY - 1;
      }
      curX := curX + 1;
    }
    forall y | y >= curX
      ensures !OnCircle(curX, y, radius)
    {
      OnePerColumn(curX, curY, y, radius);
    }
  }

  lemma SlicesStay(p: seq<Pixel>, q: seq<Pixel>, n: nat)
    requires |p| == 8 * n && |q| == 8
    ensures forall k :: 0 <= k < n ==> (p + q)[8 * k..8 * k + 8] == p[8 * k..8 * k + 8]
    ensures (p + q)[8 * n..8 * n + 8] == q
  {
  }

  lemma Start(r: nat)
    requires r >= 1
    ensures Decision(0, r, r) == 3 - 2 * r && OnCircle(0, r, r) && Error(0, r, r) + r >= 0
  {
    assert (r - 1) * (r - 1) == r * r - 2 * r + 1;
  }

  /** A point of the octant that is in the band is not on the x axis. */
  lemma BelowTop(x: nat, y: nat, r: nat)
    requires x <= y && OnCircle(x, y, r) && r >= 1
    ensures y >= 1
  {
    assert r * r >= 1;
  }
}

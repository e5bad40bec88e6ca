/**
 Box-filter resampling of a BGRA image: which source pixels each destination pixel averages, and what
 the averages are.
 */
module Scaling {
  import opened Prelude

  // ----- Boxes along one axis: `n` destination cells over `s` source cells -----

  function Ceil(a: nat, b: nat): nat
    requires b > 0
  {
    if a % b == 0 then a / b else a / b + 1
  }

  function Lo(d: nat, s: nat, n: nat): nat
    requires n > 0
  {
    d * s / n
  }

  function Hi(d: nat, s: nat, n: nat): nat
    requires n > 0
  {
    Max(Min(Ceil((d + 1) * s, n), s), Lo(d, s, n) + 1)
  }

  lemma MulMono(a: int, b: int, c: nat)
    requires a <= b
    ensures a * c <= b * c
  {
  }

  lemma FloorExactly(a: nat, n: nat, x: nat)
    requires n > 0
    ensures a / n <= x <==> a < (x + 1) * n
  {
    var q := a / n;
    assert a == q * n + a % n;
    if q <= x {
      MulMono(q + 1, x + 1, n);
    } else {
      MulMono(x + 1, q, n);
    }
  }

  lemma CeilExactly(a: nat, n: nat, x: nat)
    requires n > 0
    ensures x < Ceil(a, n) <==> x * n < a
  {
    var q := a / n;
    assert a == q * n + a % n;
    if x < q {
      MulMono(x + 1, q, n);
    } else {
      MulMono(q, x, n);
      if x > q {
        MulMono(q + 1, x, n);
      }
    }
  }

  /** Every box is nonempty and inside the source, and the lower bound of one cell never has to be enforced. */
  lemma BoxInRange(d: nat, s: nat, n: nat)
    requires s > 0 && d < n
    ensures Lo(d, s, n) < Hi(d, s, n) <= s
    ensures Hi(d, s, n) == Min(Ceil((d + 1) * s, n), s)
  {
    var lo := Lo(d, s, n);
    MulMono(d + 1, n, s);
    FloorExactly(d * s, n, s - 1);
    assert lo < s;
    assert d * s == lo * n + d * s % n;
    CeilExactly((d + 1) * s, n, lo);
    assert lo < Ceil((d + 1) * s, n);
  }

  /**
   The box of `d` is exactly the source cells whose extent [x, x + 1) overlaps the extent of the
   destination cell, [d * s / n, (d + 1) * s / n) as rationals.
   */
  lemma BoxIsOverlap(d: nat, s: nat, n: nat, x: nat)
    requires d < n && x < s
    ensures Lo(d, s, n) <= x < Hi(d, s, n) <==> d * s < (x + 1) * n && x * n < (d + 1) * s
  {
    BoxInRange(d, s, n);
    FloorExactly(d * s, n, x);
    CeilExactly((d + 1) * s, n, x);
  }

  /** The boxes start at the first source cell, leave no gap between neighbours and end at the last. */
  lemma BoxesHaveNoGaps(s: nat, n: nat)
    requires s > 0 && n > 0
    ensures Lo(0, s, n) == 0 && Hi(n - 1, s, n) == s
    ensures forall d: nat :: d + 1 < n ==> Lo(d, s, n) <= Lo(d + 1, s, n) <= Hi(d, s, n) <= Hi(d + 1, s, n)
  {
    assert 0 * s == 0;
    BoxInRange(n - 1, s, n);
    CeilExactly(n * s, n, s - 1);
    assert (s - 1) * n < n * s;
    forall d: nat | d + 1 < n
      ensures Lo(d, s, n) <= Lo(d + 1, s, n) <= Hi(d, s, n) <= Hi(d + 1, s, n)
    {
      NeighboursMeet(d, s, n);
    }
  }

  lemma NeighboursMeet(d: nat, s: nat, n: nat)
    requires s > 0 && d + 1 < n
    ensures Lo(d, s, n) <= Lo(d + 1, s, n) <= Hi(d, s, n) <= Hi(d + 1, s, n)
  {
    BoxInRange(d, s, n);
    BoxInRange(d + 1, s, n);
    MulMono(d, d + 1, s);
    MulMono(d + 1, d + 2, s);
    DivMono(d * s, (d + 1) * s, n);
    CeilMono((d + 1) * s, (d + 2) * s, n);
  }

  lemma DivMono(a: nat, b: nat, n: nat)
    requires n > 0 && a <= b
    ensures a / n <= b / n
  {
    FloorExactly(a, n, b / n);
    FloorExactly(b, n, b / n);
  }

  lemma CeilMono(a: nat, b: nat, n: nat)
    requires n > 0 && a <= b
    ensures Ceil(a, n) <= Ceil(b, n)
  {
    CeilExactly(a, n, Ceil(b, n));
    CeilExactly(b, n, Ceil(b, n));
  }

  /** The destination cell over the left edge of source cell `x`. */
  function Over(x: nat, s: nat, n: nat): nat
    requires s > 0
  {
    x * n / s
  }

  /** The union of the boxes is the whole source: no cell is ever left out, whatever the two sizes. */
  lemma EverySourceCellIsUsed(x: nat, s: nat, n: nat)
    requires x < s && n > 0
    ensures Over(x, s, n) < n && Lo(Over(x, s, n), s, n) <= x < Hi(Over(x, s, n), s, n)
  {
    var d := Over(x, s, n);
    assert x * n == d * s + x * n % s;
    FloorExactly(x * n, s, n - 1);
    MulMono(x + 1, s, n);
    assert d < n;
    BoxIsOverlap(d, s, n, x);
    assert (d + 1) * s == d * s + s;
    assert (x + 1) * n == x * n + n;
  }

  /** At equal sizes each box is the one cell of the same index. */
  lemma EqualSizesAreOneToOne(d: nat, s: nat)
    requires d < s
    ensures Lo(d, s, s) == d && Hi(d, s, s) == d + 1
  {
    FloorExactly(d * s, s, d);
    BoxIsOverlap(d, s, s, d);
    BoxInRange(d, s, s);
    if d + 1 < s {
      BoxIsOverlap(d, s, s, d + 1);
    }
    if d > 0 {
      FloorExactly(d * s, s, d - 1);
    }
  }

  ghost predicate SingleCells(s: nat, n: nat)
    requires n > 0
  {
    forall d: nat :: d < n ==> Hi(d, s, n) == Lo(d, s, n) + 1
  }

  lemma WholeMultipleIsSingle(s: nat, k: nat, n: nat, d: nat)
    requires s > 0 && n == k * s && d < n
    ensures Hi(d, s, n) == Lo(d, s, n) + 1
  {
    BoxInRange(d, s, n);
    var lo := Lo(d, s, n);
    if lo + 1 < Hi(d, s, n) {
      BoxIsOverlap(d, s, n, lo);
      BoxIsOverlap(d, s, n, lo + 1);
      NoneBetween(d, (lo + 1) * k, s);
      Regroup(lo + 1, k, s);
    }
  }

  lemma Regroup(a: nat, b: nat, c: nat)
    ensures a * (b * c) == (a * b) * c
  {
  }

  /** No multiple of `s` lies strictly between two neighbouring multiples. */
  lemma NoneBetween(d: nat, m: nat, s: nat)
    ensures !(d * s < m * s < (d + 1) * s)
  {
    if m <= d {
      MulMono(m, d, s);
    } else {
      MulMono(d + 1, m, s);
    }
  }

  lemma StraddlingCell(s: nat, n: nat)
    requires s > 0 && n > 0 && n % s != 0
    ensures n / s < n && Lo(n / s, s, n) + 1 < Hi(n / s, s, n)
  {
    var d := n / s;
    assert n == d * s + n % s;
    assert s > 1;
    assert d < n by {
      MulMono(2, s, d);
    }
    BoxIsOverlap(d, s, n, 0);
    BoxIsOverlap(d, s, n, 1);
    assert (d + 1) * s == d * s + s;
  }

  /**
   Enlarging is nearest-neighbour, every box a single cell, exactly when the new size is a whole
   multiple of the old one; otherwise some destination cell mixes two source cells.
   */
  lemma NearestNeighbourExactly(s: nat, n: nat)
    requires s > 0 && n > 0
    ensures SingleCells(s, n) <==> n % s == 0
  {
    if n % s == 0 {
      var k := n / s;
      assert n == k * s;
      forall d: nat | d < n
        ensures Hi(d, s, n) == Lo(d, s, n) + 1
      {
        WholeMultipleIsSingle(s, k, n, d);
      }
    } else {
      StraddlingCell(s, n);
    }
  }

  lemma SpanBound(lo: nat, top: nat, at: nat, s: nat, r: nat, n: nat)
    requires top * n < at + s && at < (lo + 1) * n && s < (r + 1) * n
    ensures top < lo + r + 2
  {
    assert (lo + r + 2) * n == (lo + 1) * n + (r + 1) * n;
    if top >= lo + r + 2 {
      MulMono(lo + r + 2, top, n);
    }
  }

  /** The first and last cells of a box overlap the destination cell. */
  lemma BoxEnds(d: nat, s: nat, n: nat, lo: nat, top: nat)
    requires s > 0 && d < n && lo == Lo(d, s, n) && top + 1 == Hi(d, s, n)
    ensures top * n < d * s + s && d * s < (lo + 1) * n
  {
    BoxInRange(d, s, n);
    BoxIsOverlap(d, s, n, top);
    BoxIsOverlap(d, s, n, lo);
    assert (d + 1) * s == d * s + s;
  }

  /** A box is at most two cells longer than the whole part `r` of the ratio. */
  lemma BoxLength(d: nat, s: nat, n: nat, lo: nat, hi: nat, r: nat)
    requires s > 0 && d < n && lo == Lo(d, s, n) && hi == Hi(d, s, n) && s < (r + 1) * n
    ensures hi <= lo + r + 2
  {
    BoxEnds(d, s, n, lo, hi - 1);
    SpanBound(lo, hi - 1, d * s, s, r, n);
  }

  // ----- Pixels -----

  datatype Pixel = Pixel(b: U8, g: U8, r: U8, a: U8)

  datatype Image = Image(data: Bytes, width: nat, height: nat, stride: nat)

  /** The product by repeated addition, which keeps the proofs about sequences free of products. */
  function Times(w: nat, h: nat): nat {
    if h == 0 then 0 else Times(w, h - 1) + w
  }

  lemma {:induction false} TimesIsProduct(w: nat, h: nat)
    ensures Times(w, h) == w * h
  {
    if h > 0 {
      TimesIsProduct(w, h - 1);
      assert w * h == w * (h - 1) + w;
    }
  }

  lemma {:induction false} TimesMono(w: nat, h: nat, k: nat)
    requires h <= k
    ensures Times(w, h) <= Times(w, k)
  {
    if h < k {
      TimesMono(w, h, k - 1);
    }
  }

  /** Where row `y` starts. */
  function Start(stride: nat, y: nat): nat {
    Times(stride, y)
  }

  function Offset(stride: nat, x: nat, y: nat): nat {
    Start(stride, y) + x * 4
  }

  function At(data: Bytes, i: nat): Pixel
    requires i + 3 < |data|
  {
    Pixel(data[i], data[i + 1], data[i + 2], data[i + 3])
  }

  /** The pixel at `i` if all of it lies inside the buffer. */
  function Readable(data: Bytes, i: nat): seq<Pixel> {
    if i + 3 < |data| then [At(data, i)] else []
  }

  function Quad(p: Pixel): Bytes {
    [p.b, p.g, p.r, p.a]
  }

  /** The pixels of the row starting at offset `row` that lie inside the buffer; a truncated frame just has fewer of them. */
  function RowPixels(data: Bytes, row: nat, x0: nat, x1: nat): seq<Pixel> {
    if x1 <= x0 then []
    else RowPixels(data, row, x0, x1 - 1) + Readable(data, row + (x1 - 1) * 4)
  }

  function BoxPixels(img: Image, x0: nat, x1: nat, y0: nat, y1: nat): seq<Pixel> {
    if y1 <= y0 then []
    else BoxPixels(img, x0, x1, y0, y1 - 1) + RowPixels(img.data, Start(img.stride, y1 - 1), x0, x1)
  }

  // ----- The 32-bit accumulators -----

  const WORD := 0x1_0000_0000

  /** Four channel sums, each in an unsigned 32-bit word. */
  datatype Sums = Sums(b: U32, g: U32, r: U32, a: U32)

  /** Addition that wraps. */
  function Add32(x: U32, v: nat): U32
    requires v <= 255
  {
    if x + v < WORD then x + v else x + v - WORD
  }

  function Plus(t: Sums, p: Pixel): Sums {
    Sums(Add32(t.b, p.b), Add32(t.g, p.g), Add32(t.r, p.r), Add32(t.a, p.a))
  }

  function Total(ps: seq<Pixel>): Sums {
    if ps == [] then Sums(0, 0, 0, 0) else Plus(Total(ps[..|ps| - 1]), ps[|ps| - 1])
  }

  /** The pixel counter, which wraps as well. */
  function Count(ps: seq<Pixel>): U32 {
    if ps == [] then 0 else Add32(Count(ps[..|ps| - 1]), 1)
  }

  function Quotient(t: nat, n: nat): nat
    requires n > 0
  {
    t / n
  }

  /** A quotient narrowed to a byte. */
  function ByteOf(t: nat, n: nat): U8
    requires n > 0
  {
    Quotient(t, n) % 256
  }

  function Divide(t: Sums, n: U32): Pixel
    requires n > 0
  {
    Pixel(ByteOf(t.b, n), ByteOf(t.g, n), ByteOf(t.r, n), ByteOf(t.a, n))
  }

  const Black := Pixel(0, 0, 0, 0)
  const White := Pixel(255, 255, 255, 255)

  /** What the code writes for a box: sums over count. A zero count leaves the zeroed output. */
  function Mean(ps: seq<Pixel>): Pixel {
    if Count(ps) == 0 then Black else Divide(Total(ps), Count(ps))
  }

  // ----- The true average -----

  /** The channel sums as numbers. */
  datatype Exact = Exact(b: nat, g: nat, r: nat, a: nat)

  function Add(t: Exact, p: Pixel): Exact {
    Exact(t.b + p.b, t.g + p.g, t.r + p.r, t.a + p.a)
  }

  function ExactTotal(ps: seq<Pixel>): Exact {
    if ps == [] then Exact(0, 0, 0, 0) else Add(ExactTotal(ps[..|ps| - 1]), ps[|ps| - 1])
  }

  lemma WrapAdd(x: nat, v: nat)
    requires v <= 255
    ensures Add32(x % WORD, v) == (x + v) % WORD
  {
    var q, y := x / WORD, x % WORD;
    assert x + v == q * WORD + (y + v);
  }

  ghost predicate Wraps(t: Sums, e: Exact) {
    t.b == e.b % WORD && t.g == e.g % WORD && t.r == e.r % WORD && t.a == e.a % WORD
  }

  lemma PlusWraps(t: Sums, e: Exact, p: Pixel)
    requires Wraps(t, e)
    ensures Wraps(Plus(t, p), Add(e, p))
  {
    WrapAdd(e.b, p.b);
    WrapAdd(e.g, p.g);
    WrapAdd(e.r, p.r);
    WrapAdd(e.a, p.a);
  }

  /** Each word holds its sum modulo 2^32. */
  lemma {:induction false} TotalWraps(ps: seq<Pixel>)
    ensures Wraps(Total(ps), ExactTotal(ps))
    decreases |ps|
  {
    if ps != [] {
      var n := |ps| - 1;
      TotalWraps(ps[..n]);
      PlusWraps(Total(ps[..n]), ExactTotal(ps[..n]), ps[n]);
    }
  }

  lemma {:induction false} CountWraps(ps: seq<Pixel>)
    ensures Count(ps) == |ps| % WORD
    decreases |ps|
  {
    if ps != [] {
      CountWraps(ps[..|ps| - 1]);
      WrapAdd(|ps| - 1, 1);
    }
  }

  /** Every channel of every pixel lies between the same channel of `lo` and `hi`. */
  ghost predicate Between(lo: Pixel, p: Pixel, hi: Pixel) {
    lo.b <= p.b <= hi.b && lo.g <= p.g <= hi.g && lo.r <= p.r <= hi.r && lo.a <= p.a <= hi.a
  }

  ghost predicate AllBetween(lo: Pixel, ps: seq<Pixel>, hi: Pixel) {
    forall i :: 0 <= i < |ps| ==> Between(lo, ps[i], hi)
  }

  ghost predicate SumBetween(lo: nat, t: nat, n: nat, hi: nat) {
    lo * n <= t <= hi * n
  }

  ghost predicate TotalBetween(lo: Pixel, t: Exact, n: nat, hi: Pixel) {
    SumBetween(lo.b, t.b, n, hi.b) && SumBetween(lo.g, t.g, n, hi.g)
    && SumBetween(lo.r, t.r, n, hi.r) && SumBetween(lo.a, t.a, n, hi.a)
  }

  lemma SumGrows(lo: nat, hi: nat, t: nat, n: nat, v: nat)
    requires SumBetween(lo, t, n, hi) && lo <= v <= hi
    ensures SumBetween(lo, t + v, n + 1, hi)
  {
    assert lo * (n + 1) == lo * n + lo;
    assert hi * (n + 1) == hi * n + hi;
  }

  lemma {:induction false} TotalIsBetween(ps: seq<Pixel>, lo: Pixel, hi: Pixel)
    requires AllBetween(lo, ps, hi)
    ensures TotalBetween(lo, ExactTotal(ps), |ps|, hi)
    decreases |ps|
  {
    if ps != [] {
      var n := |ps| - 1;
      TotalIsBetween(ps[..n], lo, hi);
      var e, p := ExactTotal(ps[..n]), ps[n];
      SumGrows(lo.b, hi.b, e.b, n, p.b);
      SumGrows(lo.g, hi.g, e.g, n, p.g);
      SumGrows(lo.r, hi.r, e.r, n, p.r);
      SumGrows(lo.a, hi.a, e.a, n, p.a);
    }
  }

  lemma QuotientBetween(lo: nat, t: nat, n: nat, hi: nat)
    requires n > 0 && SumBetween(lo, t, n, hi)
    ensures lo <= Quotient(t, n) <= hi
  {
    assert (hi + 1) * n == hi * n + n;
    FloorExactly(t, n, hi);
    if lo > 0 {
      FloorExactly(t, n, lo - 1);
    }
  }

  /** The average of a nonempty box, each channel rounded down. */
  function Average(ps: seq<Pixel>): Pixel
    requires ps != []
  {
    var t, n := ExactTotal(ps), |ps|;
    TotalIsBetween(ps, Black, White);
    QuotientBetween(0, t.b, n, 255);
    QuotientBetween(0, t.g, n, 255);
    QuotientBetween(0, t.r, n, 255);
    QuotientBetween(0, t.a, n, 255);
    Pixel(Quotient(t.b, n), Quotient(t.g, n), Quotient(t.r, n), Quotient(t.a, n))
  }

  /** The number of white pixels that exactly fills a 32-bit word. */
  const CAPACITY := 16_843_009

  lemma ChannelFits(t: nat, n: nat)
    requires 0 < n <= CAPACITY && SumBetween(0, t, n, 255)
    ensures t % WORD == t && n % WORD == n && ByteOf(t, n) == Quotient(t, n)
  {
    QuotientBetween(0, t, n, 255);
  }

  /** Up to the capacity nothing wraps, and the code writes the true average. */
  lemma MeanIsAverage(ps: seq<Pixel>)
    requires 0 < |ps| <= CAPACITY
    ensures Mean(ps) == Average(ps)
  {
    var e, n := ExactTotal(ps), |ps|;
    TotalWraps(ps);
    CountWraps(ps);
    TotalIsBetween(ps, Black, White);
    ChannelFits(e.b, n);
    ChannelFits(e.g, n);
    ChannelFits(e.r, n);
    ChannelFits(e.a, n);
  }

  /** Averaging never leaves the range of what it averages: each channel of the mean is between the box's extremes. */
  lemma MeanIsBetween(ps: seq<Pixel>, lo: Pixel, hi: Pixel)
    requires 0 < |ps| <= CAPACITY && AllBetween(lo, ps, hi)
    ensures Between(lo, Mean(ps), hi)
  {
    var e, n := ExactTotal(ps), |ps|;
    MeanIsAverage(ps);
    TotalIsBetween(ps, lo, hi);
    QuotientBetween(lo.b, e.b, n, hi.b);
    QuotientBetween(lo.g, e.g, n, hi.g);
    QuotientBetween(lo.r, e.r, n, hi.r);
    QuotientBetween(lo.a, e.a, n, hi.a);
  }

  /** One pixel more than the capacity: a white box comes out black. */
  lemma WhiteTurnsBlack(ps: seq<Pixel>)
    requires |ps| == CAPACITY + 1 && AllBetween(White, ps, White)
    ensures Mean(ps) == Black
  {
    TotalWraps(ps);
    CountWraps(ps);
    TotalIsBetween(ps, White, White);
    OneTooMany(ExactTotal(ps).b, |ps|);
    OneTooMany(ExactTotal(ps).g, |ps|);
    OneTooMany(ExactTotal(ps).r, |ps|);
    OneTooMany(ExactTotal(ps).a, |ps|);
  }

  lemma OneTooMany(t: nat, n: nat)
    requires n == CAPACITY + 1 && SumBetween(255, t, n, 255)
    ensures n % WORD == n && ByteOf(t % WORD, n) == 0
  {
    assert t % WORD == 254;
  }

  lemma {:induction false} RowCount(data: Bytes, row: nat, x0: nat, x1: nat)
    requires x0 <= x1
    ensures |RowPixels(data, row, x0, x1)| <= x1 - x0
    decreases x1
  {
    if x0 < x1 {
      RowCount(data, row, x0, x1 - 1);
    }
  }

  lemma BoxGrows(img: Image, x0: nat, x1: nat, y0: nat, y: nat)
    requires y0 <= y
    ensures |BoxPixels(img, x0, x1, y0, y + 1)|
         == |BoxPixels(img, x0, x1, y0, y)| + |RowPixels(img.data, Start(img.stride, y), x0, x1)|
  {
  }

  lemma {:induction false} BoxCount(img: Image, x0: nat, x1: nat, y0: nat, y1: nat)
    requires x0 <= x1 && y0 <= y1
    ensures |BoxPixels(img, x0, x1, y0, y1)| <= Times(x1 - x0, y1 - y0)
    decreases y1
  {
    if y0 < y1 {
      BoxCount(img, x0, x1, y0, y1 - 1);
      BoxGrows(img, x0, x1, y0, y1 - 1);
      RowCount(img.data, Start(img.stride, y1 - 1), x0, x1);
    }
  }

  /** The pixels averaged into destination pixel (dx, dy). */
  function Box(img: Image, dw: nat, dh: nat, dx: nat, dy: nat): seq<Pixel>
    requires dw > 0 && dh > 0
  {
    BoxPixels(img, Lo(dx, img.width, dw), Hi(dx, img.width, dw), Lo(dy, img.height, dh), Hi(dy, img.height, dh))
  }

  /**
   With size ratios below `rw` + 1 and `rh` + 1 no box has more than (`rw` + 2) * (`rh` + 2) pixels, so while
   that is within the capacity every destination pixel is a true average.
   */
  lemma SmallRatiosAverage(img: Image, dw: nat, dh: nat, dx: nat, dy: nat, rw: nat, rh: nat)
    requires img.width > 0 && img.height > 0 && dx < dw && dy < dh
    requires img.width < (rw + 1) * dw && img.height < (rh + 1) * dh && (rw + 2) * (rh + 2) <= CAPACITY
    ensures |Box(img, dw, dh, dx, dy)| <= CAPACITY
    ensures Box(img, dw, dh, dx, dy) != [] ==>
              Mean(Box(img, dw, dh, dx, dy)) == Average(Box(img, dw, dh, dx, dy))
  {
    var x0, x1 := Lo(dx, img.width, dw), Hi(dx, img.width, dw);
    var y0, y1 := Lo(dy, img.height, dh), Hi(dy, img.height, dh);
    BoxInRange(dx, img.width, dw);
    BoxInRange(dy, img.height, dh);
    BoxLength(dx, img.width, dw, x0, x1, rw);
    BoxLength(dy, img.height, dh, y0, y1, rh);
    BoxCount(img, x0, x1, y0, y1);
    TimesIsProduct(x1 - x0, y1 - y0);
    AreaBound(x1 - x0, y1 - y0, rw + 2, rh + 2);
    if Box(img, dw, dh, dx, dy) != [] {
      MeanIsAverage(Box(img, dw, dh, dx, dy));
    }
  }

  lemma AreaBound(w: nat, h: nat, maxW: nat, maxH: nat)
    requires w <= maxW && h <= maxH
    ensures w * h <= maxW * maxH
  {
    MulMono(w, maxW, h);
    MulMono(h, maxH, maxW);
  }

  // ----- The loops -----

  /** The accumulators of the loops. */
  datatype Tally = Tally(sums: Sums, count: U32)

  /** The accumulators after the pixels `ps`. */
  function TallyOf(ps: seq<Pixel>): Tally {
    Tally(Total(ps), Count(ps))
  }

  /** One turn of the innermost loop: a pixel that runs past the buffer is skipped. */
  function AddAt(t: Tally, data: Bytes, i: nat): Tally {
    if i + 3 < |data| then Tally(Plus(t.sums, At(data, i)), Add32(t.count, 1)) else t
  }

  function AddRow(t: Tally, data: Bytes, row: nat, x0: nat, x1: nat): Tally {
    if x1 <= x0 then t else AddAt(AddRow(t, data, row, x0, x1 - 1), data, row + (x1 - 1) * 4)
  }

  function AddRows(t: Tally, img: Image, x0: nat, x1: nat, y0: nat, y1: nat): Tally {
    if y1 <= y0 then t else AddRow(AddRows(t, img, x0, x1, y0, y1 - 1), img.data, Start(img.stride, y1 - 1), x0, x1)
  }

  lemma TallyAppend(ps: seq<Pixel>, data: Bytes, i: nat)
    ensures AddAt(TallyOf(ps), data, i) == TallyOf(ps + Readable(data, i))
  {
    if i + 3 < |data| {
      assert (ps + [At(data, i)])[..|ps|] == ps;
    } else {
      assert ps + Readable(data, i) == ps;
    }
  }

  lemma TallyNext(ps: seq<Pixel>, before: seq<Pixel>, data: Bytes, i: nat)
    ensures AddAt(TallyOf(ps + before), data, i) == TallyOf(ps + (before + Readable(data, i)))
  {
    TallyAppend(ps + before, data, i);
    assert ps + before + Readable(data, i) == ps + (before + Readable(data, i));
  }

  lemma {:induction false} TallyRow(ps: seq<Pixel>, data: Bytes, row: nat, x0: nat, x1: nat)
    ensures AddRow(TallyOf(ps), data, row, x0, x1) == TallyOf(ps + RowPixels(data, row, x0, x1))
    decreases x1
  {
    if x1 <= x0 {
      assert ps + RowPixels(data, row, x0, x1) == ps;
    } else {
      TallyRow(ps, data, row, x0, x1 - 1);
      TallyNext(ps, RowPixels(data, row, x0, x1 - 1), data, row + (x1 - 1) * 4);
    }
  }

  /** The loops accumulate exactly the readable pixels of the box. */
  lemma {:induction false} TallyBox(img: Image, x0: nat, x1: nat, y0: nat, y1: nat)
    ensures AddRows(TallyOf([]), img, x0, x1, y0, y1) == TallyOf(BoxPixels(img, x0, x1, y0, y1))
    decreases y1
  {
    if y0 < y1 {
      TallyBox(img, x0, x1, y0, y1 - 1);
      TallyRow(BoxPixels(img, x0, x1, y0, y1 - 1), img.data, Start(img.stride, y1 - 1), x0, x1);
    }
  }

  /** The innermost loop. */
  method SumRow(data: Bytes, row: nat, x0: nat, x1: nat, t0: Tally) returns (t: Tally)
    requires x0 <= x1
    ensures t == AddRow(t0, data, row, x0, x1)
  {
    t := t0;
    var sx := x0;
    while sx < x1
      invariant x0 <= sx <= x1 && t == AddRow(t0, data, row, x0, sx)
    {
      var i := row + sx * 4;
      if i + 3 < |data| {
        t := Tally(Plus(t.sums, At(data, i)), Add32(t.count, 1));
      }
      sx := sx + 1;
    }
  }

  /** Sum and count the readable pixels of a box, row by row. */
  method SumBox(img: Image, x0: nat, x1: nat, y0: nat, y1: nat) returns (t: Tally)
    requires x0 <= x1 && y0 <= y1
    ensures t == TallyOf(BoxPixels(img, x0, x1, y0, y1))
  {
    t := Tally(Sums(0, 0, 0, 0), 0);
    var sy := y0;
    while sy < y1
      invariant y0 <= sy <= y1 && t == AddRows(TallyOf([]), img, x0, x1, y0, sy)
    {
      t := SumRow(img.data, Start(img.stride, sy), x0, x1, t);
      sy := sy + 1;
    }
    TallyBox(img, x0, x1, y0, y1);
  }

  /** Destination pixel (dx, dy). */
  function OutPixel(img: Image, dw: nat, dh: nat, dx: nat, dy: nat): Pixel
    requires dw > 0 && dh > 0
  {
    Mean(Box(img, dw, dh, dx, dy))
  }

  /** One row of the pixels a function of column and row gives. */
  function Row(pix: (nat, nat) -> Pixel, width: nat, y: nat): (r: seq<Pixel>)
    ensures |r| == width && forall x: nat :: x < width ==> r[x] == pix(x, y)
  {
    seq(width, x requires 0 <= x < width => pix(x, y))
  }

  /** The first `k` rows. */
  function Rows(pix: (nat, nat) -> Pixel, width: nat, k: nat): (r: seq<Pixel>)
    ensures |r| == Times(width, k)
  {
    if k == 0 then [] else Rows(pix, width, k - 1) + Row(pix, width, k - 1)
  }

  /** Every destination pixel as a function of its place. */
  function Out(img: Image, dw: nat, dh: nat): (nat, nat) -> Pixel
    requires dw > 0 && dh > 0
  {
    (x: nat, y: nat) => OutPixel(img, dw, dh, x, y)
  }

  /** Pixels packed with no padding. */
  function Flat(ps: seq<Pixel>): (r: Bytes)
    ensures |r| == 4 * |ps|
  {
    if ps == [] then [] else Flat(ps[..|ps| - 1]) + Quad(ps[|ps| - 1])
  }

  /** What the resampler returns. */
  function Scaled(img: Image, dw: nat, dh: nat): Bytes {
    if dw == 0 || dh == 0 then [] else Flat(Rows(Out(img, dw, dh), dw, dh))
  }

  ghost predicate QuadAt(out: seq<U8>, o: nat, p: Pixel) {
    o + 4 <= |out| && out[o] == p.b && out[o + 1] == p.g && out[o + 2] == p.r && out[o + 3] == p.a
  }

  /** The output holds the pixels `ps`, packed, and zeroes after them. */
  ghost predicate Drawn(out: seq<U8>, ps: seq<Pixel>) {
    && 4 * |ps| <= |out|
    && (forall k: nat :: k < |ps| ==> QuadAt(out, 4 * k, ps[k]))
    && (forall i :: 4 * |ps| <= i < |out| ==> out[i] == 0)
  }

  ghost predicate Starts(out: seq<U8>, ps: seq<Pixel>) {
    4 * |ps| <= |out| && forall k: nat :: k < |ps| ==> QuadAt(out, 4 * k, ps[k])
  }

  lemma LastQuad(out: seq<U8>, n: nat, p: Pixel)
    requires QuadAt(out, 4 * n, p)
    ensures out[..4 * n + 4] == out[..4 * n] + Quad(p)
  {
  }

  lemma {:induction false} DrawnIsFlat(out: seq<U8>, ps: seq<Pixel>)
    requires Starts(out, ps)
    ensures out[..4 * |ps|] == Flat(ps)
    decreases |ps|
  {
    if ps != [] {
      var n := |ps| - 1;
      var front := ps[..n];
      assert forall k: nat :: k < n ==> front[k] == ps[k];
      DrawnIsFlat(out, front);
      LastQuad(out, n, ps[n]);
    }
  }

  /** One destination pixel, or nothing when its box counts no pixel. */
  method ScalePixel(img: Image, dw: nat, dh: nat, dx: nat, dy: nat) returns (p: Option<Pixel>)
    requires dx < dw && dy < dh
    ensures (if p.Some? then p.value else Black) == OutPixel(img, dw, dh, dx, dy)
  {
    var y0, x0 := Lo(dy, img.height, dh), Lo(dx, img.width, dw);
    var y1, x1 := Hi(dy, img.height, dh), Hi(dx, img.width, dw);
    var t := SumBox(img, x0, x1, y0, y1);
    if t.count == 0 {
      p := None;
    } else {
      p := Some(Divide(t.sums, t.count));
    }
  }

  /** Write one averaged pixel after a finished prefix; an empty box leaves the zeroes in place. */
  method WritePixel(out: array<U8>, o: nat, p: Option<Pixel>, ghost done: seq<Pixel>)
    requires o == 4 * |done| && o + 4 <= out.Length && Drawn(out[..], done)
    modifies out
    ensures Drawn(out[..], done + [if p.Some? then p.value else Black])
  {
    ghost var next := done + [if p.Some? then p.value else Black];
    ghost var before := out[..];
    assert forall k: nat :: k < |done| ==> next[k] == done[k] && QuadAt(before, 4 * k, done[k]);
    if p.Some? {
      out[o] := p.value.b;
      out[o + 1] := p.value.g;
      out[o + 2] := p.value.r;
      out[o + 3] := p.value.a;
    }
    assert QuadAt(out[..], o, next[|done|]);
  }

  /** One destination row; `pix` is the specified output, `above` the rows already drawn. */
  method ScaleRow(img: Image, dw: nat, dh: nat, dy: nat, first: nat, out: array<U8>,
                  ghost pix: (nat, nat) -> Pixel, ghost above: seq<Pixel>)
    requires dy < dh && dw > 0 && first == |above| && 4 * (first + dw) <= out.Length
    requires pix == Out(img, dw, dh) && Drawn(out[..], above)
    modifies out
    ensures Drawn(out[..], above + Row(pix, dw, dy))
  {
    ghost var row := Row(pix, dw, dy);
    var dx := 0;
    assert above + row[..0] == above;
    while dx < dw
      invariant dx <= dw && Drawn(out[..], above + row[..dx])
    {
      var p := ScalePixel(img, dw, dh, dx, dy);
      WritePixel(out, (first + dx) * 4, p, above + row[..dx]);
      assert above + row[..dx] + [row[dx]] == above + row[..dx + 1];
      dx := dx + 1;
    }
    assert row[..dw] == row;
  }

  lemma RowFits(dw: nat, dh: nat, dy: nat)
    requires dy < dh
    ensures Times(dw, dy) == dy * dw && Times(dw, dh) == dw * dh && Times(dw, dy) + dw <= Times(dw, dh)
  {
    TimesIsProduct(dw, dy);
    TimesIsProduct(dw, dh);
    TimesMono(dw, dy + 1, dh);
  }

  /** The two outer loops, for a nonempty destination. */
  method ScaleRows(img: Image, dw: nat, dh: nat, out: array<U8>)
    requires dw > 0 && dh > 0 && out.Length == 4 * (dw * dh) && Drawn(out[..], [])
    modifies out
    ensures Drawn(out[..], Rows(Out(img, dw, dh), dw, dh))
  {
    ghost var pix := Out(img, dw, dh);
    var dy := 0;
    while dy < dh
      invariant dy <= dh && Drawn(out[..], Rows(pix, dw, dy))
    {
      RowFits(dw, dh, dy);
      ScaleRow(img, dw, dh, dy, dy * dw, out, pix, Rows(pix, dw, dy));
      dy := dy + 1;
    }
  }

  /** Resamples to `dw` by `dh`, whatever the buffer really holds. */
  method ScaleBgra(img: Image, dw: nat, dh: nat) returns (result: Bytes)
    ensures |result| == 4 * (dw * dh) && result == Scaled(img, dw, dh)
  {
    var out := new U8[4 * (dw * dh)](_ => 0);
    if dw > 0 && dh > 0 {
      ScaleRows(img, dw, dh, out);
      WholeImage(Out(img, dw, dh), dw, dh, out[..]);
    }
    result := out[..];
  }

  lemma WholeImage(pix: (nat, nat) -> Pixel, dw: nat, dh: nat, out: seq<U8>)
    requires |out| == 4 * (dw * dh) && Drawn(out, Rows(pix, dw, dh))
    ensures out == Flat(Rows(pix, dw, dh))
  {
    TimesIsProduct(dw, dh);
    DrawnIsFlat(out, Rows(pix, dw, dh));
    assert out[..|out|] == out;
  }

  // ----- What the output is -----

  lemma {:induction false} FlatAt(ps: seq<Pixel>, k: nat)
    requires k < |ps|
    ensures QuadAt(Flat(ps), 4 * k, ps[k])
    decreases |ps|
  {
    if k < |ps| - 1 {
      FlatAt(ps[..|ps| - 1], k);
    }
  }

  /** Where a destination pixel stands, row by row. */
  function Index(dw: nat, dx: nat, dy: nat): (i: nat)
    ensures i == dy * dw + dx
  {
    TimesIsProduct(dw, dy);
    Times(dw, dy) + dx
  }

  lemma AppendedAt(above: seq<Pixel>, row: seq<Pixel>, i: nat)
    requires i < |above| + |row|
    ensures (above + row)[i] == if i < |above| then above[i] else row[i - |above|]
  {
  }

  lemma {:induction false} RowsAt(pix: (nat, nat) -> Pixel, dw: nat, k: nat, dx: nat, dy: nat)
    requires dx < dw && dy < k
    ensures Times(dw, dy) + dx < |Rows(pix, dw, k)| && Rows(pix, dw, k)[Times(dw, dy) + dx] == pix(dx, dy)
    decreases k
  {
    var above, row, i := Rows(pix, dw, k - 1), Row(pix, dw, k - 1), Times(dw, dy) + dx;
    if dy < k - 1 {
      RowsAt(pix, dw, k - 1, dx, dy);
    }
    AppendedAt(above, row, i);
  }

  /**
   Destination pixel (dx, dy) of the returned buffer is what the code makes of its box: the true average,
   each channel rounded down, as long as the box holds at most 16 843 009 readable pixels.
   */
  lemma OutputAt(img: Image, dw: nat, dh: nat, dx: nat, dy: nat)
    requires dx < dw && dy < dh
    ensures QuadAt(Scaled(img, dw, dh), 4 * Index(dw, dx, dy), Mean(Box(img, dw, dh, dx, dy)))
    ensures 0 < |Box(img, dw, dh, dx, dy)| <= CAPACITY ==>
              QuadAt(Scaled(img, dw, dh), 4 * Index(dw, dx, dy), Average(Box(img, dw, dh, dx, dy)))
  {
    RowsAt(Out(img, dw, dh), dw, dh, dx, dy);
    FlatAt(Rows(Out(img, dw, dh), dw, dh), Index(dw, dx, dy));
    if 0 < |Box(img, dw, dh, dx, dy)| <= CAPACITY {
      MeanIsAverage(Box(img, dw, dh, dx, dy));
    }
  }

  lemma MemberOfEither(p: Pixel, a: seq<Pixel>, b: seq<Pixel>)
    ensures p in a + b <==> p in a || p in b
  {
  }

  lemma {:induction false} RowHas(data: Bytes, row: nat, x0: nat, x1: nat, x: nat)
    requires x0 <= x < x1 && row + x * 4 + 3 < |data|
    ensures At(data, row + x * 4) in RowPixels(data, row, x0, x1)
    decreases x1
  {
    if x < x1 - 1 {
      RowHas(data, row, x0, x1 - 1, x);
    }
  }

  /** A box lists every readable pixel of its rows and columns. */
  lemma {:induction false} BoxHas(img: Image, x0: nat, x1: nat, y0: nat, y1: nat, x: nat, y: nat)
    requires x0 <= x < x1 && y0 <= y < y1 && Offset(img.stride, x, y) + 3 < |img.data|
    ensures At(img.data, Offset(img.stride, x, y)) in BoxPixels(img, x0, x1, y0, y1)
    decreases y1
  {
    var p := At(img.data, Offset(img.stride, x, y));
    var above, row := BoxPixels(img, x0, x1, y0, y1 - 1), RowPixels(img.data, Start(img.stride, y1 - 1), x0, x1);
    MemberOfEither(p, above, row);
    if y < y1 - 1 {
      BoxHas(img, x0, x1, y0, y1 - 1, x, y);
    } else {
      RowHas(img.data, Start(img.stride, y), x0, x1, x);
    }
  }

  /**
   Nothing is cropped: whatever the two sizes, every readable source pixel is averaged into the
   destination pixel that lies over it.
   */
  lemma NothingIsCropped(img: Image, dw: nat, dh: nat, x: nat, y: nat)
    requires dw > 0 && dh > 0 && x < img.width && y < img.height
    requires Offset(img.stride, x, y) + 3 < |img.data|
    ensures Over(x, img.width, dw) < dw && Over(y, img.height, dh) < dh
    ensures At(img.data, Offset(img.stride, x, y)) in Box(img, dw, dh, Over(x, img.width, dw), Over(y, img.height, dh))
  {
    EverySourceCellIsUsed(x, img.width, dw);
    EverySourceCellIsUsed(y, img.height, dh);
    var dx, dy := Over(x, img.width, dw), Over(y, img.height, dh);
    var x0, x1 := Lo(dx, img.width, dw), Hi(dx, img.width, dw);
    var y0, y1 := Lo(dy, img.height, dh), Hi(dy, img.height, dh);
    BoxHas(img, x0, x1, y0, y1, x, y);
  }

  ghost predicate RowWithin(data: Bytes, row: nat, x0: nat, x1: nat, lo: Pixel, hi: Pixel) {
    forall x: nat :: x0 <= x < x1 ==> AllBetween(lo, Readable(data, row + x * 4), hi)
  }

  /** Every readable pixel of the box is between `lo` and `hi`. */
  ghost predicate BoxWithin(img: Image, x0: nat, x1: nat, y0: nat, y1: nat, lo: Pixel, hi: Pixel) {
    forall y: nat :: y0 <= y < y1 ==> RowWithin(img.data, Start(img.stride, y), x0, x1, lo, hi)
  }

  lemma {:induction false} RowIsWithin(data: Bytes, row: nat, x0: nat, x1: nat, lo: Pixel, hi: Pixel)
    requires RowWithin(data, row, x0, x1, lo, hi)
    ensures AllBetween(lo, RowPixels(data, row, x0, x1), hi)
    decreases x1
  {
    if x0 < x1 {
      RowIsWithin(data, row, x0, x1 - 1, lo, hi);
      assert AllBetween(lo, Readable(data, row + (x1 - 1) * 4), hi);
    }
  }

  lemma {:induction false} BoxIsWithin(img: Image, x0: nat, x1: nat, y0: nat, y1: nat, lo: Pixel, hi: Pixel)
    requires BoxWithin(img, x0, x1, y0, y1, lo, hi)
    ensures AllBetween(lo, BoxPixels(img, x0, x1, y0, y1), hi)
    decreases y1
  {
    if y0 < y1 {
      BoxIsWithin(img, x0, x1, y0, y1 - 1, lo, hi);
      RowIsWithin(img.data, Start(img.stride, y1 - 1), x0, x1, lo, hi);
    }
  }

  /** While nothing wraps, each output channel lies between the smallest and the largest value of its box. */
  lemma OutputWithinBox(img: Image, dw: nat, dh: nat, dx: nat, dy: nat, lo: Pixel, hi: Pixel)
    requires dx < dw && dy < dh && 0 < |Box(img, dw, dh, dx, dy)| <= CAPACITY
    requires BoxWithin(img, Lo(dx, img.width, dw), Hi(dx, img.width, dw),
                       Lo(dy, img.height, dh), Hi(dy, img.height, dh), lo, hi)
    ensures Between(lo, OutPixel(img, dw, dh, dx, dy), hi)
  {
    BoxIsWithin(img, Lo(dx, img.width, dw), Hi(dx, img.width, dw),
                Lo(dy, img.height, dh), Hi(dy, img.height, dh), lo, hi);
    MeanIsBetween(Box(img, dw, dh, dx, dy), lo, hi);
  }

  /** The buffer holds every pixel the dimensions declare; the last row needs no padding. */
  ghost predicate Untruncated(img: Image) {
    img.height > 0 && img.width > 0 && Start(img.stride, img.height - 1) + 4 * img.width <= |img.data|
  }

  lemma PixelInBuffer(img: Image, x: nat, y: nat)
    requires Untruncated(img) && x < img.width && y < img.height
    ensures Offset(img.stride, x, y) + 3 < |img.data|
  {
    TimesMono(img.stride, y, img.height - 1);
  }

  /** In an untruncated image no box is empty, so every destination pixel is a real average. */
  lemma EveryBoxHasPixels(img: Image, dw: nat, dh: nat, dx: nat, dy: nat)
    requires Untruncated(img) && dx < dw && dy < dh
    ensures Box(img, dw, dh, dx, dy) != []
  {
    BoxInRange(dx, img.width, dw);
    BoxInRange(dy, img.height, dh);
    var x0, x1 := Lo(dx, img.width, dw), Hi(dx, img.width, dw);
    var y0, y1 := Lo(dy, img.height, dh), Hi(dy, img.height, dh);
    PixelInBuffer(img, x0, y0);
    BoxHas(img, x0, x1, y0, y1, x0, y0);
  }

  lemma SinglePixelMean(p: Pixel)
    ensures Mean([p]) == p
  {
    MeanIsBetween([p], p, p);
  }

  lemma OneCellBox(img: Image, x: nat, y: nat)
    requires Offset(img.stride, x, y) + 3 < |img.data|
    ensures BoxPixels(img, x, x + 1, y, y + 1) == [At(img.data, Offset(img.stride, x, y))]
  {
    assert RowPixels(img.data, Start(img.stride, y), x, x) == [];
    assert BoxPixels(img, x, x + 1, y, y) == [];
  }

  /** At equal sizes the box of a pixel is its own cell. */
  lemma SameSizeBox(img: Image, x: nat, y: nat)
    requires x < img.width && y < img.height
    ensures Box(img, img.width, img.height, x, y) == BoxPixels(img, x, x + 1, y, y + 1)
  {
    EqualSizesAreOneToOne(x, img.width);
    EqualSizesAreOneToOne(y, img.height);
  }

  lemma QuadBytes(out: Bytes, o: nat, data: Bytes, i: nat, c: nat)
    requires i + 3 < |data| && QuadAt(out, o, At(data, i)) && c < 4
    ensures o + c < |out| && out[o + c] == data[i + c]
  {
  }

  lemma SameSizeQuad(img: Image, x: nat, y: nat)
    requires Untruncated(img) && x < img.width && y < img.height
    ensures Offset(img.stride, x, y) + 3 < |img.data|
    ensures QuadAt(Scaled(img, img.width, img.height), 4 * Index(img.width, x, y), At(img.data, Offset(img.stride, x, y)))
  {
    PixelInBuffer(img, x, y);
    OneCellBox(img, x, y);
    SinglePixelMean(At(img.data, Offset(img.stride, x, y)));
    SameSizeBox(img, x, y);
    OutputAt(img, img.width, img.height, x, y);
  }

  /** Equal sizes give an exact copy of the pixels with the row padding removed. */
  lemma SameSizeIsCopy(img: Image, x: nat, y: nat, c: nat)
    requires Untruncated(img) && x < img.width && y < img.height && c < 4
    ensures 4 * Index(img.width, x, y) + c < |Scaled(img, img.width, img.height)|
    ensures Offset(img.stride, x, y) + c < |img.data|
    ensures Scaled(img, img.width, img.height)[4 * Index(img.width, x, y) + c] == img.data[Offset(img.stride, x, y) + c]
  {
    SameSizeQuad(img, x, y);
    QuadBytes(Scaled(img, img.width, img.height), 4 * Index(img.width, x, y), img.data, Offset(img.stride, x, y), c);
  }
}

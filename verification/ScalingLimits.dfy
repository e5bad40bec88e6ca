/**
 How large a box the 32-bit accumulators of the resampler can average: exactly 16 843 009 pixels. Beyond
 that there is always an image whose output leaves the range of the pixels it averages.
 */
module ScalingLimits {
  import opened Prelude
  import opened Scaling

  function Span(d: nat, s: nat, n: nat): nat
    requires n > 0
  {
    Hi(d, s, n) - Lo(d, s, n)
  }

  /** The number of source pixels under destination pixel (dx, dy). */
  function Area(width: nat, height: nat, dw: nat, dh: nat, dx: nat, dy: nat): nat
    requires dw > 0 && dh > 0
  {
    Times(Span(dx, width, dw), Span(dy, height, dh))
  }

  /** Whatever bounds the pixels of the box bounds the output as well. */
  ghost predicate StaysInside(img: Image, dw: nat, dh: nat, dx: nat, dy: nat)
    requires dw > 0 && dh > 0
  {
    forall lo, hi :: BoxWithin(img, Lo(dx, img.width, dw), Hi(dx, img.width, dw),
                               Lo(dy, img.height, dh), Hi(dy, img.height, dh), lo, hi) ==>
                       Between(lo, OutPixel(img, dw, dh, dx, dy), hi)
  }

  // ----- Counting -----

  lemma {:induction false} RowCountExactly(data: Bytes, row: nat, x0: nat, x1: nat)
    requires x0 <= x1 && row + 4 * x1 <= |data|
    ensures |RowPixels(data, row, x0, x1)| == x1 - x0
    decreases x1
  {
    if x0 < x1 {
      RowCountExactly(data, row, x0, x1 - 1);
    }
  }

  lemma RowInBuffer(img: Image, x1: nat, y: nat)
    requires Untruncated(img) && x1 <= img.width && y < img.height
    ensures Start(img.stride, y) + 4 * x1 <= |img.data|
  {
    TimesMono(img.stride, y, img.height - 1);
  }

  /** The first `y1` rows reach column `x1` inside the buffer. */
  ghost predicate Reaches(img: Image, x1: nat, y1: nat) {
    forall y: nat :: y < y1 ==> Start(img.stride, y) + 4 * x1 <= |img.data|
  }

  lemma {:induction false} BoxCountExactly(img: Image, x0: nat, x1: nat, y0: nat, y1: nat)
    requires Reaches(img, x1, y1) && x0 <= x1 && y0 <= y1
    ensures |BoxPixels(img, x0, x1, y0, y1)| == Times(x1 - x0, y1 - y0)
    decreases y1
  {
    if y0 < y1 {
      BoxCountExactly(img, x0, x1, y0, y1 - 1);
      RowCountExactly(img.data, Start(img.stride, y1 - 1), x0, x1);
    }
  }

  lemma UntruncatedReaches(img: Image, x1: nat, y1: nat)
    requires Untruncated(img) && x1 <= img.width && y1 <= img.height
    ensures Reaches(img, x1, y1)
  {
    forall y: nat | y < y1
      ensures Start(img.stride, y) + 4 * x1 <= |img.data|
    {
      RowInBuffer(img, x1, y);
    }
  }

  lemma CountIsArea(img: Image, dw: nat, dh: nat, dx: nat, dy: nat)
    requires Untruncated(img) && dx < dw && dy < dh
    ensures |Box(img, dw, dh, dx, dy)| == Area(img.width, img.height, dw, dh, dx, dy)
  {
    BoxInRange(dx, img.width, dw);
    BoxInRange(dy, img.height, dh);
    UntruncatedReaches(img, Hi(dx, img.width, dw), Hi(dy, img.height, dh));
    BoxCountExactly(img, Lo(dx, img.width, dw), Hi(dx, img.width, dw), Lo(dy, img.height, dh), Hi(dy, img.height, dh));
  }

  // ----- Up to the capacity -----

  lemma SmallBoxesStayInside(img: Image, dw: nat, dh: nat, dx: nat, dy: nat)
    requires Untruncated(img) && dx < dw && dy < dh
    requires Area(img.width, img.height, dw, dh, dx, dy) <= CAPACITY
    ensures StaysInside(img, dw, dh, dx, dy)
  {
    CountIsArea(img, dw, dh, dx, dy);
    EveryBoxHasPixels(img, dw, dh, dx, dy);
    forall lo, hi | BoxWithin(img, Lo(dx, img.width, dw), Hi(dx, img.width, dw),
                              Lo(dy, img.height, dh), Hi(dy, img.height, dh), lo, hi)
      ensures Between(lo, OutPixel(img, dw, dh, dx, dy), hi)
    {
      OutputWithinBox(img, dw, dh, dx, dy, lo, hi);
    }
  }

  // ----- A white image -----

  function Uniform(n: nat, v: U8): Bytes {
    seq(n, _ => v)
  }

  lemma ModOfSum(q: nat, t: nat)
    ensures (q * WORD + t) % WORD == t % WORD
  {
  }

  /** Past the capacity, and while the count itself has not wrapped back below it, white does not stay white. */
  lemma WrappedWhite(n: nat, t: nat)
    requires SumBetween(255, t, n, 255) && n % WORD > CAPACITY
    ensures Quotient(t % WORD, n % WORD) < 255
  {
    var q, a := n / WORD, n % WORD;
    assert t == 255 * n == 255 * q * WORD + 255 * a;
    ModOfSum(255 * q, 255 * a);
    assert t % WORD == (255 * a) % WORD <= 255 * a - WORD;
    FloorExactly(t % WORD, a, 254);
  }

  lemma WhiteFails(ps: seq<Pixel>)
    requires AllBetween(White, ps, White) && (|ps| % WORD == 0 || |ps| % WORD > CAPACITY)
    ensures Mean(ps).b < 255
  {
    TotalWraps(ps);
    CountWraps(ps);
    TotalIsBetween(ps, White, White);
    if |ps| % WORD > CAPACITY {
      WrappedWhite(|ps|, ExactTotal(ps).b);
    }
  }

  lemma WhiteIsWhite(img: Image, x0: nat, x1: nat, y0: nat, y1: nat)
    requires forall i :: 0 <= i < |img.data| ==> img.data[i] == 255
    ensures BoxWithin(img, x0, x1, y0, y1, White, White)
  {
  }

  lemma WhiteLeavesBox(img: Image, dw: nat, dh: nat, dx: nat, dy: nat)
    requires Untruncated(img) && dx < dw && dy < dh
    requires forall i :: 0 <= i < |img.data| ==> img.data[i] == 255
    requires var a := Area(img.width, img.height, dw, dh, dx, dy) % WORD; a == 0 || a > CAPACITY
    ensures !StaysInside(img, dw, dh, dx, dy)
  {
    var x0, x1 := Lo(dx, img.width, dw), Hi(dx, img.width, dw);
    var y0, y1 := Lo(dy, img.height, dh), Hi(dy, img.height, dh);
    CountIsArea(img, dw, dh, dx, dy);
    WhiteIsWhite(img, x0, x1, y0, y1);
    BoxIsWithin(img, x0, x1, y0, y1, White, White);
    WhiteFails(Box(img, dw, dh, dx, dy));
    assert !Between(White, OutPixel(img, dw, dh, dx, dy), White);
  }

  // ----- A partly lit image, for boxes whose count wraps to a small number -----

  /** Whether pixel (x, y) is lit: `q` whole rows from (x0, y0) on, and `r` pixels of the next. */
  function Lit(x: nat, y: nat, x0: nat, y0: nat, q: nat, r: nat): U8 {
    if y < y0 + q || (y == y0 + q && x < x0 + r) then 1 else 0
  }

  function Gray(v: U8): Pixel {
    Pixel(v, v, v, v)
  }

  /** A buffer whose every pixel is `Gray(Lit(...))`. */
  function Steps(n: nat, stride: nat, x0: nat, y0: nat, q: nat, r: nat): (data: Bytes)
    requires stride > 0
    ensures |data| == n
  {
    seq(n, i requires 0 <= i < n => Lit(i % stride / 4, i / stride, x0, y0, q, r))
  }

  lemma PlaceOf(stride: nat, x: nat, y: nat, c: nat)
    requires c < 4 && 4 * x + c < stride
    ensures var i := Start(stride, y) + 4 * x + c; i / stride == y && i % stride / 4 == x
  {
    var i := Start(stride, y) + 4 * x + c;
    TimesIsProduct(stride, y);
    FloorExactly(i, stride, y);
    assert (y + 1) * stride == y * stride + stride;
    if y > 0 {
      FloorExactly(i, stride, y - 1);
    }
    assert i / stride == y;
    assert i == i / stride * stride + i % stride;
  }

  lemma StepsAt(n: nat, stride: nat, x0: nat, y0: nat, q: nat, r: nat, x: nat, y: nat)
    requires 4 * x + 3 < stride && Offset(stride, x, y) + 3 < n
    ensures At(Steps(n, stride, x0, y0, q, r), Offset(stride, x, y)) == Gray(Lit(x, y, x0, y0, q, r))
  {
    PlaceOf(stride, x, y, 0);
    PlaceOf(stride, x, y, 1);
    PlaceOf(stride, x, y, 2);
    PlaceOf(stride, x, y, 3);
  }

  lemma {:induction false} BlueConcat(a: seq<Pixel>, b: seq<Pixel>)
    ensures ExactTotal(a + b).b == ExactTotal(a).b + ExactTotal(b).b
    decreases |b|
  {
    if b == [] {
      assert a + b == a;
    } else {
      var n := |b| - 1;
      BlueConcat(a, b[..n]);
      assert (a + b)[..|a| + n] == a + b[..n];
    }
  }

  lemma BlueOfOne(p: Pixel)
    ensures ExactTotal([p]).b == p.b
  {
    var one := [p];
    assert one[..0] == [];
    assert ExactTotal(one[..0]) == Exact(0, 0, 0, 0);
  }

  /** The lit pixels of row `y` among columns [x0, x0 + k). */
  function LitInRow(y: nat, y0: nat, q: nat, r: nat, k: nat): nat {
    if y < y0 + q then k else if y == y0 + q then Min(k, r) else 0
  }

  ghost predicate BlueAt(data: Bytes, row: nat, x: nat, v: U8) {
    row + x * 4 + 3 < |data| && data[row + x * 4] == v
  }

  /** The row at offset `row` shows the pattern of row `y` up to column `x1`. */
  ghost predicate RowLit(data: Bytes, row: nat, y: nat, x0: nat, x1: nat, y0: nat, q: nat, r: nat) {
    forall x: nat :: x0 <= x < x1 ==> BlueAt(data, row, x, Lit(x, y, x0, y0, q, r))
  }

  lemma StepsLit(n: nat, stride: nat, x0: nat, y0: nat, q: nat, r: nat, y: nat, x1: nat)
    requires stride > 0 && 4 * x1 <= stride && Start(stride, y) + 4 * x1 <= n
    ensures RowLit(Steps(n, stride, x0, y0, q, r), Start(stride, y), y, x0, x1, y0, q, r)
  {
    forall x: nat | x0 <= x < x1
      ensures BlueAt(Steps(n, stride, x0, y0, q, r), Start(stride, y), x, Lit(x, y, x0, y0, q, r))
    {
      StepsAt(n, stride, x0, y0, q, r, x, y);
    }
  }

  /** The blue channel summed along a row, and along the rows of a box. */
  function RowSum(data: Bytes, row: nat, x0: nat, x1: nat): nat {
    if x1 <= x0 then 0
    else RowSum(data, row, x0, x1 - 1) + if row + (x1 - 1) * 4 + 3 < |data| then data[row + (x1 - 1) * 4] else 0
  }

  function BoxSum(img: Image, x0: nat, x1: nat, y0: nat, y1: nat): nat {
    if y1 <= y0 then 0
    else BoxSum(img, x0, x1, y0, y1 - 1) + RowSum(img.data, Start(img.stride, y1 - 1), x0, x1)
  }

  lemma {:induction false} RowSumIsBlue(data: Bytes, row: nat, x0: nat, x1: nat)
    ensures ExactTotal(RowPixels(data, row, x0, x1)).b == RowSum(data, row, x0, x1)
    decreases x1
  {
    if x0 < x1 {
      RowSumIsBlue(data, row, x0, x1 - 1);
      var last := Readable(data, row + (x1 - 1) * 4);
      BlueConcat(RowPixels(data, row, x0, x1 - 1), last);
      if last != [] {
        BlueOfOne(last[0]);
        assert last == [last[0]];
      }
    }
  }

  lemma {:induction false} BoxSumIsBlue(img: Image, x0: nat, x1: nat, y0: nat, y1: nat)
    ensures ExactTotal(BoxPixels(img, x0, x1, y0, y1)).b == BoxSum(img, x0, x1, y0, y1)
    decreases y1
  {
    if y0 < y1 {
      BoxSumIsBlue(img, x0, x1, y0, y1 - 1);
      RowSumIsBlue(img.data, Start(img.stride, y1 - 1), x0, x1);
      BlueConcat(BoxPixels(img, x0, x1, y0, y1 - 1), RowPixels(img.data, Start(img.stride, y1 - 1), x0, x1));
    }
  }

  lemma {:induction false} RowBlue(data: Bytes, row: nat, y: nat, x0: nat, x1: nat, y0: nat, q: nat, r: nat)
    requires x0 <= x1 && RowLit(data, row, y, x0, x1, y0, q, r)
    ensures RowSum(data, row, x0, x1) == LitInRow(y, y0, q, r, x1 - x0)
    decreases x1
  {
    if x0 < x1 {
      var x := x1 - 1;
      RowBlue(data, row, y, x0, x, y0, q, r);
      assert BlueAt(data, row, x, Lit(x, y, x0, y0, q, r));
    }
  }

  /** The lit pixels of the first `k` rows of a box `w` wide. */
  function LitInRows(w: nat, q: nat, r: nat, k: nat): nat {
    if k <= q then Times(w, k) else Times(w, q) + r
  }

  lemma LitRowsGrow(w: nat, q: nat, r: nat, k: nat, y0: nat)
    requires r <= w
    ensures LitInRows(w, q, r, k + 1) == LitInRows(w, q, r, k) + LitInRow(y0 + k, y0, q, r, w)
  {
  }

  ghost predicate BoxLit(img: Image, x0: nat, x1: nat, y0: nat, y1: nat, q: nat, r: nat) {
    forall y: nat :: y0 <= y < y1 ==> RowLit(img.data, Start(img.stride, y), y, x0, x1, y0, q, r)
  }

  lemma {:induction false} BoxBlue(img: Image, x0: nat, x1: nat, y0: nat, y1: nat, q: nat, r: nat)
    requires BoxLit(img, x0, x1, y0, y1, q, r) && x0 <= x1 && y0 <= y1 && r <= x1 - x0
    ensures BoxSum(img, x0, x1, y0, y1) == LitInRows(x1 - x0, q, r, y1 - y0)
    decreases y1
  {
    if y0 < y1 {
      var y := y1 - 1;
      BoxBlue(img, x0, x1, y0, y, q, r);
      RowBlue(img.data, Start(img.stride, y), y, x0, x1, y0, q, r);
      LitRowsGrow(x1 - x0, q, r, y - y0, y0);
    }
  }

  lemma StepsLitBox(img: Image, x0: nat, x1: nat, y0: nat, y1: nat, q: nat, r: nat)
    requires Untruncated(img) && 4 * img.width <= img.stride && img.data == Steps(|img.data|, img.stride, x0, y0, q, r)
    requires x1 <= img.width && y1 <= img.height
    ensures BoxLit(img, x0, x1, y0, y1, q, r)
  {
    forall y: nat | y0 <= y < y1
      ensures RowLit(img.data, Start(img.stride, y), y, x0, x1, y0, q, r)
    {
      RowInBuffer(img, x1, y);
      StepsLit(|img.data|, img.stride, x0, y0, q, r, y, x1);
    }
  }

  /** All pixels of such an image are zero or one. */
  lemma StepsAreDim(img: Image, x0: nat, x1: nat, y0: nat, y1: nat)
    requires forall i :: 0 <= i < |img.data| ==> img.data[i] <= 1
    ensures BoxWithin(img, x0, x1, y0, y1, Black, Gray(1))
  {
  }

  lemma TwiceOver(a: nat)
    requires 0 < a <= CAPACITY
    ensures (2 * a) % WORD == 2 * a && ByteOf(2 * a, a) == 2
  {
    FloorExactly(2 * a, a, 2);
    FloorExactly(2 * a, a, 1);
  }

  /** A box of n + k * 2^32 pixels that counts as n, with 2 * n of them lit, comes out as 2. */
  lemma DimFails(ps: seq<Pixel>, a: nat)
    requires |ps| % WORD == a && 0 < a <= CAPACITY && ExactTotal(ps).b == 2 * a
    ensures Mean(ps).b == 2
  {
    TotalWraps(ps);
    CountWraps(ps);
    TwiceOver(a);
  }

  lemma RowsAndRest(k: nat, w: nat, h: nat)
    requires w > 0 && k <= Times(w, h)
    ensures k % w <= w && LitInRows(w, k / w, k % w, h) == k
  {
    var q, r := k / w, k % w;
    assert k == q * w + r;
    TimesIsProduct(w, q);
    assert k == Times(w, q) + r;
    if h <= q {
      TimesMono(w, h, q);
    }
  }

  /** The lit image for a box of `area` pixels that counts as only `area % 2^32` of them. */
  lemma LitBox(img: Image, x0: nat, x1: nat, y0: nat, y1: nat, lit: nat)
    requires Untruncated(img) && 4 * img.width <= img.stride && x0 < x1 <= img.width && y0 <= y1 <= img.height
    requires lit <= Times(x1 - x0, y1 - y0)
    requires img.data == Steps(|img.data|, img.stride, x0, y0, lit / (x1 - x0), lit % (x1 - x0))
    ensures ExactTotal(BoxPixels(img, x0, x1, y0, y1)).b == lit
    ensures BoxWithin(img, x0, x1, y0, y1, Black, Gray(1))
  {
    var q, r := lit / (x1 - x0), lit % (x1 - x0);
    RowsAndRest(lit, x1 - x0, y1 - y0);
    StepsLitBox(img, x0, x1, y0, y1, q, r);
    BoxBlue(img, x0, x1, y0, y1, q, r);
    BoxSumIsBlue(img, x0, x1, y0, y1);
    StepsAreDim(img, x0, x1, y0, y1);
  }

  lemma TwiceFits(area: nat)
    requires 0 < area % WORD <= CAPACITY < area
    ensures 2 * (area % WORD) <= area
  {
    assert area == area / WORD * WORD + area % WORD;
  }

  /** An image of zeroes and ones whose box [x0, x1) by [y0, y1) comes out as 2. */
  lemma DimImage(width: nat, height: nat, stride: nat, x0: nat, x1: nat, y0: nat, y1: nat) returns (img: Image)
    requires 4 * width <= stride && x0 < x1 <= width && y0 < y1 <= height
    requires 0 < Times(x1 - x0, y1 - y0) % WORD <= CAPACITY < Times(x1 - x0, y1 - y0)
    ensures img == Image(img.data, width, height, stride) && Untruncated(img)
    ensures BoxWithin(img, x0, x1, y0, y1, Black, Gray(1)) && Mean(BoxPixels(img, x0, x1, y0, y1)).b == 2
  {
    var area := Times(x1 - x0, y1 - y0);
    TwiceFits(area);
    var lit := 2 * (area % WORD);
    var data := Steps(BufferSize(width, height, stride), stride, x0, y0, lit / (x1 - x0), lit % (x1 - x0));
    img := Image(data, width, height, stride);
    UntruncatedReaches(img, x1, y1);
    BoxCountExactly(img, x0, x1, y0, y1);
    LitBox(img, x0, x1, y0, y1, lit);
    DimFails(BoxPixels(img, x0, x1, y0, y1), area % WORD);
  }

  lemma DimLeavesBox(width: nat, height: nat, stride: nat, dw: nat, dh: nat, dx: nat, dy: nat) returns (data: Bytes)
    requires width > 0 && height > 0 && 4 * width <= stride && dx < dw && dy < dh
    requires 0 < Area(width, height, dw, dh, dx, dy) % WORD <= CAPACITY < Area(width, height, dw, dh, dx, dy)
    ensures Untruncated(Image(data, width, height, stride))
    ensures !StaysInside(Image(data, width, height, stride), dw, dh, dx, dy)
  {
    BoxInRange(dx, width, dw);
    BoxInRange(dy, height, dh);
    var img := DimImage(width, height, stride, Lo(dx, width, dw), Hi(dx, width, dw), Lo(dy, height, dh), Hi(dy, height, dh));
    data := img.data;
    assert !Between(Black, OutPixel(img, dw, dh, dx, dy), Gray(1));
  }

  /** The smallest buffer that holds such an image. */
  function BufferSize(width: nat, height: nat, stride: nat): nat
    requires height > 0
  {
    Start(stride, height - 1) + 4 * width
  }

  // ----- Exactly -----

  lemma LargeBoxesCanLeave(width: nat, height: nat, stride: nat, dw: nat, dh: nat, dx: nat, dy: nat) returns (data: Bytes)
    requires width > 0 && height > 0 && dx < dw && dy < dh
    requires 4 * width <= stride || Area(width, height, dw, dh, dx, dy) < WORD
    requires Area(width, height, dw, dh, dx, dy) > CAPACITY
    ensures Untruncated(Image(data, width, height, stride))
    ensures !StaysInside(Image(data, width, height, stride), dw, dh, dx, dy)
  {
    var a := Area(width, height, dw, dh, dx, dy) % WORD;
    if a == 0 || a > CAPACITY {
      data := Uniform(BufferSize(width, height, stride), 255);
      WhiteLeavesBox(Image(data, width, height, stride), dw, dh, dx, dy);
    } else {
      data := DimLeavesBox(width, height, stride, dw, dh, dx, dy);
    }
  }

  /**
   For a complete buffer: the output of a box stays within the pixels of the box for all pixel data if and
   only if the box has at most 16 843 009 pixels. Only where the count itself wraps, at 2^32 pixels, do the
   rows have to be distinct: a zero stride there can make all pixels one and the same.
   */
  lemma StaysInsideExactly(width: nat, height: nat, stride: nat, dw: nat, dh: nat, dx: nat, dy: nat)
    requires width > 0 && height > 0 && dx < dw && dy < dh
    requires 4 * width <= stride || Area(width, height, dw, dh, dx, dy) < WORD
    ensures (forall data: Bytes :: Untruncated(Image(data, width, height, stride)) ==>
               StaysInside(Image(data, width, height, stride), dw, dh, dx, dy))
       <==> Area(width, height, dw, dh, dx, dy) <= CAPACITY
  {
    if Area(width, height, dw, dh, dx, dy) <= CAPACITY {
      forall data: Bytes | Untruncated(Image(data, width, height, stride))
        ensures StaysInside(Image(data, width, height, stride), dw, dh, dx, dy)
      {
        SmallBoxesStayInside(Image(data, width, height, stride), dw, dh, dx, dy);
      }
    } else {
      var data := LargeBoxesCanLeave(width, height, stride, dw, dh, dx, dy);
    }
  }
}

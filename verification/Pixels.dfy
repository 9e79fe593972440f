/**
  The pixel loops of `compress_image_to_jpeg` in jpeg_utils.c. The frame buffer is read
  through a pointer without a limit, so memory is a total function.
 */
module Pixels {
  import opened Bits

  /** Two pixels in four bytes: Y0 U Y1 V, or U Y0 V Y1. */
  datatype Packing = Yuyv | Uyvy {
    function Luma(odd: bool): nat {
      match this
      case Yuyv => if odd then 2 else 0
      case Uyvy => if odd then 3 else 1
    }
    function U(): nat { if Yuyv? then 1 else 0 }
    function V(): nat { if Yuyv? then 3 else 2 }
  }

  function Limit(v: int): byte {
    if v > 255 then 255 else if v < 0 then 0 else v as byte
  }

  /** Lines 179-192; `>> 8` rounds down, and so does division by 256. */
  function ToRgb(y: byte, u: byte, v: byte): (rgb: seq<byte>)
    ensures |rgb| == 3
  {
    var y', u', v' := y as int * 256, u as int - 128, v as int - 128;
    [Limit((y' + 359 * v') / 256), Limit((y' - 88 * u' - 183 * v') / 256), Limit((y' + 454 * u') / 256)]
  }

  /** Without colour a pixel is its brightness. */
  lemma Neutral(y: byte)
    ensures ToRgb(y, 128, 128) == [y, y, y]
  {
  }

  // What the conversion is for: the equations of section 7 of ITU-T T.871, in millionths

  /** Red is Y + 1.402 (Cr - 128), ... */
  function Red(y: byte, cr: byte): int {
    1000000 * y as int + 1402000 * (cr as int - 128)
  }

  /** ... green is Y - 0.344136 (Cb - 128) - 0.714136 (Cr - 128), ... */
  function Green(y: byte, cb: byte, cr: byte): int {
    1000000 * y as int - 344136 * (cb as int - 128) - 714136 * (cr as int - 128)
  }

  /** ... and blue is Y + 1.772 (Cb - 128), ... */
  function Blue(y: byte, cb: byte): int {
    1000000 * y as int + 1772000 * (cb as int - 128)
  }

  /** ... each brought into the range of a byte. */
  function InRange(millionths: int): int {
    if millionths < 0 then 0 else if millionths > 255000000 then 255000000 else millionths
  }

  /** Rounded down, and off by at most `slack` millionths otherwise. */
  predicate Near(c: byte, millionths: int, slack: nat) {
    -1000000 - slack < 1000000 * c as int - InRange(millionths) <= slack
  }

  /** Every component is the standard's, rounded down, within a fifth; U is Cb, and V is Cr. */
  lemma ConversionIsStandard(y: byte, u: byte, v: byte)
    ensures Near(ToRgb(y, u, v)[0], Red(y, v), 44000)
    ensures Near(ToRgb(y, u, v)[1], Green(y, u, v), 141000)
    ensures Near(ToRgb(y, u, v)[2], Blue(y, u), 184000)
  {
    RedIsNear(y, v);
    GreenIsNear(y, u, v);
    BlueIsNear(y, u);
    hide Near, Red, Green, Blue;
  }

  lemma RedIsNear(y: byte, v: byte)
    ensures Near(Limit((y as int * 256 + 359 * (v as int - 128)) / 256), Red(y, v), 44000)
  {
  }

  lemma GreenIsNear(y: byte, u: byte, v: byte)
    ensures Near(Limit((y as int * 256 - 88 * (u as int - 128) - 183 * (v as int - 128)) / 256), Green(y, u, v), 141000)
  {
  }

  lemma BlueIsNear(y: byte, u: byte)
    ensures Near(Limit((y as int * 256 + 454 * (u as int - 128)) / 256), Blue(y, u), 184000)
  {
  }

  /** A colour that has not been limited. */
  predicate Inside(rgb: seq<byte>) {
    |rgb| == 3 && forall i :: 0 <= i < 3 ==> 0 < rgb[i] < 255
  }

  /** In thousandths. */
  function LumaOf(rgb: seq<byte>): int
    requires |rgb| == 3
  {
    299 * rgb[0] as int + 587 * rgb[1] as int + 114 * rgb[2] as int
  }

  /**
    A colour that has not been limited can be undone: brightness comes back to about 1.1, and
    the colour differences, B less brightness (1.772 of U) and R less brightness (1.402 of V), too.
   */
  lemma ColourComesBack(y: byte, u: byte, v: byte)
    requires Inside(ToRgb(y, u, v))
    ensures var rgb := ToRgb(y, u, v); var luma := LumaOf(rgb);
      && -1090 <= luma - 1000 * y as int <= 90
      && -1062 <= 1000 * rgb[2] as int - luma - 1772 * (u as int - 128) <= 1062
      && -836 <= 1000 * rgb[0] as int - luma - 1402 * (v as int - 128) <= 836
  {
    var y', u', v' := y as int * 256, u as int - 128, v as int - 128;
    var rgb := ToRgb(y, u, v);
    assert 0 < rgb[0] < 255 && 0 < rgb[1] < 255 && 0 < rgb[2] < 255;
    assert rgb[0] as int == (y' + 359 * v') / 256;
    assert rgb[1] as int == (y' - 88 * u' - 183 * v') / 256;
    assert rgb[2] as int == (y' + 454 * u') / 256;
  }

  /** The colour at an offset into the frame. */
  function ColourAt(f: Packing, m: Memory, odd: bool, start: nat): (rgb: seq<byte>)
    ensures |rgb| == 3
  {
    ToRgb(m(start + f.Luma(odd)), m(start + f.U()), m(start + f.V()))
  }

  /** Pixel number `p` in row-major order, wherever the rows end. */
  function Pixel(f: Packing, m: Memory, p: nat): (rgb: seq<byte>)
    ensures |rgb| == 3
  {
    ColourAt(f, m, p % 2 == 1, 4 * (p / 2))
  }

  /** `n` pixels from number `p` on. */
  function PixelRun(f: Packing, m: Memory, p: nat, n: nat): (bytes: seq<byte>)
    ensures |bytes| == 3 * n
  {
    if n == 0 then [] else PixelRun(f, m, p, n - 1) + Pixel(f, m, p + n - 1)
  }

  lemma {:induction false} PixelRunConcat(f: Packing, m: Memory, p: nat, a: nat, b: nat)
    ensures PixelRun(f, m, p, a + b) == PixelRun(f, m, p, a) + PixelRun(f, m, p + a, b)
  {
    hide Pixel;
    if b > 0 {
      PixelRunConcat(f, m, p, a, b - 1);
    }
  }

  lemma PixelInRun(f: Packing, m: Memory, n: nat, p: nat)
    requires p < n
    ensures PixelRun(f, m, 0, n)[3 * p..3 * p + 3] == Pixel(f, m, p)
  {
    hide *;
    PixelRunConcat(f, m, 0, p + 1, n - p - 1);
    PixelRunNext(f, m, p);
    Middle(PixelRun(f, m, 0, p), Pixel(f, m, p), PixelRun(f, m, p + 1, n - p - 1));
  }

  /** Pixel number `p` of an image comes from the four bytes at 4 * (p / 2): Y0 U Y1 V, or U Y0 V Y1. */
  lemma PixelAt(f: Packing, m: Memory, n: nat, p: nat)
    requires p < n
    ensures var at := 4 * (p / 2);
      PixelRun(f, m, 0, n)[3 * p..3 * p + 3]
      == if f.Yuyv? then ToRgb(m(if p % 2 == 0 then at else at + 2), m(at + 1), m(at + 3))
         else ToRgb(m(if p % 2 == 0 then at + 1 else at + 3), m(at), m(at + 2))
  {
    hide ToRgb, PixelRun;
    PixelInRun(f, m, n, p);
  }

  lemma PixelRunNext(f: Packing, m: Memory, p: nat)
    ensures PixelRun(f, m, 0, p + 1) == PixelRun(f, m, 0, p) + Pixel(f, m, p)
    ensures |PixelRun(f, m, 0, p)| == 3 * p && |Pixel(f, m, p)| == 3
  {
  }

  lemma Middle(a: seq<byte>, b: seq<byte>, c: seq<byte>)
    ensures (a + b + c)[|a|..|a| + |b|] == b
  {
  }

  /** The loop's `z` and `yuyv` before pixel number `p`. */
  ghost predicate At(p: nat, z: bool, start: nat) {
    z == (p % 2 == 1) && start == 4 * (p / 2)
  }

  lemma AtPixel(f: Packing, m: Memory, p: nat, z: bool, start: nat)
    requires At(p, z, start)
    ensures ColourAt(f, m, z, start) == Pixel(f, m, p)
    ensures At(p + 1, !z, if z then start + 4 else start)
  {
    hide ColourAt;
    var half := p / 2;
    assert p == 2 * half + if z then 1 else 0;
    assert (p + 1) / 2 == if z then half + 1 else half;
  }

  /** Lines 175-198: one row. */
  method Row(f: Packing, m: Memory, width: nat, line: array<byte>, z0: bool, start0: nat, ghost p: nat)
    returns (z: bool, start: nat)
    requires line.Length == 3 * width && At(p, z0, start0)
    modifies line
    ensures At(p + width, z, start)
    ensures line[..] == PixelRun(f, m, p, width)
  {
    z, start := z0, start0;
    hide ColourAt, At, Pixel;
    for x := 0 to width
      invariant At(p + x, z, start)
      invariant line[..3 * x] == PixelRun(f, m, p, x)
    {
      AtPixel(f, m, p + x, z, start);
      var rgb := ColourAt(f, m, z, start);
      ghost var before := line[..3 * x];
      line[3 * x], line[3 * x + 1], line[3 * x + 2] := rgb[0], rgb[1], rgb[2];
      assert line[..3 * (x + 1)] == before + rgb;
      if z {
        z := false;
        start := start + 4;
      } else {
        z := true;
      }
    }
    assert line[..3 * width] == line[..];
  }

  /** Lines 168-202, and 240-273: what is handed to the compressor, row by row. */
  method Image(f: Packing, m: Memory, width: nat, height: nat) returns (image: seq<byte>)
    ensures image == PixelRun(f, m, 0, width * height)
  {
    var line := new byte[3 * width];
    var z, start, row := false, 0, 0;
    ghost var p: nat := 0;
    image := [];
    FirstRow(f, m, width);
    hide *;
    while row < height
      invariant row <= height && BeforeRow(f, m, image, p, row, width) && At(p, z, start)
    {
      z, start := Row(f, m, width, line, z, start, p);
      var bytes := line[..];
      NextRow(f, m, image, bytes, p, row, width);
      image := image + bytes;
      p := p + width;
      row := row + 1;
    }
    LastRow(f, m, image, p, width, height);
  }

  /** `row` rows have been handed over. */
  ghost predicate BeforeRow(f: Packing, m: Memory, image: seq<byte>, p: nat, row: nat, width: nat) {
    p == row * width && image == PixelRun(f, m, 0, p)
  }

  lemma FirstRow(f: Packing, m: Memory, width: nat)
    ensures BeforeRow(f, m, [], 0, 0, width) && At(0, false, 0)
  {
  }

  lemma NextRow(f: Packing, m: Memory, image: seq<byte>, bytes: seq<byte>, p: nat, row: nat, width: nat)
    requires BeforeRow(f, m, image, p, row, width) && bytes == PixelRun(f, m, p, width)
    ensures BeforeRow(f, m, image + bytes, p + width, row + 1, width)
  {
    PixelRunConcat(f, m, 0, p, width);
    MulDistributes(row, 1, width);
    hide PixelRun;
  }

  lemma LastRow(f: Packing, m: Memory, image: seq<byte>, p: nat, width: nat, height: nat)
    requires BeforeRow(f, m, image, p, height, width)
    ensures image == PixelRun(f, m, 0, width * height)
  {
    MulCommutes(width, height);
    hide PixelRun;
  }

  // Which bytes matter

  ghost predicate Agree(m: Memory, n: Memory, size: nat) {
    forall i: nat :: i < size ==> m(i) == n(i)
  }

  lemma SamePixel(f: Packing, m: Memory, n: Memory, size: nat, p: nat)
    requires Agree(m, n, size) && 4 * (p / 2) + 4 <= size
    ensures Pixel(f, m, p) == Pixel(f, n, p)
  {
    var at := 4 * (p / 2);
    hide ToRgb;
    assert m(at + f.Luma(p % 2 == 1)) == n(at + f.Luma(p % 2 == 1));
    assert m(at + f.U()) == n(at + f.U()) && m(at + f.V()) == n(at + f.V());
  }

  lemma {:induction false} SamePixels(f: Packing, m: Memory, n: Memory, size: nat, k: nat)
    requires Agree(m, n, size) && 4 * ((k + 1) / 2) <= size
    ensures PixelRun(f, m, 0, k) == PixelRun(f, n, 0, k)
  {
    hide Pixel, Agree;
    if k > 0 {
      SamePixels(f, m, n, size, k - 1);
      SamePixel(f, m, n, size, k - 1);
    }
  }

  /** The image is a function of the `2 * width * height` bytes of the frame exactly when the pixels are even in number. */
  lemma OnlyTheFrameMatters(f: Packing, pixels: nat)
    ensures (forall m: Memory, n: Memory :: Agree(m, n, 2 * pixels) ==>
              PixelRun(f, m, 0, pixels) == PixelRun(f, n, 0, pixels))
            <==> pixels % 2 == 0
  {
    if pixels % 2 == 0 {
      forall m: Memory, n: Memory | Agree(m, n, 2 * pixels)
        ensures PixelRun(f, m, 0, pixels) == PixelRun(f, n, 0, pixels)
      {
        SamePixels(f, m, n, 2 * pixels, pixels);
      }
    } else {
      BeyondTheFrame(f, pixels);
    }
  }

  lemma BeyondTheFrame(f: Packing, pixels: nat)
    requires pixels % 2 == 1
    ensures exists m: Memory, n: Memory :: Agree(m, n, 2 * pixels)
              && PixelRun(f, m, 0, pixels) != PixelRun(f, n, 0, pixels)
  {
    var m: Memory := (i: nat) => 128;
    var n: Memory := (i: nat) => if i < 2 * pixels then 128 else 255;
    assert Agree(m, n, 2 * pixels);
    DifferentRuns(f, m, n, pixels);
  }

  lemma DifferentRuns(f: Packing, m: Memory, n: Memory, pixels: nat)
    requires pixels % 2 == 1
    requires forall i: nat :: m(i) == 128 && n(i) == if i < 2 * pixels then 128 else 255
    ensures PixelRun(f, m, 0, pixels) != PixelRun(f, n, 0, pixels)
  {
    hide *;
    LastPixels(f, m, n, pixels);
    PixelInRun(f, m, pixels, pixels - 1);
    PixelInRun(f, n, pixels, pixels - 1);
  }

  lemma LastPixels(f: Packing, m: Memory, n: Memory, pixels: nat)
    requires pixels % 2 == 1
    requires forall i: nat :: m(i) == 128 && n(i) == if i < 2 * pixels then 128 else 255
    ensures Pixel(f, m, pixels - 1) != Pixel(f, n, pixels - 1)
  {
    var at := 2 * (pixels - 1);
    assert at == 4 * ((pixels - 1) / 2) && (pixels - 1) % 2 == 0;
    assert ToRgb(128, 128, 128)[0] == 128;
    assert Pixel(f, n, pixels - 1)[0] > 128;
  }

  // The two orders of bytes

  function Swapped(m: Memory): Memory {
    (i: nat) => m(if i % 2 == 0 then i + 1 else i - 1)
  }

  lemma SwappedPixel(m: Memory, p: nat)
    ensures Pixel(Uyvy, m, p) == Pixel(Yuyv, Swapped(m), p)
  {
    var half := p / 2;
    var at := 4 * half;
    assert at % 2 == 0 && (at + 2) % 2 == 0 && (at + 1) % 2 == 1 && (at + 3) % 2 == 1;
    hide ToRgb;
  }

  /** A UYVY image is the YUYV image of the frame with adjacent bytes exchanged. */
  lemma {:induction false} UyvyIsSwapped(m: Memory, p: nat, n: nat)
    ensures PixelRun(Uyvy, m, p, n) == PixelRun(Yuyv, Swapped(m), p, n)
  {
    hide Pixel, Swapped;
    if n > 0 {
      UyvyIsSwapped(m, p, n - 1);
      SwappedPixel(m, p + n - 1);
    }
  }

  // RGB565, lines 230-233

  /** Five, six and five bits, as the high-order bits of bytes. */
  function Unpack565(lo: byte, hi: byte): (rgb: seq<byte>)
    ensures |rgb| == 3
  {
    var twoByte := hi as int * 256 + lo as int;
    [hi - hi % 8, (twoByte / 32 % 64 * 4) as byte, lo % 32 * 8]
  }

  lemma BytesOf(lo: byte, hi: byte, red: nat, green: nat, blue: nat)
    requires red < 32 && green < 64 && blue < 32 && hi as nat * 256 + lo as nat == (red * 64 + green) * 32 + blue
    ensures hi as nat == 8 * red + green / 8 && lo as nat == green % 8 * 32 + blue
  {
    var both := hi as nat * 256 + lo as nat;
    assert both == 256 * (8 * red + green / 8) + (green % 8 * 32 + blue);
    Split(both, 256, 8 * red + green / 8, green % 8 * 32 + blue);
    Split(both, 256, hi as nat, lo as nat);
  }

  lemma MiddleBits(x: nat, red: nat, green: nat, blue: nat)
    requires green < 64 && blue < 32 && x == (red * 64 + green) * 32 + blue
    ensures x / 32 % 64 == green
  {
    Split(x, 32, red * 64 + green, blue);
    Split(red * 64 + green, 64, red, green);
  }

  /** The two bytes are a number, low byte first, of five bits of red, six of green and five of blue. */
  lemma Layout565(lo: byte, hi: byte, red: nat, green: nat, blue: nat)
    requires red < 32 && green < 64 && blue < 32 && hi as nat * 256 + lo as nat == (red * 64 + green) * 32 + blue
    ensures Unpack565(lo, hi) == [(8 * red) as byte, (4 * green) as byte, (8 * blue) as byte]
  {
    BytesOf(lo, hi, red, green, blue);
    MiddleBits(hi as nat * 256 + lo as nat, red, green, blue);
    Split(hi as nat, 8, red, green / 8);
    Split(lo as nat, 32, green % 8, blue);
  }

  function Pack565(r: byte, g: byte, b: byte): (two: seq<byte>)
    ensures |two| == 2
  {
    var twoByte := r as int / 8 * 2048 + g as int / 4 * 32 + b as int / 8;
    [(twoByte % 256) as byte, (twoByte / 256) as byte]
  }

  lemma Split(x: nat, m: nat, q: nat, r: nat)
    requires r < m && x == m * q + r
    ensures x / m == q && x % m == r
  {
    ModUnique(x, m, q, r);
  }

  /** Nothing is lost. */
  lemma PackInvertsUnpack(lo: byte, hi: byte)
    ensures var c := Unpack565(lo, hi); Pack565(c[0], c[1], c[2]) == [lo, hi]
  {
    var h1, h0, l1, l0 := hi as int / 8, hi as int % 8, lo as int / 32, lo as int % 32;
    var green, both := 8 * h0 + l1, hi as int * 256 + lo as int;
    Split(both, 32, 8 * hi as int + l1, l0);
    Split(8 * hi as int + l1, 64, h1, green);
    var c := Unpack565(lo, hi);
    assert c[0] as int == 8 * h1 && c[1] as int == green * 4 && c[2] as int == l0 * 8;
    hide Unpack565;
    PackParts(c[0], c[1], c[2], h1, green, l0, hi, lo);
  }

  lemma PackParts(r: byte, g: byte, b: byte, h1: nat, green: nat, l0: nat, hi: byte, lo: byte)
    requires r as int == 8 * h1 && g as int == green * 4 && b as int == l0 * 8
    requires h1 * 2048 + green * 32 + l0 == hi as int * 256 + lo as int
    ensures Pack565(r, g, b) == [lo, hi]
  {
    Split(hi as int * 256 + lo as int, 256, hi as int, lo as int);
    assert r as int / 8 == h1 && g as int / 4 == green && b as int / 8 == l0;
  }

  /** And a colour comes back with its low-order bits cleared. */
  lemma UnpackOfPack(r: byte, g: byte, b: byte)
    ensures var t := Pack565(r, g, b); Unpack565(t[0], t[1]) == [r - r % 8, g - g % 4, b - b % 8]
  {
    var r1, g1, b1 := r as int / 8, g as int / 4, b as int / 8;
    var both := r1 * 2048 + g1 * 32 + b1;
    Split(both, 32, 64 * r1 + g1, b1);
    Split(64 * r1 + g1, 64, r1, g1);
    Split(both, 256, 8 * r1 + g1 / 8, g1 % 8 * 32 + b1);
    Split(8 * r1 + g1 / 8, 8, r1, g1 / 8);
    Split(g1 % 8 * 32 + b1, 32, g1 % 8, b1);
    var t := Pack565(r, g, b);
    assert t[0] as int == g1 % 8 * 32 + b1 && t[1] as int == 8 * r1 + g1 / 8;
    assert t[1] as int * 256 + t[0] as int == both;
    hide Pack565;
    assert (r - r % 8) as int == r1 * 8 && (g - g % 4) as int == g1 * 4 && (b - b % 8) as int == b1 * 8;
  }
}

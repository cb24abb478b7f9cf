/** The hue wheel of the lumen example application: an 8-bit position is mapped
    to an (r, g, b) colour that runs red - green - blue - red. */
module Wheel {

  /** The values of a C `uint8_t`. */
  type Byte = x: int | 0 <= x < 256

  /** One entry of the pixel buffer: the colour channels of a `struct led_rgb`. */
  datatype Rgb = Rgb(r: Byte, g: Byte, b: Byte)

  predicate InByteRange(x: int)
  {
    0 <= x < 256
  }

  /** The implicit conversion of a C `int` to `uint8_t` on assignment (reduction modulo 256). */
  function U8(x: int): Byte
  {
    x % 256
  }

  /** A value that already fits is left unchanged by the conversion. */
  lemma U8Exact(x: int)
    requires InByteRange(x)
    ensures U8(x) == x
  {
  }

  /** `color_wheel`, with every assignment to a `uint8_t` written as the conversion C performs.
      The position is reversed first, then one of three segments of 85 steps is chosen. */
  function ColorWheel(pos: Byte): Rgb
  {
    var p := U8(255 - pos);
    if p < 85 then
      Rgb(U8(255 - p * 3), 0, U8(p * 3))
    else if p < 170 then
      var q := U8(p - 85);
      Rgb(0, U8(q * 3), U8(255 - q * 3))
    else
      var q := U8(p - 170);
      Rgb(U8(q * 3), U8(255 - q * 3), 0)
  }

  /** The same wheel stated directly in the position and over unbounded integers:
      red fades into green on 0..85, green into blue on 86..170, blue into red on 171..255.
      Every channel expression is checked to be a Byte without any reduction. */
  function HueWheel(pos: Byte): (c: Rgb)
    ensures c.r + c.g + c.b == 255
    ensures pos <= 85 ==> c.b == 0
    ensures 85 < pos <= 170 ==> c.r == 0
    ensures 170 < pos ==> c.g == 0
  {
    if pos <= 85 then Rgb(255 - 3 * pos, 3 * pos, 0)
    else if pos <= 170 then Rgb(0, 510 - 3 * pos, 3 * pos - 255)
    else Rgb(3 * pos - 510, 0, 765 - 3 * pos)
  }

  /** No value computed inside `color_wheel` leaves the range of a `uint8_t`: the reversed
      position, the reduced position (at most 85) and both channel expressions of the segment taken. */
  lemma ColorWheelNoWrap(pos: Byte)
    ensures InByteRange(255 - pos)
    ensures var p := 255 - pos;
      (p < 85 ==> InByteRange(p * 3) && InByteRange(255 - p * 3)) &&
      (85 <= p < 170 ==> 0 <= p - 85 <= 85 && InByteRange((p - 85) * 3) && InByteRange(255 - (p - 85) * 3)) &&
      (170 <= p ==> 0 <= p - 170 <= 85 && InByteRange((p - 170) * 3) && InByteRange(255 - (p - 170) * 3))
  {
  }

  /** Because nothing wraps, `color_wheel` is exactly the three-segment linear wheel. */
  lemma ColorWheelIsHueWheel(pos: Byte)
    ensures ColorWheel(pos) == HueWheel(pos)
  {
    ColorWheelNoWrap(pos);
    var p := 255 - pos;
    U8Exact(p);
    if p < 85 {
      U8Exact(p * 3);
      U8Exact(255 - p * 3);
    } else if p < 170 {
      U8Exact(p - 85);
      U8Exact((p - 85) * 3);
      U8Exact(255 - (p - 85) * 3);
    } else {
      U8Exact(p - 170);
      U8Exact((p - 170) * 3);
      U8Exact(255 - (p - 170) * 3);
    }
  }

  /** Every colour of the wheel has channels summing to 255, with at least one channel dark. */
  lemma ColorWheelChannelSum(pos: Byte)
    ensures ColorWheel(pos).r + ColorWheel(pos).g + ColorWheel(pos).b == 255
    ensures ColorWheel(pos).r == 0 || ColorWheel(pos).g == 0 || ColorWheel(pos).b == 0
  {
    ColorWheelIsHueWheel(pos);
  }

  /** The wheel starts at pure red, reaches pure green at 85 and pure blue at 170. */
  lemma ColorWheelPrimaries()
    ensures ColorWheel(0) == Rgb(255, 0, 0)
    ensures ColorWheel(85) == Rgb(0, 255, 0)
    ensures ColorWheel(170) == Rgb(0, 0, 255)
  {
  }

  /** Which channel is dark tells the segment: blue on 0..85, red on 86..170, green on 171..255. */
  lemma ColorWheelZeroChannel(pos: Byte)
    ensures pos <= 85 ==> ColorWheel(pos).b == 0
    ensures 85 < pos <= 170 ==> ColorWheel(pos).r == 0
    ensures 170 < pos ==> ColorWheel(pos).g == 0
  {
  }

  /** The wheel closes on itself: the last position shows the same red as the first.
      All other positions show pairwise distinct colours. */
  lemma ColorWheelDistinct(a: Byte, b: Byte)
    ensures ColorWheel(255) == ColorWheel(0)
    ensures a != b && !({a, b} == {0, 255}) ==> ColorWheel(a) != ColorWheel(b)
  {
    ColorWheelIsHueWheel(0);
    ColorWheelIsHueWheel(255);
    ColorWheelIsHueWheel(a);
    ColorWheelIsHueWheel(b);
  }
}

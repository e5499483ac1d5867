/**
 The integer parts of the colour codec (crate/src/colors.rs, repeated in
 crate/src/utils.rs): the scalar renderer `i32::to_rgba`, and the byte packing
 that `Complex<i32>::to_rgba` applies to the three channels its HSV
 conversion produces. A colour is a `u32`: red channel in byte 0, green in
 byte 1, blue in byte 2 and alpha in byte 3.
 */
module Colors {
  import opened Fixed

  /** `ALPHA`: fully opaque. */
  const ALPHA: bv32 := 0xFF00_0000

  /** Byte k of a packed colour, byte 0 being the lowest. */
  function Byte(c: bv32, k: nat): bv32
    requires k < 4
  {
    if k == 0 then c & 0xFF
    else if k == 1 then (c >> 8) & 0xFF
    else if k == 2 then (c >> 16) & 0xFF
    else c >> 24
  }

  /** The channel value `x >> 22` that the scalar renderer starts from. */
  function Level(x: int): int {
    Shr(x, 22)
  }

  lemma LevelBounds(x: int)
    ensures IsI32(x) ==> -512 <= Level(x) <= 511
    ensures InCap(x) ==> -256 <= Level(x) <= 255
  {
    Pow2Values();
  }

  lemma PositiveBytes(res: bv32)
    requires 0 < res <= 511
    ensures Byte((res << 8) | (res << 16) | ALPHA, 3) == 0xFF
    ensures res <= 0xFF ==> var c := (res << 8) | (res << 16) | ALPHA;
              Byte(c, 0) == 0 && Byte(c, 1) == res && Byte(c, 2) == res
  {
  }

  lemma LowBytes(low: bv32)
    requires low <= 0xFF
    ensures Byte(low | ALPHA, 3) == 0xFF && Byte(low | ALPHA, 0) == low
    ensures Byte(low | ALPHA, 1) == 0 && Byte(low | ALPHA, 2) == 0
  {
  }

  /** `i32::to_rgba`: a positive level lights bytes 1 and 2 with the level, a
      non-positive one lights byte 0 with its magnitude, capped at 255. The
      `norm_only` flag is accepted and ignored. */
  function ScalarToRgba(x: int, normOnly: bool): (c: bv32)
    requires IsI32(x)
    ensures Byte(c, 3) == 0xFF
  {
    LevelBounds(x);
    var val := Level(x);
    if val > 0 then BrightColor(val) else DarkColor(val)
  }

  /** The channels of the scalar colour: a level in 1..255 lights green and
      blue with the level and leaves red dark; a non-positive level lights red
      with its magnitude, capped at 255, and leaves green and blue dark. */
  lemma ScalarChannels(x: int)
    requires IsI32(x)
    ensures 0 < Level(x) <= 255 ==>
              var c := ScalarToRgba(x, false);
              Byte(c, 0) == 0 && Byte(c, 1) == Level(x) as bv32 && Byte(c, 2) == Level(x) as bv32
    ensures Level(x) <= 0 ==>
              var c := ScalarToRgba(x, false);
              Byte(c, 1) == 0 && Byte(c, 2) == 0 && Byte(c, 0) == Min(255, -Level(x)) as bv32
  {
    LevelBounds(x);
  }

  /** The positive branch: `res << 8 | res << 16 | ALPHA`. */
  function BrightColor(val: int): (c: bv32)
    requires 0 < val <= 511
    ensures Byte(c, 3) == 0xFF
    ensures val <= 255 ==> Byte(c, 0) == 0 && Byte(c, 1) == val as bv32 && Byte(c, 2) == val as bv32
  {
    var res := val as bv32;
    PositiveBytes(res);
    (res << 8) | (res << 16) | ALPHA
  }

  /** The non-positive branch: `(-1 * max(val, -255)) as u32 | ALPHA`. */
  function DarkColor(val: int): (c: bv32)
    requires -512 <= val <= 0
    ensures Byte(c, 3) == 0xFF && Byte(c, 1) == 0 && Byte(c, 2) == 0
    ensures Byte(c, 0) == Min(255, -val) as bv32
  {
    var magnitude := -1 * Max(val, -255);
    assert magnitude == Min(255, -val);
    var low := magnitude as bv32;
    LowBytes(low);
    low | ALPHA
  }

  /** The `norm_only` flag never changes the scalar colour. */
  lemma ScalarIgnoresNormOnly(x: int)
    requires IsI32(x)
    ensures ScalarToRgba(x, true) == ScalarToRgba(x, false)
  {
  }

  /** Zero, the resting displacement, renders opaque black. */
  lemma ScalarZeroIsBlack()
    ensures ScalarToRgba(0, false) == 0xFF00_0000
  {
    ShrBetween(0, 22);
    assert Level(0) == 0;
    LowBytes(0);
  }

  /** The packing `ALPHA | b << 16 | g << 8 | r` of `Complex<i32>::to_rgba`,
      on `u32` channels (bits shifted past bit 31 are lost, as in Rust). */
  function PackRgb(r: bv32, g: bv32, b: bv32): (c: bv32)
    ensures r <= 0xFF && g <= 0xFF && b <= 0xFF ==>
              Byte(c, 0) == r && Byte(c, 1) == g && Byte(c, 2) == b && Byte(c, 3) == 0xFF
  {
    ALPHA | (b << 16) | (g << 8) | r
  }

  /** The `norm_only` packing `ALPHA | v << 16 | v << 8 | v`. */
  function PackGray(v: bv32): (c: bv32)
    ensures v <= 0xFF ==> Byte(c, 0) == v && Byte(c, 1) == v && Byte(c, 2) == v && Byte(c, 3) == 0xFF
  {
    ALPHA | (v << 16) | (v << 8) | v
  }

  lemma PackGrayIsPackRgb(v: bv32)
    ensures PackGray(v) == PackRgb(v, v, v)
  {
  }

  /** The packing half of `Complex<i32>::to_rgba`, given the channels the
      HSV conversion returned: `(v, _, _)` in `norm_only` mode, `(r, g, b)`
      otherwise. */
  function ComplexPack(normOnly: bool, r: bv32, g: bv32, b: bv32): (c: bv32)
    ensures r <= 0xFF && g <= 0xFF && b <= 0xFF ==> Byte(c, 3) == 0xFF && Byte(c, 0) == r
    ensures normOnly && r <= 0xFF ==> Byte(c, 1) == r && Byte(c, 2) == r
    ensures !normOnly && r <= 0xFF && g <= 0xFF && b <= 0xFF ==> Byte(c, 1) == g && Byte(c, 2) == b
  {
    if normOnly then PackGray(r) else PackRgb(r, g, b)
  }

  /** Packing is lossless on byte channels: the three channels can be read
      back from the colour. */
  lemma PackRgbRoundTrip(r: bv32, g: bv32, b: bv32)
    requires r <= 0xFF && g <= 0xFF && b <= 0xFF
    ensures (Byte(PackRgb(r, g, b), 0), Byte(PackRgb(r, g, b), 1), Byte(PackRgb(r, g, b), 2)) == (r, g, b)
  {
  }

  /** The red test case: the HSV conversion of `1 << 30` yields (255, 0, 0),
      which packs to `0xFF0000FF`. */
  lemma RedTestPacking()
    ensures ComplexPack(false, 255, 0, 0) == 0xFF00_00FF
  {
  }
}

/**
 * The generation key both panel trackers compute from the three choice
 * rectangles: `PackRect` packs a rounded rectangle into 64 bits, 16 bits per
 * field, and `Mix` folds three packed rectangles into one `ulong` with
 * wrapping arithmetic. Also the grace length both trackers read from the
 * settings.
 */
module GenKey {
  import opened Opt
  import opened UiTree

  // ---------------------------------------------------------------------------
  // PackRect
  // ---------------------------------------------------------------------------

  const FieldModulus: int := 0x1_0000

  /**
   * `(ulong)(long)n & 0xFFFF`: the low 16 bits of the two's-complement
   * value, which are the bits of `n` modulo 2^16 (Dafny's `%` is never
   * negative), widened to 64 bits.
   */
  function Low16(n: int): (b: bv64)
    ensures b < 0x1_0000
  {
    ((n % FieldModulus) as bv16) as bv64
  }

  /** Only the value modulo 2^16 reaches the key. */
  lemma Low16Wraps(n: int, m: int)
    requires n % FieldModulus == m % FieldModulus
    ensures Low16(n) == Low16(m)
  {
  }

  /** Four fields below 2^16, packed low to high. */
  function Pack(x: bv64, y: bv64, w: bv64, h: bv64): bv64 {
    x | (y << 16) | (w << 32) | (h << 48)
  }

  /** The `k`-th 16-bit field of a key: `(key >> 16k) & 0xFFFF`. */
  function FieldX(key: bv64): bv64 { key & 0xFFFF }
  function FieldY(key: bv64): bv64 { (key >> 16) & 0xFFFF }
  function FieldW(key: bv64): bv64 { (key >> 32) & 0xFFFF }
  function FieldH(key: bv64): bv64 { (key >> 48) & 0xFFFF }

  /** `PackRect` of a present rectangle (coordinates already rounded). */
  function PackRect(r: Rect): bv64 {
    Pack(Low16(r.x), Low16(r.y), Low16(r.width), Low16(r.height))
  }

  /** The tracker's `PackRect(RectangleF?)`: 0 for a null rectangle. */
  function PackSafe(r: Option<Rect>): (key: bv64)
    ensures r.None? ==> key == 0
  {
    if r.None? then 0 else PackRect(r.value)
  }

  /** Each field is read back from the packed key. */
  lemma PackFields(x: bv64, y: bv64, w: bv64, h: bv64)
    requires x < 0x1_0000 && y < 0x1_0000 && w < 0x1_0000 && h < 0x1_0000
    ensures var key := Pack(x, y, w, h);
      FieldX(key) == x && FieldY(key) == y && FieldW(key) == w && FieldH(key) == h
  {
  }

  /** Unpacking a rectangle's key gives its fields' low 16 bits. */
  lemma PackRectFields(r: Rect)
    ensures var key := PackRect(r);
      FieldX(key) == Low16(r.x) && FieldY(key) == Low16(r.y) && FieldW(key) == Low16(r.width) && FieldH(key) == Low16(r.height)
  {
    PackFields(Low16(r.x), Low16(r.y), Low16(r.width), Low16(r.height));
  }

  /** Two rectangles share a key exactly when all four fields agree in their low 16 bits. */
  lemma PackRectSame(r: Rect, r': Rect)
    ensures PackRect(r) == PackRect(r') <==>
      (&& Low16(r.x) == Low16(r'.x) && Low16(r.y) == Low16(r'.y)
       && Low16(r.width) == Low16(r'.width) && Low16(r.height) == Low16(r'.height))
  {
    PackRectFields(r);
    PackRectFields(r');
  }

  /**
   * A present rectangle can share the null key: a 65536-pixel square at the
   * origin packs to 0, as a missing rectangle does.
   */
  lemma NullKeyCollision()
    ensures PackSafe(Some(Rect(0, 0, FieldModulus, FieldModulus))) == PackSafe(None)
  {
    Low16Wraps(FieldModulus, 0);
  }

  // ---------------------------------------------------------------------------
  // Mix
  // ---------------------------------------------------------------------------

  const MixSeed: bv64 := 0x9E37_79B9_7F4A_7C15

  /** One round of `Mix`: `x ^= v + (x << 6) + (x >> 2)`, wrapping. */
  function MixStep(x: bv64, v: bv64): bv64 {
    x ^ (v + (x << 6) + (x >> 2))
  }

  /** `Mix(a, b, c)`. */
  function Mix(a: bv64, b: bv64, c: bv64): bv64 {
    MixStep(MixStep(MixStep(MixSeed, a), b), c)
  }

  // ---------------------------------------------------------------------------
  // Grace length
  // ---------------------------------------------------------------------------

  /** The default of `ChoicesGraceMs`. */
  const DefaultGraceMs: int := 3000

  /** `Math.Max(0, settings.ChoicesGraceMs?.Value ?? 3000)`. */
  function GraceMs(setting: Option<int>): (g: int)
    ensures g >= 0
    ensures setting.None? ==> g == DefaultGraceMs
    ensures setting.Some? ==> g == (if setting.value < 0 then 0 else setting.value)
  {
    var v := if setting.None? then DefaultGraceMs else setting.value;
    if v < 0 then 0 else v
  }
}

/**
 * The integer part of `cubemapUtil.generateNormalDistribution`: the default
 * texture sizes, the 32-bit bit reversal that gives the Hammersley radical
 * inverse, and the layout of the RGBA float pixel buffer.  The trigonometric
 * payload of each texel is a parameter of the model.
 */
module Cubemap {

  const DEFAULT_ROUGHNESS_LEVELS: nat := 256
  const DEFAULT_SAMPLE_SIZE: nat := 1024
  const TWO_POW_32: int := 0x1_0000_0000

  /** JavaScript's `n || d` on a count: 0 (or a missing argument) selects the default. */
  function OrDefault(n: nat, d: nat): (r: nat)
    ensures n != 0 ==> r == n
    ensures n == 0 ==> r == d
  {
    if n == 0 then d else n
  }

  /** Bit k (0 is the least significant) of a 32-bit word. */
  predicate Bit(x: bv32, k: bv32)
    requires k < 32
  {
    (x >> k) & 1 == 1
  }

  /** JavaScript's ToUint32 on a non-negative counter: the value modulo 2^32. */
  function ToUint32(i: nat): bv32
  {
    (i % TWO_POW_32) as bv32
  }

  /**
   * The five mask-and-shift stages of the generator.  Every `>>> 0` of the
   * source keeps the intermediate an unsigned 32-bit value, which is what
   * bv32 arithmetic is; JavaScript's `<<` and `&` act on the same 32-bit
   * pattern and `>>>` is the logical shift.
   */
  function ReverseBits(i: bv32): bv32
  {
    var y0 := (i << 16) | (i >> 16);
    var y1 := ((y0 & 0x5555_5555) << 1) | ((y0 & 0xAAAA_AAAA) >> 1);
    var y2 := ((y1 & 0x3333_3333) << 2) | ((y1 & 0xCCCC_CCCC) >> 2);
    var y3 := ((y2 & 0x0F0F_0F0F) << 4) | ((y2 & 0xF0F0_F0F0) >> 4);
    ((y3 & 0x00FF_00FF) << 8) | ((y3 & 0xFF00_FF00) >> 8)
  }

  /** The stages mirror the word: bit k of the result is bit 31 - k of the input. */
  lemma ReverseBitsMirrors(i: bv32, k: bv32)
    requires k < 32
    ensures Bit(ReverseBits(i), k) == Bit(i, 31 - k)
  {
  }

  /** Reversing twice gives the word back. */
  lemma ReverseBitsInvolution(i: bv32)
    ensures ReverseBits(ReverseBits(i)) == i
  {
  }

  /**
   * The value `y` of the source after its last stage: the reversed word of
   * the sample index divided by 2^32, which a double holds exactly.
   */
  function RadicalInverse(i: nat): (y: real)
    ensures 0.0 <= y < 1.0
  {
    (ReverseBits(ToUint32(i)) as int) as real / TWO_POW_32 as real
  }

  /** A texel's first three components, from the float payload of the source. */
  datatype Direction = Direction(x: real, y: real, z: real)

  /**
   * The float payload, left opaque: it receives `i / sampleSize`, the
   * radical inverse of `i` and `j / roughnessLevels`.
   */
  type Sampler = (real, real, real) -> Direction

  /** The offset of texel (i, j) in a row-major RGBA buffer of the given width. */
  function TexelOffset(i: nat, j: nat, width: nat): nat
  {
    (i * width + j) * 4
  }

  /** n = q * d + r with 0 <= r < d determines Euclidean division. */
  lemma {:induction false} DivModUnique(n: int, d: int, q: int, r: int)
    requires d > 0 && 0 <= r < d && n == q * d + r
    ensures n / d == q && n % d == r
  {
    var q', r' := n / d, n % d;
    assert n == q' * d + r' && 0 <= r' < d;
    if q' < q {
      assert (q - q') * d == r' - r;
      assert (q - q') * d >= d by { MulAtLeast(q - q', d); }
    } else if q < q' {
      assert (q' - q) * d == r - r';
      assert (q' - q) * d >= d by { MulAtLeast(q' - q, d); }
    }
  }

  lemma MulAtLeast(a: int, d: int)
    requires a >= 1 && d > 0
    ensures a * d >= d
  {
  }

  /**
   * Element `c` of texel (i, j) sits at `TexelOffset(i, j, width) + c` and
   * nowhere else: the offset decodes back to (i, j, c).
   */
  lemma {:induction false} TexelOffsetDecodes(i: nat, j: nat, c: nat, width: nat)
    requires j < width && c < 4
    ensures (TexelOffset(i, j, width) + c) / 4 == i * width + j
    ensures (TexelOffset(i, j, width) + c) % 4 == c
    ensures (i * width + j) / width == i && (i * width + j) % width == j
  {
    DivModUnique(TexelOffset(i, j, width) + c, 4, i * width + j, c);
    DivModUnique(i * width + j, width, i, j);
  }

  /** For i < height and j < width the last component of texel (i, j) is inside the buffer. */
  lemma {:induction false} TexelOffsetInBounds(i: nat, j: nat, width: nat, height: nat)
    requires i < height && j < width
    ensures TexelOffset(i, j, width) + 3 < height * width * 4
  {
    assert i * width + j < height * width by {
      assert i * width + width == (i + 1) * width;
      MulMonotone(i + 1, height, width);
    }
  }

  lemma MulMonotone(a: nat, b: nat, w: nat)
    requires a <= b
    ensures a * w <= b * w
  {
  }

  /** Two different texels own disjoint four-element slots. */
  lemma TexelSlotsDisjoint(i: nat, j: nat, c: nat, i': nat, j': nat, c': nat, width: nat)
    requires j < width && c < 4 && j' < width && c' < 4
    requires (i, j) != (i', j')
    ensures TexelOffset(i, j, width) + c != TexelOffset(i', j', width) + c'
  {
    TexelOffsetDecodes(i, j, c, width);
    TexelOffsetDecodes(i', j', c', width);
  }

  /** Component c of a texel: the payload's three values, then 1.0. */
  function Component(d: Direction, c: nat): real
  {
    if c == 0 then d.x else if c == 1 then d.y else if c == 2 then d.z else 1.0
  }

  /** The payload of texel (i, j) of a width x height texture. */
  function Texel(i: nat, j: nat, width: nat, height: nat, sample: Sampler): Direction
    requires width > 0 && height > 0
  {
    sample(i as real / height as real, RadicalInverse(i), j as real / width as real)
  }

  /** The value the generator stores at buffer position p. */
  function PixelAt(p: nat, width: nat, height: nat, sample: Sampler): real
    requires width > 0 && height > 0
  {
    var texel := p / 4;
    Component(Texel(texel / width, texel % width, width, height, sample), p % 4)
  }

  /** Position `TexelOffset(i, j, width) + c` holds component c of texel (i, j). */
  lemma PixelAtTexel(i: nat, j: nat, c: nat, width: nat, height: nat, sample: Sampler)
    requires j < width && c < 4 && height > 0
    ensures PixelAt(TexelOffset(i, j, width) + c, width, height, sample)
         == Component(Texel(i, j, width, height, sample), c)
  {
    TexelOffsetDecodes(i, j, c, width);
  }

  /** The slot after the last texel of row i is the first slot of row i + 1. */
  lemma RowEnd(i: nat, width: nat)
    ensures TexelOffset(i, width, width) == TexelOffset(i + 1, 0, width)
  {
    assert i * width + width == (i + 1) * width;
  }

  /** The four stores of one texel, at `offset` .. `offset + 3`. */
  method WriteTexel(pixels: array<real>, offset: nat, d: Direction)
    requires offset + 3 < pixels.Length
    modifies pixels
    ensures forall p :: 0 <= p < pixels.Length && !(offset <= p < offset + 4) ==> pixels[p] == old(pixels[p])
    ensures forall c :: 0 <= c < 4 ==> pixels[offset + c] == Component(d, c)
  {
    pixels[offset] := d.x;
    pixels[offset + 1] := d.y;
    pixels[offset + 2] := d.z;
    pixels[offset + 3] := 1.0;
  }

  /**
   * The generator: `roughnessLevels` is the texture width and `sampleSize`
   * its height, a falsy argument giving the default; every position of the
   * `height * width * 4` buffer holds the component of its own texel, the
   * fourth component of every texel being 1.0.
   */
  method GenerateNormalDistribution(roughnessLevels: nat, sampleSize: nat, sample: Sampler)
    returns (width: nat, height: nat, pixels: array<real>)
    ensures width == OrDefault(roughnessLevels, DEFAULT_ROUGHNESS_LEVELS)
    ensures height == OrDefault(sampleSize, DEFAULT_SAMPLE_SIZE)
    ensures pixels.Length == height * width * 4
    ensures forall p :: 0 <= p < pixels.Length ==> pixels[p] == PixelAt(p, width, height, sample)
  {
    width := OrDefault(roughnessLevels, DEFAULT_ROUGHNESS_LEVELS);
    height := OrDefault(sampleSize, DEFAULT_SAMPLE_SIZE);
    pixels := new real[height * width * 4](_ => 0.0);
    for i := 0 to height
      invariant TexelOffset(i, 0, width) <= pixels.Length
      invariant forall p :: 0 <= p < TexelOffset(i, 0, width) ==> pixels[p] == PixelAt(p, width, height, sample)
    {
      var x := i as real / height as real;
      var y := RadicalInverse(i);
      for j := 0 to width
        invariant TexelOffset(i, j, width) <= pixels.Length
        invariant forall p :: 0 <= p < TexelOffset(i, j, width) ==> pixels[p] == PixelAt(p, width, height, sample)
      {
        var roughness := j as real / width as real;
        var d := sample(x, y, roughness);
        var offset := TexelOffset(i, j, width);
        TexelOffsetInBounds(i, j, width, height);
        assert d == Texel(i, j, width, height, sample);
        WriteTexel(pixels, offset, d);
        assert TexelOffset(i, j + 1, width) == offset + 4;
        forall p | 0 <= p < offset + 4
          ensures pixels[p] == PixelAt(p, width, height, sample)
        {
          if p >= offset {
            PixelAtTexel(i, j, p - offset, width, height, sample);
          }
        }
      }
      RowEnd(i, width);
    }
    assert TexelOffset(height, 0, width) == pixels.Length;
  }
}

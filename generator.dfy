/** Model of the local white-to-transparent pass of `Generator.removeWhiteBackground`:
    the recolouring of a canvas RGBA byte buffer, done in place four bytes at a time,
    and the removal of the PNG data-URL prefix from the re-encoded image. */
module Generator {

  /** One byte of a canvas pixel buffer (a clamped 8-bit channel). */
  newtype byte = x: int | 0 <= x < 256

  /** One pixel: red, green, blue and alpha bytes, in buffer order. */
  datatype Rgba = Rgba(r: byte, g: byte, b: byte, a: byte)

  /** A channel must be strictly above this value for a pixel to count as white. */
  const WhiteThreshold: byte := 220

  /** The colour written over every white pixel: white, fully transparent. */
  const Transparent: Rgba := Rgba(255, 255, 255, 0)

  /** The test applied to each pixel; the alpha byte plays no part in it. */
  predicate IsNearWhite(p: Rgba) {
    p.r > WhiteThreshold && p.g > WhiteThreshold && p.b > WhiteThreshold
  }

  /** What the pass does to one pixel. */
  function RecolourPixel(p: Rgba): Rgba {
    if IsNearWhite(p) then Transparent else p
  }

  /** The k-th pixel of a buffer. */
  function PixelAt(s: seq<byte>, k: nat): Rgba
    requires 4 * k + 4 <= |s|
  {
    Rgba(s[4 * k], s[4 * k + 1], s[4 * k + 2], s[4 * k + 3])
  }

  /** A pixel laid out as four buffer bytes. */
  function Bytes(p: Rgba): seq<byte> {
    [p.r, p.g, p.b, p.a]
  }

  /** The whole buffer after the pass, pixel by pixel from the front. */
  function Recolour(s: seq<byte>): (r: seq<byte>)
    requires |s| % 4 == 0
    ensures |r| == |s|
    decreases |s|
  {
    if s == [] then [] else Bytes(RecolourPixel(PixelAt(s, 0))) + Recolour(s[4..])
  }

  /** Recolouring works pixel by pixel: a buffer split at a pixel boundary is
      recoloured as its two halves are. */
  lemma {:induction false} RecolourAppend(s: seq<byte>, t: seq<byte>)
    requires |s| % 4 == 0 && |t| % 4 == 0
    ensures Recolour(s + t) == Recolour(s) + Recolour(t)
    decreases |s|
  {
    if s == [] {
      assert s + t == t;
    } else {
      assert (s + t)[4..] == s[4..] + t;
      assert PixelAt(s + t, 0) == PixelAt(s, 0);
      RecolourAppend(s[4..], t);
    }
  }

  /** Each pixel of the result depends only on the same pixel of the input. */
  lemma {:induction false} RecolourPixelAt(s: seq<byte>, k: nat)
    requires |s| % 4 == 0 && 4 * k + 4 <= |s|
    ensures PixelAt(Recolour(s), k) == RecolourPixel(PixelAt(s, k))
    decreases k
  {
    if k > 0 {
      RecolourPixelAt(s[4..], k - 1);
      assert PixelAt(s[4..], k - 1) == PixelAt(s, k);
      assert Recolour(s)[4..] == Recolour(s[4..]);
      assert PixelAt(Recolour(s), k) == PixelAt(Recolour(s)[4..], k - 1);
    }
  }

  /** The four bytes of the k-th pixel, as a slice of the buffer. */
  lemma PixelSlice(s: seq<byte>, k: nat)
    requires 4 * k + 4 <= |s|
    ensures s[4 * k .. 4 * k + 4] == Bytes(PixelAt(s, k))
  {
  }

  /** A pixel whose red, green and blue all exceed the threshold becomes exactly
      (255, 255, 255, 0), whatever its alpha was. */
  lemma WhitePixelBecomesTransparent(s: seq<byte>, k: nat)
    requires |s| % 4 == 0 && 4 * k + 4 <= |s|
    requires s[4 * k] > 220 && s[4 * k + 1] > 220 && s[4 * k + 2] > 220
    ensures Recolour(s)[4 * k .. 4 * k + 4] == [255, 255, 255, 0]
  {
    RecolourPixelAt(s, k);
    PixelSlice(Recolour(s), k);
  }

  /** A pixel with at least one of red, green, blue at or below the threshold
      keeps all four of its bytes, alpha included. */
  lemma OtherPixelUnchanged(s: seq<byte>, k: nat)
    requires |s| % 4 == 0 && 4 * k + 4 <= |s|
    requires s[4 * k] <= 220 || s[4 * k + 1] <= 220 || s[4 * k + 2] <= 220
    ensures PixelAt(Recolour(s), k) == PixelAt(s, k)
  {
    RecolourPixelAt(s, k);
  }

  /** The threshold is strict: a red channel of exactly 220 leaves the pixel as it is,
      even when green and blue are at their maximum. */
  lemma ThresholdIsStrict(s: seq<byte>, k: nat)
    requires |s| % 4 == 0 && 4 * k + 4 <= |s|
    requires s[4 * k] == 220 && s[4 * k + 1] == 255 && s[4 * k + 2] == 255
    ensures PixelAt(Recolour(s), k) == Rgba(220, 255, 255, s[4 * k + 3])
  {
    RecolourPixelAt(s, k);
  }

  /** Byte by byte: byte j of the k-th pixel takes the matching byte of the
      transparent colour when that pixel is white, and is left alone otherwise. */
  lemma RecolourByteAt(s: seq<byte>, k: nat, j: nat)
    requires |s| % 4 == 0 && 4 * k + 4 <= |s| && j < 4
    ensures Recolour(s)[4 * k + j] ==
              if IsNearWhite(PixelAt(s, k)) then Bytes(Transparent)[j] else s[4 * k + j]
  {
    RecolourPixelAt(s, k);
    ByteOfPixel(Recolour(s), k, j);
    ByteOfPixel(s, k, j);
  }

  /** Byte j of the k-th pixel is byte 4 * k + j of the buffer. */
  lemma ByteOfPixel(t: seq<byte>, k: nat, j: nat)
    requires 4 * k + 4 <= |t| && j < 4
    ensures t[4 * k + j] == Bytes(PixelAt(t, k))[j]
  {
  }

  /** Running the pass twice gives the same buffer as running it once, because the
      replacement colour is itself white. */
  lemma {:induction false} RecolourIdempotent(s: seq<byte>)
    requires |s| % 4 == 0
    ensures Recolour(Recolour(s)) == Recolour(s)
    decreases |s|
  {
    if s != [] {
      var head := Bytes(RecolourPixel(PixelAt(s, 0)));
      RecolourAppend(head, Recolour(s[4..]));
      assert Recolour(head) == head by {
        assert head[4..] == [];
        assert PixelAt(head, 0) == RecolourPixel(PixelAt(s, 0));
      }
      RecolourIdempotent(s[4..]);
    }
  }

  /** The recolouring loop over the canvas buffer, in place. The canvas hands over
      width * height * 4 bytes, so the length is a whole number of pixels. */
  method RemoveWhitePixels(pixels: array<byte>)
    requires pixels.Length % 4 == 0
    modifies pixels
    ensures pixels[..] == Recolour(old(pixels[..]))
  {
    ghost var before := pixels[..];
    ghost var target := Recolour(before);
    var i := 0;
    while i < pixels.Length
      invariant 0 <= i <= pixels.Length && i % 4 == 0
      invariant forall j :: 0 <= j < i ==> pixels[j] == target[j]
      invariant forall j :: i <= j < pixels.Length ==> pixels[j] == before[j]
      decreases pixels.Length - i
    {
      PixelTarget(before, i / 4);
      if pixels[i] > WhiteThreshold && pixels[i + 1] > WhiteThreshold && pixels[i + 2] > WhiteThreshold {
        pixels[i] := Transparent.r;
        pixels[i + 1] := Transparent.g;
        pixels[i + 2] := Transparent.b;
        pixels[i + 3] := Transparent.a;
      }
      i := i + 4;
    }
  }

  /** The four target bytes of the k-th pixel, which one turn of the loop writes
      (or finds already in place). */
  lemma PixelTarget(s: seq<byte>, k: nat)
    requires |s| % 4 == 0 && 4 * k + 4 <= |s|
    ensures var t, i, p := Recolour(s), 4 * k, RecolourPixel(PixelAt(s, k));
      t[i] == p.r && t[i + 1] == p.g && t[i + 2] == p.b && t[i + 3] == p.a
  {
    RecolourPixelAt(s, k);
  }

  /** The header `toDataURL` puts in front of the base64 PNG data. */
  const DataUrlPrefix: string := "data:image/png;base64,"

  /** An image source built from base64 PNG data, as the pass's input is loaded. */
  function DataUrl(base64: string): string {
    DataUrlPrefix + base64
  }

  /** Drop the first |DataUrlPrefix| characters, without checking that they are the
      prefix; like `substring`, a shorter input gives the empty string. */
  function StripDataUrlPrefix(url: string): (r: string)
    ensures |url| >= 22 ==> r == url[22..]
    ensures |url| < 22 ==> r == ""
  {
    if |url| <= |DataUrlPrefix| then "" else url[|DataUrlPrefix|..]
  }

  /** Stripping the prefix from a data URL built with it gives back the base64 data. */
  lemma StripDataUrlRoundTrip(base64: string)
    ensures StripDataUrlPrefix(DataUrl(base64)) == base64
  {
    assert DataUrl(base64)[|DataUrlPrefix|..] == base64;
  }

  /** When the input does begin with the prefix, prefix and result make up the input. */
  lemma StripRestoresWithPrefix(url: string)
    requires |url| >= |DataUrlPrefix| && url[..|DataUrlPrefix|] == DataUrlPrefix
    ensures DataUrlPrefix + StripDataUrlPrefix(url) == url
  {
    assert url == url[..|DataUrlPrefix|] + url[|DataUrlPrefix|..];
  }

  /** The first 22 characters are dropped whatever they are: a JPEG header is one
      character longer, so its final comma survives. */
  lemma StripDoesNotCheckPrefix()
    ensures StripDataUrlPrefix("data:image/jpeg;base64,AAAA") == ",AAAA"
  {
  }
}

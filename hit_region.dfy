/**
 * The pixel pass of `createImageHitRegion` (src/shapes/Image.js): over a flat
 * RGBA byte buffer, every pixel whose alpha byte is non-zero takes the shape's
 * key colour in its R, G and B bytes and keeps its alpha; every other byte is
 * left alone.
 */
module HitRegion {

  /** One channel of an RGBA pixel buffer. */
  type byte = x: int | 0 <= x < 256

  /** The shape's key colour, already converted from its hex string. */
  datatype Rgb = Rgb(r: byte, g: byte, b: byte)

  /** A decoded hit-region image: its size and its RGBA bytes. */
  datatype HitImage = HitImage(width: int, height: int, pixels: seq<byte>)

  /** Whether pixel `k` (bytes `4k .. 4k + 3`) has non-zero alpha. An alpha byte
      past the end of the buffer reads as undefined, which is not above 0. */
  predicate Opaque(s: seq<byte>, k: nat) {
    4 * k + 3 < |s| && s[4 * k + 3] > 0
  }

  /** One step of the loop on the (at most four) bytes of one pixel. */
  function RecolorPixel(q: seq<byte>, key: Rgb): seq<byte> {
    if |q| == 4 && q[3] > 0 then [key.r, key.g, key.b, q[3]] else q
  }

  /** The buffer after the recolouring pass. */
  function Recolored(s: seq<byte>, key: Rgb): (r: seq<byte>)
    ensures |r| == |s|
    decreases |s|
  {
    if |s| <= 4 then RecolorPixel(s, key) else RecolorPixel(s[..4], key) + Recolored(s[4..], key)
  }

  /** What the pass promises, pixel by pixel: every alpha byte is kept, an
      opaque pixel's colour bytes are the key colour, and every byte of a
      transparent pixel is left as it was. */
  lemma {:induction false} RecoloredPixel(s: seq<byte>, key: Rgb, k: nat)
    requires 4 * k < |s|
    ensures 4 * k + 3 < |s| ==> Recolored(s, key)[4 * k + 3] == s[4 * k + 3]
    ensures Opaque(s, k) ==>
      && Recolored(s, key)[4 * k] == key.r
      && Recolored(s, key)[4 * k + 1] == key.g
      && Recolored(s, key)[4 * k + 2] == key.b
    ensures !Opaque(s, k) ==>
      forall j :: 4 * k <= j < 4 * k + 4 && j < |s| ==> Recolored(s, key)[j] == s[j]
    decreases k
  {
    if |s| > 4 {
      var head, tail := s[..4], s[4..];
      assert Recolored(s, key) == RecolorPixel(head, key) + Recolored(tail, key);
      if k > 0 {
        RecoloredPixel(tail, key, k - 1);
        assert Opaque(s, k) == Opaque(tail, k - 1);
        forall j | 4 * k <= j < |s|
          ensures Recolored(s, key)[j] == Recolored(tail, key)[j - 4]
          ensures s[j] == tail[j - 4]
        {
        }
      }
    }
  }

  /** Running the pass on its own output changes nothing: alpha bytes are kept,
      so the same pixels are opaque the second time and already hold the key. */
  lemma {:induction false} RecolorIdempotent(s: seq<byte>, key: Rgb)
    ensures Recolored(Recolored(s, key), key) == Recolored(s, key)
    decreases |s|
  {
    var r := Recolored(s, key);
    if |s| > 4 {
      RecolorIdempotent(s[4..], key);
      assert r[..4] == RecolorPixel(s[..4], key);
      assert r[4..] == Recolored(s[4..], key);
    }
  }

  /** One iteration of the loop: once the pixel at byte `i` has been
      recoloured, the finished prefix reaches the next pixel. */
  lemma RecolorStep(src: seq<byte>, key: Rgb, before: seq<byte>, after: seq<byte>, i: nat)
    requires |before| == |after| == |src| && i < |src|
    requires Recolored(src, key) == before[..i] + Recolored(src[i..], key) && before[i..] == src[i..]
    requires var e := if i + 4 < |src| then i + 4 else |src|;
      after == before[..i] + RecolorPixel(src[i..e], key) + before[e..]
    ensures var m := if i + 4 < |src| then i + 4 else |src|;
      Recolored(src, key) == after[..m] + Recolored(src[m..], key) && after[m..] == src[m..]
  {
    if i + 4 < |src| {
      MiddleStep(src, key, before, after, i);
    } else {
      LastStep(src, key, before, after, i);
    }
  }

  lemma MiddleStep(src: seq<byte>, key: Rgb, before: seq<byte>, after: seq<byte>, i: nat)
    requires |before| == |after| == |src| && i + 4 < |src|
    requires Recolored(src, key) == before[..i] + Recolored(src[i..], key) && before[i..] == src[i..]
    requires after == before[..i] + RecolorPixel(src[i..i + 4], key) + before[i + 4..]
    ensures Recolored(src, key) == after[..i + 4] + Recolored(src[i + 4..], key)
    ensures after[i + 4..] == src[i + 4..]
  {
    var p := RecolorPixel(src[i..i + 4], key);
    var later := Recolored(src[i + 4..], key);
    RecoloredSuffix(src, key, i);
    assert |p| == 4;
    assert after[..i + 4] == before[..i] + p;
    assert before[i + 4..] == src[i + 4..];
    assert before[..i] + (p + later) == (before[..i] + p) + later;
  }

  /** The pass over a suffix starting at a pixel boundary peels off that pixel. */
  lemma RecoloredSuffix(src: seq<byte>, key: Rgb, i: nat)
    requires i + 4 < |src|
    ensures Recolored(src[i..], key) == RecolorPixel(src[i..i + 4], key) + Recolored(src[i + 4..], key)
  {
    var rest := src[i..];
    assert rest[..4] == src[i..i + 4];
    assert rest[4..] == src[i + 4..];
  }

  lemma LastStep(src: seq<byte>, key: Rgb, before: seq<byte>, after: seq<byte>, i: nat)
    requires |before| == |after| == |src| && i < |src| <= i + 4
    requires Recolored(src, key) == before[..i] + Recolored(src[i..], key) && before[i..] == src[i..]
    requires after == before[..i] + RecolorPixel(src[i..|src|], key) + before[|src|..]
    ensures Recolored(src, key) == after[..|src|] + Recolored(src[|src|..], key)
    ensures after[|src|..] == src[|src|..]
  {
    assert src[i..] == src[i..|src|];
    assert Recolored(src[i..], key) == RecolorPixel(src[i..|src|], key);
    assert src[|src|..] == [] && before[|src|..] == [];
    assert after[..|src|] == after;
  }

  /** The three writes of one iteration, on an opaque pixel, as a sequence update. */
  lemma PixelWrite(before: seq<byte>, key: Rgb, i: nat)
    requires i + 3 < |before| && before[i + 3] > 0
    ensures before[i := key.r][i + 1 := key.g][i + 2 := key.b] ==
            before[..i] + RecolorPixel(before[i..i + 4], key) + before[i + 4..]
  {
  }

  /** A pixel the loop skips is its own recolouring. */
  lemma PixelSkip(before: seq<byte>, key: Rgb, i: nat, e: nat)
    requires i < e <= |before| && e == (if i + 4 < |before| then i + 4 else |before|)
    requires !(i + 3 < |before| && before[i + 3] > 0)
    ensures before == before[..i] + RecolorPixel(before[i..e], key) + before[e..]
  {
  }

  /** The recolouring loop, in place on the pixel array. */
  method RecolorOpaque(data: array<byte>, key: Rgb)
    modifies data
    ensures data[..] == Recolored(old(data[..]), key)
  {
    ghost var src := data[..];
    var len := data.Length;
    var i := 0;
    while i < len
      invariant 0 <= i
      invariant data.Length == len == |src|
      invariant var m := if i < len then i else len;
        && Recolored(src, key) == data[..m] + Recolored(src[m..], key)
        && data[m..] == src[m..]
      decreases len - i
    {
      ghost var before := data[..];
      ghost var e := if i + 4 < len then i + 4 else len;
      assert before[i..e] == src[i..e];
      if i + 3 < len && data[i + 3] > 0 {
        data[i] := key.r;
        data[i + 1] := key.g;
        data[i + 2] := key.b;
        assert data[..] == before[i := key.r][i + 1 := key.g][i + 2 := key.b];
        PixelWrite(before, key, i);
      } else {
        PixelSkip(before, key, i, e);
      }
      RecolorStep(src, key, before, data[..], i);
      i := i + 4;
    }
    assert data[..] == data[..len];
  }
}

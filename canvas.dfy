/**
 * The drawing surfaces the Image shape talks to, kept abstract: a surface
 * has a fixed size and records the calls issued on its 2D context, in order.
 * Pixels are not modelled.
 */
module Canvas {
  import opened HitRegion

  /** A decoded source image: only its natural size matters here. */
  datatype Picture = Picture(width: nat, height: nat)

  /** What `drawImage` draws from. */
  datatype Source = FromPicture(picture: Picture) | FromSurface(surface: Surface) | FromHitImage(hit: HitImage)

  /** The context calls this model distinguishes. */
  datatype Call =
    | BeginPath
    | Rect(x: int, y: int, w: int, h: int)
    | ClosePath
    | FillStrokeShape
    | StrokeShape
    | Clear
    | DrawImage3(src: Source, dx: int, dy: int)
    | DrawImage5(src: Source, dx: int, dy: int, dw: int, dh: int)
    | DrawImage9(src: Source, sx: int, sy: int, sw: int, sh: int, dx: int, dy: int, dw: int, dh: int)
    | GetImageData(x: int, y: int, w: int, h: int)
    | PutImageData(x: int, y: int)

  /** An off-screen or on-screen canvas with its context's call log. */
  class Surface {
    const width: int
    const height: int
    var calls: seq<Call>

    constructor (width: int, height: int)
      ensures this.width == width && this.height == height && calls == []
    {
      this.width := width;
      this.height := height;
      calls := [];
    }

    method Issue(c: Call)
      modifies this`calls
      ensures calls == old(calls) + [c]
    {
      calls := calls + [c];
    }
  }
}

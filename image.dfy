/**
 * The Image shape of src/shapes/Image.js: a shape that draws a bitmap,
 * optionally cropped and optionally passed through a caller-supplied pixel
 * filter into a cached off-screen buffer, and that can build a colour-keyed
 * hit region from its pixels for transparency-aware hit testing.
 *
 * Width, height and crop fields are integers with 0 for "unset", as the
 * source reads them all with `||`. A `try` block that throws is a fault at
 * one of its steps; the asynchronous decode of the hit region is a list of
 * decodes in flight, each completed by `CompleteDecode`.
 */
module Image {
  import opened Wrappers
  import opened HitRegion
  import opened Canvas
  import opened Crop

  /** A caller-supplied pixel transform, known only by identity. */
  datatype Filter = Filter(id: nat)

  /** The steps of the filter pipeline's `try` block, in order: crop the image
      onto the buffer, read its pixels back, run the filter, write them back. */
  datatype Step = DrawStep | ReadStep | FilterStep | WriteStep

  /** A decode of recoloured pixels still in flight, and whether its caller
      passed a callback. */
  datatype Decode = Decode(image: HitImage, hasCallback: bool)

  /** `getWidth`/`getHeight`: the declared size when set, otherwise the image's
      natural size, otherwise 0. */
  function Extent(attr: int, natural: Option<nat>): (r: int)
    ensures attr != 0 ==> r == attr
    ensures attr == 0 && natural.Some? ==> r == natural.value
    ensures attr == 0 && natural.None? ==> r == 0
    ensures r == 0 <==> attr == 0 && natural.GetOr(0) == 0
  {
    if attr != 0 then attr else if natural.Some? then natural.value else 0
  }

  /** The crop `applyFilter` resolves takes its defaults from the shape's size:
      the image's size when no size is declared, the declared size otherwise. */
  lemma FilterCropUsesShapeSize(c: CropRect, attrWidth: int, attrHeight: int, p: Picture)
    ensures attrWidth == 0 && attrHeight == 0 ==>
      Resolve(c, Extent(attrWidth, Some(p.width)), Extent(attrHeight, Some(p.height))) == Resolve(c, p.width, p.height)
    ensures attrWidth != 0 && c.width == 0 ==>
      Resolve(c, Extent(attrWidth, Some(p.width)), Extent(attrHeight, Some(p.height))).width == attrWidth - c.x
  {
  }

  // ---------------------------------------------------------------------------
  // What `drawFunc` and `drawHitFunc` issue

  /** The outline of the shape's rectangle followed by a fill and stroke. */
  function FillPass(width: int, height: int): seq<Call> {
    [BeginPath, Rect(0, 0, width, height), ClosePath, FillStrokeShape]
  }

  /** Outlines the shape's rectangle on `ctx` and fills and strokes it. */
  method IssueFillPass(ctx: Surface, width: int, height: int)
    modifies ctx
    ensures ctx.calls == old(ctx.calls) + FillPass(width, height)
  {
    ctx.Issue(BeginPath);
    ctx.Issue(Rect(0, 0, width, height));
    ctx.Issue(ClosePath);
    ctx.Issue(FillStrokeShape);
  }

  function CallList(o: Option<Call>): seq<Call> {
    if o.Some? then [o.value] else []
  }

  /** The `drawImage` call `drawFunc` issues after its fill pass, if any: the
      filter buffer when there is one, else the image, cropped when a crop is set. */
  function ImageDraw(buffer: Option<Surface>, image: Option<Picture>, crop: Option<CropRect>, width: int, height: int): (r: Option<Call>)
    ensures r.None? <==> buffer.None? && image.None?
    ensures r.Some? ==>
      && (r.value.DrawImage5? || r.value.DrawImage9?)
      && r.value.dx == 0 && r.value.dy == 0 && r.value.dw == width && r.value.dh == height
    ensures buffer.Some? ==> r == Some(DrawImage5(FromSurface(buffer.value), 0, 0, width, height))
    ensures buffer.None? && image.Some? ==> r.value.src == FromPicture(image.value)
    ensures buffer.None? && image.Some? && crop.None? ==> r.value.DrawImage5?
    ensures buffer.None? && image.Some? && crop.Some? ==>
      && r.value.DrawImage9?
      && CropRect(r.value.sx, r.value.sy, r.value.sw, r.value.sh) == Resolve(crop.value, image.value.width, image.value.height)
  {
    if buffer.Some? then Some(DrawImage5(FromSurface(buffer.value), 0, 0, width, height))
    else if image.None? then None
    else if crop.Some? then
      var c := Resolve(crop.value, image.value.width, image.value.height);
      Some(DrawImage9(FromPicture(image.value), c.x, c.y, c.width, c.height, 0, 0, width, height))
    else Some(DrawImage5(FromPicture(image.value), 0, 0, width, height))
  }

  /** What `drawHitFunc` issues: with a hit region, the region itself and a
      stroke of the outline; without, the same fill pass as the visible draw. */
  function HitPass(hit: Option<HitImage>, width: int, height: int): (r: seq<Call>)
    ensures FillStrokeShape in r <==> hit.None?
    ensures StrokeShape in r <==> hit.Some?
    ensures Rect(0, 0, width, height) in r
    ensures hit.Some? ==> r[0] == DrawImage3(FromHitImage(hit.value), 0, 0)
    ensures hit.None? ==> r == FillPass(width, height)
  {
    if hit.Some? then [DrawImage3(FromHitImage(hit.value), 0, 0), BeginPath, Rect(0, 0, width, height), ClosePath, StrokeShape]
    else FillPass(width, height)
  }

  // ---------------------------------------------------------------------------
  // The filter pipeline

  /** Whether a `width` by `height` region has no pixels: reading such a
      region back with `getImageData` always throws. */
  predicate NoArea(width: int, height: int) {
    width == 0 || height == 0
  }

  /** The step at which the pipeline throws, if any: `drawImage` of a missing
      image throws, reading back a region with no area throws, calling a
      missing filter throws, and `fault` is the first step the environment
      rejects (a tainted buffer refusing the read-back, a filter that throws,
      ...). */
  function FirstFault(hasImage: bool, noArea: bool, hasFilter: bool, fault: Option<Step>): (f: Option<Step>)
    ensures !hasImage ==> f == Some(DrawStep)
    ensures f.None? <==> hasImage && !noArea && hasFilter && fault.None?
    ensures hasImage && noArea && fault != Some(DrawStep) ==> f == Some(ReadStep)
    ensures hasImage && !noArea && hasFilter ==> f == fault
    ensures hasImage && !noArea && !hasFilter && f != fault ==> f == Some(FilterStep)
  {
    if !hasImage then Some(DrawStep)
    else if fault == Some(DrawStep) then fault
    else if noArea || fault == Some(ReadStep) then Some(ReadStep)
    else if !hasFilter then Some(FilterStep)
    else fault
  }

  /** The buffer calls of a pipeline that runs to the end. */
  function FullPipeline(p: Picture, c: CropRect): seq<Call> {
    [DrawImage9(FromPicture(p), c.x, c.y, c.width, c.height, 0, 0, c.width, c.height),
     GetImageData(0, 0, c.width, c.height),
     PutImageData(0, 0)]
  }

  /** The buffer calls that complete before the pipeline throws at `f`. */
  function CompletedCalls(image: Option<Picture>, c: CropRect, f: Option<Step>): (r: seq<Call>)
    ensures image.None? ==> r == []
    ensures image.Some? ==> r <= FullPipeline(image.value, c)
    ensures image.Some? ==> (r == FullPipeline(image.value, c) <==> f.None?)
    ensures f == Some(DrawStep) ==> r == []
  {
    if image.None? then []
    else
      var all := FullPipeline(image.value, c);
      match f
      case None => all
      case Some(DrawStep) => []
      case Some(ReadStep) => all[..1]
      case Some(_) => all[..2]
  }

  /** The buffer can be reused when its size is exactly the crop's. */
  predicate Reusable(buffer: Option<Surface>, c: CropRect) {
    buffer.Some? && buffer.value.width == c.width && buffer.value.height == c.height
  }

  /** The `try` block of `applyFilter` on `buffer`, stopping at the first fault. */
  method RunPipeline(buffer: Surface, image: Option<Picture>, c: CropRect, f: Option<Step>)
    requires image.None? ==> f == Some(DrawStep)
    modifies buffer
    ensures buffer.calls == old(buffer.calls) + CompletedCalls(image, c, f)
  {
    if f != Some(DrawStep) {
      buffer.Issue(DrawImage9(FromPicture(image.value), c.x, c.y, c.width, c.height, 0, 0, c.width, c.height));
      if f != Some(ReadStep) {
        buffer.Issue(GetImageData(0, 0, c.width, c.height));
        if f.None? {
          buffer.Issue(PutImageData(0, 0));
        }
      }
    }
  }

  // ---------------------------------------------------------------------------
  // The shape

  class ImageShape {
    var attrWidth: int
    var attrHeight: int
    var image: Option<Picture>
    var crop: Option<CropRect>
    var filter: Option<Filter>
    /** The `_applyFilter` dirty flag. */
    var applyFilterPending: bool
    var filterCanvas: Option<Surface>
    var imageHitRegion: Option<HitImage>
    /** Hit-region decodes started and not yet completed. */
    var decodes: seq<Decode>
    /** For each completion callback run, the hit region it observed. */
    var callbackLog: seq<Option<HitImage>>
    /** Diagnostics sent to the warning channel. */
    var warnings: nat

    constructor (attrWidth: int, attrHeight: int, image: Option<Picture>, crop: Option<CropRect>)
      ensures this.attrWidth == attrWidth && this.attrHeight == attrHeight
      ensures this.image == image && this.crop == crop
      ensures filter == None && !applyFilterPending && filterCanvas == None
      ensures imageHitRegion == None && decodes == [] && callbackLog == [] && warnings == 0
    {
      this.attrWidth := attrWidth;
      this.attrHeight := attrHeight;
      this.image := image;
      this.crop := crop;
      filter := None;
      applyFilterPending := false;
      filterCanvas := None;
      imageHitRegion := None;
      decodes := [];
      callbackLog := [];
      warnings := 0;
    }

    function GetWidth(): int
      reads this
    {
      Extent(attrWidth, if image.Some? then Some(image.value.width) else None)
    }

    function GetHeight(): int
      reads this
    {
      Extent(attrHeight, if image.Some? then Some(image.value.height) else None)
    }

    /** The filter buffer, as a frame. */
    function Buffers(): set<Surface>
      reads this
    {
      if filterCanvas.Some? then {filterCanvas.value} else {}
    }

    /** The crop `applyFilter` works with: the declared one (or none), with
        defaults taken from the shape's own width and height. */
    function FilterCrop(): CropRect
      reads this
    {
      Resolve(crop.GetOr(Unset), GetWidth(), GetHeight())
    }

    /** The step at which `applyFilter`'s pipeline would throw on this shape,
        given the steps the environment rejects. */
    function FilterFault(fault: Option<Step>): Option<Step>
      reads this
    {
      FirstFault(image.Some?, NoArea(FilterCrop().width, FilterCrop().height), filter.Some?, fault)
    }

    /** The filter setter: stores the filter and marks it for reapplication. */
    method SetFilter(f: Option<Filter>)
      modifies this`filter, this`applyFilterPending
      ensures filter == f && applyFilterPending
    {
      filter := f;
      applyFilterPending := true;
    }

    /** `clearFilter`: drops the buffer and the dirty flag. */
    method ClearFilter()
      modifies this`filterCanvas, this`applyFilterPending
      ensures filterCanvas == None && !applyFilterPending
    {
      filterCanvas := None;
      applyFilterPending := false;
    }

    /** The buffer `applyFilter` draws into: the current one, cleared, when its
        size is exactly the crop's, otherwise a new one of that size, which
        replaces it. */
    method PrepareBuffer(c: CropRect) returns (buffer: Surface)
      modifies this`filterCanvas, Buffers()
      ensures filterCanvas == Some(buffer)
      ensures buffer.width == c.width && buffer.height == c.height
      ensures old(Reusable(filterCanvas, c)) ==>
        buffer == old(filterCanvas).value && buffer.calls == old(filterCanvas.value.calls) + [Clear]
      ensures !old(Reusable(filterCanvas, c)) ==>
        && fresh(buffer) && buffer.calls == []
        && (old(filterCanvas).Some? ==> old(filterCanvas).value.calls == old(filterCanvas.value.calls))
    {
      if filterCanvas.Some? && filterCanvas.value.width == c.width && filterCanvas.value.height == c.height {
        buffer := filterCanvas.value;
        buffer.Issue(Clear);
      } else {
        buffer := new Surface(c.width, c.height);
        filterCanvas := Some(buffer);
      }
    }

    /** `applyFilter`: resolves the crop (writing it back into the declared
        crop), prepares the buffer, then runs the pipeline. A fault clears the
        filter and emits one warning; nothing reaches the caller. */
    method ApplyFilter(fault: Option<Step>)
      modifies this`crop, this`filterCanvas, this`applyFilterPending, this`warnings, Buffers()
      ensures crop == if old(crop).Some? then Some(old(FilterCrop())) else None
      ensures var f := old(FilterFault(fault));
        f.Some? ==> filterCanvas == None && !applyFilterPending && warnings == old(warnings) + 1
      ensures var f := old(FilterFault(fault));
        f.None? ==>
          && filterCanvas.Some?
          && filterCanvas.value.width == old(FilterCrop()).width
          && filterCanvas.value.height == old(FilterCrop()).height
          && applyFilterPending == old(applyFilterPending) && warnings == old(warnings)
      ensures var f := old(FilterFault(fault));
        old(Reusable(filterCanvas, FilterCrop())) ==>
          && old(filterCanvas).value.calls == old(filterCanvas.value.calls) + [Clear] + CompletedCalls(image, old(FilterCrop()), f)
          && (f.None? ==> filterCanvas == old(filterCanvas))
      ensures var f := old(FilterFault(fault));
        !old(Reusable(filterCanvas, FilterCrop())) ==>
          && (old(filterCanvas).Some? ==> old(filterCanvas).value.calls == old(filterCanvas.value.calls))
          && (f.None? ==> fresh(filterCanvas.value) && filterCanvas.value.calls == CompletedCalls(image, old(FilterCrop()), f))
    {
      var c := FilterCrop();
      if crop.Some? {
        crop := Some(c);
      }
      var buffer := PrepareBuffer(c);
      var f := FirstFault(image.Some?, NoArea(c.width, c.height), filter.Some?, fault);
      RunPipeline(buffer, image, c, f);
      if f.Some? {
        ClearFilter();
        warnings := warnings + 1;
      }
    }

    /** `drawFunc`: reapplies a dirty filter, then issues the fill pass over the
        shape's rectangle and the image call `ImageDraw` selects. */
    method DrawFunc(ctx: Surface, fault: Option<Step>)
      requires ctx !in Buffers()
      modifies this`crop, this`filterCanvas, this`applyFilterPending, this`warnings, Buffers(), ctx
      ensures !old(filter.Some? && applyFilterPending) ==>
        && crop == old(crop) && filterCanvas == old(filterCanvas)
        && applyFilterPending == old(applyFilterPending) && warnings == old(warnings)
        && (old(filterCanvas).Some? ==> old(filterCanvas).value.calls == old(filterCanvas.value.calls))
      ensures var c, f := old(FilterCrop()), old(FilterFault(fault));
        old(filter.Some? && applyFilterPending) ==>
          && !applyFilterPending
          && crop == (if old(crop).Some? then Some(c) else None)
          && (filterCanvas.Some? <==> f.None?)
          && (filterCanvas.Some? ==> filterCanvas.value.width == c.width && filterCanvas.value.height == c.height)
          && warnings == old(warnings) + (if f.None? then 0 else 1)
      ensures var c, f := old(FilterCrop()), old(FilterFault(fault));
        old(filter.Some? && applyFilterPending && Reusable(filterCanvas, FilterCrop())) ==>
          && old(filterCanvas).value.calls == old(filterCanvas.value.calls) + [Clear] + CompletedCalls(image, c, f)
          && (f.None? ==> filterCanvas == old(filterCanvas))
      ensures var c, f := old(FilterCrop()), old(FilterFault(fault));
        old(filter.Some? && applyFilterPending && !Reusable(filterCanvas, FilterCrop())) ==>
          && (old(filterCanvas).Some? ==> old(filterCanvas).value.calls == old(filterCanvas.value.calls))
          && (f.None? ==> fresh(filterCanvas.value) && filterCanvas.value.calls == CompletedCalls(image, c, f))
      ensures ctx.calls == old(ctx.calls) + FillPass(GetWidth(), GetHeight())
                           + CallList(ImageDraw(filterCanvas, image, crop, GetWidth(), GetHeight()))
    {
      var width := GetWidth();
      var height := GetHeight();
      if filter.Some? && applyFilterPending {
        ApplyFilter(fault);
        applyFilterPending := false;
      }
      var params := ImageDraw(filterCanvas, image, crop, width, height);
      IssueFillPass(ctx, width, height);
      if params.Some? {
        ctx.Issue(params.value);
      }
    }

    /** `drawHitFunc`. */
    method DrawHitFunc(ctx: Surface)
      modifies ctx
      ensures ctx.calls == old(ctx.calls) + HitPass(imageHitRegion, GetWidth(), GetHeight())
    {
      var width := GetWidth();
      var height := GetHeight();
      if imageHitRegion.Some? {
        ctx.Issue(DrawImage3(FromHitImage(imageHitRegion.value), 0, 0));
        ctx.Issue(BeginPath);
        ctx.Issue(Rect(0, 0, width, height));
        ctx.Issue(ClosePath);
        ctx.Issue(StrokeShape);
      } else {
        IssueFillPass(ctx, width, height);
      }
    }

    /** `createImageHitRegion`: `readback` is what reading the drawn pixels
        gives (None when the read is refused) and `key` the shape's key colour.
        Drawing a missing image throws before the `try`, to the caller; a
        refused read-back, or one of a region with no area, emits a warning;
        otherwise the recoloured pixels are handed to an asynchronous decode.
        The hit region itself is not touched. */
    method CreateImageHitRegion(readback: Option<seq<byte>>, key: Rgb, hasCallback: bool) returns (threw: bool)
      modifies this`decodes, this`warnings
      ensures threw <==> image.None?
      ensures threw || readback.None? || NoArea(GetWidth(), GetHeight()) ==> decodes == old(decodes)
      ensures warnings == old(warnings) + (if !threw && (readback.None? || NoArea(GetWidth(), GetHeight())) then 1 else 0)
      ensures !threw && readback.Some? && !NoArea(GetWidth(), GetHeight()) ==>
        decodes == old(decodes) + [Decode(HitImage(GetWidth(), GetHeight(), Recolored(readback.value, key)), hasCallback)]
    {
      var width := GetWidth();
      var height := GetHeight();
      if image.None? {
        return true;
      }
      threw := false;
      if readback.None? || NoArea(width, height) {
        warnings := warnings + 1;
        return;
      }
      var pixels := readback.value;
      var data := new byte[|pixels|](i requires 0 <= i < |pixels| => pixels[i]);
      assert data[..] == pixels;
      RecolorOpaque(data, key);
      decodes := decodes + [Decode(HitImage(width, height, data[..]), hasCallback)];
    }

    /** The decode at index `i` completes: its image becomes the hit region,
        then the caller's callback, if any, runs and sees it installed. */
    method CompleteDecode(i: nat)
      requires i < |decodes|
      modifies this`imageHitRegion, this`decodes, this`callbackLog
      ensures imageHitRegion == Some(old(decodes)[i].image)
      ensures decodes == old(decodes)[..i] + old(decodes)[i + 1..]
      ensures callbackLog == old(callbackLog) + if old(decodes)[i].hasCallback then [imageHitRegion] else []
    {
      var d := decodes[i];
      decodes := decodes[..i] + decodes[i + 1..];
      imageHitRegion := Some(d.image);
      if d.hasCallback {
        callbackLog := callbackLog + [imageHitRegion];
      }
    }

    /** `clearImageHitRegion`. */
    method ClearImageHitRegion()
      modifies this`imageHitRegion
      ensures imageHitRegion == None
    {
      imageHitRegion := None;
    }
  }
}

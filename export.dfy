/** `handleExport(format)` of the editor page: what one click on an export button
    does. The SVG export saves the serialised diagram at once. A bitmap export
    draws the diagram onto a canvas twice its size and finishes in two callbacks
    the browser runs later: `img.onload` once the SVG image is decoded, and the
    callback of `canvas.toBlob` once the bitmap is encoded. Every effect on the
    outside world (a notice, a saved file, an object URL, a request to the
    browser) is recorded, in order, as an `Effect`. */
module Export {
  import opened FileNames
  import opened Canvas2D

  datatype Option<T> = None | Some(value: T)

  datatype Format = Svg | Png | Jpg | Jpeg

  /** The format as passed in, which is also the file extension. */
  function Ext(f: Format): string {
    match f
    case Svg => "svg"
    case Png => "png"
    case Jpg => "jpg"
    case Jpeg => "jpeg"
  }

  /** `format.toUpperCase()` */
  function UpperName(f: Format): (u: string)
    ensures forall i :: 0 <= i < |u| ==> !('a' <= u[i] <= 'z')
    ensures ToLower(u) == Ext(f)
  {
    match f
    case Svg => "SVG"
    case Png => "PNG"
    case Jpg => "JPG"
    case Jpeg => "JPEG"
  }

  predicate IsBitmap(f: Format) {
    f != Svg
  }

  /** Bitmap formats that get a white background before the diagram is drawn. */
  predicate IsJpeg(f: Format) {
    f == Jpg || f == Jpeg
  }

  /** The type of the blob that wraps the serialised SVG, in both branches. */
  const SvgMimeType := "image/svg+xml;charset=utf-8"

  /** The quality passed to `toBlob`. */
  const Quality: real := 0.95

  /** The type asked of the encoder: `image/` followed by the format. */
  function MimeType(f: Format): string {
    "image/" + Ext(f)
  }

  /** What the page shows for `.diagram-container svg`: the markup that
      `XMLSerializer` produces for it and the size of its bounding box. */
  datatype Diagram = Diagram(markup: string, width: nat, height: nat)

  datatype Blob = Blob(content: string, mimeType: string)

  /** A notice shown with `toast`; `destructive` is the `destructive` variant. */
  datatype Toast = Toast(title: string, description: string, destructive: bool)

  const NoDiagram := Toast("Export failed", "No diagram to export", true)

  const ExportFailed := Toast("Export failed", "Failed to export diagram", true)

  function Saved(filename: string): Toast {
    Toast("Export successful", "Saved as " + filename, false)
  }

  function ConvertFailed(f: Format): Toast {
    Toast("Export failed", "Failed to convert to " + UpperName(f), true)
  }

  datatype Effect =
    | Notify(toast: Toast)                         // toast(...)
    | SaveAs(blob: Blob, filename: string)         // saveAs(blob, filename)
    | CreateObjectUrl(url: string, source: Blob)   // URL.createObjectURL(blob) returned url
    | LoadImage(url: string)                       // img.src = url
    | RevokeObjectUrl(url: string)                 // URL.revokeObjectURL(url)
    | RequestBlob(mimeType: string, quality: real) // canvas.toBlob(callback, mimeType, quality)

  /** Where a call stands: waiting for the image to decode, waiting for the
      encoder, or finished (including when it ended with an error). */
  datatype Stage = AwaitingImage | AwaitingBlob | Done

  /** What the browser answers during the synchronous part: the diagram element
      if there is one, whether `getContext('2d')` gives a context, and the URL
      `createObjectURL` hands out. */
  datatype Page = Page(diagram: Option<Diagram>, contextAvailable: bool, objectUrl: string)

  /** What the browser does afterwards: whether the SVG image finishes decoding
      (there is no `onerror` handler, so a failed decode just ends the call),
      and what `toBlob` passes to its callback (`null` as `None`). */
  datatype Later = Later(imageLoads: bool, encoded: Option<Blob>)

  // ---------------------------------------------------------------- specification

  /** The effects of the synchronous part of the call, given the file name it chose. */
  function StartEffects(f: Format, filename: string, page: Page): seq<Effect> {
    match page.diagram
    case None => [Notify(NoDiagram)]
    case Some(d) =>
      if f == Svg then
        [SaveAs(Blob(d.markup, SvgMimeType), filename), Notify(Saved(filename))]
      else if !page.contextAvailable then
        [Notify(ExportFailed)]
      else
        [CreateObjectUrl(page.objectUrl, Blob(d.markup, SvgMimeType)), LoadImage(page.objectUrl)]
  }

  /** Only a bitmap export of a diagram with a 2-D context waits for the image. */
  function StartStage(f: Format, page: Page): Stage {
    if page.diagram.Some? && IsBitmap(f) && page.contextAvailable then AwaitingImage else Done
  }

  /** The effects of `img.onload`. */
  function ImageLoadEffects(f: Format, url: string): seq<Effect> {
    [RevokeObjectUrl(url), RequestBlob(MimeType(f), Quality)]
  }

  /** The effects of the `toBlob` callback. */
  function BlobEffects(f: Format, filename: string, blob: Option<Blob>): seq<Effect> {
    match blob
    case Some(b) => [SaveAs(b, filename), Notify(Saved(filename))]
    case None => [Notify(ConvertFailed(f))]
  }

  /** Everything one call does, in order, given the file name it chose. */
  function Effects(f: Format, filename: string, page: Page, later: Later): seq<Effect> {
    StartEffects(f, filename, page)
    + if StartStage(f, page) == AwaitingImage && later.imageLoads then
        ImageLoadEffects(f, page.objectUrl) + BlobEffects(f, filename, later.encoded)
      else []
  }

  /** Everything one call does, in order. */
  function Trace(f: Format, code: string, page: Page, later: Later): seq<Effect> {
    Effects(f, FileName(code, Ext(f)), page, later)
  }

  /** The notices in a run of effects, in order. */
  function Notices(t: seq<Effect>): (r: seq<Toast>)
    ensures |r| <= |t|
    ensures forall k :: 0 <= k < |r| ==> Notify(r[k]) in t
  {
    if t == [] then [] else (if t[0].Notify? then [t[0].toast] else []) + Notices(t[1..])
  }

  /** Whether `t` saves a file under `name`. */
  predicate SavesUnder(t: seq<Effect>, name: string) {
    exists j :: 0 <= j < |t| && t[j].SaveAs? && t[j].filename == name
  }

  /** The names of the files saved in a run of effects, in order. */
  function SavedFiles(t: seq<Effect>): (r: seq<string>)
    ensures |r| <= |t|
    ensures forall k :: 0 <= k < |r| ==> SavesUnder(t, r[k])
  {
    if t == [] then []
    else
      var rest := SavedFiles(t[1..]);
      var r := (if t[0].SaveAs? then [t[0].filename] else []) + rest;
      assert forall k :: 0 <= k < |r| ==> SavesUnder(t, r[k]) by {
        forall k | 0 <= k < |r| ensures SavesUnder(t, r[k]) {
          if t[0].SaveAs? && k == 0 {
            assert t[0].filename == r[k];
          } else {
            var m := k - (|r| - |rest|);
            assert r[k] == rest[m] && SavesUnder(t[1..], rest[m]);
            var j :| 0 <= j < |t[1..]| && t[1..][j].SaveAs? && t[1..][j].filename == rest[m];
            assert t[j + 1] == t[1..][j];
          }
        }
      }
      r
  }

  /** Whether a call ends with a file saved: an SVG export of a diagram, or a
      bitmap export whose image decodes and whose encoder returns a blob. */
  predicate Succeeds(f: Format, page: Page, later: Later) {
    && page.diagram.Some?
    && (f == Svg || (page.contextAvailable && later.imageLoads && later.encoded.Some?))
  }

  /** The notice a call ends with, case by case: none when it waits forever for
      an image that never decodes. */
  function Outcome(f: Format, filename: string, page: Page, later: Later): Option<Toast> {
    if page.diagram.None? then Some(NoDiagram)
    else if Succeeds(f, page, later) then Some(Saved(filename))
    else if !page.contextAvailable then Some(ExportFailed)
    else if !later.imageLoads then None
    else Some(ConvertFailed(f))
  }

  /** What the canvas holds before the diagram is drawn on it. */
  function Backdrop(f: Format): Pixel {
    if IsJpeg(f) then OpaqueWhite else TransparentBlack
  }

  // ---------------------------------------------------------------- the call

  /** One run of `handleExport`: the variables its callbacks close over. */
  class ExportCall {
    const format: Format
    var filename: string
    var url: string
    var canvas: Canvas?
    var context: Context2D?
    var stage: Stage
    var effects: seq<Effect>

    /** The canvas and its context, as the callbacks find them. */
    predicate Drawable()
      reads this, canvas
    {
      canvas != null && context != null && context.canvas == canvas && canvas.Valid()
    }

    /** The synchronous part of `handleExport`, up to `img.src = url` or to the
        notice that ends it. */
    constructor Start(f: Format, code: string, page: Page)
      ensures format == f
      ensures effects == StartEffects(f, FileName(code, Ext(f)), page)
      ensures stage == StartStage(f, page)
      ensures (canvas == null) == (page.diagram.None? || f == Svg)
      ensures canvas != null ==>
        && canvas.Valid()
        && canvas.width == 2 * page.diagram.value.width
        && canvas.height == 2 * page.diagram.value.height
        && canvas.Filled(if page.contextAvailable then Backdrop(f) else TransparentBlack)
      ensures canvas != null ==> fresh(canvas) && fresh(canvas.bitmap)
      ensures stage == AwaitingImage ==>
        && Drawable()
        && filename == FileName(code, Ext(f))
        && url == page.objectUrl
    {
      var name, objectUrl := "", "";
      var c: Canvas?, ctx: Context2D? := null, null;
      var st, eff := Done, [];
      if page.diagram.None? {
        eff := [Notify(NoDiagram)];
      } else {
        var d := page.diagram.value;
        name := ChooseFileName(code, f);
        if f == Svg {
          var svgBlob := Blob(d.markup, SvgMimeType);
          eff := [SaveAs(svgBlob, name), Notify(Saved(name))];
        } else {
          c, ctx, eff, st := StartBitmap(d, f, name, page);
          objectUrl := page.objectUrl;
        }
      }
      format, filename, url := f, name, objectUrl;
      canvas, context, stage, effects := c, ctx, st, eff;
    }

    /** `img.onload`: the decoded diagram is drawn over the whole canvas, the
        object URL is released and the bitmap is handed to the encoder. */
    method OnImageLoad(scaled: (nat, nat) -> Pixel)
      requires stage == AwaitingImage && Drawable()
      modifies this, canvas.bitmap
      ensures stage == AwaitingBlob
      ensures effects == old(effects) + ImageLoadEffects(format, url)
      ensures filename == old(filename) && url == old(url)
      ensures canvas == old(canvas) && context == old(context) && Drawable()
      ensures forall i, j :: 0 <= i < canvas.height && 0 <= j < canvas.width ==>
        canvas.bitmap[i, j] == Over(scaled(i, j), old(canvas.bitmap[i, j]))
    {
      context.DrawImage(scaled, 0, 0, canvas.width, canvas.height);
      effects := effects + [RevokeObjectUrl(url)];
      var mimeType := "image/" + Ext(format);
      effects := effects + [RequestBlob(mimeType, 0.95)];
      stage := AwaitingBlob;
    }

    /** The `toBlob` callback: a blob is saved under the file name and announced;
        `null` is reported as a failed conversion. */
    method OnBlob(blob: Option<Blob>)
      requires stage == AwaitingBlob
      modifies this
      ensures stage == Done
      ensures effects == old(effects) + BlobEffects(format, filename, blob)
      ensures filename == old(filename) && url == old(url)
      ensures canvas == old(canvas) && context == old(context)
    {
      if blob.Some? {
        effects := effects + [SaveAs(blob.value, filename)];
        effects := effects + [Notify(Saved(filename))];
      } else {
        effects := effects + [Notify(ConvertFailed(format))];
      }
      stage := Done;
    }
  }

  /** The file name chosen at the start of the call: `mermaid-diagram.<format>`,
      replaced by the cleaned first line when that is not empty. */
  method ChooseFileName(code: string, f: Format) returns (filename: string)
    ensures filename == FileName(code, Ext(f))
  {
    filename := DefaultBase + "." + Ext(f);
    var firstLine := FirstLine(code);
    if firstLine != [] {
      var cleanName := CleanName(firstLine);
      if cleanName != [] {
        filename := cleanName + "." + Ext(f);
      }
    }
  }

  /** The bitmap branch of the synchronous part: the canvas is prepared, and
      with a context the SVG is wrapped in a blob whose object URL becomes the
      image's source; without one the error thrown is caught and reported. */
  method StartBitmap(d: Diagram, f: Format, filename: string, page: Page)
    returns (c: Canvas, ctx: Context2D?, effects: seq<Effect>, stage: Stage)
    requires page.diagram == Some(d) && IsBitmap(f)
    ensures fresh(c) && fresh(c.bitmap)
    ensures c.Valid() && c.width == 2 * d.width && c.height == 2 * d.height
    ensures c.Filled(if page.contextAvailable then Backdrop(f) else TransparentBlack)
    ensures (ctx != null) == page.contextAvailable
    ensures ctx != null ==> ctx.canvas == c
    ensures effects == StartEffects(f, filename, page)
    ensures stage == StartStage(f, page)
  {
    c, ctx := PrepareCanvas(d, f, page.contextAvailable);
    if ctx != null {
      var svgBlob := Blob(d.markup, SvgMimeType);
      var url := page.objectUrl;
      effects := [CreateObjectUrl(url, svgBlob), LoadImage(url)];
      stage := AwaitingImage;
    } else {
      // `throw new Error(...)`, caught at the end of the function
      effects := [Notify(ExportFailed)];
      stage := Done;
    }
  }

  /** A new canvas sized to twice the diagram's bounding box, with its 2-D
      context when the browser gives one; for the JPEG formats the context fills
      the whole canvas with white. */
  method PrepareCanvas(d: Diagram, f: Format, contextAvailable: bool) returns (c: Canvas, ctx: Context2D?)
    ensures fresh(c) && fresh(c.bitmap)
    ensures c.Valid() && c.width == 2 * d.width && c.height == 2 * d.height
    ensures c.Filled(if contextAvailable then Backdrop(f) else TransparentBlack)
    ensures (ctx != null) == contextAvailable
    ensures ctx != null ==> ctx.canvas == c
  {
    c := new Canvas();
    ctx := null;
    if contextAvailable {
      ctx := new Context2D(c);
    }
    c.SetWidth(d.width * 2);
    c.SetHeight(d.height * 2);
    if ctx != null && IsJpeg(f) {
      ctx.fillStyle := OpaqueWhite;
      ctx.FillRect(0, 0, c.width, c.height);
    }
  }

  /** One click on an export button, from start to finish, with the browser's
      later answers given: the effects are those of `Trace`, and the canvas (for
      a bitmap export of a diagram) is twice the diagram's size and holds the
      diagram drawn over the backdrop. `scaled` is the decoded image as the
      browser resamples it onto the canvas. */
  method Run(f: Format, code: string, page: Page, later: Later, scaled: (nat, nat) -> Pixel)
    returns (effects: seq<Effect>, canvas: Canvas?)
    ensures effects == Trace(f, code, page, later)
    ensures (canvas == null) == (page.diagram.None? || f == Svg)
    ensures canvas != null ==>
      && canvas.Valid()
      && canvas.width == 2 * page.diagram.value.width
      && canvas.height == 2 * page.diagram.value.height
    ensures canvas != null ==> forall i, j :: 0 <= i < canvas.height && 0 <= j < canvas.width ==>
      canvas.bitmap[i, j] ==
        if !page.contextAvailable then TransparentBlack
        else if later.imageLoads then Over(scaled(i, j), Backdrop(f))
        else Backdrop(f)
  {
    var call := new ExportCall.Start(f, code, page);
    if call.stage == AwaitingImage && later.imageLoads {
      call.OnImageLoad(scaled);
      call.OnBlob(later.encoded);
    }
    effects, canvas := call.effects, call.canvas;
  }
}

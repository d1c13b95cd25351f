/** What one call of `handleExport` does, proved about its trace of effects. */
module ExportLemmas {
  import opened FileNames
  import opened FileNameLemmas
  import opened Canvas2D
  import opened Export

  lemma {:induction false} NoticesAppend(a: seq<Effect>, b: seq<Effect>)
    ensures Notices(a + b) == Notices(a) + Notices(b)
  {
    if a != [] {
      assert (a + b)[1..] == a[1..] + b;
      NoticesAppend(a[1..], b);
    } else {
      assert a + b == b;
    }
  }

  lemma {:induction false} SavedFilesAppend(a: seq<Effect>, b: seq<Effect>)
    ensures SavedFiles(a + b) == SavedFiles(a) + SavedFiles(b)
  {
    if a != [] {
      assert (a + b)[1..] == a[1..] + b;
      SavedFilesAppend(a[1..], b);
    } else {
      assert a + b == b;
    }
  }

  /** Without a diagram on the page the only effect is the "No diagram to
      export" notice: nothing is saved and no object URL is made. */
  lemma TraceNoDiagram(f: Format, code: string, page: Page, later: Later)
    requires page.diagram.None?
    ensures Trace(f, code, page, later) == [Notify(Toast("Export failed", "No diagram to export", true))]
  {
  }

  /** An SVG export saves the serialised markup unchanged, as
      `image/svg+xml;charset=utf-8`, under the file name, and says so. */
  lemma TraceSvg(code: string, page: Page, later: Later)
    requires page.diagram.Some?
    ensures var name := FileName(code, "svg");
      Trace(Svg, code, page, later) ==
        [ SaveAs(Blob(page.diagram.value.markup, "image/svg+xml;charset=utf-8"), name),
          Notify(Toast("Export successful", "Saved as " + name, false)) ]
  {
  }

  /** A call shows exactly the notice `Outcome` names, or none at all when the
      image never decodes. */
  lemma TraceNotices(f: Format, code: string, page: Page, later: Later)
    ensures Notices(Trace(f, code, page, later)) ==
      match Outcome(f, FileName(code, Ext(f)), page, later) case None => [] case Some(t) => [t]
  {
    EffectsNotices(f, FileName(code, Ext(f)), page, later);
  }

  lemma EffectsNotices(f: Format, name: string, page: Page, later: Later)
    ensures Notices(Effects(f, name, page, later)) ==
      match Outcome(f, name, page, later) case None => [] case Some(t) => [t]
  {
    var start := StartEffects(f, name, page);
    StartNotices(f, name, page);
    if StartStage(f, page) == AwaitingImage && later.imageLoads {
      var load := ImageLoadEffects(f, page.objectUrl);
      var done := BlobEffects(f, name, later.encoded);
      assert Notices(load) == [];
      BlobNotices(f, name, later.encoded);
      NoticesAppend(start, load + done);
      NoticesAppend(load, done);
    } else {
      NoticesAppend(start, []);
    }
  }

  lemma StartNotices(f: Format, name: string, page: Page)
    ensures Notices(StartEffects(f, name, page)) ==
      if page.diagram.None? then [NoDiagram]
      else if f == Svg then [Saved(name)]
      else if !page.contextAvailable then [ExportFailed]
      else []
  {
  }

  lemma BlobNotices(f: Format, name: string, blob: Option<Blob>)
    ensures Notices(BlobEffects(f, name, blob)) == if blob.Some? then [Saved(name)] else [ConvertFailed(f)]
  {
  }

  /** A file is saved exactly when the call succeeds, once, under the name
      derived from the first line of the diagram source. */
  lemma TraceSavedFiles(f: Format, code: string, page: Page, later: Later)
    ensures SavedFiles(Trace(f, code, page, later)) ==
      if Succeeds(f, page, later) then [FileName(code, Ext(f))] else []
  {
    EffectsSavedFiles(f, FileName(code, Ext(f)), page, later);
  }

  lemma EffectsSavedFiles(f: Format, name: string, page: Page, later: Later)
    ensures SavedFiles(Effects(f, name, page, later)) ==
      if Succeeds(f, page, later) then [name] else []
  {
    var start := StartEffects(f, name, page);
    if StartStage(f, page) == AwaitingImage && later.imageLoads {
      var load := ImageLoadEffects(f, page.objectUrl);
      var done := BlobEffects(f, name, later.encoded);
      SavedFilesAppend(start, load + done);
      SavedFilesAppend(load, done);
    } else {
      SavedFilesAppend(start, []);
    }
  }

  /** The notice is a success exactly when a file is saved; every failure notice
      carries one of the three failure messages. */
  lemma OutcomeMatchesSave(f: Format, name: string, page: Page, later: Later)
    ensures Outcome(f, name, page, later).Some? && !Outcome(f, name, page, later).value.destructive
      <==> Succeeds(f, page, later)
    ensures Outcome(f, name, page, later).Some? && Outcome(f, name, page, later).value.destructive ==>
      Outcome(f, name, page, later).value.description in
        {"No diagram to export", "Failed to export diagram", "Failed to convert to " + UpperName(f)}
  {
  }

  /** Only the first line of the source matters. */
  lemma TraceFirstLineOnly(f: Format, line: string, rest: string, page: Page, later: Later)
    requires '\n' !in line
    ensures Trace(f, line + "\n" + rest, page, later) == Trace(f, line, page, later)
  {
    FileNameFirstLineOnly(line, rest, Ext(f));
  }

  /** A bitmap export that waits for the image asks the encoder for
      `image/<format>` at quality 0.95, and does so once the image has decoded. */
  lemma TraceEncoderRequest(f: Format, code: string, page: Page, later: Later)
    ensures var decoded := page.diagram.Some? && IsBitmap(f) && page.contextAvailable && later.imageLoads;
      RequestBlob("image/" + Ext(f), 0.95) in Trace(f, code, page, later) <==> decoded
    ensures forall e | e in Trace(f, code, page, later) && e.RequestBlob? ::
      e == RequestBlob("image/" + Ext(f), 0.95)
  {
    EffectsEncoderRequest(f, FileName(code, Ext(f)), page, later);
  }

  lemma EffectsEncoderRequest(f: Format, name: string, page: Page, later: Later)
    ensures var decoded := page.diagram.Some? && IsBitmap(f) && page.contextAvailable && later.imageLoads;
      RequestBlob("image/" + Ext(f), 0.95) in Effects(f, name, page, later) <==> decoded
    ensures forall e | e in Effects(f, name, page, later) && e.RequestBlob? ::
      e == RequestBlob("image/" + Ext(f), 0.95)
  {
  }

  /** The object URL is revoked only after it was created, and it is revoked
      exactly when the image decodes. */
  lemma TraceObjectUrl(f: Format, code: string, page: Page, later: Later)
    ensures var t := Trace(f, code, page, later);
      forall i | 0 <= i < |t| && t[i].RevokeObjectUrl? ::
        exists j :: 0 <= j < i && t[j].CreateObjectUrl? && t[j].url == t[i].url
    ensures var t := Trace(f, code, page, later);
      var decoded := StartStage(f, page) == AwaitingImage && later.imageLoads;
      (exists i :: 0 <= i < |t| && t[i].RevokeObjectUrl?) <==> decoded
  {
    EffectsObjectUrl(f, FileName(code, Ext(f)), page, later);
  }

  lemma EffectsObjectUrl(f: Format, name: string, page: Page, later: Later)
    ensures var t := Effects(f, name, page, later);
      forall i | 0 <= i < |t| && t[i].RevokeObjectUrl? ::
        exists j :: 0 <= j < i && t[j].CreateObjectUrl? && t[j].url == t[i].url
    ensures var t := Effects(f, name, page, later);
      var decoded := StartStage(f, page) == AwaitingImage && later.imageLoads;
      (exists i :: 0 <= i < |t| && t[i].RevokeObjectUrl?) <==> decoded
  {
    var t := Effects(f, name, page, later);
    var start := StartEffects(f, name, page);
    if StartStage(f, page) == AwaitingImage && later.imageLoads {
      var done := BlobEffects(f, name, later.encoded);
      assert t == start + [RevokeObjectUrl(page.objectUrl), RequestBlob(MimeType(f), Quality)] + done;
      assert t[0].CreateObjectUrl? && t[0].url == page.objectUrl;
      assert t[2].RevokeObjectUrl?;
      assert forall i | 0 <= i < |t| && i != 2 :: !t[i].RevokeObjectUrl?;
    } else {
      assert t == start;
      assert forall i | 0 <= i < |t| :: !t[i].RevokeObjectUrl?;
    }
  }

  /** After the diagram is drawn, a JPEG bitmap is opaque everywhere, and a PNG
      bitmap has the image's own pixels wherever the image is not fully
      transparent, and transparent black where it is. (With the 8-bit
      non-premultiplied pixels of this model; a browser may round the colour of
      a partly transparent pixel.) */
  lemma BitmapPixel(f: Format, s: Pixel)
    requires IsBitmap(f)
    ensures IsJpeg(f) ==> Over(s, Backdrop(f)).a == 255
    ensures f == Png ==> Over(s, Backdrop(f)) == if s.a == 0 then TransparentBlack else s
  {
    if IsJpeg(f) {
      OverOpaqueBackdrop(s, OpaqueWhite);
    } else {
      OverTransparentBackdrop(s);
    }
  }
}

# Diagram export, modelled in Dafny

This project models `handleExport` in `src/pages/Index.tsx`. That is what the
diagram editor does when the user picks an export format (`svg`, `png`, `jpg`
or `jpeg`):

- It looks for the rendered diagram. Without one, it says "No diagram to
  export" and stops.
- It derives a file name from the first line of the diagram source.
- For `svg` it saves the serialised markup and announces the file name.
- For the bitmap formats it creates a canvas twice the diagram's on-screen
  size. The JPEG formats get a white background. It then loads the SVG into an
  image through an object URL and ends in two browser callbacks:
  - `img.onload` draws the image, revokes the URL and asks the encoder for a
    blob;
  - the `toBlob` callback saves the blob, or reports that the conversion
    failed.
- A missing 2-D context is thrown, caught and reported as "Failed to export
  diagram".

The project has five files:

- `filename.dfy` (module `FileNames`): the file-name derivation as pure
  functions. Each step of the chain is its own function: `split('\n')[0]`,
  `replace(/[^\w\s]/gi, '')`, `trim()`, `replace(/\s+/g, '-')` and
  `toLowerCase()`.
- `filename_lemmas.dfy` (module `FileNameLemmas`): what the chain guarantees,
  with the three worked examples `graph-td.svg`, `my-flow.png` and
  `mermaid-diagram.jpeg`.
- `canvas.dfy` (module `Canvas2D`): the canvas as a class with a pixel array
  (`array2`), and its 2-D context.
  - The context is a class with a `fillStyle` field.
  - `fillRect` and `drawImage` are loops that composite pixels in place with
    source-over.
  - Setting `width` or `height` gives a new transparent bitmap.
- `export.dfy` (module `Export`): the export call.
  - The class `ExportCall` holds the variables the callbacks close over:
    `filename`, the object URL, the canvas and its context.
  - Its constructor is the synchronous part of `handleExport`.
  - `OnImageLoad` is `img.onload` and `OnBlob` is the `toBlob` callback.
  - Every outside effect is appended to `effects`. The effects are notices
    (`toast`), `saveAs`, object URL creation and revocation, setting
    `img.src`, and the encoder request.
  - The functions `StartEffects`, `ImageLoadEffects`, `BlobEffects` and
    `Effects` specify the sequence of effects for a given file name, and
    `Trace` is `Effects` with the name derived from the source.
  - `Run` drives one call from start to finish and is proved to produce
    `Trace`.
- `export_lemmas.dfy` (module `ExportLemmas`): properties of `Trace`, checked
  against the separate decision table `Outcome`. Each is proved for an
  arbitrary file name (`Effects…` lemmas) and then for the derived one.

The browser's answers are parameters of the model:

- whether the diagram element exists, and its markup and size;
- whether `getContext('2d')` returns a context;
- the URL `createObjectURL` returns;
- whether the SVG image decodes, and the decoded image as resampled onto the
  canvas;
- what `toBlob` passes to its callback.

Points where the code's behaviour is easy to misread:

- The name keeps `_`, because `\w` matches it; it is not reduced to letters
  and digits.
- There are three failure messages, not two. An encoder that returns `null`
  gives "Failed to convert to PNG" (or JPG, JPEG), not the generic message.
- There is no `onerror` handler. An image that never decodes ends the call
  with no notice at all, and the object URL is never revoked. It is not
  reported as a failure.
- The canvas is created and sized before the missing context is detected.

## Model

| member | source | states |
|---|---|---|
| FileNames.IsWordChar | src/pages/Index.tsx:62 | `\w` without the `u` flag: ASCII letters, digits and `_`; what it lets through is stated by StripThenDropSpaces and CleanNameLetters |
| FileNames.IsSpace | src/pages/Index.tsx:62-64 | `\s`, which is also the set `trim()` removes: the ECMAScript whitespace and line terminators; used by the contracts of StripSymbols, TrimStart, TrimEnd and HyphenateSpaces |
| FileNames.FirstLine | src/pages/Index.tsx:59 | the first line is a prefix of the source without a line feed, followed by a line feed or the end of the source |
| FileNames.StripSymbols | src/pages/Index.tsx:62 | the result is no longer than the line and holds only word characters and whitespace; StripSymbolsAppend and StripSymbolsChar pin it character by character, and StripThenDropSpaces shows it keeps every word character, in order |
| FileNames.TrimStart | src/pages/Index.tsx:63 | the result is a suffix, everything removed is whitespace, and it starts with a non-whitespace character |
| FileNames.TrimEnd | src/pages/Index.tsx:63 | the result is a prefix, everything removed is whitespace, and it ends with a non-whitespace character |
| FileNames.Trim | src/pages/Index.tsx:63 | a non-empty trimmed string starts and ends with non-whitespace |
| FileNames.ToLower | src/pages/Index.tsx:65 | the length is kept, no upper-case ASCII letter is left, every other character is kept, and an upper-case letter becomes its lower-case form (32 code points higher) |
| FileNames.HyphenateSpaces | src/pages/Index.tsx:64 | the result is no longer than the input; HyphenateRemovesSpace, HyphenateRun, HyphenateNoDoubles and HyphenateLetters state what replaces each run |
| FileNames.CleanName | src/pages/Index.tsx:61-65 | the four steps in the order of the code; its properties are CleanNameAlphabet, CleanNameHyphens, CleanNameLetters and CleanNameEmpty |
| FileNames.BaseName | src/pages/Index.tsx:58-67 | `mermaid-diagram` unless the first line is non-empty and cleans to something non-empty; FileNameShape states the result |
| FileNames.FileName | src/pages/Index.tsx:57-69 | the base name, a dot and the format; FileNameShape, FileNameFirstLineOnly and the examples state its properties |
| FileNameLemmas.StripSymbolsAppend | src/pages/Index.tsx:62 | the replace distributes over concatenation: each part is stripped on its own |
| FileNameLemmas.StripSymbolsChar | src/pages/Index.tsx:62 | a single character is kept in place exactly when it is a word character or whitespace, and removed otherwise |
| FileNameLemmas.StripThenDropSpaces | src/pages/Index.tsx:62 | after the symbols are stripped, the non-whitespace characters left are exactly the line's word characters, in order |
| FileNameLemmas.TrimKeepsNonSpace | src/pages/Index.tsx:63 | trimming removes whitespace only |
| FileNameLemmas.TrimUnique | src/pages/Index.tsx:63 | a string with non-whitespace ends, framed by whitespace, trims to exactly itself |
| FileNameLemmas.HyphenateStart | src/pages/Index.tsx:64 | the hyphenated text is empty iff the input is, and starts with a hyphen iff the input starts with whitespace |
| FileNameLemmas.HyphenateEnd | src/pages/Index.tsx:64 | the hyphenated text ends with a hyphen iff the input ends with whitespace |
| FileNameLemmas.HyphenateAlphabet | src/pages/Index.tsx:64 | on stripped text, the whitespace replace gives only word characters and hyphens |
| FileNameLemmas.HyphenateNoDoubles | src/pages/Index.tsx:64 | on hyphen-free input, the result never has two hyphens in a row |
| FileNameLemmas.HyphenateRemovesSpace | src/pages/Index.tsx:64 | no whitespace is left after the replace |
| FileNameLemmas.HyphenateRun | src/pages/Index.tsx:64 | a whitespace run after whitespace-free text, ended by a non-whitespace character or the end, becomes exactly one hyphen and the rest is hyphenated on its own |
| FileNameLemmas.HyphenateLetters | src/pages/Index.tsx:64 | dropping the hyphens gives back the input's non-whitespace characters |
| FileNameLemmas.CleanNameAlphabet | src/pages/Index.tsx:61-65 | a cleaned name holds only `a`-`z`, `0`-`9`, `_` and `-` |
| FileNameLemmas.CleanNameHyphens | src/pages/Index.tsx:61-65 | a non-empty cleaned name neither starts nor ends with a hyphen and has no double hyphen |
| FileNameLemmas.CleanNameLetters | src/pages/Index.tsx:61-65 | without its hyphens, a cleaned name is the line's word characters, lower-cased, in order |
| FileNameLemmas.CleanNameEmpty | src/pages/Index.tsx:61-66 | the cleaned name is empty exactly when the line has no word character |
| FileNameLemmas.CleanNameTwice | src/pages/Index.tsx:61-65 | cleaning a cleaned name again only removes its hyphens, so the cleaning is not idempotent |
| FileNameLemmas.CleanNameFramed | src/pages/Index.tsx:61-65 | text without word characters around the line does not change the cleaned name |
| FileNameLemmas.CleanNameTwoWords | src/pages/Index.tsx:61-65 | two words separated by a space clean to the lower-cased words joined by one hyphen |
| FileNameLemmas.CleanNameTwiceTwoWords | src/pages/Index.tsx:61-65 | cleaning two words twice runs them together |
| FileNameLemmas.CleanNameExampleTwice | src/pages/Index.tsx:61-65 | `graph TD` cleaned twice is `graphtd` |
| FileNameLemmas.FileNameFirstLineOnly | src/pages/Index.tsx:57-69 | only the text before the first line feed decides the file name |
| FileNameLemmas.FileNameShape | src/pages/Index.tsx:57-69 | the name is the cleaned first line if it has a word character, else `mermaid-diagram`, then `.` and the format; a cleaned base is well formed |
| FileNameLemmas.FileNameOfTitle | src/pages/Index.tsx:57-69 | a one-line source with a word character is named after its cleaned form |
| FileNameLemmas.FileNameOfFirstLine | src/pages/Index.tsx:57-69 | a first line with a word character names the file, whatever follows |
| FileNameLemmas.FileNameFramed | src/pages/Index.tsx:57-69 | decoration without word characters around a one-line title does not reach the file name |
| FileNameLemmas.FileNameExampleFlowchart | src/pages/Index.tsx:57-69 | a source starting with the line `graph TD` is saved as `graph-td.svg` |
| FileNameLemmas.FileNameExampleDecorated | src/pages/Index.tsx:57-69 | `  ## My Flow! ##  ` is saved as `my-flow.png` |
| FileNameLemmas.FileNameExampleEmpty | src/pages/Index.tsx:58-60 | an empty source is saved as `mermaid-diagram.jpeg` |
| Export.ChooseFileName | src/pages/Index.tsx:57-69 | the variable `filename`, reassigned as in the code, ends as `FileName(code, format)` |
| Canvas2D.Over | src/pages/Index.tsx:95-105 | 8-bit source-over, used by `fillRect` and `drawImage`; OverOpaqueBackdrop, OverOpaqueSource, OverTransparentBackdrop and OverTransparentSource state its properties |
| Canvas2D.OverOpaqueBackdrop | src/pages/Index.tsx:94-97 | whatever is drawn onto an opaque pixel leaves it opaque |
| Canvas2D.OverOpaqueSource | src/pages/Index.tsx:95-96 | an opaque fill replaces what lies under it |
| Canvas2D.OverTransparentBackdrop | src/pages/Index.tsx:105 | onto transparent black an image pixel lands unchanged, except that a fully transparent one stays transparent black |
| Canvas2D.OverTransparentSource | src/pages/Index.tsx:105 | a fully transparent image pixel changes nothing under it that has any alpha |
| Canvas2D.Canvas.constructor | src/pages/Index.tsx:84 | a new canvas is 300 by 150 and transparent black |
| Canvas2D.Canvas.SetWidth | src/pages/Index.tsx:89 | setting the width gives a new bitmap of that width, cleared to transparent black |
| Canvas2D.Canvas.SetHeight | src/pages/Index.tsx:90 | setting the height gives a new bitmap of that height, cleared to transparent black |
| Canvas2D.Context2D.constructor | src/pages/Index.tsx:85 | a new context draws on its canvas with the default black fill style |
| Canvas2D.Context2D.FillRect | src/pages/Index.tsx:95-96 | exactly the pixels in the rectangle get the fill style composited over them; with an opaque style they become that style |
| Canvas2D.Context2D.DrawImage | src/pages/Index.tsx:105 | exactly the pixels in the rectangle get the scaled image composited over them |
| Export.UpperName | src/pages/Index.tsx:120 | the result has no lower-case letter, and lower-casing it gives back the format |
| Export.PrepareCanvas | src/pages/Index.tsx:84-97 | a new canvas twice the bounding box, filled white for `jpg`/`jpeg` when there is a context, and transparent otherwise |
| Export.StartBitmap | src/pages/Index.tsx:82-130 | with a context, the SVG blob's URL is created and set as the image source, and the call waits for the image; without one, the call ends with "Failed to export diagram" |
| Export.ExportCall.Start | src/pages/Index.tsx:46-131 | the synchronous part's effects are `StartEffects`; a canvas exists only for a bitmap format with a diagram, sized 2x and filled with the backdrop; a waiting call holds the file name `FileName(code, format)` |
| Export.ExportCall.OnImageLoad | src/pages/Index.tsx:104-110 | the image is composited over every pixel, then the URL is revoked and the encoder is asked for `image/<format>` at 0.95 |
| Export.ExportCall.OnBlob | src/pages/Index.tsx:110-124 | a blob is saved under the file name and announced; `null` gives "Failed to convert to " and the upper-case format |
| Export.Run | src/pages/Index.tsx:45-140 | a whole call yields exactly `Trace`; it has a canvas exactly for a bitmap format with a diagram, twice the box, whose pixels are the image over the backdrop, the bare backdrop, or transparent black |
| Export.Effects | src/pages/Index.tsx:45-140 | every effect of one call, in order, for a given file name; the Effects lemmas (EffectsNotices, EffectsSavedFiles, EffectsEncoderRequest, EffectsObjectUrl) state its properties |
| Export.Trace | src/pages/Index.tsx:45-140 | the effects with the file name derived from the source; Run is proved to produce it, and the Trace lemmas below state its properties |
| Export.Outcome | src/pages/Index.tsx:45-140 | the notice each combination of page and browser answers ends with; OutcomeMatchesSave and TraceNotices tie it to the saves and the effects |
| ExportLemmas.TraceNoDiagram | src/pages/Index.tsx:47-55 | without a diagram, the only effect is the "No diagram to export" notice |
| ExportLemmas.TraceSvg | src/pages/Index.tsx:71-80 | `svg` saves the markup unchanged as `image/svg+xml;charset=utf-8` under the file name, then says "Saved as" the name |
| ExportLemmas.TraceNotices | src/pages/Index.tsx:45-140 | a call shows exactly the one notice the decision table `Outcome` gives, or none when the image never decodes |
| ExportLemmas.TraceSavedFiles | src/pages/Index.tsx:45-140 | exactly one file is saved when the call succeeds, named `FileName(code, format)`, and none otherwise |
| ExportLemmas.OutcomeMatchesSave | src/pages/Index.tsx:45-140 | the notice is a success exactly when a file is saved; a failure notice has one of the three failure messages |
| ExportLemmas.TraceFirstLineOnly | src/pages/Index.tsx:59 | the whole call depends only on the source's first line |
| ExportLemmas.TraceEncoderRequest | src/pages/Index.tsx:109-124 | the encoder is asked for `image/<format>` at quality 0.95 exactly when a bitmap export has a context and the image decodes, and never for anything else |
| ExportLemmas.TraceObjectUrl | src/pages/Index.tsx:102-106 | the object URL is revoked only after it was created, and exactly when the image decodes |
| ExportLemmas.BitmapPixel | src/pages/Index.tsx:94-105 | a drawn JPEG pixel is opaque; a drawn PNG pixel is the image's own pixel, or transparent black where the image is fully transparent |

## Left out

- The rest of the page is not modelled: the theme toggle, the editor, the AI prompt and the layout. They do not take part in the export.
- `document.querySelector`, `XMLSerializer` and `getBoundingClientRect` are browser internals. Their results are inputs (`Page`, `Diagram`).
- The size of the bounding box is a whole number of pixels. The browser's floating-point box and the conversion of `2 * width` to a canvas dimension are not modelled.
- Image decoding and resampling are inputs: whether the image decodes, and the pixel the browser puts at each canvas position.
- Encoding is an input: the blob or `null` that `toBlob` passes on. Which types the encoder supports is not modelled. `image/jpg` is not a type browser encoders know, so they fall back to PNG, and quality 0.95 is then ignored. The model records the requested type exactly as the code builds it.
- `saveAs` and `toast` are recorded effects. The download and the on-screen notice are not modelled.
- `console.error` logging is not modelled.
- Exceptions from the browser calls inside the `try` are not modelled, apart from the missing context. Exceptions thrown inside the callbacks are not modelled either; they would escape the `catch`.
- Canvas2D.Over: compositing is done on 8-bit non-premultiplied channels, rounded down. Browsers keep canvas pixels premultiplied and differ in rounding, so a partly transparent pixel can lose colour precision: (100, 0, 0, 1) is stored with premultiplied red 0 and comes out as (0, 0, 0, 1). The properties proved about opaque pixels, opaque fills and fully transparent pixels hold in a browser as well.
- Canvas2D.OverTransparentBackdrop: a partly transparent image pixel lands unchanged on transparent black in the model; in a browser its colour may be rounded.
- ExportLemmas.BitmapPixel: a PNG bitmap holds the image's own pixels in the model; in a browser the colour of partly transparent pixels may be rounded.
- Canvas2D.Canvas.SetWidth: resizing also resets the context's state (its fill style), and that is not modelled. The code always sets the fill style after resizing.
- Several exports in flight at once are not modelled. Each `ExportCall` is independent, and the interleaving of their callbacks on the event loop is left out.
- JavaScript strings are UTF-16 and the model's characters are Unicode scalar values. The cleaning keeps only ASCII word characters and whitespace, so the names come out the same.

# Shape-Mask image replacement tool — a Dafny model

The tool is a single-page browser application (`app.js`). The user uploads a
transparent PNG "mask", clicks the canvas to open the replacement panel, and
uploads a second "replacement" image. Applying the replacement stretches that
image to the mask's size and keeps only the part the mask covers, using the
Porter-Duff "destination-in" operator (section 9.1, "Destination In", of W3C
Compositing and Blending Level 1). The result can be downloaded or reset.

This project models three parts of `app.js`:

- **Workflow** (`workflow.dfy`, `workflow_properties.dfy`). The application
  state `AppState` and the session variables `maskImage`, `replaceImage` and
  `resultCanvas` form one immutable `Session` record. The record also holds
  what the main canvas shows and whether the apply button and the
  reset/download buttons are enabled. Every handler is a pure function, and
  `Step` dispatches the listeners of `bindEventListeners`. The quirks of the
  code are kept:
  - `applyReplacement` passes through PROCESSING, its `hideReplacePanel`
    call sets MASK_LOADED, and only then is COMPLETED set.
  - `resetApp` sets INITIAL, but its `hideReplacePanel` call overwrites that
    with MASK_LOADED.
  - A replacement upload never changes the state.
  - A replacement uploaded without a mask is stored, but the preview drawing
    then throws, so the apply button stays disabled.
  - A new mask is accepted in any state and keeps an earlier result.

  `Consistent` is the invariant of every reachable session. It says, among
  other things, that apply is enabled only when both images are loaded and
  that PROCESSING is never visible between events.
- **Upload checks** (`validation.dfy`). `validatePNGFile`,
  `validateImageFile` and the `image/` prefix test in `loadImageFile` are
  modelled over a MIME type string and a byte size. JavaScript's `includes`
  and `startsWith` are each proved equal to a reference definition:
  `s == pre + sub + post` and `s == prefix + rest`.
- **Compositing** (`compositing.dfy`, with pixel types in `pixels.dfy`).
  `cropImageWithMask` is modelled over grids of 8-bit RGBA pixels: output
  alpha = source alpha × mask alpha / 255, rounded down. The fit-and-centre
  arithmetic of `generatePreview` is modelled over `real`.

External inputs are parameters. Decoding is an `Option<Image>` carried by
each upload event. The browser's resampling in `drawImage` is a `Resampler`
function.

## Model

| member | source | states |
|---|---|---|
| Compositing.DestInAlpha | app.js:178-180 | destination-in alpha is the product of source and mask alpha scaled to 0..255 and rounded down; 0 where the mask is 0, never above either alpha, equal to the source alpha under an opaque mask and to the mask alpha under an opaque source |
| Compositing.DestInAlphaMonotonic | app.js:178-180 | a more opaque mask never gives a less opaque output pixel |
| Compositing.DestIn | app.js:178-180 | one destination-in pixel keeps the drawn colour, takes the scaled alpha, and is fully transparent when that alpha is 0 |
| Compositing.CropImageWithMask | app.js:167-186 | the crop has exactly the mask's width and height, is a complete grid, and at every pixel is transparent where the mask alpha is 0, has alpha at most the stretched source's and the mask's, keeps the source alpha under an opaque mask, and keeps the source colour wherever it is visible |
| Compositing.OpaqueMaskKeepsSource | app.js:176-180 | under a fully opaque mask pixel the crop shows the stretched source pixel itself (transparent if that pixel is invisible) |
| Compositing.FitPreview | app.js:191-211 | the preview keeps the aspect ratio, fits inside the size×size box, fills it along one axis, and is centred with equal non-negative margins |
| Compositing.FitPreviewExample | app.js:191-208 | a 200 by 100 canvas in the default 150-pixel preview box is drawn 150 by 75 at (0, 37.5) |
| Compositing.FitBounds | app.js:202-205 | the arithmetic under FitPreview: scaling by the smaller of the two ratios fits both axes and reaches the box on one |
| Validation.StartsWithIffPrefix | app.js:75 | the `startsWith` test holds exactly when the string is the prefix followed by some rest |
| Validation.IncludesOccurs | app.js:97 | when the `includes` scan succeeds, the string splits as pre + sub + post |
| Validation.OccursIncludes | app.js:97 | when the string splits as pre + sub + post, the `includes` scan succeeds |
| Validation.IncludesIffOccurs | app.js:97 | `includes` holds exactly when the substring occurs somewhere |
| Validation.ValidatePngFile | app.js:96-104 | a mask file passes exactly when its type contains "png" and its size is at most 10 MiB; the type is checked first (NotPng), then the size (MaskTooLarge) |
| Validation.ValidateImageFile | app.js:109-118 | a replacement passes exactly when its type is one of image/jpeg, image/jpg, image/png, image/gif, image/webp and its size is at most 20 MiB; a type off the list fails with UnsupportedType whatever the size, and an allowed type over 20 MiB fails with ReplaceTooLarge |
| Validation.LoadImageFile | app.js:73-91 | loading succeeds exactly when the type starts with "image/" and decoding succeeds, yields the decoded image, and refuses a non-image type before decoding |
| Validation.LoadMask | app.js:319-322 | a mask upload yields an image exactly when the type contains "png", starts with "image/", the size is at most 10 MiB and decoding succeeds |
| Validation.LoadReplacement | app.js:363-366 | a replacement upload yields an image exactly when the type is on the allow-list, the size is at most 20 MiB and decoding succeeds; the `image/` prefix test never refuses it |
| Validation.AllowedTypesAreImages | app.js:110 | every allowed replacement type starts with "image/" |
| Validation.SizeBoundaries | app.js:100-114 | exactly 10 MiB passes the mask check and one byte more fails; likewise 20 MiB for the replacement check |
| Validation.NoImagePrefix | app.js:75 | a type whose first character is not 'i' fails the `image/` prefix test |
| Validation.PngWithoutImagePrefix | app.js:75-104 | "application/png" passes `validatePNGFile` but is refused by `loadImageFile` |
| Workflow.HideReplacePanel | app.js:234-262 | closing the panel sets MASK_LOADED, clears the replacement and disables apply, and keeps the mask, the result, the canvas and the control buttons |
| Workflow.HandleMaskUpload | app.js:314-353 | an accepted, decoded mask becomes the mask and the main canvas, enables the controls and sets MASK_LOADED from any state, and keeps the replacement, the result and the apply button; any other upload changes nothing |
| Workflow.HandleReplaceUpload | app.js:358-407 | the state, mask, result, canvas and controls never change; an accepted, decoded file becomes the replacement, and apply ends enabled exactly when it was already enabled or a mask is present; any other upload changes nothing |
| Workflow.ApplyReplacement | app.js:412-443 | with both images it ends COMPLETED with the replacement cleared, apply disabled, and as result the mask crop of the replacement (`CropImageWithMask`), a complete canvas of exactly the mask's size that the main canvas shows; with an image missing it ends stuck in PROCESSING with nothing else changed |
| Workflow.ResetApp | app.js:448-473 | after a reset no mask, replacement or result is held, the canvas is blank, apply and the controls are disabled, and the state is MASK_LOADED |
| Workflow.DownloadResult | app.js:478-484 | the download exports nothing exactly when there is neither a result nor a mask, otherwise the result if present, else the main canvas |
| Workflow.OnCanvasClick | app.js:582-586 | a canvas click leads to TOOL_ACTIVE exactly from MASK_LOADED, COMPLETED or TOOL_ACTIVE, changes nothing elsewhere, and never changes anything but the state |
| Workflow.Step | app.js:564-618 | the listeners: a click on a disabled apply or reset button and every download click leave the session unchanged; an enabled apply ends COMPLETED (or PROCESSING on the error path); an enabled reset clears mask, result and controls; close and cancel return to MASK_LOADED with the replacement cleared and apply disabled, changing nothing else |
| Workflow.OnKeyDown | app.js:613-617 | Escape in TOOL_ACTIVE returns to MASK_LOADED with the replacement cleared and apply disabled; every other key or state changes nothing |
| WorkflowProperties.InitialConsistent | app.js:16-19 | the page-load session satisfies the invariant |
| WorkflowProperties.StepPreservesConsistent | app.js:564-618 | every event preserves the invariant |
| WorkflowProperties.RunPreservesConsistent | app.js:564-618 | every sequence of events preserves the invariant |
| WorkflowProperties.ReachableConsistent | app.js:547-561 | every session reachable from page load satisfies the invariant, so apply is enabled only with both a mask and a replacement |
| WorkflowProperties.ApplyClickOutcome | app.js:412-434 | clicking an enabled apply button in a reachable session always completes: COMPLETED, replacement cleared, apply disabled, result the mask crop of the replacement, sized to the current mask and shown on the canvas |
| WorkflowProperties.ApplyWithoutReplacementSticks | app.js:415-418 | calling the handler without a replacement leaves the state PROCESSING, outside the invariant |
| WorkflowProperties.CanvasClickGuard | app.js:582-586 | through the listener, a click opens the tool only from MASK_LOADED or COMPLETED, is a no-op in INITIAL, PROCESSING and TOOL_ACTIVE, and never touches images or apply |
| WorkflowProperties.EscapeGuard | app.js:613-617 | through the listener, Escape acts only in TOOL_ACTIVE and then clears the replacement and apply but keeps mask and result |
| WorkflowProperties.RejectedMaskChangesNothing | app.js:347-349 | a mask file that fails the checks leaves the whole session unchanged |
| WorkflowProperties.ReplaceUploadKeepsState | app.js:358-390 | a replacement upload never changes the application state |
| WorkflowProperties.NeverBackToInitial | app.js:448-467 | once the state has left INITIAL no event brings it back, because a reset ends in MASK_LOADED |
| WorkflowProperties.ResetThenDownloadExportsNothing | app.js:602-610 | in a reachable session a reset click followed by a download exports nothing |
| WorkflowProperties.DownloadInConsistentSession | app.js:478-484 | in a reachable session the download exports nothing exactly when no mask is loaded, the result when there is one, and otherwise the main canvas showing the mask |
| WorkflowProperties.ResultSurvivesMaskUpload | app.js:322-345 | a new mask replaces the canvas but not the result, so the download still exports the old result |
| WorkflowProperties.CommitThenResetExportsNothing | app.js:412-484 | after an apply the reset button is enabled, and a reset then leaves nothing to export |

## Left out

- Presentation: status text, loading overlay, panel and hint visibility, mask info, `adjustCanvasSize` styling. Panel visibility is not tracked, so upload, close and cancel events are accepted in every state, as their handlers do not check the state.
- Image decoding (`Image`, object URLs, asynchronous load): each upload event carries the decoder's outcome as an `Option<Image>`.
- The resampling done by `drawImage` belongs to the browser: the crop takes it as a `Resampler` function. A drawn position outside the resampled grid reads as transparent.
- Download plumbing (`toBlob`, anchor click, file name): `DownloadResult` stops at the choice of canvas.
- `Utils.debounce` (timers) and `Utils.formatFileSize` (floating-point logarithms and display strings).
- Drag-and-drop wiring and the `confirm()` dialog: a drop is the same upload event, and a reset click is taken as confirmed.
- A file-input change with no file selected: it sends no event.
- Interleaving of the asynchronous upload and apply handlers: each handler runs to completion as one transition.
- The initial state of the apply button is set in the page markup, which is not part of this model. It is taken as disabled. The reset and download buttons are disabled by `initializeApp`.
- Drawing of the two preview thumbnails in `generatePreviews`: the only effect kept is that it throws without a mask.
- `app.js` has no scale/offset transform, fit-to-mask scaling, drag repositioning or ghosted two-pass preview, so the model has none. A new mask is accepted in any state, as `handleMaskUpload` does not check the state.
- Compositing.DestInAlpha: rounds the product down. A browser's premultiplied 8-bit arithmetic may round differently by one unit.
- Compositing.DestIn: keeps the drawn colour exactly, as the destination-in operator does in exact arithmetic. A canvas stores premultiplied 8-bit colour, so the colour read back from a semi-transparent pixel is quantised: colour 201 at alpha 1 is stored as 1 and reads back as 255. The model does not promise the colour the canvas reports.
- Compositing.FitPreview: computes over exact reals. JavaScript computes `Math.min(size / w, size / h)`, the products and the margins in doubles, so equalities such as a side exactly filling the box may be off by a rounding error there.
- Compositing.CropImageWithMask: its contract states per-pixel bounds and preservation facts, not the exact per-pixel value. `DestIn` and `DestInAlpha` give the exact value. Its colour facts, like those of `DestIn`, hold of the operator's exact arithmetic, not of the quantised colour a canvas reports.

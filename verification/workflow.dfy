/** The replacement workflow: the application state, the session variables
    beside it, and one pure transition per user event. The button flags
    stand for the `disabled` attribute of the apply, reset and download
    buttons; a disabled button delivers no click. */
module Workflow {
  import opened Pixels
  import opened Compositing
  import opened Validation

  /** `AppState`. */
  datatype AppState = Initial | MaskLoaded | ToolActive | Processing | Completed

  /** The module-level session: `currentState`, `maskImage`, `replaceImage`,
      `resultCanvas`, what the main canvas shows (`None` while it is blank),
      and whether the apply button and the reset/download pair are enabled. */
  datatype Session = Session(
    state: AppState,
    mask: Option<Image>,
    replace: Option<Image>,
    result: Option<Image>,
    mainCanvas: Option<Image>,
    applyEnabled: bool,
    controlsEnabled: bool)

  /** The session after page load: nothing loaded, every button disabled. */
  const InitialSession: Session :=
    Session(Initial, None, None, None, None, false, false)

  /** What `downloadResult` hands to the PNG export. */
  datatype Export =
    | NothingToExport
    | ExportResult(image: Image)
    | ExportMainCanvas(content: Option<Image>)

  /** The user events the listeners react to. An upload carries the file's
      type and size and what the browser decoded from it (`None` when
      decoding failed); a key press carries `KeyboardEvent.key`. */
  datatype Event =
    | MaskUpload(file: FileInfo, decoded: Option<Image>)
    | ReplaceUpload(file: FileInfo, decoded: Option<Image>)
    | CanvasClick
    | CloseToolClick
    | CancelClick
    | KeyDown(key: string)
    | ApplyClick
    | ResetClick
    | DownloadClick

  /** `s1` and `s2` hold the same images and show the same canvas. */
  predicate SameImages(s1: Session, s2: Session) {
    && s1.mask == s2.mask && s1.replace == s2.replace
    && s1.result == s2.result && s1.mainCanvas == s2.mainCanvas
  }

  // ----- UIController -----

  /** `resetReplacePanel` followed by the state change of `hideReplacePanel`. */
  function HideReplacePanel(s: Session): (r: Session)
    ensures r.state == MaskLoaded && r.replace.None? && !r.applyEnabled
    ensures r.mask == s.mask && r.result == s.result && r.mainCanvas == s.mainCanvas
    ensures r.controlsEnabled == s.controlsEnabled
  {
    s.(applyEnabled := false, replace := None).(state := MaskLoaded)
  }

  // ----- EventHandlers -----

  /** `handleMaskUpload`. A refused or undecodable file changes nothing;
      an accepted one becomes the mask, is drawn on the main canvas,
      enables reset/download and sets MASK_LOADED from any state, leaving
      the replacement, the result and the apply button alone. */
  function HandleMaskUpload(s: Session, f: FileInfo, decoded: Option<Image>): (r: Session)
    ensures MaskAccepted(f) && decoded.Some? ==>
      && r.state == MaskLoaded && r.mask == decoded && r.mainCanvas == decoded
      && r.controlsEnabled
      && r.replace == s.replace && r.result == s.result && r.applyEnabled == s.applyEnabled
    ensures !(MaskAccepted(f) && decoded.Some?) ==> r == s
  {
    match LoadMask(f, decoded)
    case Rejected(_) => s
    case Accepted(img) =>
      s.(mask := Some(img), mainCanvas := Some(img), controlsEnabled := true, state := MaskLoaded)
  }

  /** `handleReplaceUpload`. An accepted file always becomes the
      replacement; the previews are then drawn from the mask, which throws
      when there is none, so the apply button is enabled only when a mask
      is present. The state is never changed. */
  function HandleReplaceUpload(s: Session, f: FileInfo, decoded: Option<Image>): (r: Session)
    ensures r.state == s.state && r.mask == s.mask && r.result == s.result
    ensures r.mainCanvas == s.mainCanvas && r.controlsEnabled == s.controlsEnabled
    ensures ReplaceAccepted(f) && decoded.Some? ==>
      r.replace == decoded && (r.applyEnabled <==> s.applyEnabled || s.mask.Some?)
    ensures !(ReplaceAccepted(f) && decoded.Some?) ==> r == s
  {
    match LoadReplacement(f, decoded)
    case Rejected(_) => s
    case Accepted(img) =>
      var loaded := s.(replace := Some(img));
      if loaded.mask.None? then loaded else loaded.(applyEnabled := true)
  }

  /** `applyReplacement`. The state passes through PROCESSING; with both
      images present the crop becomes the result and the main canvas,
      `hideReplacePanel` clears the replacement and disables apply, and the
      state ends COMPLETED. With an image missing the crop throws after
      PROCESSING was set, and nothing else changes. */
  function ApplyReplacement(s: Session, stretch: Resampler): (r: Session)
    ensures s.mask.Some? && s.replace.Some? ==>
      && r.state == Completed && r.replace.None? && !r.applyEnabled
      && r.result == Some(CropImageWithMask(s.mask.value, s.replace.value, stretch))
      && r.mainCanvas == r.result
      && r.result.value.width == s.mask.value.width
      && r.result.value.height == s.mask.value.height
      && WellFormed(r.result.value)
      && r.mask == s.mask && r.controlsEnabled == s.controlsEnabled
    ensures s.mask.None? || s.replace.None? ==> r == s.(state := Processing)
  {
    var busy := s.(state := Processing);
    if busy.mask.None? || busy.replace.None? then busy
    else
      var crop := CropImageWithMask(busy.mask.value, busy.replace.value, stretch);
      var drawn := busy.(result := Some(crop), mainCanvas := Some(crop));
      HideReplacePanel(drawn).(state := Completed)
  }

  /** `resetApp`, confirmation given. It clears every image and sets
      INITIAL, but its call of `hideReplacePanel` then overwrites the state
      with MASK_LOADED. */
  function ResetApp(s: Session): (r: Session)
    ensures r.mask.None? && r.replace.None? && r.result.None? && r.mainCanvas.None?
    ensures !r.applyEnabled && !r.controlsEnabled
    ensures r.state == MaskLoaded
  {
    var cleared := s.(mask := None, replace := None, result := None, state := Initial, mainCanvas := None);
    HideReplacePanel(cleared).(controlsEnabled := false)
  }

  /** `downloadResult`: nothing without a result and a mask; otherwise the
      result when there is one, else the main canvas. */
  function DownloadResult(s: Session): (x: Export)
    ensures x == NothingToExport <==> s.result.None? && s.mask.None?
    ensures s.result.Some? ==> x == ExportResult(s.result.value)
    ensures s.result.None? && s.mask.Some? ==> x == ExportMainCanvas(s.mainCanvas)
  {
    if s.result.None? && s.mask.None? then NothingToExport
    else if s.result.Some? then ExportResult(s.result.value)
    else ExportMainCanvas(s.mainCanvas)
  }

  // ----- bindEventListeners -----

  /** Canvas click: opens the tool (`showReplacePanel`) only in
      MASK_LOADED or COMPLETED. Only the state can change. */
  function OnCanvasClick(s: Session): (r: Session)
    ensures r.state == ToolActive <==> s.state in {MaskLoaded, Completed, ToolActive}
    ensures s.state !in {MaskLoaded, Completed} ==> r == s
    ensures r == s.(state := r.state)
  {
    if s.state == MaskLoaded || s.state == Completed then s.(state := ToolActive) else s
  }

  /** Key press: Escape in TOOL_ACTIVE closes the tool; any other key, or
      Escape in any other state, does nothing. */
  function OnKeyDown(s: Session, key: string): (r: Session)
    ensures key == "Escape" && s.state == ToolActive ==>
      r == s.(state := MaskLoaded, replace := None, applyEnabled := false)
    ensures !(key == "Escape" && s.state == ToolActive) ==> r == s
  {
    if key == "Escape" && s.state == ToolActive then HideReplacePanel(s) else s
  }

  /** One event. Close and cancel both call `hideReplacePanel`; apply,
      reset and download act only while their buttons are enabled; a
      download changes no session variable. */
  function Step(s: Session, e: Event, stretch: Resampler): (r: Session)
    ensures e == ApplyClick && !s.applyEnabled ==> r == s
    ensures e == ApplyClick && s.applyEnabled ==> r.state == Completed || r.state == Processing
    ensures e == ResetClick && !s.controlsEnabled ==> r == s
    ensures e == ResetClick && s.controlsEnabled ==> r.mask.None? && r.result.None? && !r.controlsEnabled
    ensures e == DownloadClick ==> r == s
    ensures e == CloseToolClick || e == CancelClick ==>
      r == s.(state := MaskLoaded, replace := None, applyEnabled := false)
  {
    match e
    case MaskUpload(f, d) => HandleMaskUpload(s, f, d)
    case ReplaceUpload(f, d) => HandleReplaceUpload(s, f, d)
    case CanvasClick => OnCanvasClick(s)
    case CloseToolClick => HideReplacePanel(s)
    case CancelClick => HideReplacePanel(s)
    case KeyDown(k) => OnKeyDown(s, k)
    case ApplyClick => if s.applyEnabled then ApplyReplacement(s, stretch) else s
    case ResetClick => if s.controlsEnabled then ResetApp(s) else s
    case DownloadClick => s
  }

  /** The events of `es`, in order. */
  function Run(s: Session, es: seq<Event>, stretch: Resampler): Session
    decreases |es|
  {
    if es == [] then s else Run(Step(s, es[0], stretch), es[1..], stretch)
  }
}

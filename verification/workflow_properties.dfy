/** Properties of the workflow that span several events: the invariant
    every reachable session keeps, and what it implies for the apply,
    reset and download buttons. */
module WorkflowProperties {
  import opened Pixels
  import opened Compositing
  import opened Validation
  import opened Workflow

  /** The invariant of every session reachable from page load. */
  predicate Consistent(s: Session) {
    // the apply button is enabled only with both images loaded
    && (s.applyEnabled ==> s.mask.Some? && s.replace.Some?)
    // reset/download are enabled exactly while a mask is loaded
    && (s.controlsEnabled <==> s.mask.Some?)
    // a result exists only beside a mask, and is a complete canvas
    && (s.result.Some? ==> s.mask.Some? && WellFormed(s.result.value))
    // the main canvas is blank exactly while no mask is loaded
    && (s.mask.None? ==> s.mainCanvas.None?)
    // before the first result the main canvas shows the mask
    && (s.result.None? && s.mask.Some? ==> s.mainCanvas == s.mask)
    // PROCESSING never outlives the handler that sets it
    && s.state != Processing
    // INITIAL is only the page-load state: no mask, no result
    && (s.state == Initial ==> s.mask.None? && s.result.None?)
    // COMPLETED always has a result to show
    && (s.state == Completed ==> s.result.Some?)
  }

  lemma InitialConsistent()
    ensures Consistent(InitialSession)
  {
  }

  /** Every event keeps the invariant. */
  lemma StepPreservesConsistent(s: Session, e: Event, stretch: Resampler)
    requires Consistent(s)
    ensures Consistent(Step(s, e, stretch))
  {
  }

  /** Every sequence of events keeps the invariant. */
  lemma {:induction false} RunPreservesConsistent(s: Session, es: seq<Event>, stretch: Resampler)
    requires Consistent(s)
    ensures Consistent(Run(s, es, stretch))
    decreases |es|
  {
    if es != [] {
      StepPreservesConsistent(s, es[0], stretch);
      RunPreservesConsistent(Step(s, es[0], stretch), es[1..], stretch);
    }
  }

  /** Every session the page can reach is consistent. */
  lemma ReachableConsistent(es: seq<Event>, stretch: Resampler)
    ensures Consistent(Run(InitialSession, es, stretch))
  {
    InitialConsistent();
    RunPreservesConsistent(InitialSession, es, stretch);
  }

  /** Clicking an enabled apply button always takes the successful path:
      COMPLETED, replacement cleared, apply disabled, and a result of
      exactly the mask's size that the main canvas now shows. */
  lemma ApplyClickOutcome(s: Session, stretch: Resampler)
    requires Consistent(s) && s.applyEnabled
    ensures var r := Step(s, ApplyClick, stretch);
      && r.state == Completed && r.replace.None? && !r.applyEnabled
      && r.result == Some(CropImageWithMask(s.mask.value, s.replace.value, stretch))
      && r.mainCanvas == r.result
      && r.result.value.width == s.mask.value.width
      && r.result.value.height == s.mask.value.height
      && r.mask == s.mask
  {
  }

  /** The error path of `applyReplacement` leaves the session stuck in
      PROCESSING; it is reached only by calling the handler directly. */
  lemma ApplyWithoutReplacementSticks(s: Session, stretch: Resampler)
    requires s.replace.None?
    ensures ApplyReplacement(s, stretch).state == Processing
    ensures !Consistent(ApplyReplacement(s, stretch))
  {
  }

  /** A canvas click opens the tool exactly from MASK_LOADED or COMPLETED
      (or leaves it open), and otherwise changes nothing. */
  lemma CanvasClickGuard(s: Session, stretch: Resampler)
    ensures var r := Step(s, CanvasClick, stretch);
      && (r.state == ToolActive <==> s.state in {MaskLoaded, Completed, ToolActive})
      && (s.state in {Initial, Processing, ToolActive} ==> r == s)
      && SameImages(r, s) && r.applyEnabled == s.applyEnabled
  {
  }

  /** Escape acts only in TOOL_ACTIVE, where it returns to MASK_LOADED
      with the replacement cleared and apply disabled. */
  lemma EscapeGuard(s: Session, key: string, stretch: Resampler)
    ensures var r := Step(s, KeyDown(key), stretch);
      && (key == "Escape" && s.state == ToolActive ==>
            r.state == MaskLoaded && r.replace.None? && !r.applyEnabled
            && r.mask == s.mask && r.result == s.result)
      && (key != "Escape" || s.state != ToolActive ==> r == s)
  {
  }

  /** A refused mask file leaves the whole session as it was. */
  lemma RejectedMaskChangesNothing(s: Session, f: FileInfo, d: Option<Image>, stretch: Resampler)
    requires !MaskAccepted(f)
    ensures Step(s, MaskUpload(f, d), stretch) == s
  {
  }

  /** A successful replacement upload never changes the state. */
  lemma ReplaceUploadKeepsState(s: Session, f: FileInfo, d: Option<Image>, stretch: Resampler)
    ensures Step(s, ReplaceUpload(f, d), stretch).state == s.state
  {
  }

  /** Once the page has left INITIAL it never returns there: reset ends
      in MASK_LOADED. */
  lemma NeverBackToInitial(s: Session, e: Event, stretch: Resampler)
    requires s.state != Initial
    ensures Step(s, e, stretch).state != Initial
  {
  }

  /** After an effective reset, download exports nothing; in a consistent
      session a reset click that the disabled button swallows finds
      nothing to export either. */
  lemma ResetThenDownloadExportsNothing(s: Session, stretch: Resampler)
    requires Consistent(s)
    ensures DownloadResult(Step(s, ResetClick, stretch)) == NothingToExport
  {
  }

  /** In a consistent session the download exports nothing exactly when no
      mask is loaded, the result when there is one, and otherwise the main
      canvas, which then shows the mask. */
  lemma DownloadInConsistentSession(s: Session)
    requires Consistent(s)
    ensures DownloadResult(s) == NothingToExport <==> s.mask.None?
    ensures s.result.None? && s.mask.Some? ==> DownloadResult(s) == ExportMainCanvas(s.mask)
    ensures s.result.Some? ==> DownloadResult(s) == ExportResult(s.result.value)
  {
  }

  /** A new mask does not clear an earlier result, so the download keeps
      exporting the old result although the main canvas shows the new mask. */
  lemma ResultSurvivesMaskUpload(s: Session, f: FileInfo, img: Image, stretch: Resampler)
    requires s.result.Some? && MaskAccepted(f)
    ensures var r := Step(s, MaskUpload(f, Some(img)), stretch);
      && r.mainCanvas == Some(img)
      && DownloadResult(r) == ExportResult(s.result.value)
  {
  }

  /** Scenario: a commit followed by a reset; the download then finds
      nothing, not the stale result. */
  lemma CommitThenResetExportsNothing(s: Session, stretch: Resampler)
    requires Consistent(s) && s.applyEnabled
    ensures var done := Step(s, ApplyClick, stretch);
      && done.controlsEnabled
      && DownloadResult(Step(done, ResetClick, stretch)) == NothingToExport
  {
  }
}

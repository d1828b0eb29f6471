/**
 * The two steps the window drives: choosing a file fills the timestamp field
 * (from the metadata, or else from the clock), and the render button checks
 * the request before any file is written.
 */
module WatermarkRequest {

  import opened Wrappers
  import SavePath

  /**
   * The timestamp field's value after a file is chosen: the extracted
   * timestamp when there is a non-empty one, the current time otherwise.
   */
  function InitialTimestamp(extracted: Option<string>, now: string): (t: string)
    ensures extracted.Some? && extracted.value != "" ==> t == extracted.value
    ensures extracted.None? || extracted.value == "" ==> t == now
  {
    if extracted.Some? && extracted.value != "" then extracted.value else now
  }

  /** The warnings the render button can raise instead of rendering. */
  datatype Warning = MissingSelection | EmptyTimestamp

  /** What pressing the render button does: warn, or save the watermarked image. */
  datatype Outcome = Warned(warning: Warning) | Saved(plan: SavePath.SavePlan)

  /**
   * The render button: no chosen file is reported first, then an empty
   * timestamp; only a request with both goes on to be saved, at the path
   * the save policy gives.
   */
  function DoWatermark(platform: SavePath.Platform, selected: Option<string>, timestamp: string): (o: Outcome)
    ensures o == Warned(MissingSelection) <==> selected.None? || selected.value == ""
    ensures o == Warned(EmptyTimestamp) <==> selected.Some? && selected.value != "" && timestamp == ""
    ensures o.Saved? <==> selected.Some? && selected.value != "" && timestamp != ""
    ensures o.Saved? ==> o.plan == SavePath.PlanSave(platform, selected.value)
  {
    if selected.None? || selected.value == "" then Warned(MissingSelection)
    else if timestamp == "" then Warned(EmptyTimestamp)
    else Saved(SavePath.PlanSave(platform, selected.value))
  }

  /**
   * Right after a file is chosen, with a clock that gives a non-empty time,
   * the render button saves; and whatever it saves never replaces the chosen
   * file.
   */
  lemma RenderAfterSelection(platform: SavePath.Platform, path: string, extracted: Option<string>, now: string)
    requires path != "" && now != ""
    ensures var o := DoWatermark(platform, Some(path), InitialTimestamp(extracted, now));
      o.Saved? && o.plan.path != path
  {
  }
}

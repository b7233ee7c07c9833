/**
 * The input side of the page (interview_bot.py:19-33): which audio clip is
 * active, and whether pressing "Process Experience" may go on to the service.
 */
module InputGuard {
  import opened Wrappers

  /**
   * The reference rule for the widgets, read in page order: the last one
   * that holds a clip decides, and with none there is no clip.
   */
  function LastPresent<A>(inputs: seq<Option<A>>): (r: Option<A>)
    ensures r.None? <==> forall k | 0 <= k < |inputs| :: inputs[k].None?
    ensures r.Some? ==> exists k | 0 <= k < |inputs| :: inputs[k] == r && forall j | k < j < |inputs| :: inputs[j].None?
  {
    if inputs == [] then None
    else
      var last := |inputs| - 1;
      if inputs[last].Some? then
        inputs[last]
      else
        var init := inputs[..last];
        var r := LastPresent(init);
        assert forall k | 0 <= k < last :: init[k] == inputs[k];
        assert r.Some? ==> exists k | 0 <= k < |inputs| :: inputs[k] == r && forall j | k < j < |inputs| :: inputs[j].None? by {
          if r.Some? {
            var k :| 0 <= k < last && init[k] == r && forall j | k < j < last :: init[j].None?;
            assert inputs[k] == r && forall j | k < j < |inputs| :: inputs[j].None?;
          }
        }
        r
  }

  /**
   * `audio_file` starts as `None`; the Record tab overwrites it with a
   * recording, then the Upload tab with an uploaded file. An upload therefore
   * wins over a recording.
   */
  method ActiveAudio<A>(recorded: Option<A>, uploaded: Option<A>) returns (audio: Option<A>)
    ensures audio == LastPresent([recorded, uploaded])
    ensures uploaded.Some? ==> audio == uploaded
    ensures uploaded.None? ==> audio == recorded
  {
    audio := None;
    if recorded.Some? {
      audio := recorded;
    }
    if uploaded.Some? {
      audio := uploaded;
    }
  }

  /** What a press of "Process Experience" leads to before any service call. */
  datatype Decision =
    | Idle          // no clip, so no button, or the button was not pressed
    | MissingKey    // the "API Key is missing" error
    | Proceed       // go on to the service

  /**
   * The button is only drawn once a clip is active; an empty key (Python's
   * falsy `""`) stops the press with the missing-key error.
   */
  function Guard(hasAudio: bool, pressed: bool, apiKey: string): (d: Decision)
    ensures d == MissingKey <==> hasAudio && pressed && apiKey == ""
    ensures d == Proceed <==> hasAudio && pressed && apiKey != ""
  {
    if !(hasAudio && pressed) then Idle
    else if apiKey == "" then MissingKey
    else Proceed
  }
}

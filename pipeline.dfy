/**
 * One run of the page's logic (interview_bot.py:19-77): pick the clip,
 * check the guard, list the models, pick one, ask it for the extraction and
 * clean the reply. The service is given as its two answers: the result of
 * listing the models and, per model name, the result of generation.
 */
module Pipeline {
  import opened Wrappers
  import opened Strings
  import opened FenceCleaning
  import opened ModelSelection
  import opened InputGuard

  /** A call made to the remote service. */
  datatype Call = ListModels | Generate(model: string)

  /** What one run shows. */
  datatype Outcome =
    | NoRun                                       // nothing to process
    | KeyMissing                                  // the missing-key error
    | Failed(message: string)                     // an exception from the service
    | Extracted(model: string, jsonText: string)  // the text handed to the JSON parser

  method Process<A>(recorded: Option<A>, uploaded: Option<A>, pressed: bool, apiKey: string,
                    listing: Result<seq<string>>, generate: string -> Result<string>)
    returns (outcome: Outcome, calls: seq<Call>)
    // Without a key nothing reaches the service.
    ensures apiKey == "" ==> calls == []
    ensures Guard(recorded.Some? || uploaded.Some?, pressed, apiKey) == Idle ==> outcome == NoRun && calls == []
    ensures Guard(recorded.Some? || uploaded.Some?, pressed, apiKey) == MissingKey ==> outcome == KeyMissing
    // With a key the models are listed first, then exactly one model is asked.
    ensures Guard(recorded.Some? || uploaded.Some?, pressed, apiKey) == Proceed && listing.Err? ==>
              outcome == Failed(listing.message) && calls == [ListModels]
    ensures Guard(recorded.Some? || uploaded.Some?, pressed, apiKey) == Proceed && listing.Ok? ==>
              var m := FirstAvailable(Preferences, listing.value, Default);
              && calls == [ListModels, Generate(m)]
              && outcome == match generate(m)
                            case Err(e) => Failed(e)
                            case Ok(reply) => Extracted(m, Clean(reply))
    // Whatever the service says, the parser gets fence-free, trimmed text from one of the two models.
    ensures outcome.Extracted? ==>
              && !Occurs(outcome.jsonText, Fence)
              && Trimmed(outcome.jsonText)
              && (outcome.model == Flash || outcome.model == Pro)
  {
    var audio := ActiveAudio(recorded, uploaded);
    calls := [];
    match Guard(audio.Some?, pressed, apiKey)
    case Idle =>
      outcome := NoRun;
    case MissingKey =>
      outcome := KeyMissing;
    case Proceed =>
      calls := calls + [ListModels];
      match listing
      case Err(e) =>
        outcome := Failed(e);
      case Ok(found) =>
        var active := SelectModel(found);
        calls := calls + [Generate(active)];
        match generate(active)
        case Err(e) =>
          outcome := Failed(e);
        case Ok(reply) =>
          outcome := Extracted(active, Clean(reply));
  }
}

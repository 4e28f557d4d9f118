/** The prediction service: its own text cleaner and the endpoint's guard against a
    model that failed to load. */
module Serving {
  import opened Strings
  import opened Training

  /** A loaded classifier, seen only through the label it predicts for a cleaned
      text. */
  datatype Model = Model(predict: string -> Sentiment)

  /** The endpoint's answer: an HTTP error, or the input echoed with its label. */
  datatype Response =
    | HttpError(status: int, detail: string)
    | Prediction(inputText: string, sentiment: Sentiment)

  const MODEL_NOT_LOADED_STATUS: int := 500
  const MODEL_NOT_LOADED_DETAIL: string := "Model not loaded"

  /** `clean_text` of the service: no date pattern and no badge removal. */
  function ServeClean(text: string): string {
    Strip(KeepLettersAndSpaces(Lower(text)))
  }

  /** A text that is already lower-case letters and whitespace without whitespace at
      either end is left as it is. */
  predicate IsCleanShape(s: string) {
    (forall c :: c in s ==> IsLower(c) || IsSpace(c)) &&
    (s != [] ==> !IsSpace(s[0]) && !IsSpace(s[|s| - 1]))
  }

  /** The cleaned text holds only lower-case ASCII letters and whitespace, with no
      whitespace at either end. */
  lemma ServeCleanOutput(text: string)
    ensures IsCleanShape(ServeClean(text))
  {
    LowerHasNoUpper(text);
    var lowered := Lower(text);
    assert forall c :: c in lowered ==> !IsUpper(c);
  }

  lemma ServeCleanFixes(s: string)
    requires IsCleanShape(s)
    ensures ServeClean(s) == s
  {
    assert forall i :: 0 <= i < |s| ==> !IsUpper(s[i]) by {
      forall i | 0 <= i < |s| ensures !IsUpper(s[i]) { assert s[i] in s; }
    }
    LowerIdentity(s);
    KeepIdentity(s);
  }

  /** Cleaning a cleaned text again changes nothing. */
  lemma ServeCleanIdempotent(text: string)
    ensures ServeClean(ServeClean(text)) == ServeClean(text)
  {
    ServeCleanOutput(text);
    ServeCleanFixes(ServeClean(text));
  }

  /** The two cleaners agree on every text whose lower-cased form does not contain
      the badge phrase: the date substitution never fires, and the badge removal is
      the only other difference. */
  lemma TrainServeAgree(text: string)
    requires !Occurs(Lower(text), "verified buyer")
    ensures TrainClean(text) == ServeClean(text)
  {
    DateSubNeverMatches(text);
    ReplaceAbsent(Lower(text), "verified buyer", "");
  }

  /** Conversely, whenever the lower-cased text contains the badge phrase the two
      cleaners disagree: training loses at least one `v`, which the service keeps. */
  lemma TrainServeDiffer(text: string)
    requires Occurs(Lower(text), "verified buyer")
    ensures TrainClean(text) != ServeClean(text)
  {
    var low := Lower(text);
    var removed := ReplaceAll(low, "verified buyer", "");
    DateSubNeverMatches(text);
    assert "verified buyer"[0] == 'v';
    ReplaceDropsCount(low, "verified buyer", 'v');
    KeepCounts(removed);
    KeepCounts(low);
    StripCounts(KeepLettersAndSpaces(removed), 'v');
    StripCounts(KeepLettersAndSpaces(low), 'v');
  }

  /** The two cleaners agree exactly on the texts without the badge phrase. */
  lemma TrainServeAgreeIff(text: string)
    ensures TrainClean(text) == ServeClean(text) <==> !Occurs(Lower(text), "verified buyer")
  {
    if Occurs(Lower(text), "verified buyer") {
      TrainServeDiffer(text);
    } else {
      TrainServeAgree(text);
    }
  }

  /** On the badge phrase itself they disagree: training sees an empty text, the
      service keeps the phrase. */
  lemma TrainServeDisagree()
    ensures var badge := "verified" + " buyer";
            TrainClean(badge) == "" && ServeClean(badge) == badge
  {
    CleanBadgeAlone();
    BadgeIsClean();
    ServeCleanFixes("verified" + " buyer");
  }

  lemma BadgeIsClean()
    ensures IsCleanShape("verified" + " buyer")
  {
    var s := "verified" + " buyer";
    assert forall i :: 0 <= i < |s| ==> IsLower(s[i]) || IsSpace(s[i]);
  }

  /** `predict_sentiment`: without a model the request fails with status 500 and the
      model is never consulted; otherwise the model labels the cleaned text and the
      raw input is echoed back. */
  function PredictSentiment(model: Option<Model>, text: string): (r: Response)
    ensures model.None? <==> r.HttpError?
    ensures model.None? ==> r.status == MODEL_NOT_LOADED_STATUS && r.detail == MODEL_NOT_LOADED_DETAIL
    ensures model.Some? ==> r.inputText == text && r.sentiment == model.value.predict(ServeClean(text))
  {
    match model
    case None => HttpError(MODEL_NOT_LOADED_STATUS, MODEL_NOT_LOADED_DETAIL)
    case Some(m) => Prediction(text, m.predict(ServeClean(text)))
  }
}

/**
 * The session state of the top-level component (client/src/App.js): four
 * state variables changed by the image handler, the reprocess handler and
 * reset, and the choice of what the page shows.
 *
 * Each asynchronous handler is split at its `await`: a Begin method runs the
 * setters before the request and returns the request it would send; a
 * Complete method runs the try/catch/finally once the request has ended.
 * The handlers have no guard against overlapping requests and no check of
 * which request is completing; neither does this model.
 */
module App {
  import opened Wrappers

  /** The JSON body the server answers with; `error` is read only from a non-ok response. */
  datatype Payload = Payload(
    extractedText: Option<string>,
    aiResponse: string,
    requestType: string,
    timestamp: string,
    error: Option<string>)

  /** How a request ends: the server answered (`ok` is response.ok), or fetch or response.json() threw. */
  datatype Outcome = Responded(ok: bool, data: Payload) | Threw(message: string)

  /** What a handler sends to the server. */
  datatype Request =
    | ImageRequest(image: seq<bv8>, requestType: string)
    | TextRequest(text: string, requestType: string)

  const ImageFailure: string := "Failed to process image"
  const TextFailure: string := "Failed to process text"

  /** The try block runs to its end: the server answered with an ok status. */
  predicate Succeeded(o: Outcome) {
    o.Responded? && o.ok
  }

  /** JavaScript truthiness of a string that may be undefined/null: present and not empty. */
  predicate NonEmpty(s: Option<string>) {
    s.Some? && s.value != ""
  }

  /** `err.message` in the catch block: the thrown message, or `data.error || fallback` for a non-ok answer. */
  function ErrorMessage(o: Outcome, fallback: string): string
    requires !Succeeded(o)
  {
    match o
    case Threw(message) => message
    case Responded(_, data) => if NonEmpty(data.error) then data.error.value else fallback
  }

  /** A non-ok answer always yields a non-empty message: the server's own when it sent one, the fixed fallback otherwise. */
  lemma RejectionMessage(data: Payload, fallback: string)
    requires fallback != ""
    ensures NonEmpty(Some(ErrorMessage(Responded(false, data), fallback)))
    ensures NonEmpty(data.error) ==> ErrorMessage(Responded(false, data), fallback) == data.error.value
    ensures !NonEmpty(data.error) ==> ErrorMessage(Responded(false, data), fallback) == fallback
  {
  }

  /** What the page shows: the error card (with its message), the spinner, the results panel, the uploader. */
  datatype View = View(errorCard: Option<string>, spinner: bool, resultsPanel: bool, uploader: bool)

  /** The conditional rendering of the page. */
  function SelectView(results: Option<Payload>, loading: bool, error: Option<string>): (v: View)
    ensures v.errorCard.Some? <==> NonEmpty(error)
    ensures v.errorCard.Some? ==> v.errorCard == error
    ensures v.spinner <==> loading
    ensures loading ==> !v.resultsPanel && !v.uploader
    ensures !loading ==> (v.resultsPanel <==> !v.uploader)
    ensures v.resultsPanel <==> !loading && results.Some?
  {
    View(if NonEmpty(error) then error else None, loading, !loading && results.Some?, !loading && results.None?)
  }

  class Session {
    var results: Option<Payload>
    var loading: bool
    var error: Option<string>
    /** None stands for `undefined`, which the image handler stores when the server omits the field. */
    var extractedText: Option<string>

    /** No error is on record while a request is in flight. Every operation establishes it. */
    ghost predicate Valid()
      reads this
    {
      loading ==> error.None?
    }

    /** The initial `useState` values. */
    constructor ()
      ensures Valid()
      ensures results.None? && !loading && error.None? && extractedText == Some("")
    {
      results, loading, error, extractedText := None, false, None, Some("");
    }

    function View(): View
      reads this
    {
      SelectView(results, loading, error)
    }

    /** handleImageProcess up to its `await`. */
    method BeginImage(image: seq<bv8>, requestType: string) returns (request: Request)
      modifies this
      ensures Valid()
      ensures loading && error.None? && results.None?
      ensures extractedText == old(extractedText)
      ensures request == ImageRequest(image, requestType)
    {
      loading := true;
      error := None;
      results := None;
      request := ImageRequest(image, requestType);
    }

    /** handleImageProcess after its `await`: try, catch, finally. */
    method CompleteImage(outcome: Outcome)
      modifies this
      ensures Valid() && !loading
      ensures Succeeded(outcome) ==>
        results == Some(outcome.data) && extractedText == outcome.data.extractedText && error == old(error)
      ensures !Succeeded(outcome) ==>
        error == Some(ErrorMessage(outcome, ImageFailure)) &&
        results == old(results) && extractedText == old(extractedText)
    {
      if Succeeded(outcome) {
        results := Some(outcome.data);
        extractedText := outcome.data.extractedText;
      } else {
        error := Some(ErrorMessage(outcome, ImageFailure));
      }
      loading := false;
    }

    /** handleTextReprocess up to its `await`, including the early return when there is no extracted text. */
    method BeginReprocess(requestType: string) returns (request: Option<Request>)
      modifies this
      ensures !NonEmpty(old(extractedText)) ==> request.None? && unchanged(this)
      ensures NonEmpty(old(extractedText)) ==>
        request == Some(TextRequest(old(extractedText).value, requestType)) &&
        loading && error.None? && results == old(results) && extractedText == old(extractedText)
      ensures old(Valid()) ==> Valid()
    {
      if !NonEmpty(extractedText) {
        return None;
      }
      loading := true;
      error := None;
      request := Some(TextRequest(extractedText.value, requestType));
    }

    /** handleTextReprocess after its `await`: extractedText is never written. */
    method CompleteReprocess(outcome: Outcome)
      modifies this
      ensures Valid() && !loading
      ensures extractedText == old(extractedText)
      ensures Succeeded(outcome) ==> results == Some(outcome.data) && error == old(error)
      ensures !Succeeded(outcome) ==> error == Some(ErrorMessage(outcome, TextFailure)) && results == old(results)
    {
      if Succeeded(outcome) {
        results := Some(outcome.data);
      } else {
        error := Some(ErrorMessage(outcome, TextFailure));
      }
      loading := false;
    }

    /** resetApp: clears results, error and extracted text; `loading` is left as it is. */
    method Reset()
      modifies this
      ensures results.None? && error.None? && extractedText == Some("")
      ensures loading == old(loading)
      ensures Valid()
    {
      results := None;
      error := None;
      extractedText := Some("");
    }
  }

  /**
   * In any session reached by these operations (all of them establish
   * Valid), while a request is in flight nothing that can start a request
   * or reset is on the page: no uploader, no results panel (which holds the
   * reprocess and "Upload New Image" buttons) and no error card (which
   * holds "Try Again"). This, not a guard in the handlers, is what keeps
   * requests from overlapping.
   */
  lemma NoControlsWhileLoading(s: Session)
    requires s.Valid() && s.loading
    ensures var v := s.View();
      v.spinner && v.errorCard.None? && !v.resultsPanel && !v.uploader
  {
  }

  /**
   * Upload an image, then ask for a different analysis of its text.
   * The reprocess never changes the extracted text; a failed reprocess
   * keeps the first result on screen next to the error.
   */
  method ImageThenReprocess(image: seq<bv8>, kind: string, first: Payload, otherKind: string, second: Outcome)
    returns (results: Option<Payload>, extracted: Option<string>, error: Option<string>, sent: Option<Request>)
    requires NonEmpty(first.extractedText)
    ensures sent == Some(TextRequest(first.extractedText.value, otherKind))
    ensures extracted == first.extractedText
    ensures Succeeded(second) ==> results == Some(second.data) && error.None?
    ensures !Succeeded(second) ==> results == Some(first) && error == Some(ErrorMessage(second, TextFailure))
  {
    var session := new Session();
    var _ := session.BeginImage(image, kind);
    session.CompleteImage(Responded(true, first));
    sent := session.BeginReprocess(otherKind);
    session.CompleteReprocess(second);
    results, extracted, error := session.results, session.extractedText, session.error;
  }

  /**
   * A failed image request leaves no result, so the uploader is back on the
   * page under the error card, and the previous extracted text is kept.
   */
  method FailedImage(image: seq<bv8>, kind: string, outcome: Outcome)
    returns (view: View, extracted: Option<string>)
    requires !Succeeded(outcome)
    ensures extracted == Some("")
    ensures view.uploader && !view.resultsPanel && !view.spinner
    ensures NonEmpty(Some(ErrorMessage(outcome, ImageFailure))) ==> view.errorCard == Some(ErrorMessage(outcome, ImageFailure))
  {
    var session := new Session();
    var _ := session.BeginImage(image, kind);
    session.CompleteImage(outcome);
    view, extracted := session.View(), session.extractedText;
  }
}

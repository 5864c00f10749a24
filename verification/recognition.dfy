/**
  The recognition request adapter of app.py
  (`identify_arabic_letter_from_bytes`). The hosted model is an oracle:
  a total function from the request sent to what came back. The API key is
  an input rather than process-wide state.
 */
module Recognition {

  import opened Wrappers
  import PyStr
  import Prompt

  newtype byte = x: int | 0 <= x < 256

  /** What one call to the hosted model does: it raises, or it returns a
      response whose `text` field may be missing. */
  datatype Reply = Raised | Answered(text: Option<string>)

  /** The one request the adapter sends: model name, image bytes with their
      MIME type, and the answers the instruction allows. */
  datatype Request = Request(model: string, image: seq<byte>, mime: string, allowed: seq<string>)

  /** One run of the adapter: the requests it sent, in order, and the string
      it returned. */
  datatype Exchange = Exchange(sent: seq<Request>, answer: string)

  /** The two failure kinds the adapter tells apart. */
  datatype Failure = MissingCredential | ServiceFailure

  /** The adapter's outcome as a discriminated result rather than a marked string. */
  datatype Outcome = Recognized(text: string) | Failed(kind: Failure)

  const ModelName: string := "gemini-2.5-flash"

  /** The cross mark U+274C that opens every failure string. */
  const FailureMark: char := '\U{274C}'

  /** Returned when no API key is configured ("connection failed"). */
  const ConnectionFailed: string :=
    "\U{274C} \U{0641}\U{0634}\U{0644} \U{0627}\U{0644}\U{0627}\U{062A}\U{0635}\U{0627}\U{0644}"

  /** Returned when the call to the hosted model raised ("processing failed"). */
  const ProcessingFailed: string :=
    "\U{274C} \U{0641}\U{0634}\U{0644} \U{0627}\U{0644}\U{0645}\U{0639}\U{0627}\U{0644}\U{062C}\U{0629}"

  /** `not API_KEY` is false: the key is neither `None` nor the empty
      string, the two falsy values an environment lookup can give. */
  function HasKey(key: Option<string>): (b: bool)
    ensures !b <==> key == None || key == Some("")
  {
    key.Some? && key.value != ""
  }

  /** The page's failure test `identified_letter and identified_letter.startswith('❌')`:
      the answer's first character is the cross mark. */
  function FlaggedAsFailure(s: string): (b: bool)
    ensures b <==> |s| > 0 && s[0] == FailureMark
  {
    s != "" && PyStr.StartsWith(s, [FailureMark])
  }

  /** The request built for an image: the fixed model name, the image part
      with its MIME type, and the instruction's list of allowed answers as
      written. */
  function RequestFor(image: seq<byte>, mime: string): (q: Request)
    ensures q.model == ModelName && q.image == image && q.mime == mime
    ensures q.allowed == Prompt.AllowedAsWritten
  {
    Request(ModelName, image, mime, Prompt.AllowedAsWritten)
  }

  /** The recognised letter as a discriminated result: no key fails before
      any call, a raised call or a missing response text is a service
      failure, and otherwise the stripped text is the answer. */
  function Recognize(key: Option<string>, image: seq<byte>, mime: string, service: Request -> Reply): (o: Outcome)
    ensures o == Failed(MissingCredential) <==> !HasKey(key)
    ensures o.Recognized? ==> PyStr.EdgeFree(o.text)
    ensures o.Recognized? ==> exists t :: service(RequestFor(image, mime)) == Answered(Some(t)) && o.text == PyStr.Strip(t)
    ensures var rep := service(RequestFor(image, mime));
      HasKey(key) && rep.Answered? && rep.text.Some? ==> o == Recognized(PyStr.Strip(rep.text.value))
    ensures var rep := service(RequestFor(image, mime));
      HasKey(key) && !(rep.Answered? && rep.text.Some?) ==> o == Failed(ServiceFailure)
  {
    if !HasKey(key) then Failed(MissingCredential)
    else
      match service(RequestFor(image, mime))
      case Raised => Failed(ServiceFailure)
      case Answered(None) => Failed(ServiceFailure)
      case Answered(Some(t)) => Recognized(PyStr.Strip(t))
  }

  /** `identify_arabic_letter_from_bytes(image, mime)`. With no key nothing is
      sent and the connection-failure string comes back; otherwise exactly
      one request, carrying the image and its MIME type, is sent and the
      answer is the stripped response text, or the processing-failure string
      when the call raised or gave no text. */
  function Identify(key: Option<string>, image: seq<byte>, mime: string, service: Request -> Reply): (e: Exchange)
    ensures |e.sent| <= 1
    ensures e.sent == [] <==> !HasKey(key)
    ensures e.sent == [] ==> e.answer == ConnectionFailed
    ensures forall q | q in e.sent :: q.image == image && q.mime == mime && q.model == ModelName
    ensures forall q | q in e.sent :: q.allowed == Prompt.AllowedAsWritten
    ensures e.sent != [] && service(e.sent[0]).Answered? && service(e.sent[0]).text.Some? ==>
      e.answer == PyStr.Strip(service(e.sent[0]).text.value)
    ensures e.sent != [] && !(service(e.sent[0]).Answered? && service(e.sent[0]).text.Some?) ==>
      e.answer == ProcessingFailed
  {
    if !HasKey(key) then
      Exchange([], ConnectionFailed)
    else
      var request := RequestFor(image, mime);
      match service(request)
      case Answered(Some(t)) => Exchange([request], PyStr.Strip(t))
      case _ => Exchange([request], ProcessingFailed)
  }

  /** The text a discriminated outcome is reported as. */
  function Describe(o: Outcome): string
  {
    match o
    case Recognized(t) => t
    case Failed(MissingCredential) => ConnectionFailed
    case Failed(ServiceFailure) => ProcessingFailed
  }

  /** Both failure strings are flagged as failures by the page, and they differ. */
  lemma FailureStringsFlagged()
    ensures FlaggedAsFailure(ConnectionFailed) && FlaggedAsFailure(ProcessingFailed)
    ensures ConnectionFailed != ProcessingFailed
  {
    assert ConnectionFailed[8] != ProcessingFailed[8];
  }

  /** The string the adapter returns is the discriminated outcome described,
      and the page's marker test reads it correctly except when the hosted
      model's own text begins with the cross mark. */
  lemma {:induction false} MarkerTestAgreesWithOutcome(key: Option<string>, image: seq<byte>, mime: string, service: Request -> Reply)
    ensures Identify(key, image, mime, service).answer == Describe(Recognize(key, image, mime, service))
    ensures var o := Recognize(key, image, mime, service);
      FlaggedAsFailure(Identify(key, image, mime, service).answer) <==> o.Failed? || FlaggedAsFailure(o.text)
  {
    FailureStringsFlagged();
  }

  /** Without a key the hosted model is never consulted: the result is the
      same whatever the model would have done. */
  lemma {:induction false} MissingKeyIgnoresService(key: Option<string>, image: seq<byte>, mime: string, s1: Request -> Reply, s2: Request -> Reply)
    requires !HasKey(key)
    ensures Identify(key, image, mime, s1) == Identify(key, image, mime, s2)
    ensures Identify(key, image, mime, s1) == Exchange([], ConnectionFailed)
  {
  }

  /** With a key and a model that answers the request for this image with
      `text`, exactly one request is sent and the stripped text comes back. */
  lemma {:induction false} AnsweredCallGivesStrippedText(key: Option<string>, image: seq<byte>, mime: string, service: Request -> Reply, text: string)
    requires HasKey(key)
    requires service(RequestFor(image, mime)) == Answered(Some(text))
    ensures |Identify(key, image, mime, service).sent| == 1
    ensures Identify(key, image, mime, service).answer == PyStr.Strip(text)
  {
  }
}

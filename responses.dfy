/**
 * How the client reads the server's reply: the transport status, the XML
 * envelope in the `http://xml.hrdlog.com` namespace, and the mapping of the
 * envelope to a `Status` and message (submissions) or a boolean (on-air).
 */
module Responses {
  import opened Wrappers
  import opened Numeric
  import opened Xml

  /** `enum Status`. */
  datatype Status = Ok | Dupe | Error | UnknownUser

  /** `HrdResponse`: the status and the optional message of a submission. */
  datatype HrdResponse = HrdResponse(status: Status, message: Option<string>)

  /** What `HttpClient.PostAsync` produced: a response, or an exception. */
  datatype HttpOutcome =
    | Responded(statusCode: int, body: Option<XDocument>)   // `None`: the body is not well-formed XML
    | TransportFailed                                       // the connection or the transfer failed
    | TimedOut                                              // no reply within the 5-second timeout

  /** `HttpResponseMessage.IsSuccessStatusCode`. */
  predicate IsSuccessStatusCode(code: int) { 200 <= code <= 299 }

  const HrdNamespace: string := "http://xml.hrdlog.com"

  function HrdName(localName: string): XName { XName(HrdNamespace, localName) }

  /** The literal error text that means the callsign/upload code pair is unknown. */
  const UnknownUserText: string := "Unknown user"

  /**
   * `!int.TryParse(text, out int nRec) || (nRec == 0)`: only a non-zero
   * 32-bit count is a new record, and an empty success element is a
   * duplicate.
   */
  predicate IsDupeCount(text: string)
    ensures !IsDupeCount(text) ==>
      TryParseInt32(text).Some? && TryParseInt32(text).value != 0 &&
      Int32Min <= TryParseInt32(text).value <= Int32Max
    ensures text == "" ==> IsDupeCount(text)
  {
    match TryParseInt32(text)
    case None => true
    case Some(n) => n == 0
  }

  /**
   * The `HrdResponse` a well-formed submission reply decodes to.  A message
   * is the text of a success or `error` child of a `NewEntry` element under
   * the root; without one the status is `Error`.  `Ok` and `Dupe` follow the
   * count rule, `UnknownUser` carries the literal text, and a reply named
   * `error` can never succeed.
   */
  function InterpretNewEntry(doc: XDocument, reply: string): (r: HrdResponse)
    ensures r.message.None? ==> r.status == Error
    ensures r.message.Some? ==>
      exists entry :: entry in doc.root.children && entry.name == HrdName("NewEntry") &&
        exists c :: c in entry.children && c.value == r.message.value &&
          (c.name == HrdName(reply) || c.name == HrdName("error"))
    ensures r.status == Ok || r.status == Dupe ==>
      r.message.Some? && (r.status == Dupe <==> IsDupeCount(r.message.value))
    ensures r.status == UnknownUser ==> r.message == Some(UnknownUserText)
    ensures reply == "error" ==> r.status == Error || r.status == UnknownUser
  {
    match Element(doc.root, HrdName("NewEntry"))
    case None => HrdResponse(Error, None)
    case Some(entry) =>
      match (Element(entry, HrdName(reply)), Element(entry, HrdName("error")))
      case (Some(success), None) =>
        HrdResponse(if IsDupeCount(success.value) then Dupe else Ok, Some(success.value))
      case (_, Some(error)) =>
        HrdResponse(if error.value != UnknownUserText then Error else UnknownUser, Some(error.value))
      case (None, None) => HrdResponse(Error, None)
  }

  /**
   * Whether a well-formed on-air reply reports success: only when the root
   * has an `OnAir` child holding an `insert` child and no `error` child.
   */
  predicate InterpretOnAir(doc: XDocument)
    ensures InterpretOnAir(doc) ==>
      exists entry :: entry in doc.root.children && entry.name == HrdName("OnAir") &&
        (exists c :: c in entry.children && c.name == HrdName("insert")) &&
        (forall c :: c in entry.children ==> c.name != HrdName("error"))
  {
    match Element(doc.root, HrdName("OnAir"))
    case None => false
    case Some(entry) =>
      Element(entry, HrdName("insert")).Some? && Element(entry, HrdName("error")).None?
  }

  /**
   * What a submission returns or throws once its POST was answered: a
   * failed or timed-out transfer or a non-success status throws, a body
   * that is not XML throws, anything else is decoded.
   */
  function QsoReply(response: HttpOutcome, reply: string): (r: Outcome<HrdResponse>)
    ensures r.Throw? ==>
      r.error in {HttpRequestException, TaskCanceledException, GeneralException("Server error"), XmlException}
    ensures r.Return? ==>
      response.Responded? && IsSuccessStatusCode(response.statusCode) && response.body.Some? &&
      r.value == InterpretNewEntry(response.body.value, reply)
  {
    match response
    case TransportFailed => Throw(HttpRequestException)
    case TimedOut => Throw(TaskCanceledException)
    case Responded(code, body) =>
      if !IsSuccessStatusCode(code) then Throw(GeneralException("Server error"))
      else if body.None? then Throw(XmlException)
      else Return(InterpretNewEntry(body.value, reply))
  }

  /** What an on-air push returns or throws once its POST was answered, as for a submission. */
  function OnAirReply(response: HttpOutcome): (r: Outcome<bool>)
    ensures r.Throw? ==>
      r.error in {HttpRequestException, TaskCanceledException, GeneralException("Server error"), XmlException}
    ensures r.Return? ==>
      response.Responded? && IsSuccessStatusCode(response.statusCode) && response.body.Some? &&
      r.value == InterpretOnAir(response.body.value)
  {
    match response
    case TransportFailed => Throw(HttpRequestException)
    case TimedOut => Throw(TaskCanceledException)
    case Responded(code, body) =>
      if !IsSuccessStatusCode(code) then Throw(GeneralException("Server error"))
      else if body.None? then Throw(XmlException)
      else Return(InterpretOnAir(body.value))
  }

  /**
   * A spelled-out count is a duplicate exactly when it is zero or does not
   * fit in 32 bits (so `int.TryParse` rejects it).
   */
  lemma DupeOfCount(n: int64)
    ensures IsDupeCount(FormatInt64(n)) <==> n == 0 || !(Int32Min <= n as int <= Int32Max)
  {
    TryParseFormatted(n);
  }

  /** The reply counts the decoder meets in practice: `0`, missing text, a word. */
  lemma DupeCountExamples()
    ensures IsDupeCount("0") && IsDupeCount("") && IsDupeCount("abc")
  {
    DupeOfCount(0);
    assert FormatInt64(0) == "0";
    WordIsDupe();
  }

  lemma WordIsDupe()
    ensures IsDupeCount("abc")
  {
    assert TrimEnd(TrimStart("abc")) == "abc";
    assert !AllDigits("abc") by { assert !IsDigit("abc"[0]); }
  }

  /** Positive counts are accepted as new records. */
  lemma OkCountExamples()
    ensures !IsDupeCount("17") && !IsDupeCount("1")
  {
    var seventeen, one := FormatInt64(17), FormatInt64(1);
    assert seventeen == "17" && one == "1";
    DupeOfCount(17);
    DupeOfCount(1);
  }

  /**
   * A success child with no `error` child: the message is the child's text
   * and the status is `Dupe` or `Ok` according to the count rule.
   */
  lemma SuccessDecoding(doc: XDocument, reply: string, entry: XElement, success: XElement)
    requires Element(doc.root, HrdName("NewEntry")) == Some(entry)
    requires Element(entry, HrdName(reply)) == Some(success)
    requires Element(entry, HrdName("error")) == None
    ensures InterpretNewEntry(doc, reply) ==
            HrdResponse(if IsDupeCount(success.value) then Dupe else Ok, Some(success.value))
  {
  }

  /**
   * An `error` child wins, whether or not a success child is present: the
   * message is its text, and the status is `UnknownUser` exactly for the
   * text "Unknown user".
   */
  lemma ErrorDecoding(doc: XDocument, reply: string, entry: XElement, error: XElement)
    requires Element(doc.root, HrdName("NewEntry")) == Some(entry)
    requires Element(entry, HrdName("error")) == Some(error)
    ensures InterpretNewEntry(doc, reply) ==
            HrdResponse(if error.value == "Unknown user" then UnknownUser else Error, Some(error.value))
  {
  }

  /** No `NewEntry` element, or neither child: `Error` with a null message. */
  lemma DefaultDecoding(doc: XDocument, reply: string)
    requires Element(doc.root, HrdName("NewEntry")).Some? ==>
             Element(Element(doc.root, HrdName("NewEntry")).value, HrdName(reply)).None? &&
             Element(Element(doc.root, HrdName("NewEntry")).value, HrdName("error")).None?
    ensures InterpretNewEntry(doc, reply) == HrdResponse(Error, None)
  {
  }

  /**
   * Read backwards, each decoded result names the envelope shape it came
   * from: `Ok`/`Dupe` only from a success child without `error` child,
   * `UnknownUser` only from the literal error text, and a null message only
   * from the default case.
   */
  lemma DecodingCharacterization(doc: XDocument, reply: string)
    ensures var r := InterpretNewEntry(doc, reply);
            var entry := Element(doc.root, HrdName("NewEntry"));
      && (r.status == Ok || r.status == Dupe ==>
            entry.Some? && Element(entry.value, HrdName("error")).None? &&
            Element(entry.value, HrdName(reply)).Some? &&
            r.message == Some(Element(entry.value, HrdName(reply)).value.value) &&
            (r.status == Dupe <==> IsDupeCount(r.message.value)))
      && (r.status == UnknownUser ==>
            entry.Some? && Element(entry.value, HrdName("error")).Some? &&
            r.message == Some(UnknownUserText) &&
            Element(entry.value, HrdName("error")).value.value == UnknownUserText)
      && (r.message.None? <==>
            entry.None? ||
            (Element(entry.value, HrdName(reply)).None? && Element(entry.value, HrdName("error")).None?))
      && (r.message.None? ==> r.status == Error)
  {
  }

  /** An HRDLOG envelope whose operation element holds the given children. */
  function Envelope(rootName: XName, operation: string, children: seq<XElement>): XDocument
  {
    XDocument(XElement(rootName, "", [XElement(HrdName(operation), "", children)]))
  }

  function Child(localName: string, text: string): XElement
  {
    XElement(HrdName(localName), text, [])
  }

  /** A success reply with a positive count: `Ok`, and the count is the message. */
  lemma AcceptedReplyExample(rootName: XName)
    ensures InterpretNewEntry(Envelope(rootName, "NewEntry", [Child("insert", "17")]), "insert") ==
            HrdResponse(Ok, Some("17"))
  {
    OkCountExamples();
    assert "insert" != "error";
  }

  /** A success reply with a zero count: `Dupe`. */
  lemma DuplicateReplyExample(rootName: XName)
    ensures InterpretNewEntry(Envelope(rootName, "NewEntry", [Child("insert", "0")]), "insert") ==
            HrdResponse(Dupe, Some("0"))
  {
    DupeCountExamples();
    assert "insert" != "error";
  }

  /** The literal "Unknown user" error: `UnknownUser`. */
  lemma UnknownUserReplyExample(rootName: XName)
    ensures InterpretNewEntry(Envelope(rootName, "NewEntry", [Child("error", "Unknown user")]), "insert") ==
            HrdResponse(UnknownUser, Some("Unknown user"))
  {
    assert "insert" != "error";
  }

  /** Any other error text: `Error`, carrying the text. */
  lemma OtherErrorReplyExample(rootName: XName)
    ensures InterpretNewEntry(Envelope(rootName, "NewEntry", [Child("error", "Bad callsign")]), "delete") ==
            HrdResponse(Error, Some("Bad callsign"))
  {
    assert "delete" != "error";
    assert "Unknown user"[0] != "Bad callsign"[0];
  }

  /** A success child of another command's name is not a success: `Error` with no message. */
  lemma MismatchedReplyExample(rootName: XName)
    ensures InterpretNewEntry(Envelope(rootName, "NewEntry", [Child("insert", "1")]), "update") ==
            HrdResponse(Error, None)
  {
    assert "insert"[0] != "update"[0];
    assert "insert" != "error";
  }

  /**
   * Whatever text a success child of the expected name carries, an Insert
   * answered by an envelope holding that child alone is `Ok` or `Dupe`.
   */
  lemma InsertAcceptedIsOkOrDupe(rootName: XName, count: string)
    ensures InterpretNewEntry(Envelope(rootName, "NewEntry", [Child("insert", count)]), "insert").status
            in {Ok, Dupe}
  {
    assert "insert" != "error";
  }

  /** The on-air decoder: true exactly for an `insert` child with no `error` child. */
  lemma OnAirDecoding(doc: XDocument)
    ensures InterpretOnAir(doc) <==>
      exists entry :: Element(doc.root, HrdName("OnAir")) == Some(entry) &&
        Element(entry, HrdName("insert")).Some? && Element(entry, HrdName("error")).None?
  {
  }

  lemma OnAirReplyExamples(rootName: XName)
    ensures InterpretOnAir(Envelope(rootName, "OnAir", [Child("insert", "1")]))
    ensures !InterpretOnAir(Envelope(rootName, "OnAir", [Child("error", "Unknown user")]))
    ensures !InterpretOnAir(Envelope(rootName, "OnAir", [Child("insert", "1"), Child("error", "x")]))
    ensures !InterpretOnAir(Envelope(rootName, "NewEntry", [Child("insert", "1")]))
  {
    assert "insert" != "error";
    assert "OnAir" != "NewEntry";
  }

  /**
   * A submission throws exactly when the transfer failed or timed out, the
   * status code is not a success, or the body is not XML; each cause has its
   * own exception, and a non-success status throws "Server error" whatever
   * the body holds.
   */
  lemma QsoReplyFailures(response: HttpOutcome, reply: string)
    ensures QsoReply(response, reply).Throw? <==>
      !response.Responded? || !IsSuccessStatusCode(response.statusCode) || response.body.None?
    ensures response.TransportFailed? ==> QsoReply(response, reply) == Throw(HttpRequestException)
    ensures response.TimedOut? ==> QsoReply(response, reply) == Throw(TaskCanceledException)
    ensures response.Responded? && !IsSuccessStatusCode(response.statusCode) ==>
      QsoReply(response, reply) == Throw(GeneralException("Server error"))
    ensures response.Responded? && IsSuccessStatusCode(response.statusCode) && response.body.None? ==>
      QsoReply(response, reply) == Throw(XmlException)
  {
  }

  lemma OnAirReplyFailures(response: HttpOutcome)
    ensures OnAirReply(response).Throw? <==>
      !response.Responded? || !IsSuccessStatusCode(response.statusCode) || response.body.None?
    ensures response.TransportFailed? ==> OnAirReply(response) == Throw(HttpRequestException)
    ensures response.TimedOut? ==> OnAirReply(response) == Throw(TaskCanceledException)
    ensures response.Responded? && !IsSuccessStatusCode(response.statusCode) ==>
      OnAirReply(response) == Throw(GeneralException("Server error"))
    ensures response.Responded? && IsSuccessStatusCode(response.statusCode) && response.body.None? ==>
      OnAirReply(response) == Throw(XmlException)
    ensures OnAirReply(response) == Return(true) ==>
      response.Responded? && response.body.Some? && InterpretOnAir(response.body.value)
  {
  }
}

/**
 * The HRDLOG.net protocol client.  Its identity and host policy are fixed
 * at construction; each operation probes the configured hosts, builds one
 * form, posts it once and decodes the XML reply.  The ping and the POST are
 * oracles passed to each call; every operation also reports the pings it
 * sent and the request it posted, if any.
 */
module HrdLibrary {
  import opened Wrappers
  import opened Numeric
  import opened Xml
  import opened HostSelection
  import opened Requests
  import opened Responses

  class HrdProtocol {
    const callsign: string
    const uploadCode: string
    const appName: string
    const hosts: bv32
    const secure: bool

    /** Stores the identity and host policy; nothing else is ever changed. */
    constructor (Callsign: string, UploadCode: string, AppName: string, hosts: bv32, Secure: bool)
      ensures callsign == Callsign && uploadCode == UploadCode && appName == AppName
      ensures this.hosts == hosts && secure == Secure
    {
      callsign := Callsign;
      uploadCode := UploadCode;
      appName := AppName;
      this.hosts := hosts;
      secure := Secure;
    }

    /** The constructor with its defaults: both hosts, secure submissions. */
    constructor WithDefaults(Callsign: string, UploadCode: string, AppName: string)
      ensures callsign == Callsign && uploadCode == UploadCode && appName == AppName
      ensures hosts == DefaultHosts && IsSet(hosts, Primary) && IsSet(hosts, Secondary) && secure
    {
      callsign := Callsign;
      uploadCode := UploadCode;
      appName := AppName;
      hosts := DefaultHosts;
      secure := true;
    }

    /**
     * `WhichHostIsReachableAsync`: scans the enum members in order, pings
     * each configured one and returns the first that replies `Success`.
     */
    method WhichHostIsReachable(ping: string -> PingOutcome) returns (addr: Option<string>, pinged: seq<string>)
      ensures addr == SelectHost(hosts, ping)
      ensures pinged == ProbedHosts(hosts, ping)
    {
      pinged := [];
      var flags := AllHostFlags;
      var i := 0;
      while i < |flags|
        invariant 0 <= i <= |flags|
        invariant SelectFrom(hosts, ping, flags[i..]) == SelectHost(hosts, ping)
        invariant pinged + ProbesFrom(hosts, ping, flags[i..]) == ProbedHosts(hosts, ping)
      {
        var host := flags[i];
        ScanAdvance(hosts, ping, flags[i..], pinged, SelectHost(hosts, ping), ProbedHosts(hosts, ping));
        assert flags[i..][1..] == flags[i + 1..];
        if IsSet(hosts, host) {
          var a := GetHostAddress(host);
          var status := PingHost(ping, a);
          pinged := pinged + [a];
          if status == Success {
            return Some(a), pinged;
          }
        }
        i := i + 1;
      }
      return None, pinged;
    }

    /** The guarded ping: a ping that throws leaves the status `Unknown`. */
    method PingHost(ping: string -> PingOutcome, addr: string) returns (status: IPStatus)
      ensures status == Success <==> Reachable(ping(addr))
      ensures ping(addr) == PingThrew ==> status == Unknown
      ensures ping(addr).Replied? ==> status == ping(addr).status
    {
      status := Unknown;
      match ping(addr) {
        case Replied(s) => status := s;
        case PingThrew =>
      }
    }

    /** `IsHostReachableAsync`: true exactly when some configured host answers. */
    method IsHostReachable(ping: string -> PingOutcome) returns (reachable: bool, pinged: seq<string>)
      ensures reachable <==> exists f :: f in AllHostFlags && IsSet(hosts, f) && Reachable(ping(GetHostAddress(f)))
      ensures pinged == ProbedHosts(hosts, ping)
    {
      var addr;
      addr, pinged := WhichHostIsReachable(ping);
      reachable := addr != None;
    }

    /**
     * `SendQsoAsync`: fails with "Servers not available" when no host
     * answers, then checks its arguments, then posts the form and decodes
     * the reply.  Neither failure posts anything.
     */
    method SendQso(command: Cmd, adif: Option<string>, qsoKey: Option<string>,
                   ping: string -> PingOutcome, post: Request -> HttpOutcome)
      returns (outcome: Outcome<HrdResponse>, pinged: seq<string>, posted: Option<Request>)
      ensures pinged == ProbedHosts(hosts, ping)
      ensures SelectHost(hosts, ping).None? ==>
                outcome == Throw(GeneralException("Servers not available")) && posted == None
      ensures SelectHost(hosts, ping).Some? && ArgumentError(command, adif, qsoKey).Some? ==>
                outcome == Throw(ArgumentNullException(ArgumentError(command, adif, qsoKey).value)) &&
                posted == None
      ensures SelectHost(hosts, ping).Some? && ArgumentError(command, adif, qsoKey).None? ==>
                posted == Some(Request(QsoUri(secure, SelectHost(hosts, ping).value),
                                       QsoForm(callsign, uploadCode, appName, command, adif, qsoKey))) &&
                outcome == QsoReply(post(posted.value), ReplyName(command))
    {
      var addr;
      addr, pinged := WhichHostIsReachable(ping);
      posted := None;
      if addr == None {
        return Throw(GeneralException("Servers not available")), pinged, posted;
      }
      var data: Form := [];
      data := data + [("Callsign", callsign)];
      data := data + [("Code", uploadCode)];
      data := data + [("App", appName)];
      assert data == IdentityFields(callsign, uploadCode, appName);
      var missing, reply;
      missing, data, reply := AddCommandFields(command, adif, qsoKey, data);
      if missing != None {
        return Throw(ArgumentNullException(missing.value)), pinged, posted;
      }
      assert data == QsoForm(callsign, uploadCode, appName, command, adif, qsoKey);
      var request;
      outcome, request := PostQso(addr.value, data, reply, post);
      posted := Some(request);
    }

    /**
     * The transfer half of `SendQsoAsync`: posts `data` to the selected
     * host's `/NewEntry.aspx`, throws on a failed or timed-out transfer, a
     * non-success status or a body that is not XML, and otherwise decodes
     * the reply against the element `reply`.
     */
    method PostQso(addr: string, data: Form, reply: string, post: Request -> HttpOutcome)
      returns (outcome: Outcome<HrdResponse>, request: Request)
      ensures request == Request(QsoUri(secure, addr), data)
      ensures outcome == QsoReply(post(request), reply)
    {
      request := Request(Uri(if secure then "https" else "http", addr, "/NewEntry.aspx"), data);
      var response := post(request);
      if response.TransportFailed? {
        return Throw(HttpRequestException), request;
      }
      if response.TimedOut? {
        return Throw(TaskCanceledException), request;
      }
      if !IsSuccessStatusCode(response.statusCode) {
        return Throw(GeneralException("Server error")), request;
      }
      if response.body.None? {
        return Throw(XmlException), request;
      }
      var result := ReadNewEntry(response.body.value, reply);
      outcome := Return(result);
    }

    /**
     * The command switch of `SendQsoAsync`: checks the arguments the command
     * needs, naming the first missing one, and otherwise appends the
     * command's fields to `data` and picks the reply element to look for.
     */
    method AddCommandFields(command: Cmd, adif: Option<string>, qsoKey: Option<string>, data: Form)
      returns (missing: Option<string>, data': Form, reply: string)
      ensures missing == ArgumentError(command, adif, qsoKey)
      ensures missing.None? ==> data' == data + CommandFields(command, adif, qsoKey) && reply == ReplyName(command)
    {
      missing := None;
      data' := data;
      reply := "insert";
      match command {
        case Insert =>
          if IsNullOrEmpty(adif) {
            return Some("Adif"), data, reply;
          }
          data' := data' + [("ADIFData", adif.value)];
          reply := "insert";
        case Delete =>
          if IsNullOrEmpty(qsoKey) {
            return Some("QsoKey"), data, reply;
          }
          data' := data' + [("Cmd", "DELETE")];
          data' := data' + [("ADIFKey", qsoKey.value)];
          reply := "delete";
        case Update =>
          if IsNullOrEmpty(adif) {
            return Some("Adif"), data, reply;
          }
          if IsNullOrEmpty(qsoKey) {
            return Some("QsoKey"), data, reply;
          }
          data' := data' + [("Cmd", "UPDATE")];
          data' := data' + [("ADIFKey", qsoKey.value)];
          data' := data' + [("ADIFData", adif.value)];
          reply := "update";
        case Undefined(_) =>
      }
    }

    /**
     * The XML-reading block of `SendQsoAsync`: starts from `Error` with no
     * message and overwrites it from the success or `error` child.
     */
    method ReadNewEntry(doc: XDocument, reply: string) returns (result: HrdResponse)
      ensures result == InterpretNewEntry(doc, reply)
    {
      result := HrdResponse(Error, None);
      var entry := Element(doc.root, HrdName("NewEntry"));
      if entry != None {
        var insert := Element(entry.value, HrdName(reply));
        var error := Element(entry.value, HrdName("error"));
        if insert != None && error == None {
          result := result.(message := Some(insert.value.value));
          var nRec := TryParseInt32(insert.value.value);
          var dupe := nRec == None || nRec.value == 0;
          if dupe {
            result := result.(status := Dupe);
          } else {
            result := result.(status := Ok);
          }
        } else if error != None {
          result := result.(message := Some(error.value.value));
          if error.value.value != "Unknown user" {
            result := result.(status := Error);
          } else {
            result := result.(status := UnknownUser);
          }
        }
      }
    }

    /**
     * `SendOnAirAsync`: fails with "Servers not available" when no host
     * answers, otherwise posts the on-air form over plain `http` and reports
     * whether the reply holds an `insert` child and no `error` child.
     */
    method SendOnAir(frequency: int64, mode: string, rig: string,
                     ping: string -> PingOutcome, post: Request -> HttpOutcome)
      returns (outcome: Outcome<bool>, pinged: seq<string>, posted: Option<Request>)
      ensures pinged == ProbedHosts(hosts, ping)
      ensures SelectHost(hosts, ping).None? ==>
                outcome == Throw(GeneralException("Servers not available")) && posted == None
      ensures SelectHost(hosts, ping).Some? ==>
                posted == Some(Request(OnAirUri(SelectHost(hosts, ping).value),
                                       OnAirForm(frequency, mode, rig, callsign, uploadCode, appName))) &&
                outcome == OnAirReply(post(posted.value))
    {
      var addr;
      addr, pinged := WhichHostIsReachable(ping);
      posted := None;
      if addr == None {
        return Throw(GeneralException("Servers not available")), pinged, posted;
      }
      var data: Form := [];
      data := data + [("Frequency", FormatInt64(frequency))];
      data := data + [("Mode", mode)];
      data := data + [("Radio", rig)];
      data := data + [("Callsign", callsign)];
      data := data + [("Code", uploadCode)];
      data := data + [("App", appName)];
      assert data == OnAirForm(frequency, mode, rig, callsign, uploadCode, appName);
      var request;
      outcome, request := PostOnAir(addr.value, data, post);
      posted := Some(request);
    }

    /**
     * The transfer half of `SendOnAirAsync`: posts `data` to the selected
     * host's `/OnAir.aspx` over plain `http`, throws as a submission does,
     * and otherwise reads the on-air reply.
     */
    method PostOnAir(addr: string, data: Form, post: Request -> HttpOutcome)
      returns (outcome: Outcome<bool>, request: Request)
      ensures request == Request(OnAirUri(addr), data)
      ensures outcome == OnAirReply(post(request))
    {
      request := Request(Uri("http", addr, "/OnAir.aspx"), data);
      var response := post(request);
      if response.TransportFailed? {
        return Throw(HttpRequestException), request;
      }
      if response.TimedOut? {
        return Throw(TaskCanceledException), request;
      }
      if !IsSuccessStatusCode(response.statusCode) {
        return Throw(GeneralException("Server error")), request;
      }
      if response.body.None? {
        return Throw(XmlException), request;
      }
      var result := ReadOnAir(response.body.value);
      outcome := Return(result);
    }

    /** The XML-reading block of `SendOnAirAsync`. */
    method ReadOnAir(doc: XDocument) returns (result: bool)
      ensures result == InterpretOnAir(doc)
    {
      result := false;
      var entry := Element(doc.root, HrdName("OnAir"));
      if entry != None {
        var insert := Element(entry.value, HrdName("insert"));
        var error := Element(entry.value, HrdName("error"));
        if insert != None && error == None {
          result := true;
        }
      }
    }
  }
}

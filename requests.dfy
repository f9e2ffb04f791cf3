/**
 * What the client sends: the ordered form fields of a submission or on-air
 * push, the argument checks that guard a submission, the endpoint, and the
 * name of the reply element each command expects.
 */
module Requests {
  import opened Wrappers
  import opened Numeric

  /**
   * `enum Cmd`.  A C# enum holds any integer: `Undefined(value)` stands for
   * a value outside the three named ones, which matches no case of the
   * command switch.
   */
  datatype Cmd = Insert | Delete | Update | Undefined(value: int)

  /** The `List<KeyValuePair<string, string>>` handed to `FormUrlEncodedContent`. */
  type Form = seq<(string, string)>

  /** A request URI, by its components. */
  datatype Uri = Uri(scheme: string, host: string, path: string)

  /** One POST: where it goes and the form it carries. */
  datatype Request = Request(uri: Uri, form: Form)

  /** `string.IsNullOrEmpty`; `None` stands for `null`. */
  predicate IsNullOrEmpty(s: Option<string>) { s.None? || s.value == "" }

  /** The commands that send a record: Insert and Update. */
  predicate NeedsRecord(cmd: Cmd) { cmd.Insert? || cmd.Update? }

  /** The commands that name an existing record by its key: Delete and Update. */
  predicate NeedsKey(cmd: Cmd) { cmd.Delete? || cmd.Update? }

  /**
   * The parameter named by the `ArgumentNullException` a submission raises,
   * if any: Insert needs `Adif`, Delete needs `QsoKey`, Update needs both and
   * checks `Adif` first; an undefined command is not checked at all.
   */
  function ArgumentError(cmd: Cmd, adif: Option<string>, qsoKey: Option<string>): (r: Option<string>)
    ensures r.None? ==> (NeedsRecord(cmd) ==> !IsNullOrEmpty(adif)) && (NeedsKey(cmd) ==> !IsNullOrEmpty(qsoKey))
    ensures r.Some? ==> (r.value == "Adif" && NeedsRecord(cmd) && IsNullOrEmpty(adif)) ||
                        (r.value == "QsoKey" && NeedsKey(cmd) && IsNullOrEmpty(qsoKey))
  {
    match cmd
    case Insert => if IsNullOrEmpty(adif) then Some("Adif") else None
    case Delete => if IsNullOrEmpty(qsoKey) then Some("QsoKey") else None
    case Update =>
      if IsNullOrEmpty(adif) then Some("Adif")
      else if IsNullOrEmpty(qsoKey) then Some("QsoKey")
      else None
    case Undefined(_) => None
  }

  /** The three identity fields every request carries, in this order. */
  function IdentityFields(callsign: string, uploadCode: string, appName: string): Form
  {
    [("Callsign", callsign), ("Code", uploadCode), ("App", appName)]
  }

  /** The fields a submission adds after the identity fields. */
  function CommandFields(cmd: Cmd, adif: Option<string>, qsoKey: Option<string>): Form
    requires ArgumentError(cmd, adif, qsoKey).None?
  {
    match cmd
    case Insert => [("ADIFData", adif.value)]
    case Delete => [("Cmd", "DELETE"), ("ADIFKey", qsoKey.value)]
    case Update => [("Cmd", "UPDATE"), ("ADIFKey", qsoKey.value), ("ADIFData", adif.value)]
    case Undefined(_) => []
  }

  /**
   * The form `SendQsoAsync` posts: the identity fields first, verbatim,
   * then the command's own fields, each field name once.
   */
  function QsoForm(callsign: string, uploadCode: string, appName: string,
                   cmd: Cmd, adif: Option<string>, qsoKey: Option<string>): (r: Form)
    requires ArgumentError(cmd, adif, qsoKey).None?
    ensures |r| >= 3 && r[..3] == IdentityFields(callsign, uploadCode, appName)
    ensures Keys(r) == QsoKeys(cmd) && Distinct(Keys(r))
  {
    var r := IdentityFields(callsign, uploadCode, appName) + CommandFields(cmd, adif, qsoKey);
    assert r[..3] == IdentityFields(callsign, uploadCode, appName);
    QsoKeysDistinct(cmd);
    r
  }

  /**
   * The form `SendOnAirAsync` posts: frequency, mode and rig, then the
   * identity fields, each field name once.
   */
  function OnAirForm(frequency: int64, mode: string, rig: string,
                     callsign: string, uploadCode: string, appName: string): (r: Form)
    ensures Keys(r) == ["Frequency", "Mode", "Radio", "Callsign", "Code", "App"] && Distinct(Keys(r))
    ensures r[3..] == IdentityFields(callsign, uploadCode, appName)
  {
    var r := [("Frequency", FormatInt64(frequency)), ("Mode", mode), ("Radio", rig)] +
             IdentityFields(callsign, uploadCode, appName);
    assert r[3..] == IdentityFields(callsign, uploadCode, appName);
    OnAirKeysDistinct();
    r
  }

  /**
   * A submission goes to `/NewEntry.aspx` on the given host, over `https`
   * exactly when the client is secure.
   */
  function QsoUri(secure: bool, addr: string): (r: Uri)
    ensures r.scheme == "https" <==> secure
    ensures r.scheme == "http" <==> !secure
    ensures r.host == addr && r.path == "/NewEntry.aspx"
  {
    Uri(if secure then "https" else "http", addr, "/NewEntry.aspx")
  }

  /**
   * An on-air push goes to `/OnAir.aspx` on the given host, over plain
   * `http` whatever the client's setting, so never to a submission's URI.
   */
  function OnAirUri(addr: string): (r: Uri)
    ensures r.scheme == "http" && r.host == addr && r.path == "/OnAir.aspx"
    ensures r != QsoUri(true, addr) && r != QsoUri(false, addr)
  {
    Uri("http", addr, "/OnAir.aspx")
  }

  /**
   * The local name of the success element a submission reply carries: the
   * command's name in lower case, never `error`; an undefined command keeps
   * the initial `insert`.
   */
  function ReplyName(cmd: Cmd): (r: string)
    ensures !cmd.Undefined? ==> r == ToLowerAscii(CmdName(cmd))
    ensures cmd.Undefined? ==> r == "insert"
    ensures r != "error"
  {
    match cmd
    case Insert => LowerInsert(); "insert"
    case Delete => LowerDelete(); "delete"
    case Update => LowerUpdate(); "update"
    case Undefined(_) => "insert"
  }

  /** The C# name of a named command, as `Cmd.ToString()` spells it. */
  function CmdName(cmd: Cmd): string
    requires !cmd.Undefined?
  {
    match cmd
    case Insert => "Insert"
    case Delete => "Delete"
    case Update => "Update"
  }

  function LowerAscii(c: char): char
  {
    if 'A' <= c <= 'Z' then (c as int + 32) as char else c
  }

  function UpperAscii(c: char): char
  {
    if 'a' <= c <= 'z' then (c as int - 32) as char else c
  }

  function ToLowerAscii(s: string): (r: string)
    ensures |r| == |s| && forall i :: 0 <= i < |s| ==> r[i] == LowerAscii(s[i])
  {
    if s == [] then [] else [LowerAscii(s[0])] + ToLowerAscii(s[1..])
  }

  function ToUpperAscii(s: string): (r: string)
    ensures |r| == |s| && forall i :: 0 <= i < |s| ==> r[i] == UpperAscii(s[i])
  {
    if s == [] then [] else [UpperAscii(s[0])] + ToUpperAscii(s[1..])
  }

  /** The value under the first field named `key`, as a server reading the form sees it. */
  function Lookup(form: Form, key: string): (r: Option<string>)
    ensures r.Some? <==> exists i :: 0 <= i < |form| && form[i].0 == key
    ensures r.Some? ==> exists i :: 0 <= i < |form| && form[i] == (key, r.value)
  {
    if form == [] then None
    else if form[0].0 == key then Some(form[0].1)
    else
      var r := Lookup(form[1..], key);
      assert forall i :: 1 <= i < |form| ==> form[i] == form[1..][i - 1];
      r
  }

  /** The field names of a form, in order. */
  function Keys(form: Form): (ks: seq<string>)
    ensures |ks| == |form| && forall i :: 0 <= i < |form| ==> ks[i] == form[i].0
  {
    if form == [] then [] else [form[0].0] + Keys(form[1..])
  }

  predicate Distinct(ks: seq<string>)
  {
    forall i, j :: 0 <= i < j < |ks| ==> ks[i] != ks[j]
  }

  /** In a form whose field names are distinct, each field is found under its own name. */
  lemma {:induction false} LookupFound(form: Form, i: int)
    requires 0 <= i < |form| && Distinct(Keys(form))
    ensures Lookup(form, form[i].0) == Some(form[i].1)
  {
    if i > 0 {
      assert Keys(form)[0] != Keys(form)[i];
      assert form[1..][i - 1] == form[i];
      assert Distinct(Keys(form[1..])) by {
        forall x, y | 0 <= x < y < |form[1..]| ensures Keys(form[1..])[x] != Keys(form[1..])[y] {
          assert Keys(form)[x + 1] != Keys(form)[y + 1];
        }
      }
      LookupFound(form[1..], i - 1);
    }
  }

  /** A name that is not a field name is not found. */
  lemma LookupMissing(form: Form, key: string)
    requires key !in Keys(form)
    ensures Lookup(form, key) == None
  {
  }

  /** The field names a submission form carries, by command. */
  function QsoKeys(cmd: Cmd): seq<string>
  {
    ["Callsign", "Code", "App"] +
    match cmd
    case Insert => ["ADIFData"]
    case Delete => ["Cmd", "ADIFKey"]
    case Update => ["Cmd", "ADIFKey", "ADIFData"]
    case Undefined(_) => []
  }

  lemma QsoKeysDistinct(cmd: Cmd)
    ensures Distinct(QsoKeys(cmd))
  {
    var ks := QsoKeys(cmd);
    assert "Callsign"[1] != "ADIFData"[1] && "App"[0] != "Cmd"[0] && "Code"[1] != "Cmd"[1];
    assert "App" != "ADIFKey" && "Code" != "ADIFKey";
    assert forall i, j :: 0 <= i < j < |ks| ==> ks[i] != ks[j];
  }

  /**
   * Argument checks pass exactly when every field the command needs is
   * non-empty, and a missing record is reported before a missing key.
   */
  lemma ArgumentErrorIff(cmd: Cmd, adif: Option<string>, qsoKey: Option<string>)
    ensures ArgumentError(cmd, adif, qsoKey).None? <==>
            (NeedsRecord(cmd) ==> !IsNullOrEmpty(adif)) && (NeedsKey(cmd) ==> !IsNullOrEmpty(qsoKey))
    ensures ArgumentError(cmd, adif, qsoKey) == Some("Adif") <==> NeedsRecord(cmd) && IsNullOrEmpty(adif)
    ensures ArgumentError(cmd, adif, qsoKey) == Some("QsoKey") <==>
            NeedsKey(cmd) && IsNullOrEmpty(qsoKey) && (NeedsRecord(cmd) ==> !IsNullOrEmpty(adif))
  {
  }

  /**
   * A server reading the submission form finds the identity fields; the
   * record only for Insert and Update, the key only for Delete and Update,
   * and the `Cmd` field (the command name in upper case) only for Delete
   * and Update; an undefined command sends the identity fields alone.
   */
  lemma QsoFormContents(callsign: string, uploadCode: string, appName: string,
                        cmd: Cmd, adif: Option<string>, qsoKey: Option<string>)
    requires ArgumentError(cmd, adif, qsoKey).None?
    ensures var form := QsoForm(callsign, uploadCode, appName, cmd, adif, qsoKey);
      && Lookup(form, "Callsign") == Some(callsign)
      && Lookup(form, "Code") == Some(uploadCode)
      && Lookup(form, "App") == Some(appName)
      && Lookup(form, "ADIFData") == (if NeedsRecord(cmd) then adif else None)
      && Lookup(form, "ADIFKey") == (if NeedsKey(cmd) then qsoKey else None)
      && Lookup(form, "Cmd") == (if NeedsKey(cmd) then Some(ToUpperAscii(CmdName(cmd))) else None)
      && (cmd.Undefined? ==> form == IdentityFields(callsign, uploadCode, appName))
  {
    var form := QsoForm(callsign, uploadCode, appName, cmd, adif, qsoKey);
    IdentityLookups(form, callsign, uploadCode, appName);
    match cmd {
      case Insert => QsoFormInsertFields(form, adif.value);
      case Delete => QsoFormDeleteFields(form, qsoKey.value);
      case Update => QsoFormUpdateFields(form, adif.value, qsoKey.value);
      case Undefined(_) =>
        assert CommandFields(cmd, adif, qsoKey) == [];
        assert form == IdentityFields(callsign, uploadCode, appName);
        QsoFormUndefinedFields(form, cmd);
    }
  }

  lemma IdentityLookups(form: Form, callsign: string, uploadCode: string, appName: string)
    requires |form| >= 3 && form[..3] == IdentityFields(callsign, uploadCode, appName)
    requires Distinct(Keys(form))
    ensures Lookup(form, "Callsign") == Some(callsign)
    ensures Lookup(form, "Code") == Some(uploadCode)
    ensures Lookup(form, "App") == Some(appName)
  {
    assert form[0] == form[..3][0] == ("Callsign", callsign);
    assert form[1] == form[..3][1] == ("Code", uploadCode);
    assert form[2] == form[..3][2] == ("App", appName);
    LookupFound(form, 0);
    LookupFound(form, 1);
    LookupFound(form, 2);
  }

  lemma QsoFormInsertFields(form: Form, adif: string)
    requires |form| == 4 && form[3] == ("ADIFData", adif) && Keys(form) == QsoKeys(Insert)
    ensures Lookup(form, "ADIFData") == Some(adif)
    ensures Lookup(form, "ADIFKey") == None && Lookup(form, "Cmd") == None
  {
    QsoKeysDistinct(Insert);
    LookupFound(form, 3);
    assert "ADIFKey" !in QsoKeys(Insert) by { assert "ADIFKey"[4] != "ADIFData"[4]; }
    LookupMissing(form, "ADIFKey");
    LookupMissing(form, "Cmd");
  }

  lemma QsoFormDeleteFields(form: Form, qsoKey: string)
    requires |form| == 5 && form[3] == ("Cmd", "DELETE") && form[4] == ("ADIFKey", qsoKey)
    requires Keys(form) == QsoKeys(Delete)
    ensures Lookup(form, "ADIFKey") == Some(qsoKey)
    ensures Lookup(form, "Cmd") == Some(ToUpperAscii(CmdName(Delete)))
    ensures Lookup(form, "ADIFData") == None
  {
    QsoKeysDistinct(Delete);
    LookupFound(form, 3);
    LookupFound(form, 4);
    assert ToUpperAscii("Delete") == "DELETE";
    assert "ADIFData" !in QsoKeys(Delete) by { assert "ADIFKey"[4] != "ADIFData"[4]; }
    LookupMissing(form, "ADIFData");
  }

  lemma QsoFormUpdateFields(form: Form, adif: string, qsoKey: string)
    requires |form| == 6 && form[3] == ("Cmd", "UPDATE") && form[4] == ("ADIFKey", qsoKey)
    requires form[5] == ("ADIFData", adif) && Keys(form) == QsoKeys(Update)
    ensures Lookup(form, "ADIFKey") == Some(qsoKey)
    ensures Lookup(form, "Cmd") == Some(ToUpperAscii(CmdName(Update)))
    ensures Lookup(form, "ADIFData") == Some(adif)
  {
    QsoKeysDistinct(Update);
    LookupFound(form, 3);
    LookupFound(form, 4);
    LookupFound(form, 5);
    assert ToUpperAscii("Update") == "UPDATE";
  }

  lemma QsoFormUndefinedFields(form: Form, cmd: Cmd)
    requires cmd.Undefined? && Keys(form) == QsoKeys(cmd)
    ensures Lookup(form, "ADIFData") == None && Lookup(form, "ADIFKey") == None
    ensures Lookup(form, "Cmd") == None
  {
    assert "ADIFData"[0] != "Callsign"[0] && "ADIFData"[0] != "Code"[0];
    assert "Cmd"[1] != "Callsign"[1] && "Cmd"[1] != "Code"[1] && "Cmd"[0] != "App"[0];
    LookupMissing(form, "ADIFData");
    LookupMissing(form, "ADIFKey");
    LookupMissing(form, "Cmd");
  }

  /**
   * Insert never reads the key, Delete never reads the record, and an
   * undefined command reads neither.
   */
  lemma UnusedArgumentIgnored(callsign: string, uploadCode: string, appName: string, v: int,
                              adif: Option<string>, adif': Option<string>,
                              qsoKey: Option<string>, qsoKey': Option<string>)
    ensures ArgumentError(Insert, adif, qsoKey) == ArgumentError(Insert, adif, qsoKey')
    ensures ArgumentError(Delete, adif, qsoKey) == ArgumentError(Delete, adif', qsoKey)
    ensures ArgumentError(Insert, adif, qsoKey).None? ==>
      QsoForm(callsign, uploadCode, appName, Insert, adif, qsoKey) ==
      QsoForm(callsign, uploadCode, appName, Insert, adif, qsoKey')
    ensures ArgumentError(Delete, adif, qsoKey).None? ==>
      QsoForm(callsign, uploadCode, appName, Delete, adif, qsoKey) ==
      QsoForm(callsign, uploadCode, appName, Delete, adif', qsoKey)
    ensures ArgumentError(Undefined(v), adif, qsoKey) == ArgumentError(Undefined(v), adif', qsoKey') == None
    ensures QsoForm(callsign, uploadCode, appName, Undefined(v), adif, qsoKey) ==
            QsoForm(callsign, uploadCode, appName, Undefined(v), adif', qsoKey')
  {
  }

  lemma OnAirKeysDistinct()
    ensures Distinct(["Frequency", "Mode", "Radio", "Callsign", "Code", "App"])
  {
    var ks := ["Frequency", "Mode", "Radio", "Callsign", "Code", "App"];
    assert "Mode"[0] != "Code"[0];
    assert forall i, j :: 0 <= i < j < |ks| ==> ks[i] != ks[j];
  }

  /**
   * A server reading the on-air form finds the mode, the rig and the
   * identity fields, and its frequency field reads back as the frequency
   * that was sent.
   */
  lemma OnAirFormContents(frequency: int64, mode: string, rig: string,
                          callsign: string, uploadCode: string, appName: string)
    ensures var form := OnAirForm(frequency, mode, rig, callsign, uploadCode, appName);
      && Lookup(form, "Callsign") == Some(callsign)
      && Lookup(form, "Code") == Some(uploadCode)
      && Lookup(form, "App") == Some(appName)
      && Lookup(form, "Mode") == Some(mode)
      && Lookup(form, "Radio") == Some(rig)
      && Lookup(form, "Frequency").Some?
      && ParseDecimal(Lookup(form, "Frequency").value) == Some(frequency as int)
  {
    var form := OnAirForm(frequency, mode, rig, callsign, uploadCode, appName);
    LookupFound(form, 0);
    LookupFound(form, 1);
    LookupFound(form, 2);
    assert form[3] == form[3..][0] && form[4] == form[3..][1] && form[5] == form[3..][2];
    LookupFound(form, 3);
    LookupFound(form, 4);
    LookupFound(form, 5);
    FormatInt64RoundTrip(frequency);
  }

  /**
   * Distinct named commands expect distinct reply elements; an undefined
   * command expects the one Insert expects.
   */
  lemma ReplyNamesDistinct(cmd: Cmd, other: Cmd)
    ensures !cmd.Undefined? && !other.Undefined? ==> (ReplyName(cmd) == ReplyName(other) <==> cmd == other)
    ensures cmd.Undefined? ==> ReplyName(cmd) == ReplyName(Insert)
  {
  }

  lemma LowerInsert() ensures ToLowerAscii("Insert") == "insert" {}
  lemma LowerDelete() ensures ToLowerAscii("Delete") == "delete" {}
  lemma LowerUpdate() ensures ToLowerAscii("Update") == "update" {}
}

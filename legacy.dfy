/** The older single-file relay, TrackingMailProvider.py: the sender-domain helpers, the
    admission test written inline in its main loop, the extraction of the To address and
    the order number, and the loop that looks each order up in the merchandise database
    and forms the recipients of the forwarded mail. */
module LegacyProvider {
  import opened Wrappers
  import opened PyValues
  import opened Strings
  import MessageGate

  /** The accepted `Received-SPF` results of this script: no "none" here. */
  const LEGACY_SPF_CODES: seq<string> := ["pass", "softfail", "Pass", "SoftFail", "neutral", "Neutral"]

  /** `get_from_domain`: `from_address.split("@")[1]`; None where the index raises IndexError. */
  function GetFromDomain(address: string): (r: Option<string>)
    ensures r.Some? <==> '@' in address
    ensures r.Some? ==> '@' !in r.value
  {
    var parts := Split(address, '@');
    SplitOne(address, '@');
    SplitPieces(address, '@');
    if |parts| >= 2 then assert parts[1] in parts; Some(parts[1]) else None
  }

  /** `in_whitelist`: the domain must be an element of the list; an address without '@' raises. */
  function InWhitelist(address: string, whitelist: seq<Value>): Result<bool, PyError> {
    match GetFromDomain(address)
    case None => Err(IndexError)
    case Some(d) => Ok(VStr(d) in whitelist)
  }

  /** `in_whitelist(message['From'][1:-1], allowed_domains)`; slicing a missing header raises TypeError. */
  function SenderListed(headers: map<string, string>, whitelist: seq<Value>): Result<bool, PyError> {
    if "From" !in headers then Err(TypeError)
    else InWhitelist(TrimEnds(headers["From"]), whitelist)
  }

  /** The inline admission test of `main`, as Python's `and`/`or` evaluate it: with the SPF
      check on, a missing or unacceptable header rejects before the whitelist is consulted. */
  function LegacyAdmit(spfCheck: bool, headers: map<string, string>, whitelist: seq<Value>): Result<bool, PyError> {
    if spfCheck && "Received-SPF" !in headers then Ok(false)
    else if spfCheck && !MessageGate.AnyOccurs(LEGACY_SPF_CODES, headers["Received-SPF"]) then Ok(false)
    else SenderListed(headers, whitelist)
  }

  /** `to.split("<")[-1].split(">")[0]`: after the last '<', up to the next '>'. */
  function ExtractTo(to: string): (r: string)
    ensures '<' !in r && '>' !in r
  {
    var afterLt := Split(to, '<');
    var last := afterLt[|afterLt| - 1];
    SplitPieces(to, '<');
    assert last in afterLt;
    var inner := Split(last, '>')[0];
    SplitChars(last, '>');
    SplitPieces(last, '>');
    assert inner in Split(last, '>');
    inner
  }

  /** `address.split("@")[0]`: the order number is the part before the first '@'. */
  function OrderNumber(address: string): (r: string)
    ensures '@' !in r
  {
    SplitPieces(address, '@');
    assert Split(address, '@')[0] in Split(address, '@');
    Split(address, '@')[0]
  }

  /** The configuration the loop uses. */
  datatype LegacyConfig = LegacyConfig(spfCheck: bool, whitelist: seq<Value>, fromAddr: string, bccAddr: string)

  /** A mail handed to SMTP: its rewritten headers and the envelope recipients. */
  datatype Forward = Forward(headers: map<string, string>, recipients: seq<string>)

  /** One message of the loop: skipped (`continue`), forwarded, or an exception that ends the
      run. `wawi` maps an order number to the second column of its row. */
  function LegacyDecide(cfg: LegacyConfig, wawi: map<string, string>, headers: map<string, string>): Result<Option<Forward>, PyError> {
    match LegacyAdmit(cfg.spfCheck, headers, cfg.whitelist)
    case Err(e) => Err(e)
    case Ok(admitted) =>
      if !admitted then Ok(None)
      else if "To" !in headers then Err(AttributeError)       // None.split
      else
        var order := OrderNumber(ExtractTo(headers["To"]));
        if order !in wawi then Ok(None)
        else
          var toAddr := wawi[order];
          Ok(Some(Forward(headers["From" := cfg.fromAddr]["To" := toAddr], [toAddr, cfg.bccAddr])))
  }

  /** What the loop has forwarded after the first messages of the inbox, or the exception that ended it. */
  function LegacyRun(cfg: LegacyConfig, wawi: map<string, string>, inbox: seq<map<string, string>>): Result<seq<Forward>, PyError>
    decreases |inbox|
  {
    if inbox == [] then Ok([])
    else
      match LegacyRun(cfg, wawi, inbox[..|inbox| - 1])
      case Err(e) => Err(e)
      case Ok(sent) =>
        match LegacyDecide(cfg, wawi, inbox[|inbox| - 1])
        case Err(e) => Err(e)
        case Ok(None) => Ok(sent)
        case Ok(Some(f)) => Ok(sent + [f])
  }

  /** The `for msg_id in msg_ids` loop; each forward is one SMTP attempt, whose failure is only logged. */
  method LegacyRelay(cfg: LegacyConfig, wawi: map<string, string>, inbox: seq<map<string, string>>)
    returns (sent: seq<Forward>, error: Option<PyError>)
    ensures error.None? ==> LegacyRun(cfg, wawi, inbox) == Ok(sent)
    ensures error.Some? ==> LegacyRun(cfg, wawi, inbox) == Err(error.value)
  {
    sent := [];
    var i := 0;
    while i < |inbox|
      invariant 0 <= i <= |inbox|
      invariant LegacyRun(cfg, wawi, inbox[..i]) == Ok(sent)
    {
      assert inbox[..i + 1][..i] == inbox[..i];
      var d := LegacyDecide(cfg, wawi, inbox[i]);
      if d.Err? {
        assert LegacyRun(cfg, wawi, inbox[..i + 1]) == Err(d.error);
        LegacyRunStops(cfg, wawi, inbox, i + 1);
        return sent, Some(d.error);
      }
      if d.value.Some? {
        sent := sent + [d.value.value];
      }
      i := i + 1;
    }
    assert inbox[..i] == inbox;
    error := None;
  }

  /** Once a message raises, the run has ended: later messages change nothing. */
  lemma {:induction false} LegacyRunStops(cfg: LegacyConfig, wawi: map<string, string>, inbox: seq<map<string, string>>, n: nat)
    requires n <= |inbox| && LegacyRun(cfg, wawi, inbox[..n]).Err?
    ensures LegacyRun(cfg, wawi, inbox) == LegacyRun(cfg, wawi, inbox[..n])
    decreases |inbox| - n
  {
    if n < |inbox| {
      assert inbox[..n + 1][..n] == inbox[..n];
      LegacyRunStops(cfg, wawi, inbox, n + 1);
    } else {
      assert inbox[..n] == inbox;
    }
  }

  // ---------------------------------------------------------------------------
  // Properties

  /** The domain is the text after the first '@', up to a second '@' if there is one. */
  lemma GetFromDomainExact(user: string, domain: string, rest: string)
    requires '@' !in user && '@' !in domain
    ensures GetFromDomain(user + "@" + domain) == Some(domain)
    ensures GetFromDomain(user + "@" + domain + "@" + rest) == Some(domain)
  {
    SplitAtFirst(user, domain, '@');
    SplitNoSeparator(domain, '@');
    SplitAtFirst(user, domain + "@" + rest, '@');
    SplitAtFirst(domain, rest, '@');
    assert user + "@" + domain + "@" + rest == user + ['@'] + (domain + ['@'] + rest);
  }

  /** An address without '@' has no domain, and `in_whitelist` raises IndexError. */
  lemma NoAtRaises(address: string, whitelist: seq<Value>)
    requires '@' !in address
    ensures InWhitelist(address, whitelist) == Err(IndexError)
  {
  }

  /** An empty whitelist admits no sender: there is no fail-open in this script. */
  lemma EmptyWhitelistRejects(spfCheck: bool, headers: map<string, string>)
    ensures LegacyAdmit(spfCheck, headers, []) != Ok(true)
  {
  }

  /** A message passes exactly when, with the check on, its `Received-SPF` header holds an
      accepted code, and the domain of its trimmed From header is on the list. */
  lemma LegacyAdmitExact(spfCheck: bool, headers: map<string, string>, whitelist: seq<Value>)
    ensures LegacyAdmit(spfCheck, headers, whitelist) == Ok(true) <==>
      && (spfCheck ==> "Received-SPF" in headers && MessageGate.AnyOccurs(LEGACY_SPF_CODES, headers["Received-SPF"]))
      && "From" in headers
      && GetFromDomain(TrimEnds(headers["From"])).Some?
      && VStr(GetFromDomain(TrimEnds(headers["From"])).value) in whitelist
  {
  }

  /** Every SPF result this script accepts is also accepted by the newer gate. */
  lemma {:induction false} LegacyCodesIncluded(text: string)
    ensures MessageGate.AnyOccurs(LEGACY_SPF_CODES, text) ==> MessageGate.AnyOccurs(MessageGate.SPF_CODES, text)
  {
    if MessageGate.AnyOccurs(LEGACY_SPF_CODES, text) {
      var k :| 0 <= k < |LEGACY_SPF_CODES| && Occurs(LEGACY_SPF_CODES[k], text);
      assert LEGACY_SPF_CODES[k] in MessageGate.SPF_CODES;
      var m :| 0 <= m < |MessageGate.SPF_CODES| && MessageGate.SPF_CODES[m] == LEGACY_SPF_CODES[k];
    }
  }

  /** The SPF result "none" passes the newer gate and not this script's. */
  lemma NoneOnlyInNewerGate()
    ensures MessageGate.AnyOccurs(MessageGate.SPF_CODES, "none")
    ensures !MessageGate.AnyOccurs(LEGACY_SPF_CODES, "none")
  {
    assert "none" <= "none"[0..];
    assert Occurs(MessageGate.SPF_CODES[6], "none");
    forall k | 0 <= k < |LEGACY_SPF_CODES|
      ensures !Occurs(LEGACY_SPF_CODES[k], "none")
    {
      if Occurs(LEGACY_SPF_CODES[k], "none") {
        MessageGate.OccursFirst(LEGACY_SPF_CODES[k], "none");
      }
    }
  }

  /** The address between the last '<' and the following '>' is extracted. */
  lemma ExtractToExact(name: string, address: string, tail: string)
    requires '<' !in address && '>' !in address && '<' !in tail
    ensures ExtractTo(name + "<" + address + ">" + tail) == address
  {
    var inner := address + ">" + tail;
    assert name + "<" + address + ">" + tail == name + ['<'] + inner;
    SplitConcat(name, inner, '<');
    assert '<' !in inner;
    SplitNoSeparator(inner, '<');
    assert inner == address + ['>'] + tail;
    SplitAtFirst(address, tail, '>');
  }

  /** A bare address is kept as it is. */
  lemma ExtractToBare(address: string)
    requires '<' !in address && '>' !in address
    ensures ExtractTo(address) == address
  {
    SplitNoSeparator(address, '<');
    SplitNoSeparator(address, '>');
  }

  /** The order number is the local part of the address. */
  lemma OrderNumberExact(local: string, domain: string)
    requires '@' !in local
    ensures OrderNumber(local + "@" + domain) == local
  {
    SplitAtFirst(local, domain, '@');
  }

  /** "<abc@domain.de>" gives the address "abc@domain.de". */
  lemma ExtractExample()
    ensures ExtractTo("<abc@domain.de>") == "abc@domain.de"
  {
    ExtractToExact("", "abc@domain.de", "");
    assert "" + "<" + "abc@domain.de" + ">" + "" == "<abc@domain.de>";
  }

  /** The address "abc@domain.de" gives the order number "abc". */
  lemma OrderNumberExample()
    ensures OrderNumber("abc@domain.de") == "abc"
  {
    OrderNumberExact("abc", "domain.de");
    assert "abc" + "@" + "domain.de" == "abc@domain.de";
  }

  /** A forwarded message goes to the database's address and to the Bcc address, From and To
      rewritten, and only when its order number was found. */
  lemma LegacyForwardShape(cfg: LegacyConfig, wawi: map<string, string>, headers: map<string, string>)
    requires LegacyDecide(cfg, wawi, headers).Ok? && LegacyDecide(cfg, wawi, headers).value.Some?
    ensures var f := LegacyDecide(cfg, wawi, headers).value.value;
      && LegacyAdmit(cfg.spfCheck, headers, cfg.whitelist) == Ok(true)
      && "To" in headers
      && OrderNumber(ExtractTo(headers["To"])) in wawi
      && f.recipients == [wawi[OrderNumber(ExtractTo(headers["To"]))], cfg.bccAddr]
      && f.headers["To"] == f.recipients[0]
      && f.headers["From"] == cfg.fromAddr
  {
  }
}

/** `Message` of src/classes.py: a fetched mail as its header map and Bcc list, the two
    admission verdicts computed once when it is built (the SPF verdict from the
    `Received-SPF` header of section 9.1 of RFC 7208, and the sender-domain whitelist
    verdict), `get_domain`, and the To/From/Bcc accessors that rewrite it in place. */
module MessageGate {
  import opened Wrappers
  import opened PyValues
  import opened Strings
  import opened Validators

  /** The class attributes `Message.check_spf` and `Message.whitelist`, set from the configuration. */
  datatype Policy = Policy(checkSpf: Value, whitelist: seq<Value>)

  /** The `Received-SPF` results that count as acceptable, in both spellings. */
  const SPF_CODES: seq<string> := ["pass", "Pass", "softfail", "SoftFail", "neutral", "Neutral", "none", "None"]

  /** `any(code in text for code in codes)`. */
  function AnyOccurs(codes: seq<string>, text: string): (r: bool)
    ensures r <==> exists k :: 0 <= k < |codes| && Occurs(codes[k], text)
    decreases |codes|
  {
    if codes == [] then false
    else
      var rest := AnyOccurs(codes[1..], text);
      assert forall k :: 1 <= k < |codes| ==> codes[k] == codes[1..][k - 1];
      Occurs(codes[0], text) || rest
  }

  /** `_spf_check`: when checking is on, the header must be present (a missing one makes
      `code in None` raise TypeError) and contain one of the codes. */
  function SpfVerdict(policy: Policy, headers: map<string, string>): Result<bool, PyError> {
    if !Truthy(policy.checkSpf) then Ok(true)
    else if "Received-SPF" !in headers then Err(TypeError)
    else Ok(AnyOccurs(SPF_CODES, headers["Received-SPF"]))
  }

  // ---------------------------------------------------------------------------
  // get_domain: the first match of
  // @([a-zA-Z0-9][\w\.-]*[a-zA-Z0-9]\.[a-zA-Z][a-zA-Z\.]*[a-zA-Z])

  /** A character of `[\w\.-]`. */
  predicate IsWordDotDash(c: char) {
    IsAsciiAlnum(c) || c == '_' || c == '.' || c == '-'
  }

  /** A character of `[a-zA-Z\.]`. */
  predicate IsLetterOrDot(c: char) {
    IsAsciiLetter(c) || c == '.'
  }

  /** The group from `g` up to the literal dot at `j`: `[a-zA-Z0-9][\w\.-]*[a-zA-Z0-9]\.`. */
  predicate HeadOk(s: string, g: int, j: int) {
    && 0 <= g && g + 2 <= j < |s|
    && IsAsciiAlnum(s[g])
    && (forall i :: g < i < j - 1 ==> IsWordDotDash(s[i]))
    && IsAsciiAlnum(s[j - 1])
    && s[j] == '.'
  }

  /** The rest of the group after the dot at `j`, ending before `e`: `[a-zA-Z][a-zA-Z\.]*[a-zA-Z]`. */
  predicate TailOk(s: string, j: int, e: int) {
    && 0 <= j && j + 3 <= e <= |s|
    && IsAsciiLetter(s[j + 1])
    && (forall i :: j + 1 < i < e - 1 ==> IsLetterOrDot(s[i]))
    && IsAsciiLetter(s[e - 1])
  }

  /** A match of the whole pattern with its '@' at `b`, its dot at `j` and its end at `e`. */
  predicate MatchSpan(s: string, b: int, j: int, e: int) {
    0 <= b < |s| && s[b] == '@' && HeadOk(s, b + 1, j) && TailOk(s, j, e)
  }

  /** The greedy `[a-zA-Z\.]*`: the largest end not beyond `e` for the dot at `j`. */
  function LongestTail(s: string, j: int, e: int): (r: Option<int>)
    requires 0 <= j && e <= |s|
    ensures r.Some? ==> j + 3 <= r.value <= e
    decreases e
  {
    if e < j + 3 then None
    else if TailOk(s, j, e) then Some(e)
    else LongestTail(s, j, e - 1)
  }

  /** `LongestTail` finds an end at which the tail matches, and none larger is below `e`. */
  lemma {:induction false} LongestTailSpec(s: string, j: int, e: int)
    requires 0 <= j && e <= |s|
    ensures var r := LongestTail(s, j, e);
      && (r.Some? ==> TailOk(s, j, r.value))
      && (forall e' :: e' <= e && TailOk(s, j, e') ==> r.Some? && e' <= r.value)
    decreases e
  {
    if e >= j + 3 && !TailOk(s, j, e) {
      LongestTailSpec(s, j, e - 1);
    }
  }

  /** The greedy `[\w\.-]*` from the '@' at `b`: the largest dot position not beyond `j`
      at which the rest of the pattern matches, and then the largest end. */
  function GreedyMatch(s: string, b: int, j: int): (r: Option<(int, int)>)
    requires 0 <= b && j < |s|
    ensures r.Some? ==> b + 3 <= r.value.0 <= j && r.value.0 + 3 <= r.value.1 <= |s|
    decreases j
  {
    if j < b + 3 || s[b] != '@' then None
    else if HeadOk(s, b + 1, j) && LongestTail(s, j, |s|).Some? then Some((j, LongestTail(s, j, |s|).value))
    else GreedyMatch(s, b, j - 1)
  }

  /** `GreedyMatch` finds a match at `b` with the largest dot position not beyond `j`, and for
      that dot the largest end. */
  lemma {:induction false} GreedyMatchSpec(s: string, b: int, j: int)
    requires 0 <= b && j < |s|
    ensures var r := GreedyMatch(s, b, j);
      && (r.Some? ==> MatchSpan(s, b, r.value.0, r.value.1))
      && (r.Some? ==> forall e' :: MatchSpan(s, b, r.value.0, e') ==> e' <= r.value.1)
      && (forall j', e' :: j' <= j && MatchSpan(s, b, j', e') ==> r.Some? && j' <= r.value.0)
    decreases j
  {
    if j >= b + 3 && s[b] == '@' {
      LongestTailSpec(s, j, |s|);
      if !(HeadOk(s, b + 1, j) && LongestTail(s, j, |s|).Some?) {
        GreedyMatchSpec(s, b, j - 1);
      }
    }
  }

  /** The scan of `re.findall` for its first match: the leftmost '@' from `b` on at which the
      pattern matches. */
  function LeftmostMatch(s: string, b: nat): (r: Option<(int, int, int)>)
    ensures r.Some? ==> b <= r.value.0 && r.value.0 + 3 <= r.value.1 && r.value.1 + 3 <= r.value.2 <= |s|
    decreases |s| - b
  {
    if b >= |s| then None
    else
      var g := GreedyMatch(s, b, |s| - 1);
      if g.Some? then Some((b, g.value.0, g.value.1)) else LeftmostMatch(s, b + 1)
  }

  /** `LeftmostMatch` finds the leftmost '@' from `b` on where the pattern matches, and there
      the match the greedy quantifiers choose. */
  lemma {:induction false} LeftmostMatchSpec(s: string, b: nat)
    ensures var r := LeftmostMatch(s, b);
      && (r.Some? ==> MatchSpan(s, r.value.0, r.value.1, r.value.2))
      && (r.Some? ==> forall j', e' :: MatchSpan(s, r.value.0, j', e') ==> j' <= r.value.1)
      && (r.Some? ==> forall e' :: MatchSpan(s, r.value.0, r.value.1, e') ==> e' <= r.value.2)
      && (forall b', j', e' :: b <= b' && MatchSpan(s, b', j', e') ==> r.Some? && r.value.0 <= b')
    decreases |s| - b
  {
    if b < |s| {
      GreedyMatchSpec(s, b, |s| - 1);
      if GreedyMatch(s, b, |s| - 1).None? {
        LeftmostMatchSpec(s, b + 1);
      }
    }
  }

  /** `Message.get_domain`: the group of the first match, or None where `[0]` raises IndexError. */
  function GetDomain(address: string): Option<string> {
    match LeftmostMatch(address, 0)
    case None => None
    case Some((b, j, e)) => Some(address[b + 1..e])
  }

  /** `get_domain` finds a domain exactly when the pattern matches somewhere; the domain is the
      group of a match, so it has the shape `MatchShape` describes. */
  lemma GetDomainMatch(address: string)
    ensures var r := GetDomain(address);
      && (r.Some? <==> exists b, j, e :: MatchSpan(address, b, j, e))
      && (r.Some? ==> exists b, j, e :: MatchSpan(address, b, j, e) && r.value == address[b + 1..e])
      && (r.Some? ==> var d := r.value;
            && |d| >= 5 && IsAsciiAlnum(d[0]) && IsAsciiLetter(d[|d| - 1]) && '.' in d && '@' !in d)
  {
    LeftmostMatchSpec(address, 0);
    match LeftmostMatch(address, 0)
    case None =>
    case Some((b, j, e)) =>
      MatchShape(address, b, j, e);
  }

  /** The group of a match: at least five characters, starting with a letter or digit, ending
      with a letter, with a dot and without '@'. */
  lemma MatchShape(s: string, b: int, j: int, e: int)
    requires MatchSpan(s, b, j, e)
    ensures var d := s[b + 1..e];
      && |d| >= 5 && IsAsciiAlnum(d[0]) && IsAsciiLetter(d[|d| - 1]) && '.' in d && '@' !in d
  {
    var d := s[b + 1..e];
    assert d[j - b - 1] == '.';
    forall i | 0 <= i < |d|
      ensures d[i] != '@'
    {
      assert d[i] == s[b + 1 + i];
      if b + 1 + i < j {
        assert IsAsciiAlnum(s[b + 1 + i]) || IsWordDotDash(s[b + 1 + i]);
      } else if b + 1 + i > j {
        assert IsLetterOrDot(s[b + 1 + i]);
      }
    }
  }

  /** `_whitelist_check`: an empty whitelist admits everyone; otherwise the domain of the
      From header must be an element. A missing From makes the regex raise TypeError and a
      From without a domain makes `[0]` raise IndexError. */
  function WhitelistVerdict(policy: Policy, headers: map<string, string>): Result<bool, PyError> {
    if policy.whitelist == [] then Ok(true)
    else if "From" !in headers then Err(TypeError)
    else
      match GetDomain(headers["From"])
      case None => Err(IndexError)
      case Some(d) => Ok(VStr(d) in policy.whitelist)
  }

  /** Both verdicts as `__init__` computes them, the SPF check first; the first exception escapes. */
  function Verdicts(policy: Policy, headers: map<string, string>): Result<(bool, bool), PyError> {
    match SpfVerdict(policy, headers)
    case Err(e) => Err(e)
    case Ok(spf) =>
      match WhitelistVerdict(policy, headers)
      case Err(e) => Err(e)
      case Ok(listed) => Ok((spf, listed))
  }

  /** A parsed message. The verdicts are fixed when it is built; the setters change only headers and Bcc. */
  class Message {
    var headers: map<string, string>
    var bcc: seq<Value>
    const spfStatus: bool
    const domainWhitelisted: bool

    /** `Message(raw)`, for a message whose checks do not raise. */
    constructor (policy: Policy, raw: map<string, string>)
      requires Verdicts(policy, raw).Ok?
      ensures headers == raw && bcc == []
      ensures spfStatus == Verdicts(policy, raw).value.0
      ensures domainWhitelisted == Verdicts(policy, raw).value.1
    {
      headers := raw;
      bcc := [];
      spfStatus := Verdicts(policy, raw).value.0;
      domainWhitelisted := Verdicts(policy, raw).value.1;
    }

    /** `TO_address`: `message['To']`, None when absent. */
    function To(): (r: Option<string>)
      reads this
      ensures r.Some? <==> "To" in headers
      ensures r.Some? ==> r.value == headers["To"]
    {
      if "To" in headers then Some(headers["To"]) else None
    }

    /** `FROM_address`: `message['From']`, None when absent. */
    function From(): (r: Option<string>)
      reads this
      ensures r.Some? <==> "From" in headers
      ensures r.Some? ==> r.value == headers["From"]
    {
      if "From" in headers then Some(headers["From"]) else None
    }

    /** `TO_address = addr`: `replace_header`, which raises KeyError when there is no To header. */
    method SetTo(addr: string) returns (r: Outcome)
      modifies this
      ensures r.Returned? <==> "To" in old(headers)
      ensures r.Raised? ==> r.error == KeyError && headers == old(headers)
      ensures r.Returned? ==> headers == old(headers)["To" := addr] && To() == Some(addr)
      ensures From() == old(From()) && bcc == old(bcc)
    {
      if "To" !in headers {
        return Raised(KeyError);
      }
      headers := headers["To" := addr];
      r := Returned;
    }

    /** `FROM_address = addr`: `replace_header("FROM", ..)` matches the From header whatever its case. */
    method SetFrom(addr: string) returns (r: Outcome)
      modifies this
      ensures r.Returned? <==> "From" in old(headers)
      ensures r.Raised? ==> r.error == KeyError && headers == old(headers)
      ensures r.Returned? ==> headers == old(headers)["From" := addr] && From() == Some(addr)
      ensures To() == old(To()) && bcc == old(bcc)
    {
      if "From" !in headers {
        return Raised(KeyError);
      }
      headers := headers["From" := addr];
      r := Returned;
    }

    /** `BCC_address = addr`: only a list is accepted; anything else raises ValueError. */
    method SetBcc(addr: Value) returns (r: Outcome)
      modifies this
      ensures r.Returned? <==> addr.VList?
      ensures r.Raised? ==> r.error == ValueError && bcc == old(bcc)
      ensures r.Returned? ==> bcc == addr.items
      ensures headers == old(headers)
    {
      if !addr.VList? {
        return Raised(ValueError);
      }
      bcc := addr.items;
      r := Returned;
    }
  }

  // ---------------------------------------------------------------------------
  // Properties of the verdicts

  /** With checking off, the SPF verdict is true whatever the headers hold. */
  lemma SpfDisabled(policy: Policy, headers: map<string, string>)
    requires !Truthy(policy.checkSpf)
    ensures SpfVerdict(policy, headers) == Ok(true)
  {
  }

  /** With checking on, the verdict is an error without the header, and otherwise true
      exactly when some accepted code occurs in it. */
  lemma SpfExact(policy: Policy, headers: map<string, string>)
    requires Truthy(policy.checkSpf)
    ensures "Received-SPF" !in headers ==> SpfVerdict(policy, headers) == Err(TypeError)
    ensures "Received-SPF" in headers ==>
      (SpfVerdict(policy, headers) == Ok(true) <==>
       exists k :: 0 <= k < |SPF_CODES| && Occurs(SPF_CODES[k], headers["Received-SPF"]))
  {
  }

  /** A code can only occur in text that contains its first letter. */
  lemma {:induction false} OccursFirst(p: string, s: string)
    requires p != [] && Occurs(p, s)
    ensures p[0] in s
  {
    var i :| 0 <= i <= |s| && p <= s[i..];
    assert s[i..][0] == s[i];
  }

  /** A header without any of the letters p, s and n in either case passes no code, as "fail" does not. */
  lemma {:induction false} SpfNoCodeLetter(policy: Policy, headers: map<string, string>)
    requires Truthy(policy.checkSpf) && "Received-SPF" in headers
    requires forall c :: c in headers["Received-SPF"] ==> c !in "pPsSnN"
    ensures SpfVerdict(policy, headers) == Ok(false)
  {
    var text := headers["Received-SPF"];
    forall k | 0 <= k < |SPF_CODES|
      ensures !Occurs(SPF_CODES[k], text)
    {
      if Occurs(SPF_CODES[k], text) {
        OccursFirst(SPF_CODES[k], text);
      }
    }
  }

  /** "fail" is refused, "none" is accepted. */
  lemma SpfExamples(policy: Policy, headers: map<string, string>)
    requires Truthy(policy.checkSpf)
    ensures headers.Keys == {"Received-SPF"} && headers["Received-SPF"] == "fail" ==> SpfVerdict(policy, headers) == Ok(false)
    ensures "Received-SPF" in headers && headers["Received-SPF"] == "none" ==> SpfVerdict(policy, headers) == Ok(true)
  {
    if "Received-SPF" in headers && headers["Received-SPF"] == "fail" {
      SpfNoCodeLetter(policy, headers);
    }
    if "Received-SPF" in headers && headers["Received-SPF"] == "none" {
      assert "none" <= headers["Received-SPF"][0..];
      assert Occurs(SPF_CODES[6], headers["Received-SPF"]);
    }
  }

  /** An empty whitelist admits every sender, even one without a From header. */
  lemma EmptyWhitelistAdmits(policy: Policy, headers: map<string, string>)
    requires policy.whitelist == []
    ensures WhitelistVerdict(policy, headers) == Ok(true)
  {
  }

  /** A non-empty whitelist admits exactly the senders whose domain is an element, compared
      exactly; it raises when there is no From header or no domain in it. */
  lemma WhitelistExact(policy: Policy, headers: map<string, string>)
    requires policy.whitelist != []
    ensures "From" !in headers ==> WhitelistVerdict(policy, headers) == Err(TypeError)
    ensures "From" in headers && GetDomain(headers["From"]).None? ==> WhitelistVerdict(policy, headers) == Err(IndexError)
    ensures WhitelistVerdict(policy, headers) == Ok(true) <==>
      "From" in headers && GetDomain(headers["From"]).Some? && VStr(GetDomain(headers["From"]).value) in policy.whitelist
  {
  }

  /** The SPF check runs first: when it raises, its error is the one that escapes. */
  lemma VerdictsOrder(policy: Policy, headers: map<string, string>)
    ensures SpfVerdict(policy, headers).Err? ==> Verdicts(policy, headers) == Err(SpfVerdict(policy, headers).error)
    ensures Verdicts(policy, headers).Ok? <==> SpfVerdict(policy, headers).Ok? && WhitelistVerdict(policy, headers).Ok?
    ensures Verdicts(policy, headers).Ok? ==>
      Verdicts(policy, headers).value == (SpfVerdict(policy, headers).value, WhitelistVerdict(policy, headers).value)
  {
  }

  // ---------------------------------------------------------------------------
  // get_domain on examples

  /** `get_domain("noreply@dhl.de")` is "dhl.de". */
  lemma {:induction false} GetDomainExample()
    ensures GetDomain("noreply@dhl.de") == Some("dhl.de")
  {
    var s := "noreply@dhl.de";
    LeftmostMatchSpec(s, 0);
    assert MatchSpan(s, 7, 11, 14);
    forall b', j', e' | MatchSpan(s, b', j', e')
      ensures b' == 7 && j' == 11 && e' == 14
    {
      assert s[b'] == '@';
    }
    assert s[8..14] == "dhl.de";
  }
}

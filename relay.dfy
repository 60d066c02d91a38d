/** `main` and `import_new_aliases` of src/DSGVO_Tracking_Mail.py: one run of the relay.
    It cleans the Bcc list and the whitelist from the configuration, imports new aliases,
    admits the fetched mails through the SPF and whitelist checks, rewrites the admitted ones
    to the real address, purges expired aliases, and hands the queue to the SMTP server. */
module Relay {
  import opened Wrappers
  import opened PyValues
  import opened Strings
  import opened Dates
  import opened AliasStore
  import opened MessageGate

  // ---------------------------------------------------------------------------
  // Configuration lists

  /** The one-character strings iterating over a Python string yields. */
  function Chars(s: string): (r: seq<Value>)
    ensures |r| == |s| && forall k :: 0 <= k < |s| ==> r[k] == VStr([s[k]])
  {
    if s == [] then [] else Chars(s[..|s| - 1]) + [VStr([s[|s| - 1]])]
  }

  /** The `bcc` and `allowed_domains` settings: a missing key or None gives the empty list,
      anything else is passed through `list(filter(None, ..))`, which iterates over it. */
  function SanitizeList(v: Value): (r: Result<seq<Value>, PyError>)
    ensures r.Err? <==> !(v.VNone? || v.VList? || v.VStr?)
    ensures r.Err? ==> r.error == TypeError
    ensures r.Ok? ==> forall x :: x in r.value ==> Truthy(x)
    ensures v.VList? ==> r == Ok(Compact(v.items))
  {
    match v
    case VNone => Ok([])
    case VList(items) => Ok(Compact(items))
    case VStr(s) => Ok(Compact(Chars(s)))
    case _ => Err(TypeError)
  }

  /** Cleaning a cleaned list again changes nothing. */
  lemma SanitizeIdempotent(v: Value)
    requires SanitizeList(v).Ok?
    ensures SanitizeList(VList(SanitizeList(v).value)) == SanitizeList(v)
  {
    CompactIdentity(SanitizeList(v).value);
  }

  /** A string setting turns into the list of its characters. */
  lemma SanitizeString(s: string)
    ensures SanitizeList(VStr(s)) == Ok(Chars(s))
  {
    CompactIdentity(Chars(s));
  }

  // ---------------------------------------------------------------------------
  // import_new_aliases

  /** Where the import stands: the table, the number of rows inserted, and the exception
      that ended it, if any. */
  datatype ImportState = ImportState(table: map<string, Entry>, inserted: nat, error: Option<PyError>)

  /** One CSV row: `add_alias(row[0], row[1], today)`; a duplicate alias is logged and
      skipped, a short row raises IndexError, which nothing catches. */
  function ImportRow(st: ImportState, row: seq<string>, date: string): ImportState {
    if st.error.Some? then st
    else if |row| < 2 then st.(error := Some(IndexError))
    else
      var outcome := AddOutcome(st.table, row[1], VStr(date));
      if outcome.Returned? then ImportState(Added(st.table, row[0], row[1], VStr(date)), st.inserted + 1, None)
      else if outcome.error == IntegrityError then st
      else st.(error := Some(outcome.error))
  }

  /** The import of a whole file, row after row. */
  function Import(table: map<string, Entry>, rows: seq<seq<string>>, date: string): ImportState
    decreases |rows|
  {
    if rows == [] then ImportState(table, 0, None)
    else ImportRow(Import(table, rows[..|rows| - 1], date), rows[|rows| - 1], date)
  }

  /** Once a row has raised, the rows after it are not read. */
  lemma {:induction false} ImportStops(table: map<string, Entry>, rows: seq<seq<string>>, more: seq<seq<string>>, date: string)
    requires Import(table, rows, date).error.Some?
    ensures Import(table, rows + more, date) == Import(table, rows, date)
    decreases |more|
  {
    if more == [] {
      assert rows + more == rows;
    } else {
      assert (rows + more)[..|rows + more| - 1] == rows + more[..|more| - 1];
      ImportStops(table, rows, more[..|more| - 1], date);
    }
  }

  /** The import of one more row continues from the rows before it. */
  lemma ImportNext(table: map<string, Entry>, rows: seq<seq<string>>, i: int, date: string)
    requires 0 <= i < |rows|
    ensures Import(table, rows[..i + 1], date) == ImportRow(Import(table, rows[..i], date), rows[i], date)
  {
    assert rows[..i + 1][..i] == rows[..i];
  }

  /** An import that raised on its first `n` rows ends there. */
  lemma ImportAbort(table: map<string, Entry>, rows: seq<seq<string>>, n: int, date: string)
    requires 0 <= n <= |rows| && Import(table, rows[..n], date).error.Some?
    ensures Import(table, rows, date) == Import(table, rows[..n], date)
  {
    ImportStops(table, rows[..n], rows[n..], date);
    assert rows[..n] + rows[n..] == rows;
  }

  /** `import_new_aliases(import_file, db_con)` on the rows of the file: insert each row with
      today's date in ISO form; the file is deleted only when no exception escaped. */
  method ImportNewAliases(store: Store, rows: seq<seq<string>>, today: Date)
      returns (inserted: nat, error: Option<PyError>, fileRemoved: bool)
    requires ValidDate(today)
    modifies store
    ensures Import(old(store.table), rows, Iso(today)) == ImportState(store.table, inserted, error)
    ensures fileRemoved <==> error.None?
  {
    var date := Iso(today);
    inserted := 0;
    var i := 0;
    while i < |rows|
      invariant 0 <= i <= |rows|
      invariant Import(old(store.table), rows[..i], date) == ImportState(store.table, inserted, None)
    {
      var row := rows[i];
      ImportNext(old(store.table), rows, i, date);
      if |row| < 2 {
        ImportAbort(old(store.table), rows, i + 1, date);
        return inserted, Some(IndexError), false;
      }
      var r := store.AddAlias(row[0], row[1], VStr(date));
      if r.Returned? {
        inserted := inserted + 1;
      } else if r.error != IntegrityError {
        ImportAbort(old(store.table), rows, i + 1, date);
        return inserted, Some(r.error), false;
      }
      i := i + 1;
    }
    assert rows[..i] == rows;
    error := None;
    fileRemoved := true;
  }

  /** The count is the growth of the table; rows already present keep their address and date,
      and every new row carries the import date. */
  lemma {:induction false} ImportGrows(table: map<string, Entry>, rows: seq<seq<string>>, date: string)
    ensures var r := Import(table, rows, date);
      && r.inserted == |r.table| - |table|
      && (forall a :: a in table ==> a in r.table && r.table[a] == table[a])
      && (forall a :: a in r.table && a !in table ==> r.table[a].created == date)
    decreases |rows|
  {
    if rows != [] {
      ImportGrows(table, rows[..|rows| - 1], date);
    }
  }

  /** With a valid date only a short row can stop the import, and when every row has two
      fields every alias of the file ends up in the table. */
  lemma {:induction false} ImportComplete(table: map<string, Entry>, rows: seq<seq<string>>, date: string)
    requires ParseDate(date).Some?
    ensures var r := Import(table, rows, date);
      r.error.None? || r.error == Some(IndexError)
    ensures (forall k :: 0 <= k < |rows| ==> |rows[k]| >= 2) ==>
      var r := Import(table, rows, date);
      r.error.None? && forall k :: 0 <= k < |rows| ==> rows[k][1] in r.table
    decreases |rows|
  {
    if rows != [] {
      var init := rows[..|rows| - 1];
      ImportComplete(table, init, date);
      var st := Import(table, init, date);
      if st.error.None? {
        ImportRowKeeps(st, rows[|rows| - 1], date);
      }
      if forall k :: 0 <= k < |rows| ==> |rows[k]| >= 2 {
        assert forall k :: 0 <= k < |init| ==> init[k] == rows[k];
      }
    }
  }

  /** With a valid date a row keeps every alias, adds its own when it has two fields, and can
      only raise IndexError. */
  lemma ImportRowKeeps(st: ImportState, row: seq<string>, date: string)
    requires ParseDate(date).Some? && st.error.None?
    ensures var r := ImportRow(st, row, date);
      && (forall a :: a in st.table ==> a in r.table)
      && (r.error.None? || r.error == Some(IndexError))
      && (|row| >= 2 ==> r.error.None? && row[1] in r.table)
  {
  }

  /** An alias already in the table is skipped without ending the import. */
  lemma ImportSkipsDuplicate(table: map<string, Entry>, rows: seq<seq<string>>, row: seq<string>, date: string)
    requires ParseDate(date).Some? && |row| >= 2
    requires Import(table, rows, date).error.None? && row[1] in Import(table, rows, date).table
    ensures Import(table, rows + [row], date) == Import(table, rows, date)
  {
    assert (rows + [row])[..|rows|] == rows;
  }

  // ---------------------------------------------------------------------------
  // Admission of the fetched mails

  /** What `main` hands to every message it queues: the policy of the checks, the `from`
      setting and the cleaned Bcc list. */
  datatype RelayConfig = RelayConfig(policy: Policy, fromAddr: string, bcc: seq<Value>)

  /** A queued message, as the send loop reads it. */
  datatype Outgoing = Outgoing(headers: map<string, string>, bcc: seq<Value>)

  /** The key `get_address(message.TO_address)` looks up: the To header, or the text "None"
      that the f-string makes of a missing one. */
  function AliasKey(raw: map<string, string>): string {
    if "To" in raw then raw["To"] else "None"
  }

  /** The loop body for one fetched mail: construct the Message (running both checks), skip it
      when a check fails or the alias has no non-empty address, else replace To and From and
      set the Bcc list; `replace_header` raises KeyError for a missing header. */
  function Decide(cfg: RelayConfig, aliases: map<string, Entry>, raw: map<string, string>): Result<Option<Outgoing>, PyError> {
    match Verdicts(cfg.policy, raw)
    case Err(e) => Err(e)
    case Ok(v) =>
      if !v.1 || !v.0 then Ok(None)
      else
        var to := Lookup(aliases, AliasKey(raw));
        if to.None? || to.value == "" then Ok(None)
        else if "To" !in raw || "From" !in raw then Err(KeyError)
        else Ok(Some(Outgoing(raw["To" := to.value]["From" := cfg.fromAddr], cfg.bcc)))
  }

  /** A mail is forwarded exactly when both checks pass and its alias has a non-empty address;
      it is skipped exactly when the checks run to the end and one of those fails. */
  lemma DecideExact(cfg: RelayConfig, aliases: map<string, Entry>, raw: map<string, string>)
    ensures (Decide(cfg, aliases, raw).Ok? && Decide(cfg, aliases, raw).value.Some?) <==>
      && Verdicts(cfg.policy, raw) == Ok((true, true))
      && "To" in raw && "From" in raw
      && raw["To"] in aliases && aliases[raw["To"]].email != ""
    ensures Decide(cfg, aliases, raw) == Ok(None) <==>
      && Verdicts(cfg.policy, raw).Ok?
      && (Verdicts(cfg.policy, raw).value != (true, true) || AliasKey(raw) !in aliases || aliases[AliasKey(raw)].email == "")
    ensures Verdicts(cfg.policy, raw).Err? ==> Decide(cfg, aliases, raw) == Err(Verdicts(cfg.policy, raw).error)
  {
  }

  /** The decision on one mail: forward this message, skip the mail, or raise. */
  type Decision = Result<Option<Outgoing>, PyError>

  /** The messages list after a run of decisions; the first exception ends the run. */
  function Collect(ds: seq<Decision>): Result<seq<Outgoing>, PyError>
    decreases |ds|
  {
    if ds == [] then Ok([])
    else
      match Collect(ds[..|ds| - 1])
      case Err(e) => Err(e)
      case Ok(q) =>
        match ds[|ds| - 1]
        case Err(e) => Err(e)
        case Ok(None) => Ok(q)
        case Ok(Some(o)) => Ok(q + [o])
  }

  /** The decisions on the mails of the inbox, one each. */
  function Decisions(cfg: RelayConfig, aliases: map<string, Entry>, inbox: seq<map<string, string>>): (r: seq<Decision>)
    ensures |r| == |inbox| && forall k :: 0 <= k < |inbox| ==> r[k] == Decide(cfg, aliases, inbox[k])
  {
    seq(|inbox|, k requires 0 <= k < |inbox| => Decide(cfg, aliases, inbox[k]))
  }

  /** The messages list `main` builds from the fetched mails. */
  function Queue(cfg: RelayConfig, aliases: map<string, Entry>, inbox: seq<map<string, string>>): Result<seq<Outgoing>, PyError> {
    Collect(Decisions(cfg, aliases, inbox))
  }

  /** Decisions collect independently and in order, and an exception ends the run. */
  lemma {:induction false} CollectAppend(a: seq<Decision>, b: seq<Decision>)
    ensures Collect(a).Err? ==> Collect(a + b) == Collect(a)
    ensures Collect(a).Ok? && Collect(b).Ok? ==> Collect(a + b) == Ok(Collect(a).value + Collect(b).value)
    decreases |b|
  {
    if b == [] {
      assert a + b == a;
      if Collect(a).Ok? {
        assert Collect(a).value + [] == Collect(a).value;
      }
    } else {
      var b' := b[..|b| - 1];
      assert (a + b)[..|a + b| - 1] == a + b';
      assert (a + b)[|a + b| - 1] == b[|b| - 1];
      CollectAppend(a, b');
      if Collect(a).Ok? && Collect(b).Ok? {
        var qa := Collect(a).value;
        var qb' := Collect(b').value;
        var d := b[|b| - 1];
        if d.Ok? && d.value.Some? {
          assert qa + (qb' + [d.value.value]) == (qa + qb') + [d.value.value];
        }
      }
    }
  }

  /** Every collected message was forwarded by one of the decisions. */
  lemma {:induction false} CollectFrom(ds: seq<Decision>)
    requires Collect(ds).Ok?
    ensures |Collect(ds).value| <= |ds|
    ensures forall o :: o in Collect(ds).value ==> Ok(Some(o)) in ds
    decreases |ds|
  {
    if ds != [] {
      var init := ds[..|ds| - 1];
      CollectFrom(init);
      assert forall d :: d in init ==> d in ds;
    }
  }

  /** Two batches of mail queue independently and in order: the queue of both is the first
      queue followed by the second, and an exception in the first batch ends the run there. */
  lemma QueueAppend(cfg: RelayConfig, aliases: map<string, Entry>, a: seq<map<string, string>>, b: seq<map<string, string>>)
    ensures Queue(cfg, aliases, a).Err? ==> Queue(cfg, aliases, a + b) == Queue(cfg, aliases, a)
    ensures Queue(cfg, aliases, a).Ok? && Queue(cfg, aliases, b).Ok? ==>
      Queue(cfg, aliases, a + b) == Ok(Queue(cfg, aliases, a).value + Queue(cfg, aliases, b).value)
  {
    var da, db := Decisions(cfg, aliases, a), Decisions(cfg, aliases, b);
    assert Decisions(cfg, aliases, a + b) == da + db;
    CollectAppend(da, db);
  }

  /** Headers the send loop reads: the rewritten To and From. */
  predicate WellFormed(o: Outgoing) {
    "To" in o.headers && "From" in o.headers
  }

  /** A forwarded message goes from the configured sender, with the configured Bcc list, to the
      non-empty real address of the mail's alias, and keeps every other header of the mail. */
  lemma DecideForward(cfg: RelayConfig, aliases: map<string, Entry>, raw: map<string, string>)
    requires Decide(cfg, aliases, raw).Ok? && Decide(cfg, aliases, raw).value.Some?
    ensures var o := Decide(cfg, aliases, raw).value.value;
      && WellFormed(o) && o.headers["From"] == cfg.fromAddr && o.bcc == cfg.bcc
      && o.headers["To"] != ""
      && AliasKey(raw) in aliases && aliases[AliasKey(raw)].email == o.headers["To"]
      && o.headers.Keys == raw.Keys
      && forall h :: h in raw && h != "To" && h != "From" ==> o.headers[h] == raw[h]
  {
  }

  /** Every queued message is forwarded as `DecideForward` says, to the address of an alias in
      the table; the queue is never longer than the inbox. */
  lemma QueueShape(cfg: RelayConfig, aliases: map<string, Entry>, inbox: seq<map<string, string>>)
    requires Queue(cfg, aliases, inbox).Ok?
    ensures |Queue(cfg, aliases, inbox).value| <= |inbox|
    ensures forall o :: o in Queue(cfg, aliases, inbox).value ==>
      && WellFormed(o) && o.headers["From"] == cfg.fromAddr && o.bcc == cfg.bcc
      && o.headers["To"] != ""
      && exists alias :: alias in aliases && aliases[alias].email == o.headers["To"]
  {
    var ds := Decisions(cfg, aliases, inbox);
    CollectFrom(ds);
    forall o | o in Queue(cfg, aliases, inbox).value
      ensures WellFormed(o) && o.headers["From"] == cfg.fromAddr && o.bcc == cfg.bcc
      ensures o.headers["To"] != ""
      ensures exists alias :: alias in aliases && aliases[alias].email == o.headers["To"]
    {
      var k :| 0 <= k < |ds| && ds[k] == Ok(Some(o));
      DecideForward(cfg, aliases, inbox[k]);
    }
  }

  /** The queue after one more mail, from the queue before it and the decision on it. */
  lemma QueueNext(cfg: RelayConfig, aliases: map<string, Entry>, inbox: seq<map<string, string>>, i: int)
    requires 0 <= i < |inbox| && Queue(cfg, aliases, inbox[..i]).Ok?
    ensures var d := Decide(cfg, aliases, inbox[i]);
      Queue(cfg, aliases, inbox[..i + 1]) ==
        if d.Err? then Err(d.error)
        else if d.value.None? then Queue(cfg, aliases, inbox[..i])
        else Ok(Queue(cfg, aliases, inbox[..i]).value + [d.value.value])
  {
    var ds := Decisions(cfg, aliases, inbox[..i + 1]);
    assert ds[..i] == Decisions(cfg, aliases, inbox[..i]);
  }

  /** An exception on one mail ends the whole run with it. */
  lemma QueueStops(cfg: RelayConfig, aliases: map<string, Entry>, inbox: seq<map<string, string>>, i: int)
    requires 0 <= i < |inbox| && Queue(cfg, aliases, inbox[..i]).Ok?
    requires Decide(cfg, aliases, inbox[i]).Err?
    ensures Queue(cfg, aliases, inbox) == Err(Decide(cfg, aliases, inbox[i]).error)
  {
    QueueNext(cfg, aliases, inbox, i);
    QueueAppend(cfg, aliases, inbox[..i + 1], inbox[i + 1..]);
    assert inbox[..i + 1] + inbox[i + 1..] == inbox;
  }

  /** The state of a `Message` object the send loop reads. */
  function Snapshot(m: Message): Outgoing
    reads m
  {
    Outgoing(m.headers, m.bcc)
  }

  /** The states of the queued objects, in order. */
  function Snapshots(q: seq<Message>): (r: seq<Outgoing>)
    reads set m | m in q
    ensures |r| == |q|
    decreases |q|
  {
    if q == [] then [] else Snapshots(q[..|q| - 1]) + [Snapshot(q[|q| - 1])]
  }

  /** Appending an object appends its state. */
  lemma SnapshotsSnoc(q: seq<Message>, m: Message)
    ensures Snapshots(q + [m]) == Snapshots(q) + [Snapshot(m)]
  {
    assert (q + [m])[..|q|] == q;
  }

  /** The body of that loop for one fetched mail: build the `Message`, which runs both checks;
      skip the mail when a check fails or no address is found; else set To, From and Bcc. */
  method Admit(cfg: RelayConfig, store: Store, raw: map<string, string>) returns (message: Message?, error: Option<PyError>)
    ensures error.Some? <==> Decide(cfg, store.table, raw).Err?
    ensures error.Some? ==> error.value == Decide(cfg, store.table, raw).error
    ensures error.None? ==> (message == null <==> Decide(cfg, store.table, raw).value.None?)
    ensures message != null ==> fresh(message) && Decide(cfg, store.table, raw) == Ok(Some(Snapshot(message)))
  {
    var verdicts := Verdicts(cfg.policy, raw);
    if verdicts.Err? {
      return null, Some(verdicts.error);
    }
    message := new Message(cfg.policy, raw);
    if !message.domainWhitelisted || !message.spfStatus {
      return null, None;
    }
    var toAddr := store.GetAddress(AliasKey(raw));
    if toAddr.None? || toAddr.value == "" {
      return null, None;
    }
    var r := message.SetTo(toAddr.value);
    if r.Raised? {
      return null, Some(r.error);
    }
    r := message.SetFrom(cfg.fromAddr);
    if r.Raised? {
      return null, Some(r.error);
    }
    r := message.SetBcc(VList(cfg.bcc));
    error := None;
  }

  /** One pass of that loop: admit the next mail, and append its message when it is forwarded. */
  method AdmitNext(cfg: RelayConfig, store: Store, inbox: seq<map<string, string>>, i: int, queue: seq<Message>)
      returns (next: seq<Message>, error: Option<PyError>)
    requires 0 <= i < |inbox|
    requires Queue(cfg, store.table, inbox[..i]) == Ok(Snapshots(queue))
    ensures error.None? ==> Queue(cfg, store.table, inbox[..i + 1]) == Ok(Snapshots(next))
    ensures error.Some? ==> Queue(cfg, store.table, inbox) == Err(error.value)
    ensures forall m :: m in next ==> m in queue || fresh(m)
  {
    ghost var sofar := Snapshots(queue);
    var message, e := Admit(cfg, store, inbox[i]);
    assert Snapshots(queue) == sofar;
    if e.Some? {
      QueueStops(cfg, store.table, inbox, i);
      return queue, e;
    }
    QueueNext(cfg, store.table, inbox, i);
    next := queue;
    if message != null {
      SnapshotsSnoc(queue, message);
      next := queue + [message];
    }
    error := None;
  }

  /** The loop of `main` over the fetched mails: the admitted messages, in order. */
  method ProcessInbox(cfg: RelayConfig, store: Store, inbox: seq<map<string, string>>)
      returns (queue: seq<Message>, error: Option<PyError>)
    ensures error.None? ==> Queue(cfg, store.table, inbox) == Ok(Snapshots(queue))
    ensures error.Some? ==> Queue(cfg, store.table, inbox) == Err(error.value)
    ensures forall m :: m in queue ==> fresh(m)
  {
    queue := [];
    var i := 0;
    while i < |inbox|
      invariant 0 <= i <= |inbox|
      invariant Queue(cfg, store.table, inbox[..i]) == Ok(Snapshots(queue))
      invariant forall m :: m in queue ==> fresh(m)
    {
      var next, e := AdmitNext(cfg, store, inbox, i, queue);
      if e.Some? {
        return queue, e;
      }
      queue := next;
      i := i + 1;
    }
    assert inbox[..i] == inbox;
    error := None;
  }

  // ---------------------------------------------------------------------------
  // Sending

  /** What `send_message` is given: the sender, `[message.TO_address] + message.BCC_address`,
      and the message itself. */
  datatype Envelope = Envelope(sender: string, recipients: seq<Value>, headers: map<string, string>)

  function EnvelopeOf(o: Outgoing): Envelope
    requires WellFormed(o)
  {
    Envelope(o.headers["From"], [VStr(o.headers["To"])] + o.bcc, o.headers)
  }

  function Envelopes(q: seq<Outgoing>): (r: seq<Envelope>)
    requires forall o :: o in q ==> WellFormed(o)
    ensures |r| == |q| && forall k :: 0 <= k < |q| ==> r[k] == EnvelopeOf(q[k])
  {
    seq(|q|, k requires 0 <= k < |q| => EnvelopeOf(q[k]))
  }

  /** The server's answer to a login and `sendmail`: it takes the message, or it raises an
      SMTP error (a refused login or refused recipients). */
  datatype Response = Accepted | Rejected

  /** Whether the `smtplib` object still has its socket. */
  datatype Session = Connected | Disconnected

  /** One message handed to the server, and whether the server took it. */
  datatype Attempt = Attempt(envelope: Envelope, delivered: bool)

  /** One pass of the send loop's body on a session: `login`, `send_message` and `quit` in the
      `try`, and `quit` again in the handler. Every `quit` closes the socket; on a closed socket
      `login` raises SMTPServerDisconnected and so does the handler's `quit`, which nothing
      catches. */
  datatype Step = Step(after: Session, delivered: bool, raised: Option<PyError>)

  function Transaction(s: Session, answer: Response): (r: Step)
    ensures r.after == Disconnected
    ensures r.raised.None? <==> s == Connected
    ensures r.raised.Some? ==> r.raised.value == SmtpServerDisconnected
    ensures r.raised.None? ==> (r.delivered <==> answer == Accepted)
  {
    match s
    case Disconnected => Step(Disconnected, false, Some(SmtpServerDisconnected))
    case Connected => Step(Disconnected, answer == Accepted, None)
  }

  /** The messages handed over so far, and the exception that ended the loop, if one did. */
  datatype SendResult = SendResult(attempts: seq<Attempt>, crash: Option<PyError>)

  /** The send loop as `main` writes it: one session, opened once before the loop, for all
      messages; each result comes with the session the next message finds. */
  function SendAsWritten(envs: seq<Envelope>, server: Envelope -> Response): (SendResult, Session)
    decreases |envs|
  {
    if envs == [] then (SendResult([], None), Connected)
    else
      var (prev, s) := SendAsWritten(envs[..|envs| - 1], server);
      var e := envs[|envs| - 1];
      if prev.crash.Some? then (prev, s)
      else
        var step := Transaction(s, server(e));
        if step.raised.Some? then (SendResult(prev.attempts, step.raised), step.after)
        else (SendResult(prev.attempts + [Attempt(e, step.delivered)], None), step.after)
  }

  /** The loop of `main` over the queued messages, on the session `SMTP_Class` opened. */
  method SendAllAsWritten(envs: seq<Envelope>, server: Envelope -> Response) returns (attempts: seq<Attempt>, crash: Option<PyError>)
    ensures SendAsWritten(envs, server).0 == SendResult(attempts, crash)
  {
    var session := Connected;
    attempts := [];
    var i := 0;
    while i < |envs|
      invariant 0 <= i <= |envs|
      invariant SendAsWritten(envs[..i], server) == (SendResult(attempts, None), session)
    {
      assert envs[..i + 1][..i] == envs[..i];
      var step := Transaction(session, server(envs[i]));
      session := step.after;
      if step.raised.Some? {
        assert SendAsWritten(envs[..i + 1], server).0 == SendResult(attempts, step.raised);
        SendStops(envs[..i + 1], envs[i + 1..], server);
        assert envs[..i + 1] + envs[i + 1..] == envs;
        return attempts, step.raised;
      }
      attempts := attempts + [Attempt(envs[i], step.delivered)];
      i := i + 1;
    }
    assert envs[..i] == envs;
    crash := None;
  }

  /** After the exception the loop is gone: later messages change nothing. */
  lemma {:induction false} SendStops(envs: seq<Envelope>, more: seq<Envelope>, server: Envelope -> Response)
    requires SendAsWritten(envs, server).0.crash.Some?
    ensures SendAsWritten(envs + more, server).0 == SendAsWritten(envs, server).0
    decreases |more|
  {
    if more == [] {
      assert envs + more == envs;
    } else {
      assert (envs + more)[..|envs + more| - 1] == envs + more[..|more| - 1];
      SendStops(envs, more[..|more| - 1], server);
    }
  }

  /** With two or more messages queued, the first is handed over and the second crashes the
      run: the session was closed by the first `quit`. */
  lemma {:induction false} AsWrittenStopsAfterFirst(envs: seq<Envelope>, server: Envelope -> Response)
    requires |envs| >= 2
    ensures SendAsWritten(envs, server).0 ==
      SendResult([Attempt(envs[0], server(envs[0]) == Accepted)], Some(SmtpServerDisconnected))
    decreases |envs|
  {
    var init := envs[..|envs| - 1];
    if |envs| == 2 {
      assert init[..0] == [] && init[0] == envs[0] && |init| == 1;
      assert SendAsWritten(init[..0], server) == (SendResult([], None), Connected);
      var first := Attempt(envs[0], server(envs[0]) == Accepted);
      assert [] + [first] == [first];
      assert SendAsWritten(init, server) ==
        (SendResult([Attempt(envs[0], server(envs[0]) == Accepted)], None), Disconnected);
    } else {
      AsWrittenStopsAfterFirst(init, server);
    }
  }

  /** The evidently intended send: every message is handed over on its own session, in order. */
  function Deliveries(envs: seq<Envelope>, server: Envelope -> Response): (r: seq<Attempt>)
    ensures |r| == |envs|
    ensures forall k :: 0 <= k < |envs| ==> r[k].envelope == envs[k] && (r[k].delivered <==> server(envs[k]) == Accepted)
  {
    seq(|envs|, k requires 0 <= k < |envs| => Attempt(envs[k], server(envs[k]) == Accepted))
  }

  /** The send loop with a fresh connection per message (connect, `login`, `send_message`,
      `quit`, errors logged): no message can break the loop for the next. */
  method SendAll(envs: seq<Envelope>, server: Envelope -> Response) returns (attempts: seq<Attempt>)
    ensures attempts == Deliveries(envs, server)
  {
    attempts := [];
    var i := 0;
    while i < |envs|
      invariant 0 <= i <= |envs|
      invariant attempts == Deliveries(envs[..i], server)
    {
      var session := Connected;
      var step := Transaction(session, server(envs[i]));
      attempts := attempts + [Attempt(envs[i], step.delivered)];
      i := i + 1;
      assert attempts == Deliveries(envs[..i], server);
    }
    assert envs[..i] == envs;
  }

  /** On a single message the loop as written and the corrected one agree. */
  lemma SingleMessageAgrees(e: Envelope, server: Envelope -> Response)
    ensures SendAsWritten([e], server).0 == SendResult(Deliveries([e], server), None)
  {
    assert [e][..0] == [];
  }

  // ---------------------------------------------------------------------------
  // One run of main

  /** The settings of config.yaml the modelled steps read: `FORWARD.from`, `FORWARD.bcc`,
      `FORWARD.SPFcheck` and `WHITELIST.allowed_domains` (a missing key read as None). */
  datatype Settings = Settings(fromAddr: string, bcc: Value, checkSpf: Value, allowedDomains: Value)

  /** How constructing `SMTP_Class` ends: connected, an SMTPException (logged, exit code 1),
      or any other exception, which nothing catches. */
  datatype SmtpOpen = SmtpReady | SmtpRefused | SmtpFailed(error: PyError)

  /** What the outside world contributes to one run. */
  datatype World = World(
    importRows: Option<seq<seq<string>>>,  // the CSV rows of the import file, when the file exists
    imapReady: bool,                         // the IMAP login and the search for unseen mail succeeded
    inbox: seq<map<string, string>>,         // the headers of the unseen mails, in fetch order
    smtp: SmtpOpen,
    server: Envelope -> Response)

  /** The steps of a run an observer of the mailbox, the database and the SMTP server sees. */
  datatype Event =
    | Imported(inserted: nat)       // import_new_aliases finished and deleted the file
    | MailboxPurged                 // trash_mails, empty_folder and quit on the IMAP session
    | AliasesPurged(deleted: int)   // purge_old_entries and its count
    | SmtpOpened
    | Handed(attempt: Attempt)      // one message given to the SMTP server

  /** `sys.exit(code)`, the end of `main` (exit code 0), or an exception nothing catches. */
  datatype Ending = Exited(code: int) | Crashed(error: PyError)

  datatype Run = Run(trace: seq<Event>, ending: Ending, table: map<string, Entry>)

  function Reports(attempts: seq<Attempt>): (r: seq<Event>)
    ensures |r| == |attempts| && forall k :: 0 <= k < |attempts| ==> r[k] == Handed(attempts[k])
  {
    seq(|attempts|, k requires 0 <= k < |attempts| => Handed(attempts[k]))
  }

  /** The import step of a run: only when the import file exists. */
  function ImportStage(w: World, table: map<string, Entry>, today: Date): ImportState
    requires ValidDate(today)
  {
    if w.importRows.Some? then Import(table, w.importRows.value, Iso(today)) else ImportState(table, 0, None)
  }

  /** The policy and forwarding settings, from cleaned configuration lists. */
  function ConfigOf(s: Settings): RelayConfig
    requires SanitizeList(s.bcc).Ok? && SanitizeList(s.allowedDomains).Ok?
  {
    RelayConfig(Policy(s.checkSpf, SanitizeList(s.allowedDomains).value), s.fromAddr, SanitizeList(s.bcc).value)
  }

  /** Where a run stands after its first steps: it has already ended, or it goes on to fetch
      the mail with the events so far, the forwarding settings and the imported table. */
  datatype Stage = Stop(run: Run) | Go(trace: seq<Event>, cfg: RelayConfig, table: map<string, Entry>)

  /** The steps of `main` before the mail is fetched: clean the Bcc list and the whitelist,
      import new aliases when the file exists, and stop with exit code 1 when the IMAP
      session cannot be opened. */
  function Prepare(s: Settings, w: World, table: map<string, Entry>, today: Date): Stage
    requires ValidDate(today)
  {
    if SanitizeList(s.bcc).Err? then Stop(Run([], Crashed(SanitizeList(s.bcc).error), table))
    else if SanitizeList(s.allowedDomains).Err? then Stop(Run([], Crashed(SanitizeList(s.allowedDomains).error), table))
    else
      var imp := ImportStage(w, table, today);
      if imp.error.Some? then Stop(Run([], Crashed(imp.error.value), imp.table))
      else
        var pre := if w.importRows.Some? then [Imported(imp.inserted)] else [];
        if !w.imapReady then Stop(Run(pre, Exited(1), imp.table))
        else Go(pre, ConfigOf(s), imp.table)
  }

  /** The events of the SMTP step: none when nothing is queued or the session cannot be
      opened, else the opening and one report per queued message, each on a session of its own. */
  function Sending(q: seq<Outgoing>, w: World): seq<Event>
    requires forall o :: o in q ==> WellFormed(o)
  {
    if q == [] || !w.smtp.SmtpReady? then [] else [SmtpOpened] + Reports(Deliveries(Envelopes(q), w.server))
  }

  /** How the run ends after the purge: exit code 0 when nothing is queued or all was handed
      over, exit code 1 on an SMTPException, or the exception that escaped. */
  function SendEnding(q: seq<Outgoing>, w: World): Ending {
    if q == [] then Exited(0)
    else
      match w.smtp
      case SmtpReady => Exited(0)
      case SmtpRefused => Exited(1)
      case SmtpFailed(e) => Crashed(e)
  }

  /** The steps after the mail is admitted: purge the mailbox, replace the alias table with
      `purged`, the table `purge_old_entries` leaves, and report how many rows went; then the
      SMTP step. */
  function Deliver(trace: seq<Event>, q: seq<Outgoing>, table: map<string, Entry>, purged: map<string, Entry>, w: World): Run
    requires forall o :: o in q ==> WellFormed(o)
  {
    Run(trace + [MailboxPurged, AliasesPurged(|table| - |purged|)] + Sending(q, w), SendEnding(q, w), purged)
  }

  /** One run of `main`, with the send loop corrected as `SendAll` does. The two clocks it reads
      stay apart: `today` is the local date the import stamps on new aliases, `nowDay` the number
      of the day SQLite's `date("now")` gives, in UTC, from which the purge counts back. */
  function Cycle(s: Settings, w: World, table: map<string, Entry>, retention: nat, today: Date, nowDay: int): Run
    requires ValidDate(today)
  {
    match Prepare(s, w, table, today)
    case Stop(run) => run
    case Go(pre, cfg, imported) =>
      var q := Queue(cfg, imported, w.inbox);
      if q.Err? then Run(pre, Crashed(q.error), imported)
      else
        QueueShape(cfg, imported, w.inbox);
        Deliver(pre, q.value, imported, Purged(imported, nowDay - retention), w)
  }

  /** The first steps of `main` on the open database. */
  method PrepareRun(s: Settings, w: World, store: Store, today: Date) returns (stage: Stage)
    requires ValidDate(today)
    modifies store
    ensures stage == Prepare(s, w, old(store.table), today)
    ensures stage.Stop? ==> stage.run.table == store.table
    ensures stage.Go? ==> stage.table == store.table
  {
    var bcc := SanitizeList(s.bcc);
    if bcc.Err? {
      return Stop(Run([], Crashed(bcc.error), store.table));
    }
    var allowed := SanitizeList(s.allowedDomains);
    if allowed.Err? {
      return Stop(Run([], Crashed(allowed.error), store.table));
    }
    var trace := [];
    if w.importRows.Some? {
      var inserted, error, removed := ImportNewAliases(store, w.importRows.value, today);
      if error.Some? {
        return Stop(Run([], Crashed(error.value), store.table));
      }
      trace := [Imported(inserted)];
    }
    if !w.imapReady {
      return Stop(Run(trace, Exited(1), store.table));
    }
    stage := Go(trace, RelayConfig(Policy(s.checkSpf, allowed.value), s.fromAddr, bcc.value), store.table);
  }

  /** The last steps of `main`: purge, then send what was queued. */
  method DeliverRun(trace: seq<Event>, queued: seq<Outgoing>, store: Store, w: World, today: int) returns (events: seq<Event>, ending: Ending)
    requires forall o :: o in queued ==> WellFormed(o)
    modifies store
    ensures Deliver(trace, queued, old(store.table), Purged(old(store.table), today - store.retention), w) == Run(events, ending, store.table)
  {
    events := trace + [MailboxPurged];
    var deleted := store.PurgeOldEntries(today);
    events := events + [AliasesPurged(deleted)];
    var sent;
    sent, ending := SendQueued(queued, w);
    events := events + sent;
  }

  /** The SMTP step of `main`: exit when nothing is queued, open the session, and hand the
      queue over. */
  method SendQueued(queued: seq<Outgoing>, w: World) returns (events: seq<Event>, ending: Ending)
    requires forall o :: o in queued ==> WellFormed(o)
    ensures events == Sending(queued, w) && ending == SendEnding(queued, w)
  {
    if queued == [] {
      return [], Exited(0);
    }
    match w.smtp
    case SmtpRefused =>
      return [], Exited(1);
    case SmtpFailed(e) =>
      return [], Crashed(e);
    case SmtpReady =>
      var attempts := SendAll(Envelopes(queued), w.server);
      events := [SmtpOpened] + Reports(attempts);
      ending := Exited(0);
  }

  /** `main`, from the loaded configuration on, with the store as the open database. */
  method RunCycle(s: Settings, w: World, store: Store, today: Date, nowDay: int) returns (trace: seq<Event>, ending: Ending)
    requires ValidDate(today)
    modifies store
    ensures Cycle(s, w, old(store.table), store.retention, today, nowDay) == Run(trace, ending, store.table)
  {
    ghost var table := store.table;
    var stage := PrepareRun(s, w, store, today);
    if stage.Stop? {
      return stage.run.trace, stage.run.ending;
    }
    var messages, error := ProcessInbox(stage.cfg, store, w.inbox);
    if error.Some? {
      return stage.trace, Crashed(error.value);
    }
    var queued := Snapshots(messages);
    CycleGo(s, w, table, store.retention, today, nowDay);
    trace, ending := DeliverRun(stage.trace, queued, store, w, nowDay);
  }

  // ---------------------------------------------------------------------------
  // Properties of a run

  /** The events before the mail is fetched are at most the import report. */
  lemma PrepareTrace(s: Settings, w: World, table: map<string, Entry>, today: Date)
    requires ValidDate(today)
    ensures Prepare(s, w, table, today).Go? ==>
      forall e :: e in Prepare(s, w, table, today).trace ==> e.Imported?
    ensures Prepare(s, w, table, today).Stop? ==>
      forall e :: e in Prepare(s, w, table, today).run.trace ==> e.Imported?
  {
    if SanitizeList(s.bcc).Ok? && SanitizeList(s.allowedDomains).Ok? {
      var imp := ImportStage(w, table, today);
      if imp.error.None? {
        var pre: seq<Event> := if w.importRows.Some? then [Imported(imp.inserted)] else [];
        assert forall e :: e in pre ==> e.Imported?;
      }
    }
  }

  /** The SMTP step opens the session first and then reports each queued message in order. */
  lemma SendingShape(q: seq<Outgoing>, w: World)
    requires forall o :: o in q ==> WellFormed(o)
    ensures var t := Sending(q, w);
      && (q != [] && w.smtp == SmtpReady ==> |t| == |q| + 1 && t[0] == SmtpOpened)
      && (q == [] || w.smtp != SmtpReady ==> t == [])
      && (forall k :: 0 <= k < |t| && t[k] == SmtpOpened ==> k == 0)
      && (t != [] ==> t[0] == SmtpOpened)
      && (forall k :: 1 <= k < |t| ==>
            t[k] == Handed(Attempt(EnvelopeOf(q[k - 1]), w.server(EnvelopeOf(q[k - 1])) == Accepted)))
  {
    var t := Sending(q, w);
    if q != [] && w.smtp == SmtpReady {
      var reports := Reports(Deliveries(Envelopes(q), w.server));
      assert forall k :: 1 <= k < |t| ==> t[k] == reports[k - 1];
    }
  }

  /** A run that reaches the mail and queues it without an exception ends as `Deliver` says. */
  lemma CycleGo(s: Settings, w: World, table: map<string, Entry>, retention: nat, today: Date, nowDay: int)
    requires ValidDate(today)
    requires Prepare(s, w, table, today).Go?
    requires var st := Prepare(s, w, table, today); Queue(st.cfg, st.table, w.inbox).Ok?
    ensures var st := Prepare(s, w, table, today);
      && (forall o :: o in Queue(st.cfg, st.table, w.inbox).value ==> WellFormed(o))
      && Cycle(s, w, table, retention, today, nowDay) == Deliver(st.trace, Queue(st.cfg, st.table, w.inbox).value, st.table, Purged(st.table, nowDay - retention), w)
  {
    var st := Prepare(s, w, table, today);
    QueueShape(st.cfg, st.table, w.inbox);
  }

  /** Every other run ends with the events before the purge. */
  lemma CycleStops(s: Settings, w: World, table: map<string, Entry>, retention: nat, today: Date, nowDay: int)
    requires ValidDate(today)
    requires Prepare(s, w, table, today).Stop? ||
      var st := Prepare(s, w, table, today); Queue(st.cfg, st.table, w.inbox).Err?
    ensures forall e :: e in Cycle(s, w, table, retention, today, nowDay).trace ==> e.Imported?
  {
    PrepareTrace(s, w, table, today);
  }

  /** The order the relay keeps: the mailbox and the alias table are purged right before the
      SMTP session is opened, and no message is handed over before it is. */
  predicate PurgesBeforeSending(tr: seq<Event>) {
    && (forall k :: 0 <= k < |tr| && tr[k] == SmtpOpened ==>
          2 <= k && tr[k - 2] == MailboxPurged && tr[k - 1].AliasesPurged?)
    && (forall k :: 0 <= k < |tr| && tr[k].Handed? ==> SmtpOpened in tr[..k])
  }

  /** A trace made of import reports, the two purges and the events of the SMTP step keeps
      that order. */
  lemma EventOrder(pre: seq<Event>, deleted: int, t: seq<Event>)
    requires forall e :: e in pre ==> e.Imported?
    requires t != [] ==> t[0] == SmtpOpened
    requires forall k :: 0 < k < |t| ==> t[k].Handed?
    ensures PurgesBeforeSending(pre + [MailboxPurged, AliasesPurged(deleted)] + t)
  {
    var tr := pre + [MailboxPurged, AliasesPurged(deleted)] + t;
    var n := |pre|;
    forall k | 0 <= k < |tr|
      ensures tr[k] == SmtpOpened ==> k == n + 2
      ensures tr[k].Handed? ==> k > n + 2 && SmtpOpened in tr[..k]
    {
      if k < n {
        assert tr[k] == pre[k] && pre[k] in pre;
      } else if k >= n + 2 {
        assert tr[k] == t[k - n - 2];
        if tr[k].Handed? {
          assert tr[n + 2] == t[0];
          assert tr[..k][n + 2] == SmtpOpened;
        }
      }
    }
  }

  /** The last steps keep the order, whatever was queued. */
  lemma DeliverOrder(trace: seq<Event>, q: seq<Outgoing>, table: map<string, Entry>, purged: map<string, Entry>, w: World)
    requires forall o :: o in q ==> WellFormed(o)
    requires forall e :: e in trace ==> e.Imported?
    ensures PurgesBeforeSending(Deliver(trace, q, table, purged, w).trace)
  {
    SendingShape(q, w);
    EventOrder(trace, |table| - |purged|, Sending(q, w));
  }

  /** A trace of import reports has no SMTP events, so it keeps the order trivially. */
  lemma NoSmtpEvents(tr: seq<Event>)
    requires forall e :: e in tr ==> e.Imported?
    ensures PurgesBeforeSending(tr)
  {
    assert forall k :: 0 <= k < |tr| ==> tr[k] in tr;
  }

  /** Every run keeps the order: whatever the configuration, the mail and the servers do, no
      message is handed to the SMTP server before both purges. */
  lemma CyclePurgesFirst(s: Settings, w: World, table: map<string, Entry>, retention: nat, today: Date, nowDay: int)
    requires ValidDate(today)
    ensures PurgesBeforeSending(Cycle(s, w, table, retention, today, nowDay).trace)
  {
    var st := Prepare(s, w, table, today);
    if st.Go? && Queue(st.cfg, st.table, w.inbox).Ok? {
      PrepareTrace(s, w, table, today);
      CycleGo(s, w, table, retention, today, nowDay);
      DeliverOrder(st.trace, Queue(st.cfg, st.table, w.inbox).value, st.table, Purged(st.table, nowDay - retention), w);
    } else {
      CycleStops(s, w, table, retention, today, nowDay);
      NoSmtpEvents(Cycle(s, w, table, retention, today, nowDay).trace);
    }
  }

  /** When the IMAP session cannot be opened the run ends with exit code 1 after the import:
      nothing is fetched, and neither the mailbox nor the alias table is purged. */
  lemma CycleImapDown(s: Settings, w: World, table: map<string, Entry>, retention: nat, today: Date, nowDay: int)
    requires ValidDate(today) && !w.imapReady
    requires SanitizeList(s.bcc).Ok? && SanitizeList(s.allowedDomains).Ok?
    requires ImportStage(w, table, today).error.None?
    ensures var r := Cycle(s, w, table, retention, today, nowDay);
      && r.ending == Exited(1)
      && r.table == ImportStage(w, table, today).table
      && MailboxPurged !in r.trace && SmtpOpened !in r.trace
  {
  }

  /** After the admission the expired aliases are removed and counted; with nothing queued the
      run ends with exit code 0 and opens no SMTP session. */
  lemma DeliverPurges(trace: seq<Event>, q: seq<Outgoing>, table: map<string, Entry>, w: World, cutoff: int)
    requires forall o :: o in q ==> WellFormed(o)
    ensures var r := Deliver(trace, q, table, Purged(table, cutoff), w);
      && r.table == Purged(table, cutoff)
      && r.trace[..|trace| + 2] == trace + [MailboxPurged, AliasesPurged(|ExpiredAliases(table, cutoff)|)]
      && (q == [] ==> r.ending == Exited(0) && |r.trace| == |trace| + 2)
  {
    PurgeCount(table, cutoff);
    var r := Deliver(trace, q, table, Purged(table, cutoff), w);
    assert r.trace[..|trace| + 2] == trace + [MailboxPurged, AliasesPurged(|ExpiredAliases(table, cutoff)|)];
  }

  /** With a queue and a working SMTP server every queued message is handed over in queue
      order, from the sender it carries to its To address and its Bcc list, and the run ends
      with exit code 0. */
  lemma DeliverHandsOver(trace: seq<Event>, q: seq<Outgoing>, table: map<string, Entry>, purged: map<string, Entry>, w: World)
    requires forall o :: o in q ==> WellFormed(o)
    requires q != [] && w.smtp == SmtpReady
    ensures var r := Deliver(trace, q, table, purged, w);
      && r.ending == Exited(0)
      && |r.trace| == |trace| + 3 + |q|
      && r.trace[|trace| + 2] == SmtpOpened
      && forall k :: 0 <= k < |q| ==>
           && q[k] in q
           && var e := r.trace[|trace| + 3 + k];
           && e.Handed?
           && e.attempt.envelope.sender == q[k].headers["From"]
           && e.attempt.envelope.recipients == [VStr(q[k].headers["To"])] + q[k].bcc
           && (e.attempt.delivered <==> w.server(e.attempt.envelope) == Accepted)
  {
    var r := Deliver(trace, q, table, purged, w);
    var t := Sending(q, w);
    SendingShape(q, w);
    var n := |trace|;
    assert r.trace == trace + [MailboxPurged, r.trace[n + 1]] + t;
    assert |r.trace| == n + 3 + |q| && r.trace[n + 2] == SmtpOpened;
    forall k | 0 <= k < |q|
      ensures q[k] in q
      ensures r.trace[n + 3 + k] == Handed(Attempt(EnvelopeOf(q[k]), w.server(EnvelopeOf(q[k])) == Accepted))
    {
      assert r.trace[n + 3 + k] == t[k + 1];
    }
  }

  /** When every queued message goes from the configured sender, with the configured Bcc list,
      to the non-empty address of an alias, so does every message the SMTP step hands over. */
  lemma DeliverRecipients(trace: seq<Event>, q: seq<Outgoing>, table: map<string, Entry>, purged: map<string, Entry>,
                          w: World, cfg: RelayConfig, aliases: map<string, Entry>)
    requires forall o :: o in q ==>
      && WellFormed(o) && o.headers["From"] == cfg.fromAddr && o.bcc == cfg.bcc && o.headers["To"] != ""
      && exists alias :: alias in aliases && aliases[alias].email == o.headers["To"]
    requires forall e :: e in trace ==> e.Imported?
    ensures var r := Deliver(trace, q, table, purged, w);
      forall k :: 0 <= k < |r.trace| && r.trace[k].Handed? ==>
        var env := r.trace[k].attempt.envelope;
        && env.sender == cfg.fromAddr
        && |env.recipients| >= 1 && env.recipients[1..] == cfg.bcc
        && env.recipients[0].VStr? && env.recipients[0].s != ""
        && exists alias :: alias in aliases && aliases[alias].email == env.recipients[0].s
  {
    var r := Deliver(trace, q, table, purged, w);
    var t := Sending(q, w);
    SendingShape(q, w);
    var n := |trace|;
    assert r.trace == trace + [MailboxPurged, r.trace[n + 1]] + t;
    assert forall k :: 0 <= k < n ==> r.trace[k] == trace[k] && trace[k] in trace;
    forall k | 0 <= k < |r.trace| && r.trace[k].Handed?
      ensures var env := r.trace[k].attempt.envelope;
        && env.sender == cfg.fromAddr
        && |env.recipients| >= 1 && env.recipients[1..] == cfg.bcc
        && env.recipients[0].VStr? && env.recipients[0].s != ""
        && exists alias :: alias in aliases && aliases[alias].email == env.recipients[0].s
    {
      if k >= n {
        assert r.trace[k] == t[k - n - 2];
        var o := q[k - n - 3];
        assert o in q;
        assert ([VStr(o.headers["To"])] + o.bcc)[1..] == o.bcc;
      }
    }
  }

  /** Whatever the run, each message handed over goes from the configured sender to the
      non-empty real address of an alias in the table after the import, with the cleaned Bcc
      list: no mail reaches an address the table does not hold. */
  lemma CycleRecipientsKnown(s: Settings, w: World, table: map<string, Entry>, retention: nat, today: Date, nowDay: int)
    requires ValidDate(today)
    ensures var r := Cycle(s, w, table, retention, today, nowDay);
      forall k :: 0 <= k < |r.trace| && r.trace[k].Handed? ==>
        var env := r.trace[k].attempt.envelope;
        && SanitizeList(s.bcc).Ok?
        && env.sender == s.fromAddr
        && |env.recipients| >= 1 && env.recipients[1..] == SanitizeList(s.bcc).value
        && env.recipients[0].VStr? && env.recipients[0].s != ""
        && exists alias :: alias in ImportStage(w, table, today).table &&
             ImportStage(w, table, today).table[alias].email == env.recipients[0].s
  {
    var st := Prepare(s, w, table, today);
    var r := Cycle(s, w, table, retention, today, nowDay);
    if st.Go? && Queue(st.cfg, st.table, w.inbox).Ok? {
      PrepareTrace(s, w, table, today);
      var q := Queue(st.cfg, st.table, w.inbox).value;
      CycleGo(s, w, table, retention, today, nowDay);
      QueueShape(st.cfg, st.table, w.inbox);
      DeliverRecipients(st.trace, q, st.table, Purged(st.table, nowDay - retention), w, st.cfg, st.table);
    } else {
      CycleStops(s, w, table, retention, today, nowDay);
      assert forall k :: 0 <= k < |r.trace| ==> r.trace[k] in r.trace;
    }
  }
}

# Tracking mail relay: admission, alias resolution and purge

The relay fetches unseen mails from an IMAP mailbox. It admits a mail only when two checks
pass. The SPF check looks for an accepted result in the `Received-SPF` header (section 9.1
of RFC 7208). The whitelist check compares the sender's domain with a list of allowed
domains. The mail's To address is an alias, which the relay looks up in an SQLite table of
aliases. When the alias has a real address, the relay rewrites To and From, adds the
configured Bcc list and queues the message. After the loop it purges the IMAP mailbox and
the aliases older than the retention period. Then it opens an SMTP session and hands the
queue over. New aliases come from a CSV file that the relay imports at the start of each
run. The older single-file provider uses a merchandise database instead of the alias table.

This project models that core in Dafny and proves what it promises:

- `wrappers.dfy`: `Option` and `Result`.
- `pyvalues.dfy`: the Python values the code inspects with `isinstance` and truth tests,
  the exceptions, and `list(filter(None, ..))`.
- `strings.dfy`: `str.strip`, `str.split` on one character and its inverse `Join`,
  substring search and SQLite's text order.
- `validators.dfy`: the validating descriptors of `src/Validator_Classes.py` and the
  credential check of `MailHost`.
- `dates.dfy`: `strptime(.., '%Y-%m-%d')`, `strftime` back to ISO text, day numbers and the
  order of dates.
- `alias_store.dfy`: `DBClass`, as a class whose `table` is a map from alias to address
  and date text.
- `message.dfy`: `Message`, as a class with its header map, its Bcc list and the two
  verdicts fixed at construction, plus `get_domain` as a leftmost, greedy regular-expression
  match.
- `relay.dfy`: `import_new_aliases` and `main` of `src/DSGVO_Tracking_Mail.py`: the list
  sanitising, the import, the admission loop, the purge and the send loop. A whole run is the
  function `Cycle`, and the method `RunCycle` performs it on a `Store`. `Cycle` is built from
  the corrected halves of the two rows of "## Findings": the send loop `SendAll`, which opens a
  session per message, and the date-wise purge `Purged`. The run as written is described by
  `AsWrittenStopsAfterFirst` and `PurgeAsWrittenKeepsShortDate`.
- `legacy.dfy`: `TrackingMailProvider.py`, that is `get_from_domain`, `in_whitelist`, the
  inline admission test, the To and order-number extraction and its forwarding loop.

The world outside is a parameter:

- the CSV rows of the import file;
- whether the IMAP login and search succeed;
- the headers of the fetched mails;
- how constructing the SMTP session ends;
- the server's answer to each envelope;
- the local date that stamps new aliases;
- the UTC day number SQLite uses for the purge.

## Model

| member | source | states |
|---|---|---|
| PyValues.Compact | src/DSGVO_Tracking_Mail.py:139 | the filtered list is no longer than the input and holds only truthy elements of it |
| PyValues.CompactCounts | src/DSGVO_Tracking_Mail.py:139 | each truthy element is kept as often as it occurs in the input |
| PyValues.CompactAppend | src/DSGVO_Tracking_Mail.py:139 | filtering distributes over concatenation, so the remaining entries keep their order |
| PyValues.CompactIdentity | src/DSGVO_Tracking_Mail.py:148 | a list without false entries is left unchanged |
| Strings.StripLeft | src/Validator_Classes.py:130 | the result is a suffix of the input, everything dropped is whitespace and the result does not start with whitespace |
| Strings.StripRight | src/Validator_Classes.py:130 | the result is a prefix of the input, everything dropped is whitespace and the result does not end with whitespace |
| Strings.StripBlank | src/Validator_Classes.py:130-132 | a string of whitespace strips to the empty string |
| Strings.Split | src/Validator_Classes.py:181 | a split yields at least one piece |
| Strings.SplitPieces | src/Validator_Classes.py:181 | no piece of a split contains the separator |
| Strings.SplitConcat | src/Validator_Classes.py:181 | splitting around one separator gives the pieces of the left side followed by those of the right |
| Strings.SplitJoin | src/Validator_Classes.py:181 | joining the pieces with the separator gives back the string |
| Strings.JoinSplit | src/Validator_Classes.py:181 | splitting a join of separator-free pieces gives back the pieces |
| Strings.SplitAtFirst | TrackingMailProvider.py:95 | splitting stops at the first separator |
| Validators.ClampMin | src/Validator_Classes.py:112-114 | an absent, zero or negative minimum becomes 0; a non-negative one is kept |
| Validators.AllLabelsMatch | src/Validator_Classes.py:187-190 | true exactly when every label matches the label pattern |
| Validators.IsFqdn | src/Validator_Classes.py:171-190 | raises (None) exactly on the empty string; otherwise true exactly when every label after dropping one trailing dot matches |
| Validators.IntegerFieldExact | src/Validator_Classes.py:100-105 | accepts exactly integral values (bool included) within each bound that was given; refusals are ValueError |
| Validators.CharFieldBlankRejected | src/Validator_Classes.py:113-132 | with a minimum of at least 1, a blank string is refused with ValueError, because the stripped length is tested |
| Validators.BoolFieldExact | src/Validator_Classes.py:157-158 | accepts exactly True and False |
| Validators.FqdnFieldExact | src/Validator_Classes.py:203-204 | passes exactly when min < len < max and `is_fqdn` holds; the length test keeps the empty string away from `is_fqdn` |
| Validators.FqdnExact | src/Validator_Classes.py:177-190 | without newlines, `is_fqdn` holds exactly when every label is 1-63 letters, digits or hyphens that begin and end with a letter or digit |
| Validators.EmptyLabelRejected | src/Validator_Classes.py:181-190 | a name with two dots in a row is refused |
| Validators.DoubleDotExample | src/Validator_Classes.py:181-190 | `is_fqdn("a..b")` is false |
| Validators.ShapedLabelsAccepted | src/Validator_Classes.py:166-204 | a dotted name made of well-formed labels and of a length within the defaults passes `FQDNField()` |
| Validators.OctetMeaning | src/Validator_Classes.py:221 | an octet of the pattern is exactly a numeral of 0..255 with no leading zero |
| Validators.DecimalOctet | src/Validator_Classes.py:221 | the numeral of every value 0..255 matches the octet pattern and reads back as that value |
| Validators.OctetCanonical | src/Validator_Classes.py:221 | every octet of the pattern is the numeral of its own value |
| Strings.DecimalOfValue | src/Validator_Classes.py:221 | a digit string without a leading zero is the numeral of the number it denotes |
| Validators.DottedIsIPv4 | src/Validator_Classes.py:221-223 | the dotted quad of four numbers 0..255 passes `is_ipv4` |
| Validators.IPv4IsDotted | src/Validator_Classes.py:221-223 | without a newline, whatever passes `is_ipv4` is the dotted quad of four numbers 0..255 |
| Validators.Instance.Get | src/Validator_Classes.py:61-65 | a field reads back its stored value, and None when it was never set |
| Validators.Instance.Set | src/Validator_Classes.py:79-81 | the outcome is the field's validation; only an accepted value is stored, and a refused one leaves the field as it was |
| Validators.InitMailHost | src/classes.py:46-57 | returns exactly when both credentials are strings with a non-blank character, and then stores both; otherwise ValueError |
| Validators.BadCredentialsRejected | src/classes.py:46-57 | None, an integer or a blank string is refused as username or as password |
| Dates.DaysInMonth | src/classes.py:421 | every month has 28 to 31 days, and February has 29 exactly in leap years |
| Dates.ParseDate | src/classes.py:421 | every parsed date is a valid calendar date, and the text is 8 to 10 characters long |
| Dates.ParseIso | src/DSGVO_Tracking_Mail.py:101 | `strptime` reads back every date `strftime('%Y-%m-%d')` writes |
| Dates.ParseTenIsIso | src/classes.py:421 | a date text of ten characters without a blank is the ISO text of the date it parses to |
| Dates.ParseRefused | src/classes.py:418-423 | "2022-13-44", "2022/02/02" and "2022-02-30" are refused |
| Dates.ParseShortDate | src/classes.py:418-423 | "2022-1-5", with a one-digit month and day, is read as 5 January 2022 |
| Dates.IsoOrder | src/classes.py:468 | the ISO texts of two dates compare as text in the same order as the dates |
| Dates.DayNumberOrder | src/classes.py:468 | day numbers follow calendar order in both directions |
| AliasStore.ValidateDate | src/classes.py:405-423 | returns exactly for a string that `strptime` accepts; otherwise ValueError |
| AliasStore.ValidateDateExamples | src/classes.py:418-423 | "a", 1, "2022.02.02", "01.01.2022", "2022/02/02" and "2022-13-44" are refused |
| AliasStore.Lookup | src/classes.py:440-453 | finds an address exactly when the alias is in the table |
| AliasStore.Store.constructor | src/classes.py:388-403 | a new store has an empty table and the given retention period |
| AliasStore.Store.AddAlias | src/classes.py:425-438 | the outcome and the new table are the validated insert's, and stored dates stay valid |
| AliasStore.Store.GetAddress | src/classes.py:440-453 | an address exactly when the alias has a row, and then the row's first column (the `Lookup` of the table) |
| AliasStore.Store.PurgeOldEntries | src/classes.py:455-475 | the table loses exactly the rows dated `retention` days before today or earlier, and the result is rows before minus rows after, which is the number of expired aliases |
| AliasStore.AddOutcomeExact | src/classes.py:425-438 | an insert succeeds exactly for a valid date and a new alias; a bad date gives ValueError before the duplicate test, which gives IntegrityError |
| AliasStore.AddRefusedUnchanged | src/classes.py:436-438 | a refused insert leaves the table unchanged |
| AliasStore.AddThenLookup | src/classes.py:425-453 | after an insert the alias resolves to the address, other aliases resolve as before, and the table has one more row |
| AliasStore.AddTwice | src/classes.py:401-402 | a second insert of the same alias fails with IntegrityError and changes nothing |
| AliasStore.PurgedExact | src/classes.py:468 | an alias survives the purge exactly when it was present and not expired, and its row is unchanged |
| AliasStore.PurgeCount | src/classes.py:464-475 | the rows before the purge are the rows after it plus the expired ones |
| AliasStore.PurgeIdempotent | src/classes.py:455-475 | a second purge with the same cutoff removes nothing |
| AliasStore.PurgeKeepsDatesValid | src/classes.py:468 | the purge keeps every stored date valid |
| AliasStore.PurgeAgreesOnIsoText | src/classes.py:468 | on rows whose date text is in ISO form, the text comparison SQLite runs removes the same rows as the date comparison |
| AliasStore.ShortDateExpired | src/classes.py:421 | "2022-1-5" passes `validate` and lies before 2022-06-01 |
| AliasStore.ShortDateSortsLate | src/classes.py:468 | "2022-1-5" sorts after "2022-06-01" as text |
| AliasStore.PurgeAsWrittenKeepsShortDate | src/classes.py:468 | a row dated "2022-1-5" survives the purge as written with cutoff 2022-06-01, yet the date comparison removes it |
| MessageGate.AnyOccurs | src/classes.py:196 | true exactly when some code occurs as a substring of the text |
| MessageGate.LongestTailSpec | src/classes.py:208 | the greedy `[a-zA-Z\.]*` finds the largest end at which the tail of the pattern matches |
| MessageGate.GreedyMatchSpec | src/classes.py:208 | the greedy `[\w\.-]*` finds the largest dot position, then the largest end, of a match at a given '@' |
| MessageGate.LeftmostMatchSpec | src/classes.py:208 | the first match `re.findall` yields is at the leftmost '@' where the pattern matches |
| MessageGate.GetDomainMatch | src/classes.py:200-208 | a domain is found exactly when the pattern matches; it is the group of a match, at least five characters long, starting with a letter or digit, ending with a letter, with a dot and without '@' |
| MessageGate.MatchShape | src/classes.py:208 | the group of any match has that shape |
| MessageGate.GetDomainExample | src/classes.py:204-205 | `get_domain("noreply@dhl.de")` is "dhl.de" |
| MessageGate.Message.constructor | src/classes.py:178-182 | a new message holds the headers, an empty Bcc list and the two verdicts computed once |
| MessageGate.Message.To | src/classes.py:229-237 | the To header, or None when there is none |
| MessageGate.Message.From | src/classes.py:252-260 | the From header, or None when there is none |
| MessageGate.Message.SetTo | src/classes.py:239-250 | replaces To and reads back the new value; without a To header it raises KeyError and changes nothing; From and Bcc are kept |
| MessageGate.Message.SetFrom | src/classes.py:262-273 | replaces From and reads back the new value; without a From header it raises KeyError and changes nothing; To and Bcc are kept |
| MessageGate.Message.SetBcc | src/classes.py:285-298 | accepts exactly a list and stores its elements; anything else raises ValueError and leaves the Bcc list; the headers are kept |
| MessageGate.SpfDisabled | src/classes.py:192-198 | with checking off, the SPF verdict is true whatever the headers |
| MessageGate.SpfExact | src/classes.py:192-196 | with checking on, a missing header raises TypeError, and otherwise the verdict is true exactly when an accepted code occurs in the header |
| MessageGate.SpfNoCodeLetter | src/classes.py:176-196 | a header with none of the letters that begin a code gives false |
| MessageGate.SpfExamples | src/classes.py:176-196 | "fail" gives false, "none" gives true |
| MessageGate.EmptyWhitelistAdmits | src/classes.py:217-219 | an empty whitelist admits every sender |
| MessageGate.WhitelistExact | src/classes.py:220-227 | a non-empty whitelist admits exactly the senders whose domain is an element, compared exactly; a missing From raises TypeError and a From without a domain raises IndexError |
| MessageGate.VerdictsOrder | src/classes.py:181-182 | the SPF check runs first and its exception is the one that escapes; both verdicts come out exactly when neither check raises |
| LegacyProvider.GetFromDomain | TrackingMailProvider.py:89-95 | a domain exists exactly when the address has an '@', and it holds no '@' |
| LegacyProvider.GetFromDomainExact | TrackingMailProvider.py:89-95 | the domain is the text after the first '@' up to a second '@' |
| LegacyProvider.NoAtRaises | TrackingMailProvider.py:98-112 | an address without '@' makes `in_whitelist` raise IndexError |
| LegacyProvider.EmptyWhitelistRejects | TrackingMailProvider.py:98-112 | an empty whitelist admits no sender |
| LegacyProvider.LegacyAdmitExact | TrackingMailProvider.py:263-287 | a mail proceeds exactly when, with the check on, its `Received-SPF` header holds an accepted code, and the domain of its trimmed From header is on the list |
| LegacyProvider.LegacyCodesIncluded | TrackingMailProvider.py:33 | every SPF result this script accepts is also accepted by the newer gate |
| LegacyProvider.NoneOnlyInNewerGate | TrackingMailProvider.py:33 | the SPF result "none" is accepted by the newer gate and refused by this script |
| LegacyProvider.ExtractTo | TrackingMailProvider.py:291-293 | the extracted address holds no '<' and no '>' |
| LegacyProvider.ExtractToExact | TrackingMailProvider.py:289-293 | the address between the last '<' and the next '>' is extracted |
| LegacyProvider.ExtractToBare | TrackingMailProvider.py:291-293 | a bare address is kept as it is |
| LegacyProvider.OrderNumber | TrackingMailProvider.py:296 | the order number holds no '@' |
| LegacyProvider.OrderNumberExact | TrackingMailProvider.py:295-296 | the order number is the local part of the address |
| LegacyProvider.ExtractExample | TrackingMailProvider.py:289-296 | "<abc@domain.de>" gives the address "abc@domain.de" |
| LegacyProvider.OrderNumberExample | TrackingMailProvider.py:289-296 | "abc@domain.de" gives the order number "abc" |
| LegacyProvider.LegacyRelay | TrackingMailProvider.py:248-336 | the loop forwards what `LegacyRun` says, in inbox order, or ends with the exception that escaped |
| LegacyProvider.LegacyRunStops | TrackingMailProvider.py:299-305 | once a message raises, later messages change nothing |
| LegacyProvider.LegacyForwardShape | TrackingMailProvider.py:307-320 | a forwarded mail passed the admission test and its order number was found; its recipients are the database's address and the Bcc address, and To and From are rewritten |
| Relay.Chars | src/DSGVO_Tracking_Mail.py:139 | iterating a string yields its characters as one-character strings, in order |
| Relay.SanitizeList | src/DSGVO_Tracking_Mail.py:134-148 | a missing setting gives []; a list is filtered; a string gives its characters; anything else raises TypeError; the result holds only truthy entries |
| Relay.SanitizeIdempotent | src/DSGVO_Tracking_Mail.py:139 | cleaning a cleaned list again changes nothing |
| Relay.SanitizeString | src/DSGVO_Tracking_Mail.py:139 | a string setting becomes the list of its characters |
| Relay.ImportNewAliases | src/DSGVO_Tracking_Mail.py:81-107 | the new table, the count and the escaped exception are those of importing the rows in file order with today's ISO date; the file is removed exactly when nothing escaped |
| Relay.ImportStops | src/DSGVO_Tracking_Mail.py:99-107 | once a row raises, the rows after it are not read |
| Relay.ImportGrows | src/DSGVO_Tracking_Mail.py:98-105 | the count is the growth of the table; existing rows are unchanged, and new rows carry the import date |
| Relay.ImportComplete | src/DSGVO_Tracking_Mail.py:99-104 | with a valid date only a short row can stop the import, and when every row has two fields every alias of the file ends up in the table |
| Relay.ImportSkipsDuplicate | src/DSGVO_Tracking_Mail.py:100-104 | a row whose alias is present is skipped without ending the import |
| Relay.DecideExact | src/DSGVO_Tracking_Mail.py:203-220 | a mail is queued exactly when both verdicts are true, To and From are present and its alias has a non-empty address; it is skipped exactly when the checks finish and one of those fails; a check's exception escapes |
| Relay.DecideForward | src/DSGVO_Tracking_Mail.py:213-220 | a queued message has To = the alias's non-empty address, From = the configured sender and Bcc = the cleaned list, and every other header is kept |
| Relay.CollectAppend | src/DSGVO_Tracking_Mail.py:202-220 | decisions collect in order, and an exception ends the run |
| Relay.CollectFrom | src/DSGVO_Tracking_Mail.py:202-220 | every collected message was forwarded by one of the decisions, and there are no more of them than decisions |
| Relay.QueueAppend | src/DSGVO_Tracking_Mail.py:202-220 | the queue of two batches is the first queue followed by the second, and an exception in the first batch ends the run there |
| Relay.QueueShape | src/DSGVO_Tracking_Mail.py:201-220 | every queued message is well formed, from the configured sender with the cleaned Bcc list, to the non-empty address of an alias in the table; the queue is no longer than the inbox |
| Relay.QueueNext | src/DSGVO_Tracking_Mail.py:203-220 | one more mail extends the queue by its forwarded message, leaves it alone when skipped, or ends the run |
| Relay.QueueStops | src/DSGVO_Tracking_Mail.py:203-220 | an exception on one mail ends the whole loop with it |
| Relay.Admit | src/DSGVO_Tracking_Mail.py:204-220 | the loop body builds a message exactly when the mail is forwarded, whose state is the forwarded message, and raises exactly when the decision does |
| Relay.AdmitNext | src/DSGVO_Tracking_Mail.py:203-220 | one pass of the loop extends the messages list as the queue of one more mail says, or ends with the exception the whole loop ends with |
| Relay.ProcessInbox | src/DSGVO_Tracking_Mail.py:201-220 | the messages list holds the forwarded messages in fetch order, or the loop ends with the exception that escaped |
| Relay.Envelopes | src/DSGVO_Tracking_Mail.py:258 | the envelope of each message is its From, `[To] + Bcc` and the message |
| Relay.Transaction | src/DSGVO_Tracking_Mail.py:255-264 | every pass leaves the session closed; it raises SMTPServerDisconnected exactly on a closed session, and otherwise delivers exactly when the server accepts |
| Relay.SendAllAsWritten | src/DSGVO_Tracking_Mail.py:252-264 | the loop as written hands over and crashes as `SendAsWritten` says |
| Relay.SendStops | src/DSGVO_Tracking_Mail.py:262-264 | after the escaped exception, later messages change nothing |
| Relay.AsWrittenStopsAfterFirst | src/DSGVO_Tracking_Mail.py:252-264 | with two or more messages, only the first is handed over and the run crashes with SMTPServerDisconnected |
| Relay.Deliveries | src/DSGVO_Tracking_Mail.py:252-264 | one attempt per envelope, in order, delivered exactly when the server accepts |
| Relay.SendAll | src/DSGVO_Tracking_Mail.py:252-264 | the corrected loop hands over every message, in order, a failure on one not stopping the rest |
| Relay.SingleMessageAgrees | src/DSGVO_Tracking_Mail.py:252-264 | on one message the loop as written and the corrected one agree |
| Relay.PrepareRun | src/DSGVO_Tracking_Mail.py:132-188 | the steps before the fetch end as `Prepare` says, on the store's table |
| Relay.DeliverRun | src/DSGVO_Tracking_Mail.py:222-264 | purge, then send, end as `Deliver` says with the table `purge_old_entries` leaves (corrected send loop) |
| Relay.SendQueued | src/DSGVO_Tracking_Mail.py:236-264 | the SMTP step's events and ending are those of `Sending` and `SendEnding` (corrected send loop) |
| Relay.RunCycle | src/DSGVO_Tracking_Mail.py:132-264 | a run's events, ending and final table are those of `Cycle` (corrected send loop) |
| Relay.PrepareTrace | src/DSGVO_Tracking_Mail.py:150-188 | before the fetch the only events are import reports |
| Relay.SendingShape | src/DSGVO_Tracking_Mail.py:237-264 | the SMTP step opens the session first, then reports each queued message in order; nothing happens with an empty queue or a refused session (corrected send loop) |
| Relay.CycleGo | src/DSGVO_Tracking_Mail.py:201-239 | a run that queues without an exception ends as the purge and send steps say (corrected send loop) |
| Relay.CycleStops | src/DSGVO_Tracking_Mail.py:186-204 | every other run ends with import reports only |
| Relay.EventOrder | src/DSGVO_Tracking_Mail.py:222-264 | import reports, the two purges and the SMTP events keep the purge-before-send order |
| Relay.DeliverOrder | src/DSGVO_Tracking_Mail.py:222-264 | the last steps keep that order, whatever was queued |
| Relay.CyclePurgesFirst | src/DSGVO_Tracking_Mail.py:222-242 | in every run both purges come right before the SMTP session is opened, and no message is handed over before it is |
| Relay.CycleImapDown | src/DSGVO_Tracking_Mail.py:186-188 | a failed IMAP session ends the run with exit code 1 after the import, with no purge and no SMTP session |
| Relay.DeliverPurges | src/DSGVO_Tracking_Mail.py:232-239 | the expired aliases are removed and their number reported; an empty queue ends with exit code 0 and no SMTP session |
| Relay.DeliverHandsOver | src/DSGVO_Tracking_Mail.py:252-261 | with a queue and a working server every message is handed over in queue order, from its sender to `[To] + Bcc`, and the run exits with 0 (corrected send loop) |
| Relay.DeliverRecipients | src/DSGVO_Tracking_Mail.py:252-258 | when every queued message goes from the configured sender with the cleaned Bcc list to the address of an alias, so does every message handed over (corrected send loop) |
| Relay.CycleRecipientsKnown | src/DSGVO_Tracking_Mail.py:213-258 | every message handed over goes from the configured sender to the non-empty address of an alias in the imported table, with the cleaned Bcc list (corrected send loop) |

## Left out

- Relay.Cycle: the run composes `SendAll` and `Purged`, the corrected halves of the two rows of "## Findings", and not the send loop and purge as written. As written, a queue of two or more messages ends in SMTPServerDisconnected after the first hand-over (`AsWrittenStopsAfterFirst`), and a row stored with a short date text such as "2022-1-5" survives the purge (`PurgeAsWrittenKeepsShortDate`).
- Network I/O is left out: IMAP login, search, fetch, `trash_mails`, `empty_folder` and `quit`, and SMTP connect, `starttls`, `login` and `sendmail`. Their outcomes are parameters of a run (`World`). Errors of `empty_folder` and of the IMAP `quit` are not modelled.
- MIME parsing and serialisation are left out. A message is its header map. Header names are compared exactly, and a header occurs at most once. Case-insensitive lookup is modelled only where `replace_header("FROM", ..)` needs it.
- The SQLite engine is left out: connections, the SQL text with its quoting, the hard-coded table name in `CREATE TABLE`, `OperationalError`, `commit` and `close`. The table is a map.
- The two clocks are parameters. `date.today()` (local time) stamps imports, and the UTC day number of `date("now")` drives the purge.
- AliasStore.Store: the retention period is a natural number. A negative `retention_period` would give SQLite a cutoff text of the form "--N day", which is not modelled.
- Regular expressions are modelled for ASCII only. `\w` and `\d` also match other Unicode letters and digits in Python.
- The YAML configuration, logging, `create_logging`, the version banner and the IMAP retry loop of TrackingMailProvider.py are left out. They are configuration and I/O.
- Relay.SanitizeList: a setting that is a dict, a tuple or another non-list iterable is treated as a value that is not iterable, so it raises TypeError.
- Relay.Decide: a fetched mail the MIME parser cannot read is not modelled.
- The construction of `SMTP_Class` is a parameter (`SmtpOpen`). This includes its validated fields (`FQDNField`, `IntegerField`) and an SMTPException during the connect.
- The server's answer depends only on the envelope (`server: Envelope -> Response`). Timeouts and partial acceptance of recipients are not modelled.
- The merchandise-database query of TrackingMailProvider.py (pyodbc) is a map from order number to address. The SMTP session there is opened per message and its errors are only logged, so `LegacyRelay` records the forwards and not the server's answers.
- `IMAP_Class.retention_period` and `move_to_trash_before_date` are left out. They only affect the mailbox.

## Findings

| source | as written | input that shows it | evidently intended | confidence | as-written member | corrected member |
|---|---|---|---|---|---|---|
| src/classes.py:468 | the purge compares the stored date text with the cutoff text of `date("now", "-N day")` as text | a row added with the date "2022-1-5", which `validate` accepts, and the cutoff 2022-06-01: '1' sorts after '0', so the row is kept | delete every row dated on or before the cutoff day | not executed; the relay itself only stores ISO text, where both comparisons agree (AliasStore.PurgeAgreesOnIsoText) | AliasStore.PurgeAsWrittenKeepsShortDate | AliasStore.Store.PurgeOldEntries |
| src/DSGVO_Tracking_Mail.py:252-264 | one SMTP session serves every queued message; the `quit` after the first message closes its socket, the next `login` raises SMTPServerDisconnected, and so does the `quit` in the handler, which nothing catches | a queue of two messages and a server that accepts both | every queued message is handed over, a failure on one not stopping the rest | not executed | Relay.AsWrittenStopsAfterFirst | Relay.SendAll |

/** `DBClass` of src/classes.py: the SQLite table of aliases, keyed by the alias (its
    primary key), each row holding the real address and the date text it was added on. */
module AliasStore {
  import opened Wrappers
  import opened PyValues
  import opened Strings
  import opened Dates

  /** One row of the table besides its key: `email` and `date`. */
  datatype Entry = Entry(email: string, created: string)

  /** `DBClass.validate`: only a string that `strptime(.., '%Y-%m-%d')` accepts passes. */
  function ValidateDate(v: Value): (r: Outcome)
    ensures r.Returned? <==> v.VStr? && ParseDate(v.s).Some?
    ensures r.Raised? ==> r.error == ValueError
  {
    if !v.VStr? then Raised(ValueError)
    else if ParseDate(v.s).None? then Raised(ValueError)
    else Returned
  }

  /** What `add_alias` does: validate the date, then insert, which the primary key refuses
      with IntegrityError when the alias is present. */
  function AddOutcome(table: map<string, Entry>, alias: string, date: Value): Outcome {
    if ValidateDate(date).Raised? then ValidateDate(date)
    else if alias in table then Raised(IntegrityError)
    else Returned
  }

  /** The table after `add_alias`. */
  function Added(table: map<string, Entry>, address: string, alias: string, date: Value): map<string, Entry> {
    if AddOutcome(table, alias, date).Returned? then table[alias := Entry(address, date.s)] else table
  }

  /** `get_address`: the first column of the row with that alias, or None. */
  function Lookup(table: map<string, Entry>, alias: string): (r: Option<string>)
    ensures r.Some? <==> alias in table
  {
    if alias in table then Some(table[alias].email) else None
  }

  /** An entry that the retention purge removes: its date is on or before the cutoff day. */
  predicate ExpiredOn(e: Entry, cutoff: int) {
    ParseDate(e.created).Some? && DayNumber(ParseDate(e.created).value) <= cutoff
  }

  /** The aliases whose rows are due for removal. */
  function ExpiredAliases(table: map<string, Entry>, cutoff: int): set<string> {
    set a | a in table && ExpiredOn(table[a], cutoff)
  }

  /** The table after `DELETE .. WHERE date <= cutoff`, comparing dates as dates. */
  function Purged(table: map<string, Entry>, cutoff: int): map<string, Entry> {
    map a | a in table && !ExpiredOn(table[a], cutoff) :: table[a]
  }

  /** The same statement as SQLite runs it: the stored text is compared with the text of
      `date("now", "-N day")` under BINARY collation. */
  function PurgedAsWritten(table: map<string, Entry>, cutoffText: string): map<string, Entry> {
    map a | a in table && !LexLe(table[a].created, cutoffText) :: table[a]
  }

  /** Every stored date passed `validate`. */
  predicate DatesValid(table: map<string, Entry>) {
    forall a :: a in table ==> ParseDate(table[a].created).Some?
  }

  /** The connection, with the table as its state. */
  class Store {
    var table: map<string, Entry>
    const retention: nat

    /** `DBClass(database, table, retention_period)` on a new database. */
    constructor (retention: nat)
      ensures table == map[] && this.retention == retention
    {
      this.table := map[];
      this.retention := retention;
    }

    /** `add_alias(address, alias, date)`. */
    method AddAlias(address: string, alias: string, date: Value) returns (r: Outcome)
      modifies this
      ensures r == AddOutcome(old(table), alias, date)
      ensures table == Added(old(table), address, alias, date)
      ensures DatesValid(old(table)) ==> DatesValid(table)
    {
      r := ValidateDate(date);
      if r.Raised? {
        return;
      }
      if alias in table {
        return Raised(IntegrityError);
      }
      table := table[alias := Entry(address, date.s)];
    }

    /** `get_address(alias)`. */
    function GetAddress(alias: string): (r: Option<string>)
      reads this
      ensures r.Some? <==> alias in table
      ensures r.Some? ==> r.value == table[alias].email
    {
      Lookup(table, alias)
    }

    /** `purge_old_entries()` on the day numbered `today`: count the rows, delete those dated
      `retention` days before today or earlier, count again and return the difference. */
    method PurgeOldEntries(today: int) returns (deleted: int)
      modifies this
      ensures table == Purged(old(table), today - retention)
      ensures deleted == |old(table)| - |table|
      ensures deleted == |ExpiredAliases(old(table), today - retention)|
    {
      var rowCount := |table|;
      PurgeCount(table, today - retention);
      table := Purged(table, today - retention);
      var newRowCount := |table|;
      deleted := rowCount - newRowCount;
    }
  }

  // ---------------------------------------------------------------------------
  // Properties of the store operations

  /** `validate` refuses non-strings and texts that are not a calendar date in `%Y-%m-%d` form. */
  lemma ValidateDateExamples()
    ensures ValidateDate(VStr("a")).Raised?
    ensures ValidateDate(VInt(1)).Raised?
    ensures ValidateDate(VStr("2022.02.02")).Raised?
    ensures ValidateDate(VStr("01.01.2022")).Raised?
    ensures ValidateDate(VStr("2022/02/02")).Raised?
    ensures ValidateDate(VStr("2022-13-44")).Raised?
  {
    ParseRefused();
    assert !AllDigits("01.01.2022"[..4]) by {
      assert "01.01.2022"[2] == '.';
    }
  }

  /** An insert succeeds exactly for a valid date and a new alias; the date is checked first. */
  lemma AddOutcomeExact(table: map<string, Entry>, alias: string, date: Value)
    ensures AddOutcome(table, alias, date).Returned? <==>
      date.VStr? && ParseDate(date.s).Some? && alias !in table
    ensures ValidateDate(date).Raised? ==> AddOutcome(table, alias, date) == Raised(ValueError)
    ensures ValidateDate(date).Returned? && alias in table ==> AddOutcome(table, alias, date) == Raised(IntegrityError)
  {
  }

  /** A refused insert leaves the table as it was. */
  lemma AddRefusedUnchanged(table: map<string, Entry>, address: string, alias: string, date: Value)
    requires AddOutcome(table, alias, date).Raised?
    ensures Added(table, address, alias, date) == table
  {
  }

  /** After a successful insert the alias resolves to the address, and every other alias
      resolves as before. */
  lemma AddThenLookup(table: map<string, Entry>, address: string, alias: string, date: Value, other: string)
    requires AddOutcome(table, alias, date).Returned?
    ensures Lookup(Added(table, address, alias, date), alias) == Some(address)
    ensures other != alias ==> Lookup(Added(table, address, alias, date), other) == Lookup(table, other)
    ensures |Added(table, address, alias, date)| == |table| + 1
  {
  }

  /** A second insert of the same alias fails, whatever the address. */
  lemma AddTwice(table: map<string, Entry>, a1: string, a2: string, alias: string, date: Value)
    requires AddOutcome(table, alias, date).Returned?
    ensures AddOutcome(Added(table, a1, alias, date), alias, date) == Raised(IntegrityError)
    ensures Added(Added(table, a1, alias, date), a2, alias, date) == Added(table, a1, alias, date)
  {
  }

  /** The purge keeps exactly the rows that are not expired, unchanged. */
  lemma PurgedExact(table: map<string, Entry>, cutoff: int, a: string)
    ensures a in Purged(table, cutoff) <==> a in table && a !in ExpiredAliases(table, cutoff)
    ensures a in Purged(table, cutoff) ==> Purged(table, cutoff)[a] == table[a]
  {
  }

  /** The rows before the purge are the rows after it plus the removed ones. */
  lemma PurgeCount(table: map<string, Entry>, cutoff: int)
    ensures |table| == |Purged(table, cutoff)| + |ExpiredAliases(table, cutoff)|
  {
    var kept := Purged(table, cutoff).Keys;
    var gone := ExpiredAliases(table, cutoff);
    assert table.Keys == kept + gone;
    assert kept * gone == {};
    assert |table.Keys| == |kept| + |gone|;
  }

  /** A second purge on the same day removes nothing. */
  lemma {:induction false} PurgeIdempotent(table: map<string, Entry>, cutoff: int)
    ensures Purged(Purged(table, cutoff), cutoff) == Purged(table, cutoff)
    ensures ExpiredAliases(Purged(table, cutoff), cutoff) == {}
  {
    var p := Purged(table, cutoff);
    assert forall a :: a in p ==> !ExpiredOn(p[a], cutoff);
  }

  /** The purge keeps the dates valid. */
  lemma PurgeKeepsDatesValid(table: map<string, Entry>, cutoff: int)
    requires DatesValid(table)
    ensures DatesValid(Purged(table, cutoff))
  {
  }

  /** With the cutoff date's own ISO text, as `date("now", "-N day")` writes it, the text
      comparison gives the same result as the date comparison on rows whose date text is in
      ISO form, which every row the relay inserts is. */
  lemma {:induction false} PurgeAgreesOnIsoText(table: map<string, Entry>, c: Date)
    requires ValidDate(c)
    requires forall a :: a in table ==> Canonical(table[a].created)
    ensures PurgedAsWritten(table, Iso(c)) == Purged(table, DayNumber(c))
  {
    forall a | a in table
      ensures LexLe(table[a].created, Iso(c)) <==> ExpiredOn(table[a], DayNumber(c))
    {
      var d := ParseDate(table[a].created).value;
      IsoOrder(d, c);
      DayNumberOrder(d, c);
    }
  }

  /** The ISO text of the first of June 2022. */
  lemma IsoJuneFirst()
    ensures ValidDate(Date(2022, 6, 1)) && Iso(Date(2022, 6, 1)) == "2022-06-01"
  {
    assert Pad4(2022) == "2022";
  }

  /** "2022-1-5" is a valid date text for the fifth of January 2022, which is before the first of June. */
  lemma ShortDateExpired()
    ensures ValidateDate(VStr("2022-1-5")).Returned?
    ensures ExpiredOn(Entry("foo@example.com", "2022-1-5"), DayNumber(Date(2022, 6, 1)))
  {
    ParseShortDate();
    DayNumberOrder(Date(2022, 1, 5), Date(2022, 6, 1));
  }

  /** "2022-1-5" sorts after "2022-06-01" as text. */
  lemma ShortDateSortsLate()
    ensures !LexLe("2022-1-5", "2022-06-01")
  {
    assert "2022-1-5" == "2022-" + "1-5";
    assert "2022-06-01" == "2022-" + "06-01";
    LexLeConcat("2022-", "1-5", "2022-", "06-01");
  }

  /** "2022-1-5" passes `validate` and lies before the cutoff 2022-06-01, yet the text
      comparison keeps a row with that date, since '1' sorts after '0' in the sixth character;
      the date comparison removes it. */
  lemma PurgeAsWrittenKeepsShortDate(table: map<string, Entry>, alias: string)
    requires alias in table && table[alias].created == "2022-1-5"
    ensures ValidateDate(VStr("2022-1-5")).Returned?
    ensures alias in PurgedAsWritten(table, Iso(Date(2022, 6, 1)))
    ensures alias !in Purged(table, DayNumber(Date(2022, 6, 1)))
  {
    IsoJuneFirst();
    ShortDateExpired();
    ShortDateSortsLate();
    assert ExpiredOn(table[alias], DayNumber(Date(2022, 6, 1)));
  }
}

/** Spend accounting and the transfer decision of src/live/pay-policy.ts. `None` stands for a thrown error. */
module PayPolicy {
  import opened ByteStrings
  import DecimalText

  /** Date and URL parsing are the platform's. */
  datatype Platform = Platform(
    utcDate: string -> Option<string>,  // utcDateOrThrow
    hostname: string -> Option<string>  // new URL(..).hostname
  )

  datatype Field = Absent | NotText | Text(text: string)

  /** One parsed journal line; fields other than these are never read. */
  datatype Entry =
    | NotAnObject
    | Row(outcome: Field, timestamp: Field, amountOs: Field)

  predicate NotSpend(outcome: string) {
    outcome == "aborted-before-broadcast" || outcome == "pre-broadcast-abort"
  }

  predicate CanonicalAmount(s: string) {
    |s| > 0 && DecimalText.IsDigits(s) && (s == "0" || s[0] != '0')
  }

  /** Rows that are no spend on any day: preparations, resolutions and pre-broadcast aborts. */
  predicate IsUncounted(e: Entry) {
    e.NotAnObject? || e.outcome.Absent? || (e.outcome.Text? && NotSpend(e.outcome.text))
  }

  /** What an entry adds to the spend of `date`. */
  function Contribution(p: Platform, e: Entry, date: string): Option<nat> {
    if e.NotAnObject? || e.outcome.Absent? then Some(0)
    else if !e.outcome.Text? || e.outcome.text == "" then None
    else if NotSpend(e.outcome.text) then Some(0)
    else if !e.timestamp.Text? || p.utcDate(e.timestamp.text).None? then None
    else if p.utcDate(e.timestamp.text) != Some(date) then Some(0)
    else if !e.amountOs.Text? || !CanonicalAmount(e.amountOs.text) then None
    else Some(DecimalText.Value(e.amountOs.text))
  }

  function SpentOn(p: Platform, entries: seq<Entry>, date: string): Option<nat> {
    if |entries| == 0 then Some(0)
    else
      match (SpentOn(p, entries[..|entries| - 1], date), Contribution(p, entries[|entries| - 1], date))
      case (Some(total), Some(amount)) => Some(total + amount)
      case _ => None
  }

  method SpentTodayFromJournal(p: Platform, entries: seq<Entry>, nowIso: string) returns (spent: Option<nat>)
    ensures spent == match p.utcDate(nowIso) case None => None case Some(date) => SpentOn(p, entries, date)
  {
    var utcDate := p.utcDate(nowIso);
    if utcDate.None? {
      return None;
    }
    var total := 0;
    for i := 0 to |entries|
      invariant SpentOn(p, entries[..i], utcDate.value) == Some(total)
    {
      var entry := entries[i];
      assert entries[..i + 1][..i] == entries[..i];
      if entry.NotAnObject? || entry.outcome.Absent? {
        continue;
      }
      if !entry.outcome.Text? || entry.outcome.text == "" {
        UnreadableStays(p, entries, i + 1, utcDate.value);
        return None;
      }
      if NotSpend(entry.outcome.text) {
        continue;
      }
      if !entry.timestamp.Text? || p.utcDate(entry.timestamp.text).None? {
        UnreadableStays(p, entries, i + 1, utcDate.value);
        return None;
      }
      if p.utcDate(entry.timestamp.text) != utcDate {
        continue;
      }
      if !entry.amountOs.Text? || !CanonicalAmount(entry.amountOs.text) {
        UnreadableStays(p, entries, i + 1, utcDate.value);
        return None;
      }
      total := total + DecimalText.Value(entry.amountOs.text);
    }
    assert entries[..|entries|] == entries;
    spent := Some(total);
  }

  lemma {:induction false} UnreadableStays(p: Platform, entries: seq<Entry>, n: nat, date: string)
    requires n <= |entries| && SpentOn(p, entries[..n], date).None?
    ensures SpentOn(p, entries, date).None?
    decreases |entries|
  {
    if n < |entries| {
      assert entries[..|entries| - 1][..n] == entries[..n];
      UnreadableStays(p, entries[..|entries| - 1], n, date);
    } else {
      assert entries[..n] == entries;
    }
  }

  lemma SpentSnoc(p: Platform, entries: seq<Entry>, e: Entry, date: string)
    ensures SpentOn(p, entries + [e], date) == match (SpentOn(p, entries, date), Contribution(p, e, date))
      case (Some(total), Some(amount)) => Some(total + amount)
      case _ => None
  {
    assert (entries + [e])[..|entries|] == entries;
  }

  /** Preparation, aborted and resolution rows leave every day's total where it was, wherever they stand. */
  lemma {:induction false} UncountedRowsChangeNothing(p: Platform, earlier: seq<Entry>, e: Entry, later: seq<Entry>,
                                                      date: string)
    requires IsUncounted(e)
    ensures SpentOn(p, earlier + [e] + later, date) == SpentOn(p, earlier + later, date)
    ensures Tally(p, earlier + [e] + later, date) == Tally(p, earlier + later, date)
  {
    if |later| == 0 {
      SpentSnoc(p, earlier, e, date);
      TallySnoc(p, earlier, e, date);
      assert earlier + [e] + later == earlier + [e] && earlier + later == earlier;
    } else {
      var init, last := later[..|later| - 1], later[|later| - 1];
      UncountedRowsChangeNothing(p, earlier, e, init, date);
      SpentSnoc(p, earlier + [e] + init, last, date);
      SpentSnoc(p, earlier + init, last, date);
      TallySnoc(p, earlier + [e] + init, last, date);
      TallySnoc(p, earlier + init, last, date);
      assert earlier + [e] + later == earlier + [e] + init + [last] && earlier + later == earlier + init + [last];
    }
  }

  // ------------------------------------------- what a journal records, readable or not

  /** What a row records as spent on `date`: nothing if it is no spend or its date or amount cannot be read. */
  function Charge(p: Platform, e: Entry, date: string): nat {
    if IsUncounted(e) || !e.timestamp.Text? || p.utcDate(e.timestamp.text) != Some(date) then 0
    else if !e.amountOs.Text? || !CanonicalAmount(e.amountOs.text) then 0
    else DecimalText.Value(e.amountOs.text)
  }

  /** Defined for every journal and every date, also where the sum throws. */
  function Tally(p: Platform, entries: seq<Entry>, date: string): nat {
    if |entries| == 0 then 0
    else Tally(p, entries[..|entries| - 1], date) + Charge(p, entries[|entries| - 1], date)
  }

  lemma TallySnoc(p: Platform, entries: seq<Entry>, e: Entry, date: string)
    ensures Tally(p, entries + [e], date) == Tally(p, entries, date) + Charge(p, e, date)
  {
    assert (entries + [e])[..|entries|] == entries;
  }

  /** Where the source's sum does not throw it is the tally. */
  lemma {:induction false} ReadableSpendIsTheTally(p: Platform, entries: seq<Entry>, date: string)
    ensures SpentOn(p, entries, date).Some? ==> SpentOn(p, entries, date) == Some(Tally(p, entries, date))
  {
    if |entries| > 0 {
      ReadableSpendIsTheTally(p, entries[..|entries| - 1], date);
    }
  }

  // -------------------------------------------------------------- the rules, spelled out

  /** An outcome row that is no pre-broadcast abort, under either of its names. */
  predicate RecordsSpend(e: Entry) {
    && e.Row? && !e.outcome.Absent?
    && e.outcome != Text("aborted-before-broadcast") && e.outcome != Text("pre-broadcast-abort")
  }

  /** Its outcome is a text, its timestamp a date, and on `date` its amount a numeral without leading zeros. */
  predicate IsReadableSpend(p: Platform, e: Entry, date: string)
    requires e.Row?
  {
    && e.outcome.Text? && e.outcome.text != ""
    && e.timestamp.Text? && p.utcDate(e.timestamp.text).Some?
    && (p.utcDate(e.timestamp.text).value == date ==> IsNumeral(e.amountOs))
  }

  /** Digits, without a leading zero unless it is the only one. */
  predicate IsNumeral(f: Field) {
    && f.Text? && f.text != "" && (forall i :: 0 <= i < |f.text| ==> '0' <= f.text[i] <= '9')
    && (|f.text| > 1 ==> f.text[0] != '0')
  }

  /** A row adds its amount to the spend of its date; an unreadable spend row, of any date, makes the sum throw. */
  lemma RowIsAdded(p: Platform, earlier: seq<Entry>, e: Entry, date: string)
    ensures SpentOn(p, [], date) == Some(0) && Tally(p, [], date) == 0
    ensures SpentOn(p, earlier + [e], date) ==
      if SpentOn(p, earlier, date).None? then None
      else if !RecordsSpend(e) then SpentOn(p, earlier, date)
      else if !IsReadableSpend(p, e, date) then None
      else if p.utcDate(e.timestamp.text).value != date then SpentOn(p, earlier, date)
      else Some(SpentOn(p, earlier, date).value + DecimalText.Value(e.amountOs.text))
    ensures Tally(p, earlier + [e], date) == Tally(p, earlier, date) +
      if RecordsSpend(e) && e.timestamp.Text? && p.utcDate(e.timestamp.text) == Some(date) && IsNumeral(e.amountOs)
      then DecimalText.Value(e.amountOs.text)
      else 0
  {
    SpentSnoc(p, earlier, e, date);
    TallySnoc(p, earlier, e, date);
  }

  datatype Policy = Policy(rpcHosts: seq<string>, perTransactionCapOs: int, dailyCapOs: int)

  datatype Rule = KillSwitch | Network | PerTransactionCap | DailyCap | JournalUnreadable | JournalLock

  datatype Authorization = Proceed(nowIso: string) | Block(rule: Rule)

  /** The first rule that blocks, in kill-switch, network, per-transaction, daily-cap order. */
  function AuthorizeTransfer(p: Platform, policy: Policy, amountOs: int, rpcUrl: string, spentTodayOs: nat,
                             killSwitchPresent: bool, nowIso: string): Authorization {
    var host := match p.hostname(rpcUrl) case Some(h) => h case None => "";
    if killSwitchPresent then Block(KillSwitch)
    else if host !in policy.rpcHosts then Block(Network)
    else if amountOs > policy.perTransactionCapOs then Block(PerTransactionCap)
    else if spentTodayOs + amountOs > policy.dailyCapOs then Block(DailyCap)
    else Proceed(nowIso)
  }
}

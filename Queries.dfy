/**
 * The ledger's views over a loaded list of transactions: the deposits and
 * payments filters, the vendor keyword search of the reports menu and the
 * month and year reports. Every view is an order-preserving filter; the
 * date reports parse each entry's date and fail as a whole on the first date
 * that does not parse. "Today" is a parameter.
 */
module Queries {
  import opened Wrappers
  import opened JavaStrings
  import opened Calendar
  import opened Amounts
  import opened Transactions
  import opened Storage
  import opened Sequences

  // ---------------------------------------------------------------------
  // Deposits and payments
  // ---------------------------------------------------------------------

  /** Deposits are the entries with a positive amount, payments those with a negative one. */
  predicate InSignView(t: Transaction, deposits: bool)
  {
    if deposits then t.amount > 0 else t.amount < 0
  }

  /** filterTransactions(ts, deposits). */
  function FilterTransactions(ts: seq<Transaction>, deposits: bool): (r: seq<Transaction>)
    ensures Subsequence(r, ts)
    ensures forall t :: multiset(r)[t] == if InSignView(t, deposits) then multiset(ts)[t] else 0
  {
    FilterIsSubsequence(ts, (t: Transaction) => InSignView(t, deposits));
    Filter(ts, (t: Transaction) => InSignView(t, deposits))
  }

  /** The entries of amount zero, which neither view shows. */
  function ZeroEntries(ts: seq<Transaction>): (r: seq<Transaction>)
    ensures forall t :: multiset(r)[t] == if t.amount == 0 then multiset(ts)[t] else 0
  {
    Filter(ts, (t: Transaction) => t.amount == 0)
  }

  /**
   * The deposits and payments views share no entry, and with the zero-amount
   * entries they make up the whole list, counting repetitions.
   */
  lemma SignViewsPartition(ts: seq<Transaction>)
    ensures multiset(FilterTransactions(ts, true)) !! multiset(FilterTransactions(ts, false))
    ensures multiset(FilterTransactions(ts, true)) + multiset(FilterTransactions(ts, false))
            + multiset(ZeroEntries(ts)) == multiset(ts)
  {
    var d, p, z := FilterTransactions(ts, true), FilterTransactions(ts, false), ZeroEntries(ts);
    forall t
      ensures multiset(d)[t] == 0 || multiset(p)[t] == 0
      ensures (multiset(d) + multiset(p) + multiset(z))[t] == multiset(ts)[t]
    {
    }
    assert multiset(d) + multiset(p) + multiset(z) == multiset(ts);
  }

  /**
   * A recorded deposit shows among the deposits and a recorded payment among
   * the payments, when the entered amount is positive.
   */
  lemma RecordedEntryView(ts: seq<Transaction>, isDeposit: bool, date: String, time: String,
                          description: String, vendor: String, amountText: String, t: Transaction)
    requires Record(isDeposit, date, time, description, vendor, amountText) == Some(t)
    requires ParseAmount(Trim(amountText)).Some? && ParseAmount(Trim(amountText)).value > 0
    ensures t in FilterTransactions(ts + [t], isDeposit)
    ensures t !in FilterTransactions(ts + [t], !isDeposit)
  {
    assert InSignView(t, isDeposit) && !InSignView(t, !isDeposit);
    var all := ts + [t];
    assert all[|ts|] == t;
    assert multiset(all)[t] > 0;
    assert multiset(FilterTransactions(all, isDeposit))[t] > 0;
  }

  // ---------------------------------------------------------------------
  // Vendor search
  // ---------------------------------------------------------------------

  /** The keyword as the reports menu reads it: trimmed and lower-cased. */
  function VendorKeyword(raw: String): String
  {
    ToLower(Trim(raw))
  }

  /** The vendor search of the reports menu. */
  function SearchVendor(ts: seq<Transaction>, raw: String): (r: seq<Transaction>)
    ensures Subsequence(r, ts)
    ensures forall t :: multiset(r)[t] ==
                          if Contains(ToLower(t.vendor), VendorKeyword(raw)) then multiset(ts)[t] else 0
  {
    var keyword := VendorKeyword(raw);
    FilterIsSubsequence(ts, (t: Transaction) => Contains(ToLower(t.vendor), keyword));
    Filter(ts, (t: Transaction) => Contains(ToLower(t.vendor), keyword))
  }

  /**
   * An entry is found exactly when the lower-cased keyword occurs somewhere
   * in its lower-cased vendor.
   */
  lemma SearchVendorFinds(ts: seq<Transaction>, raw: String, t: Transaction)
    ensures t in SearchVendor(ts, raw)
        <==> t in ts && exists i :: OccursAt(ToLower(t.vendor), VendorKeyword(raw), i)
  {
    ContainsIff(ToLower(t.vendor), VendorKeyword(raw));
    assert t in SearchVendor(ts, raw) <==> multiset(SearchVendor(ts, raw))[t] > 0;
    assert t in ts <==> multiset(ts)[t] > 0;
  }

  /** A blank keyword matches every vendor, so the search keeps the whole list. */
  lemma BlankKeywordKeepsAll(ts: seq<Transaction>, raw: String)
    requires Trim(raw) == []
    ensures SearchVendor(ts, raw) == ts
  {
    var keyword := VendorKeyword(raw);
    assert keyword == [];
    forall i | 0 <= i < |ts|
      ensures Contains(ToLower(ts[i].vendor), keyword)
    {
      assert StartsWith(ToLower(ts[i].vendor), keyword);
    }
    FilterKeepsAll(ts, (t: Transaction) => Contains(ToLower(t.vendor), keyword));
  }

  /** The search does not depend on the case of the keyword's letters. */
  lemma SearchIgnoresKeywordCase(ts: seq<Transaction>, raw: String)
    ensures SearchVendor(ts, ToUpper(raw)) == SearchVendor(ts, raw)
    ensures SearchVendor(ts, ToLower(raw)) == SearchVendor(ts, raw)
  {
    TrimOfCase(raw);
    LowerIgnoresCase(Trim(raw));
  }

  /** Nor on the case of the vendor's letters. */
  lemma SearchIgnoresVendorCase(t: Transaction, raw: String)
    ensures var u := t.(vendor := ToUpper(t.vendor));
            (u in SearchVendor([u], raw)) == (t in SearchVendor([t], raw))
  {
    var u := t.(vendor := ToUpper(t.vendor));
    LowerIgnoresCase(t.vendor);
    assert multiset([u])[u] == 1 && multiset([t])[t] == 1;
  }

  // ---------------------------------------------------------------------
  // Month and year reports
  // ---------------------------------------------------------------------

  /** What LocalDate.parse throws: the position and text of the date it could not read. */
  datatype DateError = UnparsableDate(index: nat, text: String)

  /** The position of the first entry whose date does not parse, if any. */
  function FirstUnparsable(ts: seq<Transaction>): (r: Option<nat>)
    ensures r.None? <==> forall i :: 0 <= i < |ts| ==> ParseIsoDate(ts[i].date).Some?
    ensures r.Some? ==> r.value < |ts| && ParseIsoDate(ts[r.value].date).None?
                        && forall i :: 0 <= i < r.value ==> ParseIsoDate(ts[i].date).Some?
  {
    if ts == [] then None
    else if ParseIsoDate(ts[0].date).None? then Some(0)
    else match FirstUnparsable(ts[1..])
      case None => None
      case Some(k) => Some(k + 1)
  }

  /** The date of an entry, parsed; None when LocalDate.parse would throw. */
  function EntryDate(t: Transaction): Option<Date>
  {
    ParseIsoDate(t.date)
  }

  predicate InMonth(t: Transaction, target: YearMonth)
  {
    EntryDate(t).Some? && YearMonthOf(EntryDate(t).value) == target
  }

  predicate InYear(t: Transaction, year: int)
  {
    EntryDate(t).Some? && EntryDate(t).value.year == year
  }

  /** The month a month report shows: today's, or the one before it. */
  function TargetMonth(today: Date, currentMonth: bool): (ym: YearMonth)
    requires ValidDate(today)
    ensures 1 <= ym.month <= 12
    ensures MonthIndex(ym) == MonthIndex(YearMonthOf(today)) - (if currentMonth then 0 else 1)
  {
    if currentMonth then YearMonthOf(today) else PreviousMonth(YearMonthOf(today))
  }

  /**
   * filterByMonth(list, currentMonth) on `today`: the entries dated in the
   * target month, in order; the first unparsable date fails the report.
   */
  function FilterByMonth(ts: seq<Transaction>, today: Date, currentMonth: bool)
    : (r: Result<seq<Transaction>, DateError>)
    requires ValidDate(today)
    ensures r.Ok? <==> FirstUnparsable(ts).None?
    ensures r.Err? ==> r.error == UnparsableDate(FirstUnparsable(ts).value, ts[FirstUnparsable(ts).value].date)
    ensures r.Ok? ==> Subsequence(r.value, ts)
    ensures r.Ok? ==> forall t :: multiset(r.value)[t] ==
                                    if InMonth(t, TargetMonth(today, currentMonth)) then multiset(ts)[t] else 0
  {
    match FirstUnparsable(ts)
    case Some(k) => Err(UnparsableDate(k, ts[k].date))
    case None =>
      var target := TargetMonth(today, currentMonth);
      FilterIsSubsequence(ts, (t: Transaction) => InMonth(t, target));
      Ok(Filter(ts, (t: Transaction) => InMonth(t, target)))
  }

  /** The year a year report shows: today's, or the one before it. */
  function TargetYear(today: Date, currentYear: bool): int
  {
    if currentYear then today.year else today.year - 1
  }

  /** filterByYear(list, currentYear) on `today`. */
  function FilterByYear(ts: seq<Transaction>, today: Date, currentYear: bool)
    : (r: Result<seq<Transaction>, DateError>)
    ensures r.Ok? <==> FirstUnparsable(ts).None?
    ensures r.Err? ==> r.error == UnparsableDate(FirstUnparsable(ts).value, ts[FirstUnparsable(ts).value].date)
    ensures r.Ok? ==> Subsequence(r.value, ts)
    ensures r.Ok? ==> forall t :: multiset(r.value)[t] ==
                                    if InYear(t, TargetYear(today, currentYear)) then multiset(ts)[t] else 0
  {
    match FirstUnparsable(ts)
    case Some(k) => Err(UnparsableDate(k, ts[k].date))
    case None =>
      var year := TargetYear(today, currentYear);
      FilterIsSubsequence(ts, (t: Transaction) => InYear(t, year));
      Ok(Filter(ts, (t: Transaction) => InYear(t, year)))
  }

  /** One entry with an unreadable date fails every date report, wherever it stands. */
  lemma BadDateFailsReports(ts: seq<Transaction>, today: Date, i: nat)
    requires ValidDate(today)
    requires i < |ts| && ParseIsoDate(ts[i].date).None?
    ensures FilterByMonth(ts, today, true).Err? && FilterByMonth(ts, today, false).Err?
    ensures FilterByYear(ts, today, true).Err? && FilterByYear(ts, today, false).Err?
    ensures FirstUnparsable(ts).value <= i
  {
  }

  /** Whatever the month-to-date report shows, the year-to-date report shows too. */
  lemma MonthWithinYear(ts: seq<Transaction>, today: Date, t: Transaction)
    requires ValidDate(today) && FirstUnparsable(ts).None?
    requires t in FilterByMonth(ts, today, true).value
    ensures t in FilterByYear(ts, today, true).value
  {
    var m, y := FilterByMonth(ts, today, true).value, FilterByYear(ts, today, true).value;
    assert multiset(m)[t] > 0;
    assert multiset(y)[t] == multiset(m)[t];
  }

  /**
   * In January the previous-month report shows December of the year before,
   * which the previous-year report also covers.
   */
  lemma JanuaryLooksBackAYear(ts: seq<Transaction>, today: Date, t: Transaction)
    requires ValidDate(today) && today.month == 1 && FirstUnparsable(ts).None?
    requires t in FilterByMonth(ts, today, false).value
    ensures InMonth(t, YearMonth(today.year - 1, 12))
    ensures t in FilterByYear(ts, today, false).value
  {
    var m, y := FilterByMonth(ts, today, false).value, FilterByYear(ts, today, false).value;
    assert multiset(m)[t] > 0;
    assert multiset(y)[t] == multiset(m)[t];
  }

  /**
   * The last day of the month before today's is in the previous-month report
   * and not in the month-to-date one.
   */
  lemma LastDayOfPreviousMonth(ts: seq<Transaction>, today: Date, t: Transaction)
    requires ValidDate(today) && FirstUnparsable(ts).None? && t in ts
    requires EntryDate(t) == Some(LastDay(PreviousMonth(YearMonthOf(today))))
    ensures t in FilterByMonth(ts, today, false).value
    ensures t !in FilterByMonth(ts, today, true).value
  {
    var prev, cur := FilterByMonth(ts, today, false).value, FilterByMonth(ts, today, true).value;
    assert multiset(ts)[t] > 0;
    assert multiset(prev)[t] == multiset(ts)[t];
    assert multiset(cur)[t] == 0;
  }
}

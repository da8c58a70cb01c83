/**
 * The storage side of LedgerApp.java: reading the transaction file back
 * (`loadTransactions`), appending one record (`writeTransactionToFile`) and
 * building a record from what the user typed (`recordTransaction`). The file
 * is a sequence of lines; a file that cannot be opened is `None`.
 */
module Storage {
  import opened Wrappers
  import opened JavaStrings
  import opened Amounts
  import opened Transactions

  /** What the loader makes of one line. */
  datatype LineOutcome =
    | Skipped                  // not exactly five fields
    | Parsed(t: Transaction)
    | BadAmount(text: String)  // five fields, but Double.parseDouble throws

  function ParseLine(line: String): LineOutcome
  {
    var fields := Split(Delimiter, line);
    if |fields| != 5 then Skipped
    else
      match ParseAmount(fields[4])
      case None => BadAmount(fields[4])
      case Some(amount) => Parsed(Transaction(fields[0], fields[1], fields[2], fields[3], amount))
  }

  /**
   * The NumberFormatException that escapes loadTransactions (only IOException
   * is caught there): the index of the offending line and its amount text.
   */
  datatype LoadError = MalformedAmount(line: nat, text: String)

  /** The load of a file extended by one more line, the line at index `n`. */
  function Extend(prior: Result<seq<Transaction>, LoadError>, outcome: LineOutcome, n: nat)
    : Result<seq<Transaction>, LoadError>
  {
    match prior
    case Err(e) => Err(e)
    case Ok(ts) =>
      match outcome
      case Skipped => Ok(ts)
      case Parsed(t) => Ok(ts + [t])
      case BadAmount(text) => Err(MalformedAmount(n, text))
  }

  /** The ledger built from the outcomes of a file's lines, first line first. */
  function Collect(outcomes: seq<LineOutcome>): (r: Result<seq<Transaction>, LoadError>)
    ensures r.Ok? ==> |r.value| <= |outcomes|
    ensures r.Err? ==> r.error.line < |outcomes|
  {
    if outcomes == [] then Ok([])
    else
      var n := |outcomes| - 1;
      Extend(Collect(outcomes[..n]), outcomes[n], n)
  }

  /** What the loader makes of each line of a file. */
  function Outcomes(lines: seq<String>): (os: seq<LineOutcome>)
    ensures |os| == |lines|
  {
    seq(|lines|, i requires 0 <= i < |lines| => ParseLine(lines[i]))
  }

  /**
   * The ledger held in `lines`: one transaction per five-field line, in file
   * order; any other line is skipped; the first five-field line whose amount
   * does not parse fails the whole load. Never more records than lines.
   */
  function Load(lines: seq<String>): (r: Result<seq<Transaction>, LoadError>)
    ensures r.Ok? ==> |r.value| <= |lines|
  {
    Collect(Outcomes(lines))
  }

  /**
   * The load succeeds exactly when no line is a five-field line with a bad
   * amount; when it fails, it names the first such line.
   */
  lemma {:induction false} CollectFailure(outcomes: seq<LineOutcome>)
    ensures Collect(outcomes).Ok? <==> forall i :: 0 <= i < |outcomes| ==> !outcomes[i].BadAmount?
    ensures Collect(outcomes).Err? ==>
      && outcomes[Collect(outcomes).error.line] == BadAmount(Collect(outcomes).error.text)
      && forall i :: 0 <= i < Collect(outcomes).error.line ==> !outcomes[i].BadAmount?
  {
    if outcomes != [] {
      var n := |outcomes| - 1;
      CollectFailure(outcomes[..n]);
      assert forall i :: 0 <= i < n ==> outcomes[..n][i] == outcomes[i];
    }
  }

  /** Load fails exactly on a five-field line with a bad amount, and on the first one. */
  lemma LoadFailure(lines: seq<String>)
    ensures Load(lines).Ok? <==> forall i :: 0 <= i < |lines| ==> !ParseLine(lines[i]).BadAmount?
    ensures Load(lines).Err? ==>
      && ParseLine(lines[Load(lines).error.line]) == BadAmount(Load(lines).error.text)
      && forall i :: 0 <= i < Load(lines).error.line ==> !ParseLine(lines[i]).BadAmount?
  {
    CollectFailure(Outcomes(lines));
    forall i | 0 <= i < |lines|
      ensures Outcomes(lines)[i] == ParseLine(lines[i])
    {
    }
  }

  /** Load over the concatenation of two files, in terms of loading each. */
  function Combine(first: Result<seq<Transaction>, LoadError>, second: Result<seq<Transaction>, LoadError>, offset: nat)
    : Result<seq<Transaction>, LoadError>
  {
    match first
    case Err(e) => Err(e)
    case Ok(ts) =>
      match second
      case Err(e) => Err(MalformedAmount(e.line + offset, e.text))
      case Ok(us) => Ok(ts + us)
  }

  lemma CombineExtend(x: Result<seq<Transaction>, LoadError>, y: Result<seq<Transaction>, LoadError>,
                      o: LineOutcome, n: nat, offset: nat)
    ensures Combine(x, Extend(y, o, n), offset) == Extend(Combine(x, y, offset), o, n + offset)
  {
    if x.Ok? && y.Ok? && o.Parsed? {
      assert x.value + (y.value + [o.t]) == x.value + y.value + [o.t];
    }
  }

  lemma {:induction false} CollectConcat(x: seq<LineOutcome>, y: seq<LineOutcome>)
    ensures Collect(x + y) == Combine(Collect(x), Collect(y), |x|)
  {
    if y == [] {
      assert x + y == x;
      if Collect(x).Ok? {
        assert Collect(x).value + [] == Collect(x).value;
      }
    } else {
      var n := |y| - 1;
      var xy := x + y;
      assert xy[..|xy| - 1] == x + y[..n];
      assert xy[|xy| - 1] == y[n];
      CollectConcat(x, y[..n]);
      CombineExtend(Collect(x), Collect(y[..n]), y[n], n, |x|);
    }
  }

  /** Loading is compositional: each line contributes on its own, in order. */
  lemma LoadConcat(a: seq<String>, b: seq<String>)
    ensures Load(a + b) == Combine(Load(a), Load(b), |a|)
  {
    OutcomesConcat(a, b);
    CollectConcat(Outcomes(a), Outcomes(b));
  }

  lemma OutcomesConcat(a: seq<String>, b: seq<String>)
    ensures Outcomes(a + b) == Outcomes(a) + Outcomes(b)
  {
    var o, p := Outcomes(a + b), Outcomes(a) + Outcomes(b);
    forall i | 0 <= i < |o|
      ensures o[i] == p[i]
    {
      if i < |a| {
        assert (a + b)[i] == a[i];
      } else {
        assert (a + b)[i] == b[i - |a|];
      }
    }
  }

  lemma OutcomesPrefix(lines: seq<String>, k: nat)
    requires k <= |lines|
    ensures Outcomes(lines)[..k] == Outcomes(lines[..k])
  {
    var o, p := Outcomes(lines)[..k], Outcomes(lines[..k]);
    forall i | 0 <= i < k
      ensures o[i] == p[i]
    {
      assert lines[..k][i] == lines[i];
    }
  }

  /** One step of Load: the last line against the load of the lines before it. */
  lemma LoadStep(lines: seq<String>)
    requires lines != []
    ensures Load(lines) == Extend(Load(lines[..|lines| - 1]), ParseLine(lines[|lines| - 1]), |lines| - 1)
  {
    OutcomesPrefix(lines, |lines| - 1);
  }

  /** A failed prefix fails the whole file, with the same error. */
  lemma LoadStopsAtError(lines: seq<String>, k: nat)
    requires k <= |lines| && Load(lines[..k]).Err?
    ensures Load(lines) == Load(lines[..k])
  {
    LoadConcat(lines[..k], lines[k..]);
    assert lines[..k] + lines[k..] == lines;
  }

  /**
   * loadTransactions: the read loop over the file's lines. A file that cannot
   * be opened gives the empty ledger (the IOException is reported and caught).
   */
  method LoadTransactions(file: Option<seq<String>>) returns (r: Result<seq<Transaction>, LoadError>)
    ensures file.None? ==> r == Ok([])
    ensures file.Some? ==> r == Load(file.value)
  {
    if file.None? {
      return Ok([]);
    }
    var lines := file.value;
    var transactions: seq<Transaction> := [];
    var i := 0;
    while i < |lines|
      invariant 0 <= i <= |lines|
      invariant Load(lines[..i]) == Ok(transactions)
    {
      var outcome := ParseLine(lines[i]);
      LoadNext(lines, i, transactions, outcome);
      if outcome.BadAmount? {
        return Err(MalformedAmount(i, outcome.text));
      } else if outcome.Parsed? {
        transactions := transactions + [outcome.t];
      }
      i := i + 1;
    }
    assert lines[..i] == lines;
    return Ok(transactions);
  }

  /** What reading line i adds to the load of the lines before it. */
  lemma LoadNext(lines: seq<String>, i: nat, ts: seq<Transaction>, outcome: LineOutcome)
    requires i < |lines| && Load(lines[..i]) == Ok(ts) && outcome == ParseLine(lines[i])
    ensures outcome.BadAmount? ==> Load(lines) == Err(MalformedAmount(i, outcome.text))
    ensures outcome.Parsed? ==> Load(lines[..i + 1]) == Ok(ts + [outcome.t])
    ensures outcome.Skipped? ==> Load(lines[..i + 1]) == Ok(ts)
  {
    assert lines[..i + 1][..i] == lines[..i];
    LoadStep(lines[..i + 1]);
    if outcome.BadAmount? {
      LoadStopsAtError(lines, i + 1);
    }
  }

  /** A file of one line loads as that line alone. */
  lemma LoadSingle(line: String)
    ensures Load([line]) == Extend(Ok([]), ParseLine(line), 0)
  {
    LoadStep([line]);
    assert [line][..0] == [];
  }

  /**
   * writeTransactionToFile: the storage line and a line separator are
   * appended, so the file gains one line. Every record the program writes is
   * built from texts read by Scanner.nextLine, which never holds a line
   * terminator; the requires states that.
   */
  function Append(file: seq<String>, t: Transaction): (r: seq<String>)
    requires OnOneLine(t)
    ensures |r| == |file| + 1 && r[..|file|] == file && r[|file|] == ToCsv(t)
    ensures IsLine(r[|file|])
  {
    CsvIsLine(t);
    file + [ToCsv(t)]
  }

  /** The storage line of a record with delimiter-free text reads back as that record. */
  lemma ParseLineOfCsv(t: Transaction)
    requires DelimiterFree(t)
    ensures ParseLine(ToCsv(t)) == Parsed(t)
  {
    CsvSplitRoundTrip(t);
    AmountTextRoundTrip(t.amount);
  }

  /**
   * A delimiter inside a text field makes the storage line split into more than
   * five fields, so the loader skips the record.
   */
  lemma ParseLineOfCollidingCsv(t: Transaction)
    requires !DelimiterFree(t)
    ensures |Split(Delimiter, ToCsv(t))| > 5
    ensures ParseLine(ToCsv(t)) == Skipped
  {
    CsvSplitLength(t);
    var text := Text(t);
    assert multiset(text) == multiset(t.date) + multiset(t.time) + multiset(t.description) + multiset(t.vendor);
    assert multiset(text)[Delimiter] > 0;
  }

  /** After an append the loaded ledger gains the record, or nothing when it collides. */
  lemma LoadAfterAppend(file: seq<String>, t: Transaction)
    requires Load(file).Ok? && OnOneLine(t)
    ensures Load(Append(file, t)) == Ok(Load(file).value + if DelimiterFree(t) then [t] else [])
  {
    var line := ToCsv(t);
    var added: seq<Transaction> := if DelimiterFree(t) then [t] else [];
    LoadSingle(line);
    if DelimiterFree(t) {
      ParseLineOfCsv(t);
      assert Load([line]) == Ok([] + [t]);
      assert [] + [t] == [t];
    } else {
      ParseLineOfCollidingCsv(t);
    }
    assert Load([line]) == Ok(added);
    LoadConcat(file, [line]);
    assert Load(file + [line]) == Ok(Load(file).value + added);
  }

  /** The file written for a ledger: one storage line per record, in order. */
  function StoredLines(ts: seq<Transaction>): (lines: seq<String>)
    requires forall i :: 0 <= i < |ts| ==> OnOneLine(ts[i])
    ensures |lines| == |ts|
  {
    seq(|ts|, i requires 0 <= i < |ts| => ToCsv(ts[i]))
  }

  lemma StoredLinesSnoc(ts: seq<Transaction>)
    requires ts != [] && forall i :: 0 <= i < |ts| ==> OnOneLine(ts[i])
    ensures StoredLines(ts) == Append(StoredLines(ts[..|ts| - 1]), ts[|ts| - 1])
  {
    var n := |ts| - 1;
    assert forall i :: 0 <= i < n ==> ts[..n][i] == ts[i];
  }

  lemma SnocOfLast(ts: seq<Transaction>)
    requires ts != []
    ensures ts[..|ts| - 1] + [ts[|ts| - 1]] == ts
  {
  }

  /** Storing one more delimiter-free record adds it at the end of what loads back. */
  lemma LoadOfStoredSnoc(ts: seq<Transaction>)
    requires ts != [] && DelimiterFree(ts[|ts| - 1])
    requires forall i :: 0 <= i < |ts| ==> OnOneLine(ts[i])
    requires Load(StoredLines(ts[..|ts| - 1])) == Ok(ts[..|ts| - 1])
    ensures Load(StoredLines(ts)) == Ok(ts)
  {
    var n := |ts| - 1;
    StoredLinesSnoc(ts);
    LoadAfterAppend(StoredLines(ts[..n]), ts[n]);
    SnocOfLast(ts);
  }

  lemma StorablePrefix(ts: seq<Transaction>, k: nat)
    requires k <= |ts| && forall i :: 0 <= i < |ts| ==> DelimiterFree(ts[i]) && OnOneLine(ts[i])
    ensures forall i :: 0 <= i < k ==> DelimiterFree(ts[..k][i]) && OnOneLine(ts[..k][i])
  {
  }

  /** A ledger whose records have single-line, delimiter-free text loads back unchanged. */
  lemma {:induction false} LoadOfStored(ts: seq<Transaction>)
    requires forall i :: 0 <= i < |ts| ==> DelimiterFree(ts[i]) && OnOneLine(ts[i])
    ensures Load(StoredLines(ts)) == Ok(ts)
  {
    if ts == [] {
      assert StoredLines(ts) == [];
    } else {
      var n := |ts| - 1;
      StorablePrefix(ts, n);
      LoadOfStored(ts[..n]);
      LoadOfStoredSnoc(ts);
    }
  }

  /**
   * A line that does not have five fields, next to a well-formed one, is
   * skipped and does not stop the load.
   */
  lemma CorruptLineSkipped(t: Transaction, bad: String)
    requires DelimiterFree(t)
    requires |Split(Delimiter, bad)| != 5
    ensures Load([ToCsv(t), bad]) == Ok([t])
  {
    ParseLineOfCsv(t);
    assert ParseLine(bad) == Skipped;
    LoadSingle(ToCsv(t));
    assert Load([ToCsv(t)]) == Ok([] + [t]);
    assert [] + [t] == [t];
    LoadStep([ToCsv(t), bad]);
    assert [ToCsv(t), bad][..1] == [ToCsv(t)];
  }

  /**
   * recordTransaction: every entered text is trimmed; a payment stores the
   * negated amount, a deposit the amount as entered. An amount that does not
   * parse gives no record (the source's NumberFormatException).
   */
  function Record(isDeposit: bool, date: String, time: String, description: String,
                  vendor: String, amountText: String): (r: Option<Transaction>)
    ensures r.Some? <==> ParseAmount(Trim(amountText)).Some?
    ensures r.Some? ==> r.value.amount == if isDeposit then ParseAmount(Trim(amountText)).value
                                         else -ParseAmount(Trim(amountText)).value
    ensures r.Some? ==>
      && r.value.date == Trim(date) && r.value.time == Trim(time)
      && r.value.description == Trim(description) && r.value.vendor == Trim(vendor)
  {
    Entry(isDeposit, Trim(date), Trim(time), Trim(description), Trim(vendor), ParseAmount(Trim(amountText)))
  }

  /** The record made of trimmed texts and the parsed amount, if there is one. */
  function Entry(isDeposit: bool, date: String, time: String, description: String,
                 vendor: String, parsed: Option<int>): (r: Option<Transaction>)
    ensures r.Some? <==> parsed.Some?
    ensures r.Some? ==> r.value.amount == if isDeposit then parsed.value else -parsed.value
    ensures r.Some? ==>
      && r.value.date == date && r.value.time == time
      && r.value.description == description && r.value.vendor == vendor
  {
    match parsed
    case None => None
    case Some(amount) => Some(Transaction(date, time, description, vendor, if isDeposit then amount else -amount))
  }

  /**
   * What the user records is what the ledger shows next time: appending the
   * record and reloading adds exactly that record when its texts are free of
   * the delimiter. The texts are lines read by Scanner.nextLine, so they hold
   * no line terminator.
   */
  lemma RecordThenLoad(file: seq<String>, isDeposit: bool, date: String, time: String,
                       description: String, vendor: String, amountText: String)
    requires Load(file).Ok?
    requires IsLine(date) && IsLine(time) && IsLine(description) && IsLine(vendor)
    requires Record(isDeposit, date, time, description, vendor, amountText).Some?
    requires DelimiterFree(Record(isDeposit, date, time, description, vendor, amountText).value)
    ensures Load(Append(file, Record(isDeposit, date, time, description, vendor, amountText).value))
         == Ok(Load(file).value + [Record(isDeposit, date, time, description, vendor, amountText).value])
  {
    TrimAddsNothing(date, '\n');
    TrimAddsNothing(date, '\r');
    TrimAddsNothing(time, '\n');
    TrimAddsNothing(time, '\r');
    TrimAddsNothing(description, '\n');
    TrimAddsNothing(description, '\r');
    TrimAddsNothing(vendor, '\n');
    TrimAddsNothing(vendor, '\r');
    LoadAfterAppend(file, Record(isDeposit, date, time, description, vendor, amountText).value);
  }
}

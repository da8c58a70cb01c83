/**
 * The ledger's record (Transaction.java): an immutable five-field value with
 * its storage line (`toCSV`) and its display line (`toString`). The getters
 * of the source are the datatype's destructors `date`, `time`,
 * `description`, `vendor` and `amount`, so every getter returns exactly what
 * the constructor was given and no operation changes a record.
 */
module Transactions {
  import opened JavaStrings
  import opened Amounts

  datatype Transaction = Transaction(
    date: String,
    time: String,
    description: String,
    vendor: String,
    amount: int)  // cents; positive for a deposit, negative for a payment

  /** The storage delimiter. */
  const Delimiter: char := '|'

  /** The storage fields, in storage order: the amount as String.valueOf writes it. */
  function Fields(t: Transaction): seq<String>
  {
    [t.date, t.time, t.description, t.vendor, AmountText(t.amount)]
  }

  /** toCSV: the storage fields joined by the delimiter. */
  function ToCsv(t: Transaction): String
  {
    Join([Delimiter], Fields(t))
  }

  /** toString: the same fields joined by " | ", the amount with two decimals. */
  function Display(t: Transaction): String
  {
    Join(" | ", [t.date, t.time, t.description, t.vendor, FixedText(t.amount)])
  }

  /** The four text fields of `t` hold no delimiter. */
  predicate DelimiterFree(t: Transaction)
  {
    Delimiter !in t.date && Delimiter !in t.time &&
    Delimiter !in t.description && Delimiter !in t.vendor
  }

  /** `s` holds no line terminator of BufferedReader.readLine, so it is one line of a file. */
  predicate IsLine(s: String)
  {
    '\n' !in s && '\r' !in s
  }

  /** The four text fields of `t` hold no line terminator. */
  predicate OnOneLine(t: Transaction)
  {
    IsLine(t.date) && IsLine(t.time) && IsLine(t.description) && IsLine(t.vendor)
  }

  /** The storage line of a record whose text fields are single lines is a single line. */
  lemma CsvIsLine(t: Transaction)
    requires OnOneLine(t)
    ensures IsLine(ToCsv(t))
  {
    AmountTextIsField(t.amount);
    JoinFive([Delimiter], t.date, t.time, t.description, t.vendor, AmountText(t.amount));
  }

  /** The text fields of `t` laid end to end. */
  function Text(t: Transaction): String
  {
    t.date + t.time + t.description + t.vendor
  }

  lemma JoinFive(sep: String, a: String, b: String, c: String, d: String, e: String)
    ensures Join(sep, [a, b, c, d, e]) == a + sep + (b + sep + (c + sep + (d + sep + e)))
  {
    assert [d, e][1..] == [e];
    assert Join(sep, [d, e]) == d + sep + e;
    assert [c, d, e][1..] == [d, e];
    assert Join(sep, [c, d, e]) == c + sep + (d + sep + e);
    assert [b, c, d, e][1..] == [c, d, e];
    assert Join(sep, [b, c, d, e]) == b + sep + (c + sep + (d + sep + e));
    assert [a, b, c, d, e][1..] == [b, c, d, e];
  }

  /**
   * The pieces of a storage line between delimiters: those of each text field
   * in turn, then the amount text as one piece.
   */
  lemma CsvPieces(t: Transaction)
    ensures Pieces(Delimiter, ToCsv(t))
         == Pieces(Delimiter, t.date) + Pieces(Delimiter, t.time) + Pieces(Delimiter, t.description)
            + Pieces(Delimiter, t.vendor) + [AmountText(t.amount)]
  {
    var amount := AmountText(t.amount);
    JoinFive([Delimiter], t.date, t.time, t.description, t.vendor, amount);
    AmountTextIsField(t.amount);
    PiecesOfFive(Delimiter, t.date, t.time, t.description, t.vendor, amount);
  }

  /** The pieces of five fields joined by a separator that the last field lacks. */
  lemma PiecesOfFive(sep: char, a: String, b: String, c: String, d: String, e: String)
    requires sep !in e
    ensures Pieces(sep, a + [sep] + (b + [sep] + (c + [sep] + (d + [sep] + e))))
         == Pieces(sep, a) + Pieces(sep, b) + Pieces(sep, c) + Pieces(sep, d) + [e]
  {
    var l4 := d + [sep] + e;
    var l3 := c + [sep] + l4;
    var l2 := b + [sep] + l3;
    PiecesOfFree(sep, e);
    PiecesAt(sep, d, e);
    PiecesAt(sep, c, l4);
    PiecesAt(sep, b, l3);
    PiecesAt(sep, a, l2);
    RegroupPieces(Pieces(sep, a), Pieces(sep, b), Pieces(sep, c), Pieces(sep, d), [e]);
  }

  lemma RegroupPieces(p: seq<String>, q: seq<String>, r: seq<String>, s: seq<String>, t: seq<String>)
    ensures p + (q + (r + (s + t))) == p + q + r + s + t
  {
  }

  /** A storage line holds four delimiters more than the text fields do. */
  lemma CsvDelimiterCount(t: Transaction)
    ensures multiset(ToCsv(t))[Delimiter] == multiset(Text(t))[Delimiter] + 4
  {
    CsvPieces(t);
    PiecesCount(Delimiter, ToCsv(t));
    PiecesCount(Delimiter, t.date);
    PiecesCount(Delimiter, t.time);
    PiecesCount(Delimiter, t.description);
    PiecesCount(Delimiter, t.vendor);
    assert multiset(Text(t)) == multiset(t.date) + multiset(t.time) + multiset(t.description) + multiset(t.vendor);
  }

  /** With delimiter-free text fields a storage line holds exactly four delimiters. */
  lemma CsvHasFourDelimiters(t: Transaction)
    requires DelimiterFree(t)
    ensures multiset(ToCsv(t))[Delimiter] == 4
  {
    CsvDelimiterCount(t);
    assert multiset(Text(t)) == multiset(t.date) + multiset(t.time) + multiset(t.description) + multiset(t.vendor);
  }

  /**
   * Splitting a storage line the way the loader does yields one field more than
   * there are delimiters in it: the amount text ends the line and is never
   * empty, so no trailing field is dropped.
   */
  lemma CsvSplitLength(t: Transaction)
    ensures |Split(Delimiter, ToCsv(t))| == 5 + multiset(Text(t))[Delimiter]
  {
    var line := ToCsv(t);
    CsvPieces(t);
    CsvDelimiterCount(t);
    PiecesCount(Delimiter, line);
    AmountTextIsField(t.amount);
    var ps := Pieces(Delimiter, line);
    assert ps[|ps| - 1] == AmountText(t.amount);
    assert Delimiter in line by {
      assert multiset(line)[Delimiter] > 0;
    }
    assert DropTrailingEmpty(ps) == ps;
  }

  /** For delimiter-free text fields the split storage line is exactly the fields. */
  lemma CsvSplitRoundTrip(t: Transaction)
    requires DelimiterFree(t)
    ensures Split(Delimiter, ToCsv(t)) == Fields(t)
  {
    AmountTextIsField(t.amount);
    SplitOfJoin(Delimiter, Fields(t));
  }

  /**
   * The display line carries the same five fields in the same order: for
   * delimiter-free text fields, cutting it at '|' gives each field with the
   * blanks of its " | " separators around it.
   */
  lemma DisplayFields(t: Transaction)
    requires DelimiterFree(t)
    ensures Split(Delimiter, Display(t))
         == [t.date + " ", " " + t.time + " ", " " + t.description + " ",
             " " + t.vendor + " ", " " + FixedText(t.amount)]
  {
    var a, b, c, d, e := t.date, t.time, t.description, t.vendor, FixedText(t.amount);
    var fs := [a + " ", " " + b + " ", " " + c + " ", " " + d + " ", " " + e];
    FixedTextIsField(t.amount);
    DisplayAsCsv(a, b, c, d, e);
    FieldsFree(a, b, c, d, e);
    SplitOfJoin(Delimiter, fs);
  }

  /** Joining with " | " is joining the blank-padded fields with the delimiter. */
  lemma DisplayAsCsv(a: String, b: String, c: String, d: String, e: String)
    ensures Join(" | ", [a, b, c, d, e])
         == Join([Delimiter], [a + " ", " " + b + " ", " " + c + " ", " " + d + " ", " " + e])
  {
    JoinFive(" | ", a, b, c, d, e);
    JoinFive([Delimiter], a + " ", " " + b + " ", " " + c + " ", " " + d + " ", " " + e);
    PaddedSeparator(d, e);
    PaddedSeparator(c, " " + d + " | " + e);
    PaddedSeparator(b, " " + c + " | " + (" " + d + " | " + e));
    PaddedSeparator(a, " " + b + " | " + (" " + c + " | " + (" " + d + " | " + e)));
  }

  lemma PaddedSeparator(x: String, y: String)
    ensures x + " | " + y == (x + " ") + [Delimiter] + (" " + y)
  {
  }

  lemma FieldsFree(a: String, b: String, c: String, d: String, e: String)
    requires Delimiter !in a && Delimiter !in b && Delimiter !in c && Delimiter !in d && Delimiter !in e
    requires e != []
    ensures var fs := [a + " ", " " + b + " ", " " + c + " ", " " + d + " ", " " + e];
            |fs| >= 1 && fs[|fs| - 1] != [] && forall i :: 0 <= i < |fs| ==> Delimiter !in fs[i]
  {
  }
}

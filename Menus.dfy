/**
 * The three console menus as a transition function: the line the user
 * enters on a screen selects the next screen and what the program does on
 * the way. Prompts, printing and the lines read by the selected action are
 * not part of this model.
 */
module Menus {
  import opened JavaStrings

  datatype Screen = Home | Ledger | Reports | Exited

  datatype Action =
    | RecordDeposit | RecordPayment | OpenLedger | Goodbye
    | ShowAll | ShowDeposits | ShowPayments | OpenReports | BackHome
    | MonthToDate | PreviousMonth | YearToDate | PreviousYear | SearchVendor | Back
    | Invalid | Nothing

  /** The choice as the home and ledger screens read it: trimmed and upper-cased. */
  function Choice(line: String): String
  {
    ToUpper(Trim(line))
  }

  /** One menu choice on the home screen. */
  function HomeStep(choice: String): (Screen, Action)
  {
    if choice == "D" then (Home, RecordDeposit)
    else if choice == "P" then (Home, RecordPayment)
    else if choice == "L" then (Ledger, OpenLedger)
    else if choice == "X" then (Exited, Goodbye)
    else (Home, Invalid)
  }

  /** One menu choice on the ledger screen. */
  function LedgerStep(choice: String): (Screen, Action)
  {
    if choice == "A" then (Ledger, ShowAll)
    else if choice == "D" then (Ledger, ShowDeposits)
    else if choice == "P" then (Ledger, ShowPayments)
    else if choice == "R" then (Reports, OpenReports)
    else if choice == "H" then (Home, BackHome)
    else (Ledger, Invalid)
  }

  /** One menu choice on the reports screen, which trims but keeps case. */
  function ReportsStep(choice: String): (Screen, Action)
  {
    if choice == "1" then (Reports, MonthToDate)
    else if choice == "2" then (Reports, PreviousMonth)
    else if choice == "3" then (Reports, YearToDate)
    else if choice == "4" then (Reports, PreviousYear)
    else if choice == "5" then (Reports, SearchVendor)
    else if choice == "0" then (Ledger, Back)
    else (Reports, Invalid)
  }

  /**
   * The line entered on `screen` gives the next screen and the action taken.
   * Every action but leaving a screen returns to the same menu loop.
   */
  function Step(screen: Screen, line: String): (r: (Screen, Action))
    ensures r.1 == Invalid ==> r.0 == screen
    ensures screen == Exited <==> r.1 == Nothing
  {
    Select(screen, Choice(line), Trim(line))
  }

  /** The menu of `screen` applied to the line read as a choice and as trimmed text. */
  function Select(screen: Screen, choice: String, trimmed: String): (r: (Screen, Action))
    ensures r.1 == Invalid ==> r.0 == screen
    ensures screen == Exited <==> r.1 == Nothing
  {
    match screen
    case Home => HomeStep(choice)
    case Ledger => LedgerStep(choice)
    case Reports => ReportsStep(trimmed)
    case Exited => (Exited, Nothing)
  }

  /** The only way out of the program is X on the home screen. */
  lemma ExitOnlyFromHome(screen: Screen, line: String)
    requires screen != Exited
    ensures Step(screen, line).0 == Exited <==> screen == Home && Choice(line) == "X"
  {
    SelectExits(screen, Choice(line), Trim(line));
  }

  lemma SelectExits(screen: Screen, choice: String, trimmed: String)
    requires screen != Exited
    ensures Select(screen, choice, trimmed).0 == Exited <==> screen == Home && choice == "X"
  {
  }

  /** Leaving a screen goes one level up or down: home, ledger, reports. */
  lemma ScreensAreNested(screen: Screen, line: String)
    ensures Step(screen, line).0 != screen ==> Adjacent(screen, Step(screen, line).0)
  {
    SelectMovesToAdjacent(screen, Choice(line), Trim(line));
  }

  /** The screens one menu choice can lead to from `screen`. */
  predicate Adjacent(screen: Screen, next: Screen)
  {
    match screen
    case Home => next == Ledger || next == Exited
    case Ledger => next == Home || next == Reports
    case Reports => next == Ledger
    case Exited => false
  }

  lemma SelectMovesToAdjacent(screen: Screen, choice: String, trimmed: String)
    ensures Select(screen, choice, trimmed).0 != screen ==> Adjacent(screen, Select(screen, choice, trimmed).0)
  {
  }

  /** The home and ledger menus accept their letters in either case. */
  lemma ChoiceIgnoresCase(screen: Screen, line: String)
    requires screen == Home || screen == Ledger
    ensures Step(screen, ToLower(line)) == Step(screen, line)
    ensures Step(screen, ToUpper(line)) == Step(screen, line)
  {
    TrimOfCase(line);
    UpperIgnoresCase(Trim(line));
  }

  /** Blanks, tabs and other code units up to U+0020 around a choice do not matter on any screen. */
  lemma ChoiceIgnoresBlanks(screen: Screen, pre: String, line: String, post: String)
    requires Blank(pre) && Blank(post)
    ensures Step(screen, pre + line + post) == Step(screen, line)
  {
    TrimOfSurrounded(pre, line, post);
  }
}

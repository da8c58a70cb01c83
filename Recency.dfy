/**
 * The ledger screen's ordering (LedgerApp.java, line 70): the loaded list is
 * sorted in place, newest first, by comparing the strings date + time with
 * String.compareTo.
 */
module Recency {
  import opened Wrappers
  import opened JavaStrings
  import opened Calendar
  import opened Transactions
  import opened Storage

  /** The sort key: the date text followed by the time text. */
  function Key(t: Transaction): String
  {
    t.date + t.time
  }

  /** `x` may stand before `y`: its key is not smaller. */
  predicate AtLeastAsRecent(x: Transaction, y: Transaction)
  {
    CompareTo(Key(y), Key(x)) <= 0
  }

  /** Keys never increase from front to back. */
  predicate NewestFirst(s: seq<Transaction>)
  {
    SortedBy(s, AtLeastAsRecent)
  }

  lemma AtLeastAsRecentTransitive(x: Transaction, y: Transaction, z: Transaction)
    requires AtLeastAsRecent(x, y) && AtLeastAsRecent(y, z)
    ensures AtLeastAsRecent(x, z)
  {
    CompareToTransitive(Key(z), Key(y), Key(x));
  }

  /** The comparator of line 70 orders every pair of entries, consistently. */
  lemma RecencyIsTotalPreorder()
    ensures TotalPreorder(AtLeastAsRecent)
  {
    forall x, y
      ensures AtLeastAsRecent(x, y) || AtLeastAsRecent(y, x)
    {
      CompareToAntisymmetric(Key(x), Key(y));
    }
    forall x, y, z | AtLeastAsRecent(x, y) && AtLeastAsRecent(y, z)
      ensures AtLeastAsRecent(x, z)
    {
      AtLeastAsRecentTransitive(x, y, z);
    }
  }

  /**
   * allTransactions.sort(..) with the comparator of line 70: afterwards the
   * array holds the same entries, newest first.
   */
  method SortByRecency(a: array<Transaction>)
    modifies a
    ensures NewestFirst(a[..])
    ensures multiset(a[..]) == multiset(old(a[..]))
  {
    RecencyIsTotalPreorder();
    InsertionSort(a, AtLeastAsRecent);
  }

  // ---------------------------------------------------------------------
  // List.sort with a comparator, as an insertion sort on an array
  // ---------------------------------------------------------------------

  /** `le` relates every pair one way or the other and is transitive. */
  ghost predicate TotalPreorder<T(!new)>(le: (T, T) -> bool)
  {
    (forall x, y :: le(x, y) || le(y, x)) &&
    (forall x, y, z :: le(x, y) && le(y, z) ==> le(x, z))
  }

  /** Every entry may stand before every later one. */
  predicate SortedBy<T>(s: seq<T>, le: (T, T) -> bool)
  {
    forall i, j :: 0 <= i < j < |s| ==> le(s[i], s[j])
  }

  /** Sorts `a` by `le`, keeping its entries. */
  method InsertionSort<T(!new)>(a: array<T>, le: (T, T) -> bool)
    requires TotalPreorder(le)
    modifies a
    ensures SortedBy(a[..], le)
    ensures multiset(a[..]) == multiset(old(a[..]))
  {
    var i := 0;
    while i < a.Length
      invariant 0 <= i <= a.Length
      invariant SortedBy(a[..i], le)
      invariant multiset(a[..]) == multiset(old(a[..]))
    {
      Insert(a, i, le);
      i := i + 1;
    }
  }

  /** s[..n + 1] is sorted apart from position j. */
  predicate SortedApartFrom<T>(s: seq<T>, n: nat, j: nat, le: (T, T) -> bool)
    requires n < |s|
  {
    forall k, l :: 0 <= k < l <= n && k != j && l != j ==> le(s[k], s[l])
  }

  /** s[j] may stand before every entry after it up to position n. */
  predicate AheadOfRest<T>(s: seq<T>, n: nat, j: nat, le: (T, T) -> bool)
    requires j <= n < |s|
  {
    forall l :: j < l <= n ==> le(s[j], s[l])
  }

  /** Before the first swap only the entry being inserted can be out of place. */
  lemma InsertionStart<T>(s: seq<T>, n: nat, le: (T, T) -> bool)
    requires n < |s| && SortedBy(s[..n], le)
    ensures SortedApartFrom(s, n, n, le) && AheadOfRest(s, n, n, le)
  {
    forall k, l | 0 <= k < l < n
      ensures le(s[k], s[l])
    {
      assert s[..n][k] == s[k] && s[..n][l] == s[l];
    }
  }

  /** Swapping an entry with one before it that may not precede it keeps the insertion invariant. */
  lemma SwapStep<T(!new)>(s: seq<T>, n: nat, j: nat, le: (T, T) -> bool)
    requires TotalPreorder(le)
    requires 0 < j <= n < |s|
    requires SortedApartFrom(s, n, j, le) && AheadOfRest(s, n, j, le)
    requires !le(s[j - 1], s[j])
    ensures var t := s[j - 1 := s[j]][j := s[j - 1]];
            SortedApartFrom(t, n, j - 1, le) && AheadOfRest(t, n, j - 1, le)
  {
    assert le(s[j], s[j - 1]);
  }

  /** Once the moved entry meets one that may precede it, the prefix is sorted. */
  lemma InsertionDone<T(!new)>(s: seq<T>, n: nat, j: nat, le: (T, T) -> bool)
    requires TotalPreorder(le)
    requires j <= n < |s|
    requires SortedApartFrom(s, n, j, le) && AheadOfRest(s, n, j, le)
    requires j == 0 || le(s[j - 1], s[j])
    ensures SortedBy(s[..n + 1], le)
  {
    if j > 0 {
      forall k | 0 <= k < j - 1
        ensures le(s[k], s[j])
      {
        assert le(s[k], s[j - 1]);
      }
    }
  }

  /** Swapping positions j - 1 and j of s[..n + 1] rearranges that prefix and leaves the rest alone. */
  lemma SwapWithinPrefix<T>(s: seq<T>, n: nat, j: nat)
    requires 0 < j <= n < |s|
    ensures var t := s[j - 1 := s[j]][j := s[j - 1]];
            multiset(t[..n + 1]) == multiset(s[..n + 1]) && t[n + 1..] == s[n + 1..]
  {
    var t := s[j - 1 := s[j]][j := s[j - 1]];
    assert t[..n + 1] == s[..n + 1][j - 1 := s[j]][j := s[j - 1]];
  }

  /**
   * Moves a[i] forward past every entry of the sorted prefix a[..i] that may
   * not precede it; the entries after position i stay where they are.
   */
  method Insert<T(!new)>(a: array<T>, i: nat, le: (T, T) -> bool)
    requires TotalPreorder(le)
    requires i < a.Length && SortedBy(a[..i], le)
    modifies a
    ensures SortedBy(a[..i + 1], le)
    ensures multiset(a[..i + 1]) == multiset(old(a[..i + 1]))
    ensures a[i + 1..] == old(a[i + 1..])
    ensures multiset(a[..]) == multiset(old(a[..]))
  {
    InsertionStart(a[..], i, le);
    var j := i;
    while j > 0 && !le(a[j - 1], a[j])
      invariant 0 <= j <= i
      invariant multiset(a[..i + 1]) == multiset(old(a[..i + 1]))
      invariant a[i + 1..] == old(a[i + 1..])
      invariant SortedApartFrom(a[..], i, j, le) && AheadOfRest(a[..], i, j, le)
    {
      ghost var s := a[..];
      SwapStep(s, i, j, le);
      SwapWithinPrefix(s, i, j);
      a[j - 1], a[j] := a[j], a[j - 1];
      assert a[..] == s[j - 1 := s[j]][j := s[j - 1]];
      j := j - 1;
    }
    InsertionDone(a[..], i, j, le);
    assert a[..] == a[..i + 1] + a[i + 1..];
    assert old(a[..]) == old(a[..i + 1]) + old(a[i + 1..]);
  }

  /**
   * The entries of a ledger screen: the loaded list sorted newest first, or
   * the load's failure. The sorted list holds exactly the loaded entries.
   */
  method LoadSorted(file: Option<seq<String>>) returns (r: Result<seq<Transaction>, LoadError>)
    ensures file.None? ==> r == Ok([])
    ensures file.Some? ==> (r.Err? <==> Load(file.value).Err?)
    ensures file.Some? && r.Err? ==> r == Load(file.value)
    ensures file.Some? && r.Ok? ==>
              NewestFirst(r.value) && multiset(r.value) == multiset(Load(file.value).value)
  {
    var loaded := LoadTransactions(file);
    if loaded.Err? {
      return Err(loaded.error);
    }
    var ts := loaded.value;
    var a := new Transaction[|ts|](i requires 0 <= i < |ts| => ts[i]);
    assert a[..] == ts;
    SortByRecency(a);
    r := Ok(a[..]);
  }

  /**
   * For entries whose date and time are well-formed ISO texts, newest first
   * by text is newest first in time.
   */
  lemma NewestFirstIsChronological(s: seq<Transaction>)
    requires forall i :: 0 <= i < |s| ==> IsStamp(s[i].date, s[i].time)
    ensures NewestFirst(s) <==>
            forall i, j :: 0 <= i < j < |s| ==> StampInstant(s[j].date, s[j].time) <= StampInstant(s[i].date, s[i].time)
  {
    forall i, j | 0 <= i < j < |s|
      ensures AtLeastAsRecent(s[i], s[j])
          <==> StampInstant(s[j].date, s[j].time) <= StampInstant(s[i].date, s[i].time)
    {
      TextOrderIsChronological(s[j].date, s[j].time, s[i].date, s[i].time);
    }
  }
}

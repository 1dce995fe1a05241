/**
  `FormHistoryDAL`: the history queries as functions of the table, and
  `create_form_entry` as a write through `BaseDAL.create`.
*/
module FormHistoryDal {
  import opened Wrappers
  import opened BaseDal
  import opened HistoryOrder
  import Text
  import Seqs

  /** `if first_name:` — a missing or empty name does not filter. */
  predicate NameMatches(filter: Option<string>, name: string) {
    filter.None? || filter.value == "" || name == filter.value
  }

  /** The WHERE clause shared by `get_filtered_history` and `count_filtered_history`. */
  predicate Matches(row: FormHistory, dateFilter: Date, firstName: Option<string>, lastName: Option<string>) {
    row.date <= dateFilter && NameMatches(firstName, row.firstName) && NameMatches(lastName, row.lastName)
  }

  /** The rows the WHERE clause selects, in table order. */
  function Matching(rows: seq<FormHistory>, dateFilter: Date, firstName: Option<string>, lastName: Option<string>)
    : (r: seq<FormHistory>)
    ensures forall x :: x in r <==> x in rows && Matches(x, dateFilter, firstName, lastName)
    ensures multiset(r) <= multiset(rows)
  {
    if rows == [] then []
    else
      var init, last := rows[..|rows| - 1], rows[|rows| - 1];
      assert rows == init + [last];
      var m := Matching(init, dateFilter, firstName, lastName);
      if Matches(last, dateFilter, firstName, lastName) then m + [last] else m
  }

  /** The first `limit` elements of `s` (SQL LIMIT). */
  function Take(s: seq<FormHistory>, limit: nat): (r: seq<FormHistory>)
    ensures |r| == if limit < |s| then limit else |s|
    ensures r == s[..|r|]
  {
    if limit < |s| then s[..limit] else s
  }

  /**
    `get_filtered_history`: the matching rows in history order, at most `limit`
    of them.
  */
  function GetFilteredHistory(rows: seq<FormHistory>, dateFilter: Date, firstName: Option<string>,
                              lastName: Option<string>, limit: nat): (r: seq<FormHistory>)
    ensures forall k :: 0 <= k < |r| ==> r[k] in rows && r[k].date <= dateFilter
    ensures forall k :: 0 <= k < |r| ==>
      NameMatches(firstName, r[k].firstName) && NameMatches(lastName, r[k].lastName)
    ensures Sorted(r)
    ensures |r| == if limit < CountFilteredHistory(rows, dateFilter, firstName, lastName) then limit
                   else CountFilteredHistory(rows, dateFilter, firstName, lastName)
  {
    var m := Matching(rows, dateFilter, firstName, lastName);
    var sorted := SortHistory(m);
    var r := Take(sorted, limit);
    assert forall k :: 0 <= k < |r| ==> r[k] in m by {
      forall k | 0 <= k < |r| ensures r[k] in m {
        assert r[k] == sorted[k] && sorted[k] in multiset(sorted);
      }
    }
    assert Sorted(r) by {
      forall i, j | 0 <= i < j < |r| ensures Precedes(r[i], r[j]) {
        assert r[i] == sorted[i] && r[j] == sorted[j];
      }
    }
    r
  }

  /** The page lists each matching row at most as often as the table holds it. */
  lemma PageFromMatches(rows: seq<FormHistory>, dateFilter: Date, firstName: Option<string>,
                        lastName: Option<string>, limit: nat)
    ensures multiset(GetFilteredHistory(rows, dateFilter, firstName, lastName, limit)) <=
            multiset(Matching(rows, dateFilter, firstName, lastName))
  {
    var sorted := SortHistory(Matching(rows, dateFilter, firstName, lastName));
    var page := GetFilteredHistory(rows, dateFilter, firstName, lastName, limit);
    assert sorted == page + sorted[|page|..];
  }

  /** `count_filtered_history`: how many rows the WHERE clause selects, with no limit. */
  function CountFilteredHistory(rows: seq<FormHistory>, dateFilter: Date, firstName: Option<string>,
                                lastName: Option<string>): (n: nat)
    ensures n <= |rows|
  {
    var m := Matching(rows, dateFilter, firstName, lastName);
    assert |multiset(m)| <= |multiset(rows)| by {
      MultisetSubsetCard(multiset(m), multiset(rows));
    }
    |m|
  }

  lemma MultisetSubsetCard<T>(a: multiset<T>, b: multiset<T>)
    requires a <= b
    ensures |a| <= |b|
  {
    assert b == a + (b - a);
  }

  /**
    The count follows the table row by row: an empty table counts 0, and a new
    row adds one exactly when it matches the filter.
  */
  lemma CountFilteredHistoryAppend(rows: seq<FormHistory>, x: FormHistory, dateFilter: Date,
                                   firstName: Option<string>, lastName: Option<string>)
    ensures CountFilteredHistory([], dateFilter, firstName, lastName) == 0
    ensures CountFilteredHistory(rows + [x], dateFilter, firstName, lastName) ==
      CountFilteredHistory(rows, dateFilter, firstName, lastName) + (if Matches(x, dateFilter, firstName, lastName) then 1 else 0)
  {
    assert (rows + [x])[..|rows|] == rows;
  }

  /**
    The page holds the first rows in history order: a matching row left off
    the page comes after every row on it, and when everything fits on the page
    nothing is left off.
  */
  lemma {:induction false} PageIsTopRows(rows: seq<FormHistory>, dateFilter: Date, firstName: Option<string>,
                                         lastName: Option<string>, limit: nat)
    ensures var page := GetFilteredHistory(rows, dateFilter, firstName, lastName, limit);
      forall x :: x in rows && Matches(x, dateFilter, firstName, lastName) && x !in page ==>
        forall k :: 0 <= k < |page| ==> Precedes(page[k], x)
    ensures CountFilteredHistory(rows, dateFilter, firstName, lastName) <= limit ==>
      multiset(GetFilteredHistory(rows, dateFilter, firstName, lastName, limit)) ==
      multiset(Matching(rows, dateFilter, firstName, lastName))
  {
    var m := Matching(rows, dateFilter, firstName, lastName);
    var sorted := SortHistory(m);
    var page := GetFilteredHistory(rows, dateFilter, firstName, lastName, limit);
    assert page == Take(sorted, limit);
    if |m| <= limit {
      assert page == sorted;
    }
    forall x | x in rows && Matches(x, dateFilter, firstName, lastName) && x !in page
      ensures forall k :: 0 <= k < |page| ==> Precedes(page[k], x)
    {
      assert x in multiset(sorted);
      TopRowsPrecedeRest(sorted, |page|, x);
    }
  }

  /** In a sorted list, the first `n` elements precede every element not among them. */
  lemma TopRowsPrecedeRest(sorted: seq<FormHistory>, n: nat, x: FormHistory)
    requires Sorted(sorted) && n <= |sorted|
    requires x in sorted && x !in sorted[..n]
    ensures forall k :: 0 <= k < n ==> Precedes(sorted[k], x)
  {
    var j :| 0 <= j < |sorted| && sorted[j] == x;
    assert j >= n;
  }

  /** A missing name filter and an empty one select the same rows. */
  lemma EmptyNameIsNoFilter(rows: seq<FormHistory>, dateFilter: Date, firstName: Option<string>,
                            lastName: Option<string>, limit: nat)
    ensures GetFilteredHistory(rows, dateFilter, Some(""), lastName, limit) ==
            GetFilteredHistory(rows, dateFilter, None, lastName, limit)
    ensures GetFilteredHistory(rows, dateFilter, firstName, Some(""), limit) ==
            GetFilteredHistory(rows, dateFilter, firstName, None, limit)
    ensures CountFilteredHistory(rows, dateFilter, Some(""), Some("")) ==
            CountFilteredHistory(rows, dateFilter, None, None)
  {
    MatchingEmptyName(rows, dateFilter, firstName, lastName);
  }

  lemma MatchingEmptyName(rows: seq<FormHistory>, dateFilter: Date, firstName: Option<string>,
                          lastName: Option<string>)
    ensures Matching(rows, dateFilter, Some(""), lastName) == Matching(rows, dateFilter, None, lastName)
    ensures Matching(rows, dateFilter, firstName, Some("")) == Matching(rows, dateFilter, firstName, None)
    ensures Matching(rows, dateFilter, Some(""), Some("")) == Matching(rows, dateFilter, None, None)
  {
    MatchingSameFilter(rows, dateFilter, Some(""), lastName, None, lastName);
    MatchingSameFilter(rows, dateFilter, firstName, Some(""), firstName, None);
    MatchingSameFilter(rows, dateFilter, Some(""), Some(""), None, None);
  }

  /** Two filters that accept the same rows select the same rows. */
  lemma {:induction false} MatchingSameFilter(rows: seq<FormHistory>, dateFilter: Date,
                                              f1: Option<string>, l1: Option<string>, f2: Option<string>, l2: Option<string>)
    requires forall x :: Matches(x, dateFilter, f1, l1) == Matches(x, dateFilter, f2, l2)
    ensures Matching(rows, dateFilter, f1, l1) == Matching(rows, dateFilter, f2, l2)
  {
    if rows != [] {
      MatchingSameFilter(rows[..|rows| - 1], dateFilter, f1, l1, f2, l2);
    }
  }

  /** A row is an earlier entry of the same person. */
  predicate IsPrevious(row: FormHistory, recordDate: Date, firstName: string, lastName: string) {
    row.firstName == firstName && row.lastName == lastName && row.date < recordDate
  }

  /** `count_previous_entries`: rows with the same name pair and a strictly earlier date. */
  function CountPreviousEntries(rows: seq<FormHistory>, recordDate: Date, firstName: string, lastName: string)
    : (n: nat)
    ensures n <= |rows|
    ensures n == 0 <==> forall k :: 0 <= k < |rows| ==> !IsPrevious(rows[k], recordDate, firstName, lastName)
  {
    if rows == [] then 0
    else
      var init := rows[..|rows| - 1];
      assert forall k :: 0 <= k < |init| ==> init[k] == rows[k];
      CountPreviousEntries(init, recordDate, firstName, lastName)
        + (if IsPrevious(rows[|rows| - 1], recordDate, firstName, lastName) then 1 else 0)
  }

  /** The rows of one person, in table order. */
  function PairEntries(rows: seq<FormHistory>, firstName: string, lastName: string): (r: seq<FormHistory>)
    ensures forall k :: 0 <= k < |r| ==> r[k].firstName == firstName && r[k].lastName == lastName
  {
    if rows == [] then []
    else
      var e := PairEntries(rows[..|rows| - 1], firstName, lastName);
      var last := rows[|rows| - 1];
      if last.firstName == firstName && last.lastName == lastName then e + [last] else e
  }

  /** Counting previous entries looks only at the person's own rows. */
  lemma {:induction false} CountPreviousOwnRows(rows: seq<FormHistory>, recordDate: Date, firstName: string, lastName: string)
    ensures CountPreviousEntries(rows, recordDate, firstName, lastName) ==
            CountPreviousEntries(PairEntries(rows, firstName, lastName), recordDate, firstName, lastName)
  {
    if rows != [] {
      var init := rows[..|rows| - 1];
      CountPreviousOwnRows(init, recordDate, firstName, lastName);
      var e := PairEntries(init, firstName, lastName);
      var last := rows[|rows| - 1];
      if last.firstName == firstName && last.lastName == lastName {
        assert (e + [last])[..|e|] == e;
      }
    }
  }

  /** Rows all dated before `recordDate` are all previous entries. */
  lemma {:induction false} CountPreviousAllEarlier(entries: seq<FormHistory>, recordDate: Date, firstName: string, lastName: string)
    requires forall k :: 0 <= k < |entries| ==>
      entries[k].firstName == firstName && entries[k].lastName == lastName && entries[k].date < recordDate
    ensures CountPreviousEntries(entries, recordDate, firstName, lastName) == |entries|
  {
    if entries != [] {
      CountPreviousAllEarlier(entries[..|entries| - 1], recordDate, firstName, lastName);
    }
  }

  /** In a strictly chronological list of one person's rows, the entry at `i` has `i` earlier ones. */
  lemma {:induction false} CountPreviousRankInEntries(entries: seq<FormHistory>, i: nat, firstName: string, lastName: string)
    requires i < |entries|
    requires forall k :: 0 <= k < |entries| ==> entries[k].firstName == firstName && entries[k].lastName == lastName
    requires forall a, b :: 0 <= a < b < |entries| ==> entries[a].date < entries[b].date
    ensures CountPreviousEntries(entries, entries[i].date, firstName, lastName) == i
  {
    var n := |entries|;
    var init := entries[..n - 1];
    if i == n - 1 {
      CountPreviousAllEarlier(init, entries[i].date, firstName, lastName);
    } else {
      CountPreviousRankInEntries(init, i, firstName, lastName);
    }
  }

  /** Counting previous entries adds up over the two parts of a table. */
  lemma {:induction false} CountPreviousConcat(a: seq<FormHistory>, b: seq<FormHistory>, recordDate: Date,
                                               firstName: string, lastName: string)
    ensures CountPreviousEntries(a + b, recordDate, firstName, lastName) ==
            CountPreviousEntries(a, recordDate, firstName, lastName) +
            CountPreviousEntries(b, recordDate, firstName, lastName)
    decreases |b|
  {
    if b == [] {
      assert a + b == a;
    } else {
      var init := b[..|b| - 1];
      CountPreviousConcat(a, init, recordDate, firstName, lastName);
      assert (a + b)[..|a + b| - 1] == a + init;
    }
  }

  /** Taking the row at `j` out of a table takes its own contribution out of the count. */
  lemma CountPreviousRemove(rows: seq<FormHistory>, j: nat, recordDate: Date, firstName: string, lastName: string)
    requires j < |rows|
    ensures CountPreviousEntries(rows, recordDate, firstName, lastName) ==
            CountPreviousEntries(rows[..j] + rows[j + 1..], recordDate, firstName, lastName) +
            CountPreviousEntries([rows[j]], recordDate, firstName, lastName)
  {
    var before, after := rows[..j], rows[j + 1..];
    Seqs.RemoveAt(rows, j);
    CountPreviousConcat(before, [rows[j]], recordDate, firstName, lastName);
    CountPreviousConcat(before + [rows[j]], after, recordDate, firstName, lastName);
    CountPreviousConcat(before, after, recordDate, firstName, lastName);
  }

  /** The count does not depend on the order the rows are stored in. */
  lemma {:induction false} CountPreviousPermutation(a: seq<FormHistory>, b: seq<FormHistory>, recordDate: Date,
                                                    firstName: string, lastName: string)
    requires multiset(a) == multiset(b)
    ensures CountPreviousEntries(a, recordDate, firstName, lastName) ==
            CountPreviousEntries(b, recordDate, firstName, lastName)
    decreases |a|
  {
    if a == [] {
      assert |multiset(b)| == 0;
    } else {
      var i := |a| - 1;
      assert a[i] in multiset(b);
      var j :| 0 <= j < |b| && b[j] == a[i];
      Seqs.RemoveAt(a, i);
      Seqs.RemoveAt(b, j);
      CountPreviousPermutation(a[..i] + a[i + 1..], b[..j] + b[j + 1..], recordDate, firstName, lastName);
      CountPreviousRemove(a, i, recordDate, firstName, lastName);
      CountPreviousRemove(b, j, recordDate, firstName, lastName);
    }
  }

  /**
    The earliest entry of a person counts 0 previous entries and the N-th one
    counts N-1: `entries` lists the person's rows in strictly increasing date
    order, whatever order the table stores them in.
  */
  lemma CountPreviousRank(rows: seq<FormHistory>, entries: seq<FormHistory>, i: nat, firstName: string, lastName: string)
    requires multiset(entries) == multiset(PairEntries(rows, firstName, lastName))
    requires forall a, b :: 0 <= a < b < |entries| ==> entries[a].date < entries[b].date
    requires i < |entries|
    ensures CountPreviousEntries(rows, entries[i].date, firstName, lastName) == i
  {
    var e := PairEntries(rows, firstName, lastName);
    CountPreviousOwnRows(rows, entries[i].date, firstName, lastName);
    CountPreviousPermutation(e, entries, entries[i].date, firstName, lastName);
    forall k | 0 <= k < |entries| ensures entries[k].firstName == firstName && entries[k].lastName == lastName {
      assert entries[k] in multiset(e);
    }
    CountPreviousRankInEntries(entries, i, firstName, lastName);
  }

  /** A later date never counts fewer previous entries. */
  lemma {:induction false} CountPreviousMonotone(rows: seq<FormHistory>, d1: Date, d2: Date, firstName: string, lastName: string)
    requires d1 <= d2
    ensures CountPreviousEntries(rows, d1, firstName, lastName) <= CountPreviousEntries(rows, d2, firstName, lastName)
  {
    if rows != [] {
      CountPreviousMonotone(rows[..|rows| - 1], d1, d2, firstName, lastName);
    }
  }

  /**
    `get_filtered_history_with_counts`, called by GetHistory but absent from the
    DAL: each row of the page paired with its count of previous entries.
  */
  function GetFilteredHistoryWithCounts(rows: seq<FormHistory>, dateFilter: Date, firstName: Option<string>,
                                        lastName: Option<string>, limit: nat): (r: seq<(FormHistory, nat)>)
    ensures var page := GetFilteredHistory(rows, dateFilter, firstName, lastName, limit);
      |r| == |page| &&
      forall k :: 0 <= k < |r| ==>
        r[k].0 == page[k] && r[k].1 == CountPreviousEntries(rows, page[k].date, page[k].firstName, page[k].lastName)
  {
    var page := GetFilteredHistory(rows, dateFilter, firstName, lastName, limit);
    seq(|page|, k requires 0 <= k < |page| =>
      (page[k], CountPreviousEntries(rows, page[k].date, page[k].firstName, page[k].lastName)))
  }

  /** The non-empty names of a column, each once, in order of first appearance. */
  function DistinctNonEmpty(names: seq<string>): (r: seq<string>)
    ensures forall n :: n in r <==> n in names && n != ""
    ensures forall i, j :: 0 <= i < j < |r| ==> r[i] != r[j]
  {
    Text.Dedup(NonEmpty(names))
  }

  function NonEmpty(names: seq<string>): (r: seq<string>)
    ensures forall n :: n in r <==> n in names && n != ""
  {
    if names == [] then []
    else
      assert forall n :: n in names <==> n == names[0] || n in names[1..];
      if names[0] == "" then NonEmpty(names[1..]) else [names[0]] + NonEmpty(names[1..])
  }

  /** `get_unique_first_names`: every stored non-empty first name, once. */
  function GetUniqueFirstNames(rows: seq<FormHistory>): (r: seq<string>)
    ensures forall n :: n in r <==> n != "" && exists k :: 0 <= k < |rows| && rows[k].firstName == n
    ensures forall i, j :: 0 <= i < j < |r| ==> r[i] != r[j]
  {
    var names := seq(|rows|, k requires 0 <= k < |rows| => rows[k].firstName);
    assert forall n :: n in names <==> exists k :: 0 <= k < |rows| && rows[k].firstName == n by {
      forall n | n in names ensures exists k :: 0 <= k < |rows| && rows[k].firstName == n {
        var k :| 0 <= k < |names| && names[k] == n;
      }
      forall k | 0 <= k < |rows| ensures rows[k].firstName in names {
        assert names[k] == rows[k].firstName;
      }
    }
    DistinctNonEmpty(names)
  }

  /** `get_unique_last_names`: every stored non-empty last name, once. */
  function GetUniqueLastNames(rows: seq<FormHistory>): (r: seq<string>)
    ensures forall n :: n in r <==> n != "" && exists k :: 0 <= k < |rows| && rows[k].lastName == n
    ensures forall i, j :: 0 <= i < j < |r| ==> r[i] != r[j]
  {
    var names := seq(|rows|, k requires 0 <= k < |rows| => rows[k].lastName);
    assert forall n :: n in names <==> exists k :: 0 <= k < |rows| && rows[k].lastName == n by {
      forall n | n in names ensures exists k :: 0 <= k < |rows| && rows[k].lastName == n {
        var k :| 0 <= k < |names| && names[k] == n;
      }
      forall k | 0 <= k < |rows| ensures rows[k].lastName in names {
        assert names[k] == rows[k].lastName;
      }
    }
    DistinctNonEmpty(names)
  }

  /** `after` is `before` with one entry appended: the given date and names, and an id not used before. */
  predicate EntryAppended(before: seq<FormHistory>, after: seq<FormHistory>, date: Date, firstName: string,
                          lastName: string) {
    |after| == |before| + 1 && after[..|before|] == before &&
    after[|before|].date == date && after[|before|].firstName == firstName &&
    after[|before|].lastName == lastName && after[|before|].id !in Ids(before)
  }

  /** `create_form_entry`: one new row with the given date and names; nothing else changes. */
  method CreateFormEntry(dal: BaseDAL, date: Date, firstName: string, lastName: string)
    returns (r: Result<FormHistory, StorageError>)
    requires dal.Valid()
    modifies dal
    ensures dal.Valid()
    ensures dal.committed == old(dal.committed) && dal.available == old(dal.available)
    ensures dal.defaultOrderBy == old(dal.defaultOrderBy)
    ensures old(dal.available) ==> r.Success? && dal.rows == old(dal.rows) + [r.value]
    ensures r.Success? ==> r.value.date == date && r.value.firstName == firstName && r.value.lastName == lastName
    ensures r.Success? ==> r.value.id !in Ids(old(dal.rows))
    ensures !old(dal.available) ==> r.Failure? && dal.rows == old(dal.rows)
  {
    r := dal.Create(date, firstName, lastName);
  }
}

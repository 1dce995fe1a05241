/**
  The ORDER BY of the history query: date descending, then first name
  ascending, then last name ascending, with strings compared
  lexicographically. Sorting is a stable insertion sort, so rows that agree on
  all three columns keep their table order.
*/
module HistoryOrder {
  import Text
  import opened BaseDal

  /** A row with columns (aDate, aFirst, aLast) may be listed before one with (bDate, bFirst, bLast). */
  predicate KeyPrecedes(aDate: Date, aFirst: string, aLast: string, bDate: Date, bFirst: string, bLast: string) {
    aDate > bDate ||
    (aDate == bDate &&
      ((aFirst != bFirst && Text.StrLe(aFirst, bFirst)) ||
       (aFirst == bFirst && Text.StrLe(aLast, bLast))))
  }

  /** `a` may be listed before `b`. */
  predicate Precedes(a: FormHistory, b: FormHistory) {
    KeyPrecedes(a.date, a.firstName, a.lastName, b.date, b.firstName, b.lastName)
  }

  lemma PrecedesTotal(a: FormHistory, b: FormHistory)
    ensures Precedes(a, b) || Precedes(b, a)
  {
    Text.StrLeTotal(a.firstName, b.firstName);
    Text.StrLeTotal(a.lastName, b.lastName);
  }

  lemma PrecedesTransitive(a: FormHistory, b: FormHistory, c: FormHistory)
    requires Precedes(a, b) && Precedes(b, c)
    ensures Precedes(a, c)
  {
    if a.date == b.date == c.date {
      if a.firstName == b.firstName == c.firstName {
        Text.StrLeTransitive(a.lastName, b.lastName, c.lastName);
      } else if a.firstName != b.firstName && b.firstName != c.firstName {
        Text.StrLeTransitive(a.firstName, b.firstName, c.firstName);
        if a.firstName == c.firstName {
          Text.StrLeAntisymmetric(a.firstName, b.firstName);
        }
      }
    }
  }

  predicate Sorted(s: seq<FormHistory>) {
    forall i, j :: 0 <= i < j < |s| ==> Precedes(s[i], s[j])
  }

  /** A head that precedes every element of a sorted tail gives a sorted sequence. */
  lemma SortedCons(h: FormHistory, t: seq<FormHistory>)
    requires Sorted(t)
    requires forall k :: 0 <= k < |t| ==> Precedes(h, t[k])
    ensures Sorted([h] + t)
  {
    var s := [h] + t;
    forall i, j | 0 <= i < j < |s| ensures Precedes(s[i], s[j]) {
      if i > 0 { assert s[i] == t[i - 1] && s[j] == t[j - 1]; } else { assert s[j] == t[j - 1]; }
    }
  }

  /** `x` placed in front of the first element it precedes. */
  function Insert(x: FormHistory, s: seq<FormHistory>): (r: seq<FormHistory>)
    requires Sorted(s)
    ensures Sorted(r)
    ensures multiset(r) == multiset(s) + multiset{x}
  {
    if s == [] then [x]
    else if Precedes(x, s[0]) then
      assert forall k :: 0 <= k < |s| ==> Precedes(x, s[k]) by {
        forall k | 0 <= k < |s| ensures Precedes(x, s[k]) {
          if k > 0 { PrecedesTransitive(x, s[0], s[k]); }
        }
      }
      SortedCons(x, s);
      [x] + s
    else
      assert s == [s[0]] + s[1..];
      var t := Insert(x, s[1..]);
      assert forall k :: 0 <= k < |t| ==> Precedes(s[0], t[k]) by {
        PrecedesTotal(x, s[0]);
        forall k | 0 <= k < |t| ensures Precedes(s[0], t[k]) {
          assert t[k] in multiset(t);
          if t[k] != x {
            assert t[k] in multiset(s[1..]);
            var m :| 0 <= m < |s[1..]| && s[1..][m] == t[k];
            assert s[m + 1] == t[k];
          }
        }
      }
      SortedCons(s[0], t);
      [s[0]] + t
  }

  /** The rows in history order. */
  function SortHistory(s: seq<FormHistory>): (r: seq<FormHistory>)
    ensures Sorted(r)
    ensures multiset(r) == multiset(s)
    ensures |r| == |s|
  {
    if s == [] then []
    else
      assert s == [s[0]] + s[1..];
      Insert(s[0], SortHistory(s[1..]))
  }
}

/** The leaderboard service: storing submitted scores and the ranking query that reads them. */
module Leaderboard {
  import opened JsValues
  import Validate

  /** A row of the `leaderboard` table; `isPinned` holds the integer the insert writes. */
  datatype Row = Row(name: string, score: int, isPinned: int, createdAt: int)

  /** A row of the ranking query's result: a name and the best score stored under it. */
  datatype Entry = Entry(name: string, score: int)

  const DefaultLimit := 10

  /** `safeLimit`: the requested limit when it is a positive integer, the default otherwise. */
  function SafeLimit(limit: Number): (k: int)
    ensures k > 0
    ensures limit.Integer? && limit.value > 0 ==> k == limit.value
    ensures limit.NonInteger? || limit.value <= 0 ==> k == DefaultLimit
  {
    if limit.Integer? && limit.value > 0 then limit.value else DefaultLimit
  }

  /* ----- what the query promises ----- */

  function RowNames(rows: seq<Row>): set<string> {
    set i | 0 <= i < |rows| :: rows[i].name
  }

  function EntryNames(es: seq<Entry>): set<string> {
    set i | 0 <= i < |es| :: es[i].name
  }

  /** `s` is `MAX(score)` over the rows stored under `name`. */
  ghost predicate IsBest(rows: seq<Row>, name: string, s: int) {
    && (exists i :: 0 <= i < |rows| && rows[i].name == name && rows[i].score == s)
    && (forall i :: 0 <= i < |rows| && rows[i].name == name ==> rows[i].score <= s)
  }

  predicate DistinctNames(es: seq<Entry>) {
    forall i, j :: 0 <= i < j < |es| ==> es[i].name != es[j].name
  }

  predicate NonIncreasing(es: seq<Entry>) {
    forall i, j :: 0 <= i < j < |es| ==> es[i].score >= es[j].score
  }

  /** What `SELECT name, MAX(score) ... GROUP BY name ORDER BY MAX(score) DESC LIMIT k` may
      return: at most k rows, one per name, each with that name's best score, best first,
      and no name left out unless the result is full and that name scores no higher than
      the last row returned. The order among equal scores is left open. */
  ghost predicate IsRanking(rows: seq<Row>, k: int, top: seq<Entry>) {
    && |top| <= k
    && DistinctNames(top)
    && (forall e :: e in top ==> IsBest(rows, e.name, e.score))
    && NonIncreasing(top)
    && (forall i :: 0 <= i < |rows| && rows[i].name !in EntryNames(top) ==>
          0 < |top| == k && rows[i].score <= top[|top| - 1].score)
  }

  /* ----- one way of computing it: group, sort, take ----- */

  function Max(a: int, b: int): int { if a < b then b else a }

  /** Folds one row into the per-name maxima. */
  function Upsert(es: seq<Entry>, r: Row): seq<Entry> {
    if es == [] then [Entry(r.name, r.score)]
    else if es[0].name == r.name then [Entry(r.name, Max(es[0].score, r.score))] + es[1..]
    else [es[0]] + Upsert(es[1..], r)
  }

  /** `GROUP BY name` with `MAX(score)`, names in order of first appearance. */
  function Group(rows: seq<Row>): seq<Entry> {
    if rows == [] then [] else Upsert(Group(rows[..|rows| - 1]), rows[|rows| - 1])
  }

  function InsertDesc(e: Entry, s: seq<Entry>): seq<Entry> {
    if s == [] || s[0].score <= e.score then [e] + s
    else [s[0]] + InsertDesc(e, s[1..])
  }

  /** `ORDER BY MAX(score) DESC`. */
  function SortDesc(s: seq<Entry>): seq<Entry> {
    if s == [] then [] else InsertDesc(s[0], SortDesc(s[1..]))
  }

  /** The ranking query over the whole table for a positive limit `k`. */
  function Top(rows: seq<Row>, k: int): (top: seq<Entry>)
    requires k > 0
    ensures IsRanking(rows, k, top)
  {
    TopIsRanking(rows, k);
    var sorted := SortDesc(Group(rows));
    if |sorted| <= k then sorted else sorted[..k]
  }

  /* ----- proofs ----- */

  lemma EntryNamesCons(e: Entry, es: seq<Entry>)
    ensures EntryNames([e] + es) == {e.name} + EntryNames(es)
  {
    var s := [e] + es;
    forall n | n in EntryNames(s) ensures n in {e.name} + EntryNames(es) {
      var i :| 0 <= i < |s| && s[i].name == n;
      if i > 0 { assert es[i - 1] == s[i]; }
    }
    forall n | n in EntryNames(es) ensures n in EntryNames(s) {
      var i :| 0 <= i < |es| && es[i].name == n;
      assert s[i + 1] == es[i];
    }
    assert s[0] == e;
  }

  lemma DistinctCons(e: Entry, es: seq<Entry>)
    requires DistinctNames(es) && e.name !in EntryNames(es)
    ensures DistinctNames([e] + es)
  {
  }

  lemma HeadNameNotInTail(es: seq<Entry>)
    requires |es| > 0 && DistinctNames(es)
    ensures es[0].name !in EntryNames(es[1..])
  {
  }

  lemma {:induction false} UpsertNames(es: seq<Entry>, r: Row)
    requires DistinctNames(es)
    ensures DistinctNames(Upsert(es, r))
    ensures EntryNames(Upsert(es, r)) == EntryNames(es) + {r.name}
  {
    if es == [] {
      EntryNamesCons(Entry(r.name, r.score), []);
    } else {
      var tail := es[1..];
      assert es == [es[0]] + tail;
      EntryNamesCons(es[0], tail);
      HeadNameNotInTail(es);
      if es[0].name == r.name {
        EntryNamesCons(Entry(r.name, Max(es[0].score, r.score)), tail);
        DistinctCons(Entry(r.name, Max(es[0].score, r.score)), tail);
      } else {
        UpsertNames(tail, r);
        EntryNamesCons(es[0], Upsert(tail, r));
        DistinctCons(es[0], Upsert(tail, r));
      }
    }
  }

  /** Upsert leaves other names' entries alone and gives the row's name its old score raised
      to the row's, or the row's score when the name is new. */
  lemma {:induction false} UpsertMembers(es: seq<Entry>, r: Row)
    requires DistinctNames(es)
    ensures forall e :: e in Upsert(es, r) && e.name != r.name ==> e in es
    ensures forall e :: e in Upsert(es, r) && e.name == r.name ==>
              (r.name !in EntryNames(es) && e.score == r.score) ||
              (exists x :: x in es && x.name == r.name && e.score == Max(x.score, r.score))
  {
    if es != [] && es[0].name != r.name {
      var tail := es[1..];
      assert DistinctNames(tail);
      UpsertMembers(tail, r);
      assert es == [es[0]] + tail;
      EntryNamesCons(es[0], tail);
      forall x | x in tail ensures x in es { }
    } else if es != [] {
      assert es[0] in es;
      HeadNameNotInTail(es);
      forall e | e in es[1..] ensures e in es && e.name != r.name {
        var j :| 0 <= j < |es[1..]| && es[1..][j] == e;
        assert e.name in EntryNames(es[1..]);
      }
    } else {
      EntryNamesCons(Entry(r.name, r.score), []);
    }
  }

  lemma KeepBest(rows: seq<Row>, r: Row, name: string, s: int)
    requires IsBest(rows, name, s) && name != r.name
    ensures IsBest(rows + [r], name, s)
  {
    var i :| 0 <= i < |rows| && rows[i].name == name && rows[i].score == s;
    assert (rows + [r])[i] == rows[i];
  }

  lemma RaiseBest(rows: seq<Row>, r: Row, s: int)
    requires IsBest(rows, r.name, s)
    ensures IsBest(rows + [r], r.name, Max(s, r.score))
  {
    var rows' := rows + [r];
    var i :| 0 <= i < |rows| && rows[i].name == r.name && rows[i].score == s;
    assert rows'[i] == rows[i] && rows'[|rows|] == r;
    forall j | 0 <= j < |rows'| && rows'[j].name == r.name ensures rows'[j].score <= Max(s, r.score) {
      if j < |rows| { assert rows'[j] == rows[j]; }
    }
  }

  lemma FirstBest(rows: seq<Row>, r: Row)
    requires r.name !in RowNames(rows)
    ensures IsBest(rows + [r], r.name, r.score)
  {
    var rows' := rows + [r];
    assert rows'[|rows|] == r;
    assert forall i :: 0 <= i < |rows| ==> rows[i].name in RowNames(rows);
  }

  lemma UpsertCorrect(rows: seq<Row>, es: seq<Entry>, r: Row)
    requires DistinctNames(es)
    requires forall e :: e in es ==> IsBest(rows, e.name, e.score)
    requires r.name in RowNames(rows) ==> r.name in EntryNames(es)
    ensures DistinctNames(Upsert(es, r))
    ensures EntryNames(Upsert(es, r)) == EntryNames(es) + {r.name}
    ensures forall e :: e in Upsert(es, r) ==> IsBest(rows + [r], e.name, e.score)
  {
    UpsertNames(es, r);
    UpsertMembers(es, r);
    forall e | e in Upsert(es, r) ensures IsBest(rows + [r], e.name, e.score) {
      if e.name != r.name {
        KeepBest(rows, r, e.name, e.score);
      } else if r.name !in EntryNames(es) && e.score == r.score {
        FirstBest(rows, r);
      } else {
        var x :| x in es && x.name == r.name && e.score == Max(x.score, r.score);
        RaiseBest(rows, r, x.score);
      }
    }
  }

  /** Grouping keeps one entry per stored name, carrying that name's best score. */
  lemma {:induction false} GroupCorrect(rows: seq<Row>)
    ensures DistinctNames(Group(rows))
    ensures EntryNames(Group(rows)) == RowNames(rows)
    ensures forall e :: e in Group(rows) ==> IsBest(rows, e.name, e.score)
  {
    if rows != [] {
      var init, r := rows[..|rows| - 1], rows[|rows| - 1];
      GroupCorrect(init);
      assert rows == init + [r];
      UpsertCorrect(init, Group(init), r);
      forall n | n in RowNames(rows) ensures n in RowNames(init) + {r.name} {
        var i :| 0 <= i < |rows| && rows[i].name == n;
        if i < |init| { assert init[i] == rows[i]; }
      }
      forall n | n in RowNames(init) ensures n in RowNames(rows) {
        var i :| 0 <= i < |init| && init[i].name == n;
        assert rows[i] == init[i];
      }
      assert rows[|rows| - 1] == r;
    }
  }

  lemma NonIncreasingCons(x: Entry, t: seq<Entry>)
    requires NonIncreasing(t)
    requires forall j :: 0 <= j < |t| ==> t[j].score <= x.score
    ensures NonIncreasing([x] + t)
  {
  }

  lemma {:induction false} InsertDescPermutes(e: Entry, s: seq<Entry>)
    ensures multiset(InsertDesc(e, s)) == multiset{e} + multiset(s)
  {
    if !(s == [] || s[0].score <= e.score) {
      InsertDescPermutes(e, s[1..]);
      assert s == [s[0]] + s[1..];
    }
  }

  lemma {:induction false} InsertDescNames(e: Entry, s: seq<Entry>)
    requires DistinctNames(s) && e.name !in EntryNames(s)
    ensures DistinctNames(InsertDesc(e, s))
    ensures EntryNames(InsertDesc(e, s)) == {e.name} + EntryNames(s)
  {
    if s == [] || s[0].score <= e.score {
      EntryNamesCons(e, s);
      DistinctCons(e, s);
    } else {
      var tail := s[1..];
      assert s == [s[0]] + tail;
      EntryNamesCons(s[0], tail);
      InsertDescNames(e, tail);
      var rest := InsertDesc(e, tail);
      EntryNamesCons(s[0], rest);
      HeadNameNotInTail(s);
      DistinctCons(s[0], rest);
    }
  }

  lemma {:induction false} InsertDescSorted(e: Entry, s: seq<Entry>)
    requires NonIncreasing(s)
    ensures NonIncreasing(InsertDesc(e, s))
  {
    if s == [] || s[0].score <= e.score {
      NonIncreasingCons(e, s);
    } else {
      var tail := s[1..];
      InsertDescSorted(e, tail);
      InsertDescPermutes(e, tail);
      var rest := InsertDesc(e, tail);
      forall j | 0 <= j < |rest| ensures rest[j].score <= s[0].score {
        assert rest[j] in multiset(rest);
        if rest[j] != e {
          assert rest[j] in multiset(tail);
          var t :| 0 <= t < |tail| && tail[t] == rest[j];
          assert s[t + 1] == tail[t];
        }
      }
      NonIncreasingCons(s[0], rest);
    }
  }

  lemma {:induction false} SortDescCorrect(s: seq<Entry>)
    requires DistinctNames(s)
    ensures NonIncreasing(SortDesc(s))
    ensures DistinctNames(SortDesc(s))
    ensures EntryNames(SortDesc(s)) == EntryNames(s)
    ensures multiset(SortDesc(s)) == multiset(s)
  {
    if s != [] {
      var tail := s[1..];
      assert s == [s[0]] + tail;
      EntryNamesCons(s[0], tail);
      assert DistinctNames(tail);
      SortDescCorrect(tail);
      HeadNameNotInTail(s);
      InsertDescNames(s[0], SortDesc(tail));
      InsertDescSorted(s[0], SortDesc(tail));
      InsertDescPermutes(s[0], SortDesc(tail));
    }
  }

  lemma PrefixKeepsOrder(rows: seq<Row>, sorted: seq<Entry>, n: int)
    requires 0 <= n <= |sorted| && NonIncreasing(sorted) && DistinctNames(sorted)
    requires forall e :: e in sorted ==> IsBest(rows, e.name, e.score)
    ensures NonIncreasing(sorted[..n]) && DistinctNames(sorted[..n])
    ensures forall e :: e in sorted[..n] ==> IsBest(rows, e.name, e.score)
  {
    assert forall e :: e in sorted[..n] ==> e in sorted;
  }

  /** Cutting the sorted groups after n leaves out only names that score no higher than the
      last one kept, and only when n is the limit. */
  lemma PrefixIsComplete(rows: seq<Row>, sorted: seq<Entry>, k: int, n: int)
    requires k > 0 && NonIncreasing(sorted)
    requires EntryNames(sorted) == RowNames(rows)
    requires forall e :: e in sorted ==> IsBest(rows, e.name, e.score)
    requires n == k <= |sorted| || n == |sorted| <= k
    ensures forall i :: 0 <= i < |rows| && rows[i].name !in EntryNames(sorted[..n]) ==>
              0 < n == k && rows[i].score <= sorted[n - 1].score
  {
    var top := sorted[..n];
    assert forall t :: 0 <= t < n ==> top[t] == sorted[t] && top[t].name in EntryNames(top);
    forall i | 0 <= i < |rows| && rows[i].name !in EntryNames(top)
      ensures 0 < n == k && rows[i].score <= sorted[n - 1].score
    {
      assert rows[i].name in RowNames(rows);
      var j :| 0 <= j < |sorted| && sorted[j].name == rows[i].name;
      assert n <= j;
      assert sorted[j] in sorted;
    }
  }

  /** The first n of the sorted groups form a ranking for limit k, when n is k or all of them. */
  lemma PrefixIsRanking(rows: seq<Row>, sorted: seq<Entry>, k: int, n: int)
    requires k > 0 && NonIncreasing(sorted) && DistinctNames(sorted)
    requires EntryNames(sorted) == RowNames(rows)
    requires forall e :: e in sorted ==> IsBest(rows, e.name, e.score)
    requires n == k <= |sorted| || n == |sorted| <= k
    ensures IsRanking(rows, k, sorted[..n])
  {
    PrefixKeepsOrder(rows, sorted, n);
    PrefixIsComplete(rows, sorted, k, n);
  }

  lemma TopIsRanking(rows: seq<Row>, k: int)
    requires k > 0
    ensures var sorted := SortDesc(Group(rows));
            IsRanking(rows, k, if |sorted| <= k then sorted else sorted[..k])
  {
    var grouped := Group(rows);
    GroupCorrect(rows);
    SortDescCorrect(grouped);
    var sorted := SortDesc(grouped);
    forall e | e in sorted ensures IsBest(rows, e.name, e.score) {
      assert e in multiset(sorted);
    }
    if |sorted| <= k {
      PrefixIsRanking(rows, sorted, k, |sorted|);
      assert sorted[..|sorted|] == sorted;
    } else {
      PrefixIsRanking(rows, sorted, k, k);
    }
  }

  /* ----- properties of the query ----- */

  /** Only names and scores matter: two tables that agree on them rank identically,
      whatever their pin flags and timestamps. */
  lemma {:induction false} RankingIgnoresPinAndTime(rows: seq<Row>, rows': seq<Row>, k: int)
    requires k > 0 && |rows| == |rows'|
    requires forall i :: 0 <= i < |rows| ==> rows[i].name == rows'[i].name && rows[i].score == rows'[i].score
    ensures Top(rows, k) == Top(rows', k)
  {
    GroupIgnoresPinAndTime(rows, rows');
  }

  lemma {:induction false} UpsertIgnoresPinAndTime(es: seq<Entry>, r: Row, r': Row)
    requires r.name == r'.name && r.score == r'.score
    ensures Upsert(es, r) == Upsert(es, r')
  {
    if es != [] && es[0].name != r.name { UpsertIgnoresPinAndTime(es[1..], r, r'); }
  }

  lemma {:induction false} GroupIgnoresPinAndTime(rows: seq<Row>, rows': seq<Row>)
    requires |rows| == |rows'|
    requires forall i :: 0 <= i < |rows| ==> rows[i].name == rows'[i].name && rows[i].score == rows'[i].score
    ensures Group(rows) == Group(rows')
  {
    if rows != [] {
      var n := |rows| - 1;
      GroupIgnoresPinAndTime(rows[..n], rows'[..n]);
      UpsertIgnoresPinAndTime(Group(rows[..n]), rows[n], rows'[n]);
    }
  }

  /** A table filled only through the validated submission path ranks only valid payloads. */
  lemma RankingOfValidatedRows(rows: seq<Row>, k: int, top: seq<Entry>)
    requires forall i :: 0 <= i < |rows| ==>
               Validate.IsValidRecord(Str(rows[i].name), Num(Integer(rows[i].score)))
    requires IsRanking(rows, k, top)
    ensures forall e :: e in top ==> Validate.IsValidRecord(Str(e.name), Num(Integer(e.score)))
  {
  }

  /* ----- the table ----- */

  class Table {
    var rows: seq<Row>

    constructor ()
      ensures rows == []
    {
      rows := [];
    }

    /** `addRecord`: one new row, not pinned, stamped with the server time `now`. */
    method AddRecord(name: string, score: int, now: int)
      modifies this
      ensures rows == old(rows) + [Row(name, score, 0, now)]
    {
      rows := rows + [Row(name, score, 0, now)];
    }

    /** `getTop`: the ranking query run with the coerced limit. */
    method GetTop(limit: Number) returns (top: seq<Entry>)
      ensures IsRanking(rows, SafeLimit(limit), top)
    {
      top := Top(rows, SafeLimit(limit));
    }
  }
}

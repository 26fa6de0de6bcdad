/** Ranking scored records: by score, highest first, then by date, latest
    first, keeping the input order among records with the same score and
    date (the two-key `sort_values` is a stable sort). */
module Ranking {
  import Text
  import opened Payload
  import Scoring
  import Seqs

  /** A record with the score and the comma-joined reasons attached. */
  datatype Ranked = Ranked(score: int, reasons: string, item: Item)

  /** One record with its score and comma-joined reasons attached. */
  function Rater(alerts: seq<string>): Item -> Ranked {
    it => Ranked(Scoring.Score(it, alerts), Text.Join(", ", Scoring.Reasons(it, alerts)), it)
  }

  /** Each record with its score and reasons, in input order. */
  function Scored(rows: seq<Item>, alerts: seq<string>): (r: seq<Ranked>)
    ensures |r| == |rows|
  {
    Seqs.Map(Rater(alerts), rows)
  }

  /** Row i of the scored frame is input row i with its score and joined
      reasons. */
  lemma ScoredAt(rows: seq<Item>, alerts: seq<string>, i: int)
    requires 0 <= i < |rows|
    ensures Scored(rows, alerts)[i]
      == Ranked(Scoring.Score(rows[i], alerts), Text.Join(", ", Scoring.Reasons(rows[i], alerts)), rows[i])
  {
    Seqs.MapAt(Rater(alerts), rows, i);
  }

  /** a goes strictly before b: a higher score, or the same score and a later
      date (dates compare as strings). */
  predicate Before(a: Ranked, b: Ranked) {
    a.score > b.score || (a.score == b.score && Text.StrLess(b.item.date, a.item.date))
  }

  /** Nothing later in s goes strictly before anything earlier. */
  predicate Ordered(s: seq<Ranked>) {
    forall i, j :: 0 <= i < j < |s| ==> !Before(s[j], s[i])
  }

  /** x placed in front of the first element that does not go strictly before it. */
  function Insert(x: Ranked, ys: seq<Ranked>): seq<Ranked> {
    if ys == [] || !Before(ys[0], x) then [x] + ys else [ys[0]] + Insert(x, ys[1..])
  }

  /** `sort_values(["Score", "Data"], ascending=[False, False])`. */
  function SortRanked(xs: seq<Ranked>): seq<Ranked> {
    if xs == [] then [] else Insert(xs[0], SortRanked(xs[1..]))
  }

  /** The elements of s with the given score and date, in order. */
  function WithKey(s: seq<Ranked>, score: int, date: string): seq<Ranked> {
    if s == [] then []
    else (if s[0].score == score && s[0].item.date == date then [s[0]] else []) + WithKey(s[1..], score, date)
  }

  lemma NotBeforeTransitive(a: Ranked, b: Ranked, c: Ranked)
    requires !Before(b, a) && !Before(c, b)
    ensures !Before(c, a)
  {
    if a.score == b.score && b.score == c.score {
      var da, db, dc := a.item.date, b.item.date, c.item.date;
      Text.StrLessTotal(da, db);
      Text.StrLessTotal(db, dc);
      if Text.StrLess(da, dc) {
        if Text.StrLess(db, da) { Text.StrLessTransitive(db, da, dc); }
        if Text.StrLess(dc, db) {
          if Text.StrLess(db, da) { Text.StrLessTransitive(dc, db, da); Text.StrLessAsymmetric(da, dc); }
        }
      }
    }
  }

  lemma BeforeAsymmetric(a: Ranked, b: Ranked)
    requires Before(a, b)
    ensures !Before(b, a)
  {
    Text.StrLessAsymmetric(a.item.date, b.item.date);
  }

  lemma {:induction false} InsertElements(x: Ranked, ys: seq<Ranked>)
    ensures multiset(Insert(x, ys)) == multiset(ys) + multiset{x}
  {
    if ys != [] && Before(ys[0], x) {
      InsertElements(x, ys[1..]);
      assert ys == [ys[0]] + ys[1..];
    }
  }

  lemma {:induction false} InsertOrdered(x: Ranked, ys: seq<Ranked>)
    requires Ordered(ys)
    ensures Ordered(Insert(x, ys))
  {
    if ys == [] || !Before(ys[0], x) {
      ConsOrdered(x, ys);
    } else {
      OrderedTail(ys);
      InsertOrdered(x, ys[1..]);
      InsertElements(x, ys[1..]);
      BeforeAsymmetric(ys[0], x);
      var rest := Insert(x, ys[1..]);
      forall j | 0 <= j < |rest| ensures !Before(rest[j], ys[0]) {
        var z := rest[j];
        assert z in multiset(rest);
        if z != x {
          assert z in multiset(ys[1..]);
          var k :| 0 <= k < |ys[1..]| && ys[1..][k] == z;
          assert ys[k + 1] == z;
        }
      }
      HeadOrdered(ys[0], rest);
    }
  }

  /** The tail of an ordered sequence is ordered. */
  lemma OrderedTail(ys: seq<Ranked>)
    requires Ordered(ys) && ys != []
    ensures Ordered(ys[1..])
  {
    forall i, j | 0 <= i < j < |ys[1..]| ensures !Before(ys[1..][j], ys[1..][i]) {
      assert ys[1..][i] == ys[i + 1] && ys[1..][j] == ys[j + 1];
    }
  }

  /** An element nothing in an ordered sequence goes before can head it. */
  lemma HeadOrdered(y: Ranked, rest: seq<Ranked>)
    requires Ordered(rest)
    requires forall j :: 0 <= j < |rest| ==> !Before(rest[j], y)
    ensures Ordered([y] + rest)
  {
    var r := [y] + rest;
    forall i, j | 0 <= i < j < |r| ensures !Before(r[j], r[i]) {
      assert r[j] == rest[j - 1];
      if i > 0 { assert r[i] == rest[i - 1]; }
    }
  }

  /** x can head an ordered sequence whose first element does not go before
      it. */
  lemma ConsOrdered(x: Ranked, ys: seq<Ranked>)
    requires Ordered(ys) && (ys == [] || !Before(ys[0], x))
    ensures Ordered([x] + ys)
  {
    forall j | 0 <= j < |ys| ensures !Before(ys[j], x) {
      if j > 0 { NotBeforeTransitive(x, ys[0], ys[j]); }
    }
    HeadOrdered(x, ys);
  }

  lemma {:induction false} InsertWithKey(x: Ranked, ys: seq<Ranked>, score: int, date: string)
    ensures WithKey(Insert(x, ys), score, date)
      == (if x.score == score && x.item.date == date then [x] else []) + WithKey(ys, score, date)
  {
    if ys == [] || !Before(ys[0], x) {
      assert ([x] + ys)[1..] == ys;
    } else {
      InsertWithKey(x, ys[1..], score, date);
      assert ([ys[0]] + Insert(x, ys[1..]))[1..] == Insert(x, ys[1..]);
      if x.score == score && x.item.date == date {
        Text.StrLessIrreflexive(date);
      }
    }
  }

  /** The ranking is ordered by score, then date, both descending. */
  lemma {:induction false} SortOrdered(xs: seq<Ranked>)
    ensures Ordered(SortRanked(xs))
  {
    if xs != [] {
      SortOrdered(xs[1..]);
      InsertOrdered(xs[0], SortRanked(xs[1..]));
    }
  }

  /** The ranking has exactly the records it was given. */
  lemma {:induction false} SortPermutes(xs: seq<Ranked>)
    ensures multiset(SortRanked(xs)) == multiset(xs)
  {
    if xs != [] {
      SortPermutes(xs[1..]);
      InsertElements(xs[0], SortRanked(xs[1..]));
      assert xs == [xs[0]] + xs[1..];
    }
  }

  /** The ranking is stable: records sharing a score and a date keep their
      input order. */
  lemma {:induction false} SortStable(xs: seq<Ranked>, score: int, date: string)
    ensures WithKey(SortRanked(xs), score, date) == WithKey(xs, score, date)
  {
    if xs != [] {
      SortStable(xs[1..], score, date);
      InsertWithKey(xs[0], SortRanked(xs[1..]), score, date);
    }
  }

  /** The loop of `dou_rankear`: every row's score and joined reasons,
      attached to the rows in input order. */
  method ScoreAll(rows: seq<Item>, alerts: seq<string>) returns (scored: seq<Ranked>)
    ensures scored == Scored(rows, alerts)
  {
    scored := [];
    var i := 0;
    while i < |rows|
      invariant 0 <= i <= |rows| && scored == Scored(rows[..i], alerts)
    {
      var sc, reasons := Scoring.ScoreRow(rows[i], alerts);
      Seqs.MapSnoc(Rater(alerts), rows, i);
      scored := scored + [Ranked(sc, Text.Join(", ", reasons), rows[i])];
      i := i + 1;
    }
    assert rows[..i] == rows;
  }

  /** `dou_rankear`: the scored rows sorted. The result is ordered, has
      nothing added or lost, and keeps ties in input order. */
  method Rank(rows: seq<Item>, alerts: seq<string>) returns (out: seq<Ranked>)
    ensures out == SortRanked(Scored(rows, alerts))
    ensures Ordered(out)
    ensures multiset(out) == multiset(Scored(rows, alerts))
    ensures forall score, date :: WithKey(out, score, date) == WithKey(Scored(rows, alerts), score, date)
  {
    if rows == [] {
      return [];
    }
    var scored := ScoreAll(rows, alerts);
    out := SortRanked(scored);
    SortOrdered(scored);
    SortPermutes(scored);
    forall score, date ensures WithKey(out, score, date) == WithKey(scored, score, date) {
      SortStable(scored, score, date);
    }
  }
}

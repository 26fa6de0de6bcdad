/** The risk score of one record: a base of 10, the points of every trigger
    of a fixed table found in the record's text, 12 per alert term found,
    clamped to [0, 100], with the reasons that fired cut to eight. */
module Scoring {
  import Text
  import Seqs
  import opened Payload
  import Keywords

  const BaseScore: int := 10
  const AlertPoints: int := 12
  const MaxScore: int := 100
  const MaxReasons: nat := 8
  const MatchPrefix: string := "match:"

  /** The trigger table, in declaration order: (term, points). */
  const Triggers: seq<(string, int)> := [
    ("imposto", 25),
    ("tribut", 25),
    ("contribui", 18),
    ("taxa", 18),
    ("benef\U{ed}cio", 18),
    ("programa", 12),
    ("fica institu\U{ed}do", 22),
    ("fica criado", 22),
    ("regulamenta", 18),
    ("disp\U{f5}e sobre", 12),
    ("autoriza", 15),
    ("estabelece", 10),
    ("prorroga", 8),
    ("excepcional", 10),
    ("em car\U{e1}ter", 10)
  ]

  /** A table entry fires when its term occurs in text. */
  function Fires(text: string): ((string, int)) -> bool {
    (e: (string, int)) => Text.Contains(text, e.0)
  }

  /** The table entries whose term occurs in text, in table order. */
  function TableHits(text: string, table: seq<(string, int)>): seq<(string, int)> {
    Seqs.Filter(Fires(text), table)
  }

  /** The sum of the points of some table entries. */
  function Points(hits: seq<(string, int)>): int {
    if hits == [] then 0 else Points(hits[..|hits| - 1]) + hits[|hits| - 1].1
  }

  /** The terms of some table entries. */
  function Terms(hits: seq<(string, int)>): (r: seq<string>)
    ensures |r| == |hits| && forall i :: 0 <= i < |hits| ==> r[i] == hits[i].0
  {
    seq(|hits|, i requires 0 <= i < |hits| => hits[i].0)
  }

  /** The alert terms that fire, lower-cased, in alert order: the non-empty
      ones whose lower-cased form occurs in text. */
  function AlertHits(text: string, alerts: seq<string>): seq<string> {
    if alerts == [] then []
    else
      var t := alerts[|alerts| - 1];
      AlertHits(text, alerts[..|alerts| - 1])
        + (if t != [] && Text.Contains(text, Text.Lower(t)) then [Text.Lower(t)] else [])
  }

  function MatchReasons(hits: seq<string>): (r: seq<string>)
    ensures |r| == |hits| && forall i :: 0 <= i < |hits| ==> r[i] == MatchPrefix + hits[i]
  {
    seq(|hits|, i requires 0 <= i < |hits| => MatchPrefix + hits[i])
  }

  /** The score before clamping. */
  function RawScore(text: string, alerts: seq<string>): int {
    BaseScore + Points(TableHits(text, Triggers)) + AlertPoints * |AlertHits(text, alerts)|
  }

  /** Every reason that fired, in evaluation order: triggers, then alerts. */
  function AllReasons(text: string, alerts: seq<string>): seq<string> {
    Terms(TableHits(text, Triggers)) + MatchReasons(AlertHits(text, alerts))
  }

  /** `max(0, min(100, x))`. */
  function Clamp(x: int): (r: int)
    ensures 0 <= r <= MaxScore
    ensures 0 <= x <= MaxScore ==> r == x
  {
    if x < 0 then 0 else if x > MaxScore then MaxScore else x
  }

  /** The score `score_dou_row` gives a record. */
  function Score(it: Item, alerts: seq<string>): int {
    Clamp(RawScore(Keywords.Blob(it), alerts))
  }

  /** The reasons `score_dou_row` gives a record: the first eight. */
  function Reasons(it: Item, alerts: seq<string>): seq<string> {
    var all := AllReasons(Keywords.Blob(it), alerts);
    all[..if |all| < MaxReasons then |all| else MaxReasons]
  }

  lemma {:induction false} PointsNonNegative(hits: seq<(string, int)>)
    requires forall i :: 0 <= i < |hits| ==> hits[i].1 >= 0
    ensures Points(hits) >= 0
  {
    if hits != [] { PointsNonNegative(hits[..|hits| - 1]); }
  }

  /** Selecting table entries with non-negative points gives a non-negative
      sum. */
  lemma HitsPointsNonNegative(text: string, table: seq<(string, int)>)
    requires forall i :: 0 <= i < |table| ==> table[i].1 >= 0
    ensures Points(TableHits(text, table)) >= 0
  {
    var hits := TableHits(text, table);
    Seqs.FilterMembers(Fires(text), table);
    forall i | 0 <= i < |hits| ensures hits[i].1 >= 0 {
      assert hits[i] in table;
    }
    PointsNonNegative(hits);
  }

  /** The score lies in [10, 100]: nothing is ever subtracted, so the lower
      clamp never applies. */
  lemma ScoreBounds(it: Item, alerts: seq<string>)
    ensures BaseScore <= Score(it, alerts) <= MaxScore
  {
    assert forall i :: 0 <= i < |Triggers| ==> Triggers[i].1 >= 0;
    HitsPointsNonNegative(Keywords.Blob(it), Triggers);
  }

  /** Below the cap, the score is the base plus the points of every trigger
      found plus 12 per alert term found. */
  lemma ScoreIsAdditive(it: Item, alerts: seq<string>)
    ensures var text := Keywords.Blob(it);
      var total := BaseScore + Points(TableHits(text, Triggers)) + AlertPoints * |AlertHits(text, alerts)|;
      Score(it, alerts) == if total > MaxScore then MaxScore else total
  {
    ScoreBounds(it, alerts);
  }

  /** A trigger fires exactly when its term occurs in the text, and the
      triggers that fire keep the table's declaration order. */
  lemma TableHitsExactly(text: string, table: seq<(string, int)>)
    ensures forall e :: e in TableHits(text, table) <==> e in table && Text.Contains(text, e.0)
    ensures Seqs.IsSubsequence(TableHits(text, table), table)
  {
    Seqs.FilterMembers(Fires(text), table);
    Seqs.FilterIsSubsequence(Fires(text), table);
  }

  /** An alert fires exactly when it is non-empty and its lower-cased form
      occurs in the text; its reason is the lower-cased term. */
  lemma {:induction false} AlertHitsExactly(text: string, alerts: seq<string>)
    ensures |AlertHits(text, alerts)| <= |alerts|
    ensures forall m :: m in AlertHits(text, alerts) <==>
      exists i :: 0 <= i < |alerts| && alerts[i] != [] && Text.Contains(text, Text.Lower(alerts[i])) && m == Text.Lower(alerts[i])
  {
    if alerts != [] {
      var front := alerts[..|alerts| - 1];
      AlertHitsExactly(text, front);
      assert forall i :: 0 <= i < |front| ==> front[i] == alerts[i];
      forall m | exists i :: 0 <= i < |alerts| && alerts[i] != [] && Text.Contains(text, Text.Lower(alerts[i])) && m == Text.Lower(alerts[i])
        ensures m in AlertHits(text, alerts)
      {
        var i :| 0 <= i < |alerts| && alerts[i] != [] && Text.Contains(text, Text.Lower(alerts[i])) && m == Text.Lower(alerts[i]);
        if i < |front| { assert front[i] == alerts[i]; }
      }
    }
  }

  /** An alert term fires when it is non-empty and its lower-cased form
      occurs in text. */
  function AlertFires(text: string): string -> bool {
    (t: string) => t != [] && Text.Contains(text, Text.Lower(t))
  }

  /** Positionally: one hit per alert term that fires, lower-cased, in alert
      order. */
  lemma {:induction false} AlertHitsInOrder(text: string, alerts: seq<string>)
    ensures AlertHits(text, alerts) == Seqs.Map(Text.Lower, Seqs.Filter(AlertFires(text), alerts))
  {
    if alerts != [] {
      var front, t := alerts[..|alerts| - 1], alerts[|alerts| - 1];
      AlertHitsInOrder(text, front);
      assert alerts == front + [t];
      Seqs.FilterSnoc(AlertFires(text), front, t);
      var f := Seqs.Filter(AlertFires(text), front);
      if AlertFires(text)(t) {
        Seqs.MapAppend(Text.Lower, f, t);
      } else {
        assert f + [] == f;
      }
    }
  }

  /** At most eight reasons, which are the first of all reasons in
      evaluation order. */
  lemma ReasonsAreFirstEight(it: Item, alerts: seq<string>)
    ensures var text := Keywords.Blob(it);
      var n := |TableHits(text, Triggers)| + |AlertHits(text, alerts)|;
      |Reasons(it, alerts)| == (if n < MaxReasons then n else MaxReasons)
      && Reasons(it, alerts) <= AllReasons(text, alerts)
  {
    var text := Keywords.Blob(it);
    ReasonsCut(TableHits(text, Triggers), AlertHits(text, alerts));
  }

  /** The reasons are the triggers that fired, in table order, then
      `match:<term>` for every alert that fired, in alert order. */
  lemma ReasonsOrder(it: Item, alerts: seq<string>)
    ensures var text := Keywords.Blob(it);
      var hits := TableHits(text, Triggers);
      var all := Reasons(it, alerts);
      && (forall i :: 0 <= i < |all| && i < |hits| ==> all[i] == hits[i].0)
      && (forall i :: |hits| <= i < |all| ==> all[i] == MatchPrefix + AlertHits(text, alerts)[i - |hits|])
  {
    var text := Keywords.Blob(it);
    ReasonsCut(TableHits(text, Triggers), AlertHits(text, alerts));
  }

  /** The first eight of the trigger terms followed by the alert reasons. */
  lemma ReasonsCut(hits: seq<(string, int)>, alertHits: seq<string>)
    ensures var all := Terms(hits) + MatchReasons(alertHits);
      var cut := all[..if |all| < MaxReasons then |all| else MaxReasons];
      && |cut| == (if |hits| + |alertHits| < MaxReasons then |hits| + |alertHits| else MaxReasons)
      && cut <= all
      && (forall i :: 0 <= i < |cut| && i < |hits| ==> cut[i] == hits[i].0)
      && (forall i :: |hits| <= i < |cut| ==> cut[i] == MatchPrefix + alertHits[i - |hits|])
  {
  }

  /** Adding an alert term never lowers the score. */
  lemma ScoreMonotoneInAlerts(it: Item, alerts: seq<string>, t: string)
    ensures Score(it, alerts) <= Score(it, alerts + [t])
  {
    assert (alerts + [t])[..|alerts|] == alerts;
    assert AlertHits(Keywords.Blob(it), alerts) <= AlertHits(Keywords.Blob(it), alerts + [t]);
  }

  /** The trigger loop of `score_dou_row`: the points and the terms of the
      table entries found in text, in table order. */
  method ScanTriggers(text: string, table: seq<(string, int)>) returns (points: int, terms: seq<string>)
    ensures points == Points(TableHits(text, table)) && terms == Terms(TableHits(text, table))
  {
    points := 0;
    terms := [];
    var k := 0;
    while k < |table|
      invariant 0 <= k <= |table|
      invariant points == Points(TableHits(text, table[..k]))
      invariant terms == Terms(TableHits(text, table[..k]))
    {
      ghost var hits := TableHits(text, table[..k]);
      assert table[..k + 1][..k] == table[..k];
      var (term, pts) := table[k];
      if Text.Contains(text, term) {
        points := points + pts;
        terms := terms + [term];
        assert TableHits(text, table[..k + 1]) == hits + [table[k]];
        assert (hits + [table[k]])[..|hits|] == hits;
      } else {
        assert TableHits(text, table[..k + 1]) == hits;
      }
      k := k + 1;
    }
    assert table[..k] == table;
  }

  /** The alert loop of `score_dou_row`: the points and the `match:` reasons
      of the alert terms found in text, in alert order. */
  method ScanAlerts(text: string, alerts: seq<string>) returns (points: int, reasons: seq<string>)
    ensures points == AlertPoints * |AlertHits(text, alerts)|
    ensures reasons == MatchReasons(AlertHits(text, alerts))
  {
    points := 0;
    reasons := [];
    var a := 0;
    while a < |alerts|
      invariant 0 <= a <= |alerts|
      invariant points == AlertPoints * |AlertHits(text, alerts[..a])|
      invariant reasons == MatchReasons(AlertHits(text, alerts[..a]))
    {
      assert alerts[..a + 1][..a] == alerts[..a];
      var t := alerts[a];
      if t != [] && Text.Contains(text, Text.Lower(t)) {
        points := points + AlertPoints;
        reasons := reasons + [MatchPrefix + Text.Lower(t)];
      }
      a := a + 1;
    }
    assert alerts[..a] == alerts;
  }

  /** `score_dou_row`: the base, the triggers, the alerts, then the clamp
      and the cut to eight reasons. */
  method ScoreRow(it: Item, alerts: seq<string>) returns (score: int, reasons: seq<string>)
    ensures score == Score(it, alerts) && reasons == Reasons(it, alerts)
    ensures BaseScore <= score <= MaxScore && |reasons| <= MaxReasons
  {
    var text := Keywords.Blob(it);
    var triggerPoints, triggerTerms := ScanTriggers(text, Triggers);
    var alertPoints, alertReasons := ScanAlerts(text, alerts);
    score := BaseScore + triggerPoints + alertPoints;
    var motives := triggerTerms + alertReasons;
    score := if score < MaxScore then score else MaxScore;
    score := if score > 0 then score else 0;
    reasons := motives[..if |motives| < MaxReasons then |motives| else MaxReasons];
    ScoreBounds(it, alerts);
  }
}

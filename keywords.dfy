/** The keyword filter: a record passes when its lower-cased title, summary
    and agency contain some trimmed, lower-cased search term literally. */
module Keywords {
  import Text
  import Seqs
  import opened Payload

  /** The searchable text of a record: `title + " " + summary + " " + agency`,
      lower-cased. */
  function Blob(it: Item): string {
    Text.Lower(it.title + " " + it.summary + " " + it.agency)
  }

  /** `[strip(t).lower() for t in terms if strip(t)]`. */
  function CleanTerms(strip: string -> string, terms: seq<string>): (r: seq<string>)
    ensures |r| <= |terms|
  {
    if terms == [] then []
    else
      var t := strip(terms[|terms| - 1]);
      CleanTerms(strip, terms[..|terms| - 1]) + (if t != [] then [Text.Lower(t)] else [])
  }

  /** There is no cleaned term exactly when every term strips to nothing. */
  lemma {:induction false} CleanTermsEmpty(strip: string -> string, terms: seq<string>)
    ensures CleanTerms(strip, terms) == [] <==> forall i :: 0 <= i < |terms| ==> strip(terms[i]) == []
  {
    if terms != [] {
      var front := terms[..|terms| - 1];
      CleanTermsEmpty(strip, front);
      assert forall i :: 0 <= i < |front| ==> front[i] == terms[i];
    }
  }

  /** The cleaned terms are the lower-cased non-empty stripped terms. */
  lemma {:induction false} CleanTermsMembers(strip: string -> string, terms: seq<string>)
    ensures forall t :: t in CleanTerms(strip, terms) <==>
      exists i :: 0 <= i < |terms| && strip(terms[i]) != [] && t == Text.Lower(strip(terms[i]))
  {
    if terms != [] {
      var front := terms[..|terms| - 1];
      var last := strip(terms[|terms| - 1]);
      CleanTermsMembers(strip, front);
      assert CleanTerms(strip, terms) == CleanTerms(strip, front) + (if last != [] then [Text.Lower(last)] else []);
      forall t | t in CleanTerms(strip, terms)
        ensures exists i :: 0 <= i < |terms| && strip(terms[i]) != [] && t == Text.Lower(strip(terms[i]))
      {
        if t in CleanTerms(strip, front) {
          var i :| 0 <= i < |front| && strip(front[i]) != [] && t == Text.Lower(strip(front[i]));
          assert front[i] == terms[i];
        } else {
          assert strip(terms[|terms| - 1]) != [] && t == Text.Lower(strip(terms[|terms| - 1]));
        }
      }
      forall t | exists i :: 0 <= i < |terms| && strip(terms[i]) != [] && t == Text.Lower(strip(terms[i]))
        ensures t in CleanTerms(strip, terms)
      {
        var i :| 0 <= i < |terms| && strip(terms[i]) != [] && t == Text.Lower(strip(terms[i]));
        if i < |front| { assert front[i] == terms[i]; }
      }
    }
  }

  /** `[t.strip().lower() for t in terms if t.strip()]`. */
  function SearchTerms(terms: seq<string>): seq<string> {
    CleanTerms(Text.Strip, terms)
  }

  /** The search terms are exactly the trimmed, lower-cased non-blank terms;
      there are none exactly when every term is blank. */
  lemma SearchTermsMembers(terms: seq<string>)
    ensures SearchTerms(terms) == [] <==> forall i :: 0 <= i < |terms| ==> Text.Strip(terms[i]) == []
    ensures forall t :: t in SearchTerms(terms) <==>
      exists i :: 0 <= i < |terms| && Text.Strip(terms[i]) != [] && t == Text.Lower(Text.Strip(terms[i]))
  {
    CleanTermsEmpty(Text.Strip, terms);
    CleanTermsMembers(Text.Strip, terms);
  }

  /** The OR of `blob.str.contains(re.escape(t))` over the terms. */
  predicate MatchesAny(blob: string, ts: seq<string>) {
    ts != [] && (MatchesAny(blob, ts[..|ts| - 1]) || Text.Contains(blob, ts[|ts| - 1]))
  }

  lemma {:induction false} MatchesAnyExists(blob: string, ts: seq<string>)
    ensures MatchesAny(blob, ts) <==> exists i :: 0 <= i < |ts| && Text.Contains(blob, ts[i])
  {
    if ts != [] {
      var front := ts[..|ts| - 1];
      MatchesAnyExists(blob, front);
      assert forall i :: 0 <= i < |front| ==> front[i] == ts[i];
    }
  }

  /** Some search term occurs in the row's blob. */
  function Matcher(ts: seq<string>): Item -> bool {
    row => MatchesAny(Blob(row), ts)
  }

  /** `dou_filtrar` and `filter_terms`: the input unchanged when there is no
      row or no non-blank term, otherwise the rows some term matches. */
  function Filtered(rows: seq<Item>, terms: seq<string>): seq<Item> {
    if rows == [] || terms == [] then rows
    else
      var ts := SearchTerms(terms);
      if ts == [] then rows else Seqs.Filter(Matcher(ts), rows)
  }

  /** `dou_filtrar` / `filter_terms` as written: the boolean mask is OR-ed
      term by term, then the rows it marks are selected. */
  method FilterRows(rows: seq<Item>, terms: seq<string>) returns (r: seq<Item>)
    ensures r == Filtered(rows, terms)
  {
    if rows == [] || terms == [] {
      return rows;
    }
    var ts := SearchTerms(terms);
    if ts == [] {
      return rows;
    }
    var blobs := seq(|rows|, i requires 0 <= i < |rows| => Blob(rows[i]));
    var mask := MatchMask(blobs, ts);
    Seqs.SelectByPredicate(Matcher(ts), rows, mask);
    r := Seqs.Select(rows, mask);
  }

  /** The loop of `dou_filtrar`: the mask starts all false and is OR-ed with
      `blob.str.contains(t)` for each term t in turn. */
  method MatchMask(blobs: seq<string>, ts: seq<string>) returns (mask: seq<bool>)
    ensures |mask| == |blobs| && forall i :: 0 <= i < |blobs| ==> mask[i] == MatchesAny(blobs[i], ts)
  {
    mask := seq(|blobs|, i => false);
    var k := 0;
    while k < |ts|
      invariant 0 <= k <= |ts| && |mask| == |blobs|
      invariant forall i :: 0 <= i < |blobs| ==> mask[i] == MatchesAny(blobs[i], ts[..k])
    {
      assert ts[..k + 1][..k] == ts[..k];
      mask := seq(|blobs|, i requires 0 <= i < |blobs| => mask[i] || Text.Contains(blobs[i], ts[k]));
      k := k + 1;
    }
    assert ts[..k] == ts;
  }

  /** Without a row or without a non-blank term the filter is the identity. */
  lemma FilteredIdentity(rows: seq<Item>, terms: seq<string>)
    requires rows == [] || forall i :: 0 <= i < |terms| ==> Text.Strip(terms[i]) == []
    ensures Filtered(rows, terms) == rows
  {
    SearchTermsMembers(terms);
  }

  /** With some non-blank term, a row is kept exactly when its blob contains
      one of the trimmed, lower-cased terms as a literal substring. */
  lemma FilteredMembers(rows: seq<Item>, terms: seq<string>, row: Item)
    requires exists i :: 0 <= i < |terms| && Text.Strip(terms[i]) != []
    ensures row in Filtered(rows, terms) <==>
      (row in rows &&
       exists i :: 0 <= i < |terms| && Text.Strip(terms[i]) != [] && Text.Contains(Blob(row), Text.Lower(Text.Strip(terms[i]))))
  {
    var ts := SearchTerms(terms);
    SearchTermsMembers(terms);
    MatchesCleanTerm(terms, row);
    Seqs.FilterMembers(Matcher(ts), rows);
  }

  /** With some non-blank term, a matching row is kept as many times as it
      occurs in the input, and a row that matches no term not at all. */
  lemma FilteredCount(rows: seq<Item>, terms: seq<string>, row: Item)
    requires exists i :: 0 <= i < |terms| && Text.Strip(terms[i]) != []
    ensures multiset(Filtered(rows, terms))[row] ==
      if exists i :: 0 <= i < |terms| && Text.Strip(terms[i]) != [] && Text.Contains(Blob(row), Text.Lower(Text.Strip(terms[i])))
      then multiset(rows)[row] else 0
  {
    var ts := SearchTerms(terms);
    SearchTermsMembers(terms);
    MatchesCleanTerm(terms, row);
    Seqs.FilterCount(Matcher(ts), rows, row);
  }

  /** A row matches the search terms exactly when its blob contains one of
      the trimmed, lower-cased non-blank terms. */
  lemma MatchesCleanTerm(terms: seq<string>, row: Item)
    ensures MatchesAny(Blob(row), SearchTerms(terms)) <==>
      exists i :: 0 <= i < |terms| && Text.Strip(terms[i]) != [] && Text.Contains(Blob(row), Text.Lower(Text.Strip(terms[i])))
  {
    var ts := SearchTerms(terms);
    SearchTermsMembers(terms);
    MatchesAnyExists(Blob(row), ts);
    if MatchesAny(Blob(row), ts) {
      var k :| 0 <= k < |ts| && Text.Contains(Blob(row), ts[k]);
      assert ts[k] in ts;
    }
    if exists i :: 0 <= i < |terms| && Text.Strip(terms[i]) != [] && Text.Contains(Blob(row), Text.Lower(Text.Strip(terms[i]))) {
      var i :| 0 <= i < |terms| && Text.Strip(terms[i]) != [] && Text.Contains(Blob(row), Text.Lower(Text.Strip(terms[i])));
      var t := Text.Lower(Text.Strip(terms[i]));
      assert t in ts;
      var k :| 0 <= k < |ts| && ts[k] == t;
    }
  }

  /** Kept rows stay in their original relative order. */
  lemma FilteredKeepsOrder(rows: seq<Item>, terms: seq<string>)
    ensures Seqs.IsSubsequence(Filtered(rows, terms), rows)
  {
    if rows == [] || terms == [] || SearchTerms(terms) == [] {
      Seqs.SubsequenceRefl(rows);
    } else {
      var ts := SearchTerms(terms);
      Seqs.FilterIsSubsequence(Matcher(ts), rows);
    }
  }
}

/** The collector of the interactive app (`fiscalizagov.py`): its copy of the
    payload parser, which appends every record and drops the empty ones at
    the end, and the gathering of the sections' records followed by the
    final per-column normalisation. */
module App {
  import Text
  import Seqs
  import opened Json
  import opened Payload

  /** `_dou_parse_payload` of the app: every mapping element becomes a
      record, and the list is then cut to the records with a title, a
      summary or a link. */
  method ParsePayload(payload: seq<Entry>, date: string, section: string) returns (items: seq<Item>)
    ensures items == Extract(payload, date, section)
  {
    var lists := FindCandidateLists(payload);
    var all: seq<Item> := [];
    var i := 0;
    while i < |lists|
      invariant 0 <= i <= |lists|
      invariant all == Records(lists[..i], date, section)
    {
      RecordsSnoc(lists, i, date, section);
      all := AppendList(all, lists[i], Extractor(date, section));
      i := i + 1;
    }
    assert lists[..i] == lists;
    items := Seqs.Filter(Keep, all);
  }

  /** The inner loop of the app's parser over one candidate list: the record
      of every mapping element, appended by `extract`. */
  method AppendList(all: seq<Item>, lst: seq<Value>, extract: seq<Entry> -> Item) returns (r: seq<Item>)
    ensures r == all + MappedRecords(extract, lst)
  {
    r := all;
    var j := 0;
    while j < |lst|
      invariant 0 <= j <= |lst|
      invariant r == all + MappedRecords(extract, lst[..j])
    {
      MappedRecordsSnoc(extract, lst, j);
      if lst[j].Object? {
        r := r + [extract(lst[j].entries)];
      }
      j := j + 1;
    }
    assert lst[..j] == lst;
  }

  /** The outcome of fetching one section: nothing usable (a failed request,
      a status other than 200, a body that is not JSON), or the decoded
      body. */
  datatype Fetch = Unavailable | Decoded(body: Value)

  /** The bodies `dou_coletar` hands to the parser: non-empty mappings. */
  predicate Parsed(f: Fetch) {
    f.Decoded? && f.body.Object? && f.body.entries != []
  }

  /** The records of every section, section after section, before the final
      normalisation. */
  function Gathered(date: string, responses: seq<(string, Fetch)>): seq<Item> {
    if responses == [] then []
    else
      var last := responses[|responses| - 1];
      Gathered(date, responses[..|responses| - 1])
        + (if Parsed(last.1) then Extract(last.1.body.entries, date, last.0) else [])
  }

  /** `normalize_text` applied to the title, agency, summary and link
      columns. */
  function Tidy(it: Item): (r: Item)
    ensures r.date == it.date && r.section == it.section
    ensures Text.IsNormal(r.title) && Text.IsNormal(r.agency) && Text.IsNormal(r.summary) && Text.IsNormal(r.link)
    ensures Text.NonSpace(r.link) == Text.NonSpace(it.link)
  {
    it.(title := Text.NormalizeText(it.title), agency := Text.NormalizeText(it.agency),
        summary := Text.NormalizeText(it.summary), link := Text.NormalizeText(it.link))
  }

  /** The rows `dou_coletar` returns (its date reformatting aside). */
  function Collected(date: string, responses: seq<(string, Fetch)>): (r: seq<Item>)
    ensures |r| == |Gathered(date, responses)|
  {
    var g := Gathered(date, responses);
    seq(|g|, i requires 0 <= i < |g| => Tidy(g[i]))
  }

  /** `dou_coletar` over already-fetched sections: parse every usable body,
      extend the row list, then normalise four columns. */
  method Collect(date: string, responses: seq<(string, Fetch)>) returns (rows: seq<Item>)
    ensures rows == Collected(date, responses)
    ensures forall i :: 0 <= i < |rows| ==> rows[i].date == date && Text.IsNormal(rows[i].link)
  {
    var all: seq<Item> := [];
    var s := 0;
    while s < |responses|
      invariant 0 <= s <= |responses|
      invariant all == Gathered(date, responses[..s])
    {
      assert responses[..s + 1][..s] == responses[..s];
      var (section, fetch) := responses[s];
      if Parsed(fetch) {
        var items := ParsePayload(fetch.body.entries, date, section);
        all := all + items;
      }
      s := s + 1;
    }
    assert responses[..s] == responses;
    GatheredDates(date, responses);
    if all == [] {
      return [];
    }
    rows := seq(|all|, i requires 0 <= i < |all| => Tidy(all[i]));
  }

  /** Every gathered record carries the collection date. */
  lemma {:induction false} GatheredDates(date: string, responses: seq<(string, Fetch)>)
    ensures forall it :: it in Gathered(date, responses) ==> it.date == date
  {
    if responses != [] {
      var last := responses[|responses| - 1];
      GatheredDates(date, responses[..|responses| - 1]);
      if Parsed(last.1) {
        ExtractShape(last.1.body.entries, date, last.0);
      }
    }
  }

  /** A payload whose only element has a blank `url` and nothing else. */
  const BlankLinkPayload: seq<Entry> := [Entry("jsonArray", List([Object([Entry("url", Str("   "))])]))]

  /** The one element of `BlankLinkPayload`. */
  const BlankLinkElement: seq<Entry> := [Entry("url", Str("   "))]

  lemma BlankLinkText()
    ensures LinkOf(BlankLinkElement) == "   "
  {
    LinkRule(BlankLinkElement);
    assert Get(BlankLinkElement, "url") == Str("   ");
    assert FirstTruthyAt(BlankLinkElement, LinkAliases, 0);
  }

  lemma UpperSection()
    ensures Text.Upper("do1") == "DO1"
  {
  }

  lemma BlankLinkNoTitle()
    ensures Alias(BlankLinkElement, TitleAliases) == Null
  {
    AliasAbsent(BlankLinkElement, TitleAliases);
  }

  lemma BlankLinkNoSummary()
    ensures Alias(BlankLinkElement, SummaryAliases) == Null
  {
    AliasAbsent(BlankLinkElement, SummaryAliases);
  }

  lemma BlankLinkNoAgency()
    ensures Alias(BlankLinkElement, AgencyAliases) == Null
  {
    AliasAbsent(BlankLinkElement, AgencyAliases);
  }

  /** The blank-link element gives a record with only the blank link. */
  lemma BlankLinkRecord(date: string)
    ensures ExtractRecord(BlankLinkElement, date, "do1") == Item(date, "DO1", "", "", "", "   ")
  {
    BlankLinkText();
    UpperSection();
    BlankLinkNoTitle();
    BlankLinkNoSummary();
    BlankLinkNoAgency();
  }

  lemma BlankLinkCandidates()
    ensures CandidateLists(BlankLinkPayload) == [[Object(BlankLinkElement)]]
  {
    assert Get(BlankLinkPayload, "jsonArray") == List([Object(BlankLinkElement)]);
    assert forall i :: 1 <= i < |KnownKeys| ==> Get(BlankLinkPayload, KnownKeys[i]) == Null;
    KnownListsSingle(BlankLinkPayload, KnownKeys, [Object(BlankLinkElement)]);
  }

  /** A single list holding a single mapping yields that mapping's record. */
  lemma SingleRecord(f: seq<Entry> -> Item, raw: seq<Entry>)
    ensures AllMappedRecords(f, [[Object(raw)]]) == [f(raw)]
  {
    var o := Object(raw);
    assert [o][..0] == [] && [[o]][..0] == [];
    assert MappedRecords(f, [o]) == [f(raw)];
  }

  lemma BlankLinkRecords(date: string)
    ensures Records([[Object(BlankLinkElement)]], date, "do1") == [ExtractRecord(BlankLinkElement, date, "do1")]
  {
    SingleRecord(Extractor(date, "do1"), BlankLinkElement);
  }

  /** The parser keeps that record: its link is not empty. */
  lemma BlankLinkExtract(date: string)
    ensures Extract(BlankLinkPayload, date, "do1") == [Item(date, "DO1", "", "", "", "   ")]
  {
    BlankLinkCandidates();
    BlankLinkRecords(date);
    BlankLinkRecord(date);
    var r := [Item(date, "DO1", "", "", "", "   ")];
    assert r[..0] == [];
    assert Seqs.Filter(Keep, r) == r;
  }

  /** One usable section contributes exactly its parsed records. */
  lemma GatheredSingle(date: string, section: string, body: Value)
    requires Parsed(Decoded(body))
    ensures Gathered(date, [(section, Decoded(body))]) == Extract(body.entries, date, section)
  {
    assert [(section, Decoded(body))][..0] == [];
  }

  lemma BlankNormalizes()
    ensures Text.NormalizeText("   ") == [] && Text.NormalizeText("") == []
  {
    assert Text.NonSpace("   ") == [];
  }

  /** As written, the blank link keeps the record through the emptiness
      filter, and the later normalisation of the link column then leaves a
      row whose title, summary and link are all empty. */
  lemma BlankLinkKeepsEmptyRow(date: string)
    ensures Collected(date, [("do1", Decoded(Object(BlankLinkPayload)))]) == [Item(date, "DO1", "", "", "", "")]
    ensures !Keep(Collected(date, [("do1", Decoded(Object(BlankLinkPayload)))])[0])
  {
    var responses := [("do1", Decoded(Object(BlankLinkPayload)))];
    BlankLinkGathered(date);
    CollectedSingle(date, responses);
    TidyBlank(date);
  }

  lemma BlankLinkGathered(date: string)
    ensures Gathered(date, [("do1", Decoded(Object(BlankLinkPayload)))]) == [Item(date, "DO1", "", "", "", "   ")]
  {
    GatheredSingle(date, "do1", Object(BlankLinkPayload));
    BlankLinkExtract(date);
  }

  /** One gathered record gives one collected row, its normalised form. */
  lemma CollectedSingle(date: string, responses: seq<(string, Fetch)>)
    requires |Gathered(date, responses)| == 1
    ensures Collected(date, responses) == [Tidy(Gathered(date, responses)[0])]
  {
  }

  lemma TidyBlank(date: string)
    ensures Tidy(Item(date, "DO1", "", "", "", "   ")) == Item(date, "DO1", "", "", "", "")
  {
    BlankNormalizes();
  }

  /** When the first key holds a list and no later key does, that list is
      the only candidate. */
  lemma {:induction false} KnownListsSingle(d: seq<Entry>, keys: seq<string>, lst: seq<Value>)
    requires keys != [] && Get(d, keys[0]) == List(lst)
    requires forall i :: 1 <= i < |keys| ==> Get(d, keys[i]) == Null
    ensures ListsUnder(d, keys) == [lst]
  {
    if |keys| > 1 {
      var front := keys[..|keys| - 1];
      assert forall i :: 1 <= i < |front| ==> front[i] == keys[i];
      KnownListsSingle(d, front, lst);
    }
  }

  /** The evidently intended collector: the emptiness filter applied to the
      final, normalised rows. */
  function CollectedNonEmpty(date: string, responses: seq<(string, Fetch)>): seq<Item> {
    Seqs.Filter(Keep, Collected(date, responses))
  }

  /** Every row of the intended collector has a title, a summary or a link
      after normalisation, and is kept exactly when the as-written row is
      non-empty. */
  lemma CollectedNonEmptyRows(date: string, responses: seq<(string, Fetch)>)
    ensures forall it :: it in CollectedNonEmpty(date, responses) <==> it in Collected(date, responses) && Keep(it)
    ensures forall it :: it in CollectedNonEmpty(date, responses) ==>
      Keep(it) && Text.IsNormal(it.title) && Text.IsNormal(it.summary) && Text.IsNormal(it.link)
    ensures Seqs.IsSubsequence(CollectedNonEmpty(date, responses), Collected(date, responses))
  {
    Seqs.FilterMembers(Keep, Collected(date, responses));
    Seqs.FilterIsSubsequence(Keep, Collected(date, responses));
  }

  /** The intended collector drops the blank-link record. */
  lemma BlankLinkDropped(date: string)
    ensures CollectedNonEmpty(date, [("do1", Decoded(Object(BlankLinkPayload)))]) == []
  {
    BlankLinkKeepsEmptyRow(date);
    var c := Collected(date, [("do1", Decoded(Object(BlankLinkPayload)))]);
    var r := Seqs.Filter(Keep, c);
    if r != [] {
      assert false;
    }
  }
}

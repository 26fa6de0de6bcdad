/** The batch notifier (`notificar_fiscalizagov.py`): its copy of the payload
    parser, which tests each record for emptiness as it is built instead of
    filtering afterwards. Its keyword filter is `Keywords.FilterRows`. */
module Notifier {
  import Seqs
  import opened Json
  import opened Payload

  /** Appending one record and then filtering is filtering and then
      appending it when it is kept. */
  lemma FilterSnoc(items: seq<Item>, done: seq<Item>, it: Item)
    ensures items + Seqs.Filter(Keep, done + [it]) == items + Seqs.Filter(Keep, done) + (if Keep(it) then [it] else [])
  {
    assert (done + [it])[..|done|] == done;
  }

  /** The inner loop of the notifier's parser over one candidate list: each
      mapping element becomes a record by `extract`, appended only when its
      title, summary or link is non-empty. */
  method ParseList(items: seq<Item>, lst: seq<Value>, extract: seq<Entry> -> Item) returns (r: seq<Item>)
    ensures r == items + Seqs.Filter(Keep, MappedRecords(extract, lst))
  {
    r := items;
    var j := 0;
    while j < |lst|
      invariant 0 <= j <= |lst|
      invariant r == items + Seqs.Filter(Keep, MappedRecords(extract, lst[..j]))
    {
      MappedRecordsSnoc(extract, lst, j);
      if lst[j].Object? {
        var rec := extract(lst[j].entries);
        FilterSnoc(items, MappedRecords(extract, lst[..j]), rec);
        if rec.title != [] || rec.summary != [] || rec.link != [] {
          r := r + [rec];
        }
      } else {
        assert MappedRecords(extract, lst[..j + 1]) == MappedRecords(extract, lst[..j]);
      }
      j := j + 1;
    }
    assert lst[..j] == lst;
  }

  /** `_dou_parse_payload` of the notifier: a record is appended only when its
      title, summary or link is non-empty. The result is the same as the
      app's parser. */
  method ParsePayload(payload: seq<Entry>, date: string, section: string) returns (items: seq<Item>)
    ensures items == Extract(payload, date, section)
  {
    var lists := FindCandidateLists(payload);
    items := [];
    var i := 0;
    while i < |lists|
      invariant 0 <= i <= |lists|
      invariant items == Seqs.Filter(Keep, Records(lists[..i], date, section))
    {
      RecordsSnoc(lists, i, date, section);
      Seqs.FilterAppend(Keep, Records(lists[..i], date, section), ElementRecords(lists[i], date, section));
      items := ParseList(items, lists[i], Extractor(date, section));
      i := i + 1;
    }
    assert lists[..i] == lists;
  }
}

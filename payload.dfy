/** The heuristic reader of the gazette's `leiturajornal` payload: where the
    item lists are looked for, how each field is resolved through its alias
    chain, how a link is built from an id, and which records are kept. Both
    entry points run this same logic. */
module Payload {
  import opened Json
  import Text
  import Seqs

  /** One gazette record as the parser emits it. */
  datatype Item = Item(date: string, section: string, agency: string, title: string, summary: string, link: string)

  /** Keys checked first for item lists, in this order. */
  const KnownKeys: seq<string> := ["jsonArray", "itens", "items", "data", "conteudo", "materias", "publicacoes", "publicacao"]

  const TitleAliases: seq<string> := ["title", "titulo", "tituloMateria", "nome"]
  const SummaryAliases: seq<string> := ["ementa", "summary", "resumo", "descricao", "texto"]
  const AgencyAliases: seq<string> := ["orgao", "orgaoPessoa", "orgaoPublicador", "hierarquia"]
  const LinkAliases: seq<string> := ["url", "link", "href"]
  const IdAliases: seq<string> := ["id", "identificador", "idMateria", "idPublicacao"]

  /** Page of a gazette act, to which its id is appended. */
  const LinkPrefix: string := "https://www.in.gov.br/web/dou/-/"

  /** `normalize_text(v)`: `None` becomes the empty string; any other value
      is turned into text and normalised. */
  function NormalizeValue(v: Value): (r: string)
    ensures Text.IsNormal(r)
    ensures v == Null ==> r == []
    ensures v != Null ==> Text.NonSpace(r) == Text.NonSpace(AsText(v))
    ensures v != Null ==> r == Text.Join(" ", Text.Words(AsText(v)))
  {
    if v.Null? then "" else Text.NormalizeWords(AsText(v)); Text.NormalizeText(AsText(v))
  }

  /** The candidate list a value contributes: itself when it is a list. */
  function ListOf(v: Value): seq<seq<Value>> {
    if v.List? then [v.items] else []
  }

  predicate IsList(v: Value) {
    v.List?
  }

  /** The elements of a list value; nothing for any other value. */
  function ItemsOf(v: Value): seq<Value> {
    if v.List? then v.items else []
  }

  function ValueOf(e: Entry): Value {
    e.value
  }

  /** First heuristic: the list values under `keys`, in the order of `keys`. */
  function ListsUnder(d: seq<Entry>, keys: seq<string>): (r: seq<seq<Value>>)
    ensures |r| <= |keys|
  {
    if keys == [] then [] else ListsUnder(d, keys[..|keys| - 1]) + ListOf(Get(d, keys[|keys| - 1]))
  }

  /** The first heuristic finds nothing exactly when no key holds a list, and
      everything it finds is a list under one of the keys. */
  lemma {:induction false} ListsUnderFacts(d: seq<Entry>, keys: seq<string>)
    ensures ListsUnder(d, keys) == [] <==> forall i :: 0 <= i < |keys| ==> !Get(d, keys[i]).List?
    ensures forall x :: x in ListsUnder(d, keys) ==> exists i :: 0 <= i < |keys| && Get(d, keys[i]) == List(x)
  {
    if keys != [] {
      var front, last := keys[..|keys| - 1], keys[|keys| - 1];
      ListsUnderFacts(d, front);
      assert forall i :: 0 <= i < |front| ==> front[i] == keys[i];
      var v := Get(d, last);
      assert ListsUnder(d, keys) == ListsUnder(d, front) + ListOf(v);
      forall x | x in ListsUnder(d, keys) ensures exists i :: 0 <= i < |keys| && Get(d, keys[i]) == List(x) {
        if x !in ListsUnder(d, front) {
          assert v == List(x) && keys[|keys| - 1] == last;
        }
      }
    }
  }

  /** Positionally: the first heuristic keeps, in the order of `keys`, the
      elements of exactly those `payload.get(key)` values that are lists. */
  lemma {:induction false} ListsUnderInOrder(d: seq<Entry>, keys: seq<string>)
    ensures ListsUnder(d, keys) == Seqs.Map(ItemsOf, Seqs.Filter(IsList, GetEach(d, keys)))
  {
    if keys != [] {
      var front, v := keys[..|keys| - 1], Get(d, keys[|keys| - 1]);
      ListsUnderInOrder(d, front);
      GetEachSnoc(d, keys);
      KeepListSnoc(GetEach(d, front), v);
    }
  }

  lemma GetEachSnoc(d: seq<Entry>, keys: seq<string>)
    requires keys != []
    ensures GetEach(d, keys) == GetEach(d, keys[..|keys| - 1]) + [Get(d, keys[|keys| - 1])]
  {
  }

  /** One more value: its elements are appended when it is a list. */
  lemma KeepListSnoc(vs: seq<Value>, v: Value)
    ensures Seqs.Map(ItemsOf, Seqs.Filter(IsList, vs + [v]))
      == Seqs.Map(ItemsOf, Seqs.Filter(IsList, vs)) + ListOf(v)
  {
    var f := Seqs.Filter(IsList, vs);
    Seqs.FilterSnoc(IsList, vs, v);
    if v.List? {
      Seqs.MapAppend(ItemsOf, f, v);
    } else {
      assert f + [] == f;
    }
  }

  /** Every key that holds a list contributes that list. */
  lemma {:induction false} ListsUnderComplete(d: seq<Entry>, keys: seq<string>)
    ensures forall i :: 0 <= i < |keys| && Get(d, keys[i]).List? ==> Get(d, keys[i]).items in ListsUnder(d, keys)
  {
    if keys != [] {
      var front := keys[..|keys| - 1];
      ListsUnderComplete(d, front);
      assert forall i :: 0 <= i < |front| ==> front[i] == keys[i];
    }
  }

  /** The list values of a mapping, in entry order. */
  function ListValues(es: seq<Entry>): (r: seq<seq<Value>>)
    ensures |r| <= |es|
  {
    if es == [] then [] else ListValues(es[..|es| - 1]) + ListOf(es[|es| - 1].value)
  }

  /** A mapping has no list value exactly when none of its values is a list,
      and every list value found is one of its values. */
  lemma {:induction false} ListValuesFacts(es: seq<Entry>)
    ensures ListValues(es) == [] <==> forall i :: 0 <= i < |es| ==> !es[i].value.List?
    ensures forall x :: x in ListValues(es) ==> exists i :: 0 <= i < |es| && es[i].value == List(x)
  {
    if es != [] {
      var front := es[..|es| - 1];
      ListValuesFacts(front);
      assert forall i :: 0 <= i < |front| ==> front[i] == es[i];
    }
  }

  /** Positionally: the elements of the list values of a mapping, in entry
      order. */
  lemma {:induction false} ListValuesInOrder(es: seq<Entry>)
    ensures ListValues(es) == Seqs.Map(ItemsOf, Seqs.Filter(IsList, Seqs.Map(ValueOf, es)))
  {
    if es != [] {
      var front, last := es[..|es| - 1], es[|es| - 1];
      ListValuesInOrder(front);
      assert es == front + [last];
      Seqs.MapAppend(ValueOf, front, last);
      KeepListSnoc(Seqs.Map(ValueOf, front), last.value);
    }
  }

  /** Every list value of a mapping is contributed. */
  lemma {:induction false} ListValuesComplete(es: seq<Entry>)
    ensures forall j :: 0 <= j < |es| && es[j].value.List? ==> es[j].value.items in ListValues(es)
  {
    if es != [] {
      var front := es[..|es| - 1];
      ListValuesComplete(front);
      assert forall j :: 0 <= j < |front| ==> front[j] == es[j];
    }
  }

  /** Second heuristic: the lists one level down, inside those top-level
      values that are mappings, in entry order. */
  function NestedLists(d: seq<Entry>): seq<seq<Value>> {
    if d == [] then []
    else
      var last := d[|d| - 1];
      NestedLists(d[..|d| - 1]) + (if last.value.Object? then ListValues(last.value.entries) else [])
  }

  /** Every list the second heuristic finds sits one level down, inside a
      top-level mapping value. */
  lemma {:induction false} NestedListsFacts(d: seq<Entry>)
    ensures forall x :: x in NestedLists(d) ==>
      exists i, j :: 0 <= i < |d| && d[i].value.Object? && 0 <= j < |d[i].value.entries|
        && d[i].value.entries[j].value == List(x)
  {
    if d != [] {
      var front, last := d[..|d| - 1], d[|d| - 1];
      NestedListsFacts(front);
      assert forall i :: 0 <= i < |front| ==> front[i] == d[i];
      if last.value.Object? {
        ListValuesFacts(last.value.entries);
      }
      forall x | x in NestedLists(d)
        ensures exists i, j :: (0 <= i < |d| && d[i].value.Object? && 0 <= j < |d[i].value.entries|
          && d[i].value.entries[j].value == List(x))
      {
        if x !in NestedLists(front) {
          var j :| 0 <= j < |last.value.entries| && last.value.entries[j].value == List(x);
          assert d[|d| - 1] == last;
        }
      }
    }
  }

  /** Every list one level down, inside a top-level mapping value, is
      found. */
  lemma {:induction false} NestedListsComplete(d: seq<Entry>)
    ensures forall i, j ::
      (0 <= i < |d| && d[i].value.Object? && 0 <= j < |d[i].value.entries| && d[i].value.entries[j].value.List?)
      ==> d[i].value.entries[j].value.items in NestedLists(d)
  {
    if d != [] {
      var front, last := d[..|d| - 1], d[|d| - 1];
      NestedListsComplete(front);
      assert forall i :: 0 <= i < |front| ==> front[i] == d[i];
      if last.value.Object? {
        ListValuesComplete(last.value.entries);
      }
    }
  }

  /** The second heuristic walks the top-level entries in order: the lists
      of earlier entries come before those of later ones. */
  lemma {:induction false} NestedListsAppend(a: seq<Entry>, b: seq<Entry>)
    ensures NestedLists(a + b) == NestedLists(a) + NestedLists(b)
    decreases |b|
  {
    if b == [] {
      assert a + b == a;
    } else {
      var b', e := b[..|b| - 1], b[|b| - 1];
      assert a + b == (a + b') + [e];
      assert b == b' + [e];
      NestedListsSnoc(a + b', e);
      NestedListsSnoc(b', e);
      NestedListsAppend(a, b');
    }
  }

  lemma NestedListsSnoc(d: seq<Entry>, e: Entry)
    ensures NestedLists(d + [e]) == NestedLists(d) + if e.value.Object? then ListValues(e.value.entries) else []
  {
    assert (d + [e])[..|d|] == d;
  }

  /** One top-level entry contributes the lists inside it when it is a
      mapping, and nothing otherwise. */
  lemma NestedListsOne(e: Entry)
    ensures NestedLists([e]) == if e.value.Object? then ListValues(e.value.entries) else []
  {
    assert [e][..0] == [];
  }

  /** The lists the parser walks: the first heuristic's, or the second's
      when the first found none. */
  function CandidateLists(d: seq<Entry>): seq<seq<Value>> {
    var known := ListsUnder(d, KnownKeys);
    if known != [] then known else NestedLists(d)
  }

  /** The first heuristic found nothing exactly when no known key holds a
      list; only then does the one-level-deep scan decide the result. */
  lemma FallbackOnlyWithoutKnownList(d: seq<Entry>)
    ensures (forall i :: 0 <= i < |KnownKeys| ==> !Get(d, KnownKeys[i]).List?) ==> CandidateLists(d) == NestedLists(d)
    ensures (exists i :: 0 <= i < |KnownKeys| && Get(d, KnownKeys[i]).List?) ==>
      CandidateLists(d) == ListsUnder(d, KnownKeys) && CandidateLists(d) != []
  {
    ListsUnderFacts(d, KnownKeys);
  }

  /** The first pass: `payload.get(key)` for each key, keeping the lists. */
  method ScanKeys(payload: seq<Entry>, keys: seq<string>) returns (lists: seq<seq<Value>>)
    ensures lists == ListsUnder(payload, keys)
  {
    lists := [];
    var k := 0;
    while k < |keys|
      invariant 0 <= k <= |keys|
      invariant lists == ListsUnder(payload, keys[..k])
    {
      assert keys[..k + 1][..k] == keys[..k];
      var v := Get(payload, keys[k]);
      if v.List? {
        lists := lists + [v.items];
      }
      k := k + 1;
    }
    assert keys[..k] == keys;
  }

  /** The inner loop of the second pass: the list values of one mapping,
      appended to `lists`. */
  method ScanValues(lists: seq<seq<Value>>, inner: seq<Entry>) returns (r: seq<seq<Value>>)
    ensures r == lists + ListValues(inner)
  {
    r := lists;
    var f := 0;
    while f < |inner|
      invariant 0 <= f <= |inner|
      invariant r == lists + ListValues(inner[..f])
    {
      assert inner[..f + 1][..f] == inner[..f];
      if inner[f].value.List? {
        r := r + [inner[f].value.items];
      }
      f := f + 1;
    }
    assert inner[..f] == inner;
  }

  /** The two candidate-list passes of `_dou_parse_payload`, appending to
      `candidate_lists` as they go. */
  method FindCandidateLists(payload: seq<Entry>) returns (lists: seq<seq<Value>>)
    ensures lists == CandidateLists(payload)
  {
    lists := ScanKeys(payload, KnownKeys);
    if lists == [] {
      var e := 0;
      while e < |payload|
        invariant 0 <= e <= |payload|
        invariant lists == NestedLists(payload[..e])
      {
        assert payload[..e + 1][..e] == payload[..e];
        if payload[e].value.Object? {
          lists := ScanValues(lists, payload[e].value.entries);
        }
        e := e + 1;
      }
      assert payload[..e] == payload;
    }
  }

  /** `raw.get(a1) or raw.get(a2) or ...` over an alias chain. */
  function Alias(raw: seq<Entry>, aliases: seq<string>): Value
    requires aliases != []
  {
    Or(GetEach(raw, aliases))
  }

  /** Alias i is the first in the chain that holds a truthy value. */
  ghost predicate FirstTruthyAt(raw: seq<Entry>, aliases: seq<string>, i: int) {
    0 <= i < |aliases| && Truthy(Get(raw, aliases[i]))
    && forall j :: 0 <= j < i ==> !Truthy(Get(raw, aliases[j]))
  }

  /** No alias in the chain holds a truthy value. */
  ghost predicate NoneTruthy(raw: seq<Entry>, aliases: seq<string>) {
    forall i :: 0 <= i < |aliases| ==> !Truthy(Get(raw, aliases[i]))
  }

  /** An alias chain yields the value of its first truthy alias; when there is
      none, the value of its last alias (which may be falsy but present). */
  lemma AliasRule(raw: seq<Entry>, aliases: seq<string>)
    requires aliases != []
    ensures forall i :: FirstTruthyAt(raw, aliases, i) ==> Alias(raw, aliases) == Get(raw, aliases[i])
    ensures NoneTruthy(raw, aliases) ==> Alias(raw, aliases) == Get(raw, aliases[|aliases| - 1])
  {
    var vs := GetEach(raw, aliases);
    forall i | FirstTruthyAt(raw, aliases, i) ensures Alias(raw, aliases) == Get(raw, aliases[i]) {
      assert Truthy(vs[i]) && forall j :: 0 <= j < i ==> !Truthy(vs[j]);
    }
    if NoneTruthy(raw, aliases) {
      assert forall i :: 0 <= i < |vs| ==> !Truthy(vs[i]);
    }
  }

  /** The link a record gets: its direct link, else one built from its id,
      else nothing. */
  function LinkOf(raw: seq<Entry>): string {
    LinkVia(raw, LinkAliases, IdAliases)
  }

  /** `LinkOf` with the two alias chains as parameters. */
  function LinkVia(raw: seq<Entry>, links: seq<string>, ids: seq<string>): string
    requires ids != []
  {
    var direct := Or(GetEach(raw, links) + [Str("")]);
    if Truthy(direct) then AsText(direct)
    else
      var id := Alias(raw, ids);
      if Truthy(id) then LinkPrefix + AsText(id) else ""
  }

  /** One mapping element turned into a record. */
  function ExtractRecord(raw: seq<Entry>, date: string, section: string): (it: Item)
    ensures it.date == date && it.section == Text.Upper(section)
    ensures Text.IsNormal(it.title) && Text.IsNormal(it.summary) && Text.IsNormal(it.agency)
  {
    Item(date, Text.Upper(section),
      NormalizeValue(Alias(raw, AgencyAliases)),
      NormalizeValue(Alias(raw, TitleAliases)),
      NormalizeValue(Alias(raw, SummaryAliases)),
      LinkOf(raw))
  }

  /** The link rule: the first truthy url/link/href as text; otherwise, when
      some id alias is truthy, the gazette page of the first truthy id;
      otherwise empty. */
  lemma LinkRule(raw: seq<Entry>)
    ensures forall i :: FirstTruthyAt(raw, LinkAliases, i) ==> LinkOf(raw) == AsText(Get(raw, LinkAliases[i]))
    ensures NoneTruthy(raw, LinkAliases) ==>
      forall i :: FirstTruthyAt(raw, IdAliases, i) ==> LinkOf(raw) == LinkPrefix + AsText(Get(raw, IdAliases[i]))
    ensures NoneTruthy(raw, LinkAliases) && NoneTruthy(raw, IdAliases) ==> LinkOf(raw) == []
    ensures LinkOf(raw) != [] <==> !(NoneTruthy(raw, LinkAliases) && NoneTruthy(raw, IdAliases))
  {
    LinkViaRule(raw, LinkAliases, IdAliases);
  }

  /** `LinkRule` for any two alias chains. */
  lemma LinkViaRule(raw: seq<Entry>, links: seq<string>, ids: seq<string>)
    requires ids != []
    ensures forall i :: FirstTruthyAt(raw, links, i) ==> LinkVia(raw, links, ids) == AsText(Get(raw, links[i]))
    ensures NoneTruthy(raw, links) ==>
      forall i :: FirstTruthyAt(raw, ids, i) ==> LinkVia(raw, links, ids) == LinkPrefix + AsText(Get(raw, ids[i]))
    ensures NoneTruthy(raw, links) && NoneTruthy(raw, ids) ==> LinkVia(raw, links, ids) == []
    ensures LinkVia(raw, links, ids) != [] <==> !(NoneTruthy(raw, links) && NoneTruthy(raw, ids))
  {
    var ls := GetEach(raw, links);
    OrWithDefault(ls, Str(""));
    AliasRule(raw, ids);
    if NoneTruthy(raw, links) {
      assert !Truthy(Or(ls + [Str("")]));
      if !NoneTruthy(raw, ids) {
        assert Truthy(Alias(raw, ids));
      }
    } else {
      var k :| 0 <= k < |links| && Truthy(Get(raw, links[k]));
      assert Truthy(ls[k]);
      assert Truthy(Or(ls + [Str("")]));
      TruthyHasText(Or(ls + [Str("")]));
    }
  }

  /** k is one of the field names the parser recognises. */
  predicate Recognised(k: string) {
    k in TitleAliases || k in SummaryAliases || k in AgencyAliases || k in LinkAliases || k in IdAliases
  }

  /** A chain of aliases none of which the mapping has is `None`. */
  lemma AliasAbsent(raw: seq<Entry>, aliases: seq<string>)
    requires aliases != []
    requires forall i, j :: 0 <= i < |raw| && 0 <= j < |aliases| ==> raw[i].key != aliases[j]
    ensures Alias(raw, aliases) == Null
  {
    GetAbsent(raw, aliases);
    OrOfNulls(GetEach(raw, aliases));
  }

  /** A mapping that uses none of the recognised field names yields a record
      with every text field empty, which is then dropped. */
  lemma UnrecognisedRecordIsEmpty(raw: seq<Entry>, date: string, section: string)
    requires forall i :: 0 <= i < |raw| ==> !Recognised(raw[i].key)
    ensures ExtractRecord(raw, date, section) == Item(date, Text.Upper(section), "", "", "", "")
    ensures !Keep(ExtractRecord(raw, date, section))
  {
    AliasAbsent(raw, TitleAliases);
    AliasAbsent(raw, SummaryAliases);
    AliasAbsent(raw, AgencyAliases);
    AliasAbsent(raw, IdAliases);
    AliasAbsent(raw, LinkAliases);
    LinkRule(raw);
  }

  /** The record survives: title, summary or link is non-empty. */
  predicate Keep(it: Item) {
    it.title != [] || it.summary != [] || it.link != []
  }

  /** The records `f` makes of the mapping elements of `lst`, in element
      order; other elements are skipped. */
  function MappedRecords(f: seq<Entry> -> Item, lst: seq<Value>): (r: seq<Item>)
    ensures |r| <= |lst|
  {
    if lst == [] then []
    else
      var last := lst[|lst| - 1];
      MappedRecords(f, lst[..|lst| - 1]) + (if last.Object? then [f(last.entries)] else [])
  }

  lemma {:induction false} MappedRecordsMembers(f: seq<Entry> -> Item, lst: seq<Value>, it: Item)
    ensures it in MappedRecords(f, lst) <==> exists i :: 0 <= i < |lst| && lst[i].Object? && it == f(lst[i].entries)
  {
    if lst != [] {
      var front := lst[..|lst| - 1];
      MappedRecordsMembers(f, front, it);
      assert forall i :: 0 <= i < |front| ==> front[i] == lst[i];
      if it in MappedRecords(f, front) {
        var i :| 0 <= i < |front| && front[i].Object? && it == f(front[i].entries);
        assert lst[i] == front[i];
      }
    }
  }

  /** One more element appends its record at the end when it is a mapping. */
  lemma MappedRecordsSnoc(f: seq<Entry> -> Item, lst: seq<Value>, j: nat)
    requires j < |lst|
    ensures MappedRecords(f, lst[..j + 1])
      == MappedRecords(f, lst[..j]) + (if lst[j].Object? then [f(lst[j].entries)] else [])
  {
    assert lst[..j + 1][..j] == lst[..j];
  }

  /** `MappedRecords` over every list, list after list. */
  function AllMappedRecords(f: seq<Entry> -> Item, lists: seq<seq<Value>>): seq<Item> {
    if lists == [] then []
    else AllMappedRecords(f, lists[..|lists| - 1]) + MappedRecords(f, lists[|lists| - 1])
  }

  lemma {:induction false} AllMappedRecordsMembers(f: seq<Entry> -> Item, lists: seq<seq<Value>>, it: Item)
    ensures it in AllMappedRecords(f, lists) <==>
      exists i, j :: 0 <= i < |lists| && 0 <= j < |lists[i]| && lists[i][j].Object? && it == f(lists[i][j].entries)
  {
    if lists != [] {
      var front, last := lists[..|lists| - 1], lists[|lists| - 1];
      AllMappedRecordsMembers(f, front, it);
      MappedRecordsMembers(f, last, it);
      assert AllMappedRecords(f, lists) == AllMappedRecords(f, front) + MappedRecords(f, last);
      if it in AllMappedRecords(f, front) {
        var i, j :| 0 <= i < |front| && 0 <= j < |front[i]| && front[i][j].Object? && it == f(front[i][j].entries);
        assert lists[i][j] == front[i][j];
      } else if it in MappedRecords(f, last) {
        var j :| 0 <= j < |last| && last[j].Object? && it == f(last[j].entries);
        assert lists[|lists| - 1][j] == last[j];
      }
      if exists i, j :: 0 <= i < |lists| && 0 <= j < |lists[i]| && lists[i][j].Object? && it == f(lists[i][j].entries) {
        var i, j :| 0 <= i < |lists| && 0 <= j < |lists[i]| && lists[i][j].Object? && it == f(lists[i][j].entries);
        if i < |front| {
          assert front[i][j] == lists[i][j];
        } else {
          assert lists[i] == last;
        }
      }
    }
  }

  /** `ExtractRecord` for a fixed date and section. */
  function Extractor(date: string, section: string): seq<Entry> -> Item {
    raw => ExtractRecord(raw, date, section)
  }

  /** The records of one candidate list: one per mapping element, in element
      order; elements that are not mappings are skipped. */
  function ElementRecords(lst: seq<Value>, date: string, section: string): seq<Item> {
    MappedRecords(Extractor(date, section), lst)
  }

  /** The records of all candidate lists, list after list. */
  function Records(lists: seq<seq<Value>>, date: string, section: string): seq<Item> {
    AllMappedRecords(Extractor(date, section), lists)
  }

  /** The records of one more list are appended at the end. */
  lemma RecordsSnoc(lists: seq<seq<Value>>, i: nat, date: string, section: string)
    requires i < |lists|
    ensures Records(lists[..i + 1], date, section) == Records(lists[..i], date, section) + ElementRecords(lists[i], date, section)
  {
    assert lists[..i + 1][..i] == lists[..i];
  }

  /** A record is extracted exactly when some mapping element of some
      candidate list turns into it. */
  lemma RecordsMembers(lists: seq<seq<Value>>, date: string, section: string, it: Item)
    ensures it in Records(lists, date, section) <==>
      exists i, j :: 0 <= i < |lists| && 0 <= j < |lists[i]| && lists[i][j].Object?
        && it == ExtractRecord(lists[i][j].entries, date, section)
  {
    AllMappedRecordsMembers(Extractor(date, section), lists, it);
  }

  /** `_dou_parse_payload`: the records of the candidate lists that have a
      title, a summary or a link, in extraction order. */
  function Extract(d: seq<Entry>, date: string, section: string): seq<Item> {
    Seqs.Filter(Keep, Records(CandidateLists(d), date, section))
  }

  /** The output is exactly the extracted records that have a title, summary
      or link, kept in extraction order, each as often as it was extracted. */
  lemma ExtractIsKeptRecords(d: seq<Entry>, date: string, section: string)
    ensures forall it :: it in Extract(d, date, section) <==>
      it in Records(CandidateLists(d), date, section) && Keep(it)
    ensures Seqs.IsSubsequence(Extract(d, date, section), Records(CandidateLists(d), date, section))
    ensures forall it ::
      multiset(Extract(d, date, section))[it]
      == (if Keep(it) then multiset(Records(CandidateLists(d), date, section))[it] else 0)
  {
    var recs := Records(CandidateLists(d), date, section);
    Seqs.FilterMembers(Keep, recs);
    Seqs.FilterIsSubsequence(Keep, recs);
    forall it ensures multiset(Extract(d, date, section))[it] == if Keep(it) then multiset(recs)[it] else 0 {
      Seqs.FilterCount(Keep, recs, it);
    }
  }

  /** Every output record carries the given date and the upper-cased
      section, has normalised title, summary and agency, and is not empty. */
  lemma ExtractShape(d: seq<Entry>, date: string, section: string)
    ensures forall it :: it in Extract(d, date, section) ==>
      it.date == date && it.section == Text.Upper(section) && Keep(it)
      && Text.IsNormal(it.title) && Text.IsNormal(it.summary) && Text.IsNormal(it.agency)
  {
    var lists := CandidateLists(d);
    Seqs.FilterMembers(Keep, Records(lists, date, section));
    forall it | it in Extract(d, date, section)
      ensures it.date == date && it.section == Text.Upper(section) && Keep(it)
      ensures Text.IsNormal(it.title) && Text.IsNormal(it.summary) && Text.IsNormal(it.agency)
    {
      assert it in Records(lists, date, section) && Keep(it);
      RecordsMembers(lists, date, section, it);
      var i, j :| 0 <= i < |lists| && 0 <= j < |lists[i]| && lists[i][j].Object?
        && it == ExtractRecord(lists[i][j].entries, date, section);
    }
  }
}

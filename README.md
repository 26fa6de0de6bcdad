# FiscalizaGov gazette pipeline, modelled in Dafny

FiscalizaGov watches Brazil's official gazette (the *Diário Oficial da União*,
DOU). For a date and a set of sections it fetches the `leiturajornal` JSON
payload of each section and digs the published acts out of it heuristically.
It then keeps the acts that mention the user's keywords, scores each act for
fiscal or regulatory risk from a fixed trigger table plus the user's alert
terms, and ranks the acts by score and date. Two programs carry this logic:
the interactive app `fiscalizagov.py` and the batch notifier
`notificar_fiscalizagov.py`, with near-identical copies of the text
normaliser, the payload parser and the keyword filter.

This project models that pure core and proves its properties:

- `text.dfy` (module `Text`): `normalize_text` (strip, then each run of
  whitespace to one space), with Python's exact `str.isspace` set. Also
  `str.lower`/`str.upper` (see "Left out"), literal substring search,
  Python's code-point order on `str`, and `str.join`.
- `json.dfy` (module `Json`): decoded JSON values (`None`, `bool`, `int`,
  `str`, `list`, `dict` as an ordered entry list), Python truthiness,
  `dict.get`, `a or b or …` chains and `str()`.
- `seqs.dfy` (module `Seqs`): the order-preserving selection that list
  comprehensions with `if` and boolean-mask indexing `df[mask]` perform,
  and the subsequence relation.
- `payload.dfy` (module `Payload`): the parser shared by both programs.
  It covers the two candidate-list passes (method `FindCandidateLists`), the
  alias chains, the link built from an id, one record per mapping element,
  and the emptiness filter. `Extract` is the specification of
  `_dou_parse_payload`.
- `app.dfy` (module `App`): the app's parser, which appends every record
  and filters afterwards, and the app's collector `dou_coletar` over sections
  already fetched. The collector concatenates every section's records and
  then normalises four columns.
- `notifier.dfy` (module `Notifier`): the notifier's parser, which tests
  each record for emptiness as it appends it. It is proved to compute the
  same result as the app's parser.
- `keywords.dfy` (module `Keywords`): `dou_filtrar` and `filter_terms`,
  which are the same code, as one method `FilterRows` that ORs the mask term
  by term. `Filtered` is its specification.
- `scoring.dfy` (module `Scoring`): `score_dou_row`. The trigger loop and
  the alert loop are methods, proved against `Score` and `Reasons`.
- `ranking.dfy` (module `Ranking`): `dou_rankear`. It scores every row in a
  loop, then sorts by score and then by date, both descending. The sort is
  proved ordered, a permutation and stable.

Both copies of `normalize_text` (fiscalizagov.py:54-59 and
notificar_fiscalizagov.py:33-37) are the same function and are modelled
once. The same holds for the candidate-list passes (fiscalizagov.py:127-140,
notificar_fiscalizagov.py:56-67) and the keyword filter (fiscalizagov.py:221-239,
notificar_fiscalizagov.py:122-133).

The alias chains are written with `or`, so a field takes the first
*truthy* alias value, not the value of the first key present: `{"title": "",
"titulo": "X"}` gives the title `X`. When no alias is truthy the chain yields
the value of its last alias. If that value is present but falsy, it is still
turned into text: `{"nome": 0}` gives the title `0`, and `{"nome": false}`
gives `False`.

## Model

| member | source | states |
|---|---|---|
| Text.NormalizeText | fiscalizagov.py:54-59 | the result has no leading or trailing whitespace, every whitespace character in it is a single space between two non-space characters, it keeps every non-whitespace character of the input in order, and it is empty exactly when the input is all whitespace |
| Text.NormalizeWords | fiscalizagov.py:54-59 | stripping and then collapsing every whitespace run gives the maximal non-whitespace runs of the input joined by single spaces, which is `" ".join(s.split())` |
| Payload.NormalizeValue | notificar_fiscalizagov.py:33-37 | `None` gives `""`; any other value gives the words of `str(value)` joined by single spaces, a normal-form text with the same non-whitespace characters |
| Text.Strip | fiscalizagov.py:58 | `strip()` leaves no whitespace at either end and removes only whitespace |
| Text.StripSlice | fiscalizagov.py:58 | `strip()` returns one contiguous slice of its input, with only whitespace before it and after it |
| Text.Collapse | fiscalizagov.py:59 | `re.sub(r"\s+", " ", s)` is empty only for the empty input and starts with whitespace exactly when the input does |
| Text.CollapseIsCollapsed | fiscalizagov.py:59 | after the substitution every whitespace character is a space and no two are adjacent |
| Text.CollapseWords | fiscalizagov.py:59 | the substitution gives one space for leading whitespace, then the words of the input joined by single spaces, then one space for whitespace after the last word; an all-whitespace input gives a single space |
| Text.WordsAreRuns | fiscalizagov.py:59 | the words between whitespace runs are non-empty and contain no whitespace |
| Text.WordsKeepNonSpace | fiscalizagov.py:59 | the words, concatenated, are the non-whitespace characters of the input in order |
| Text.CollapseKeepsNonSpace | fiscalizagov.py:59 | collapsing whitespace runs keeps every other character, in order |
| Text.NormalizeFixesNormal | fiscalizagov.py:54-59 | a string already in normal form is returned unchanged |
| Text.NormalizeIdempotent | notificar_fiscalizagov.py:33-37 | normalising twice is normalising once |
| Json.GetFirst | fiscalizagov.py:130 | `payload.get(key)` is the value of the first entry with the key |
| Json.GetAbsent | fiscalizagov.py:130 | `payload.get(key)` is `None` for every key no entry has |
| Json.GetDistinct | fiscalizagov.py:130 | in a mapping whose keys are distinct, `payload.get(key)` is the value of the entry with that key |
| Json.Or | fiscalizagov.py:147 | `a or b or …` is truthy exactly when some operand is; it is the first truthy operand, or the last operand when none is truthy |
| Json.AsText | fiscalizagov.py:57 | `str(v)` is empty only for the empty string |
| Payload.ListsUnderFacts | fiscalizagov.py:129-132 | the first pass finds nothing exactly when no known key holds a list, and everything it finds is a list under a known key |
| Payload.ListsUnderInOrder | fiscalizagov.py:129-132 | the first pass yields, in key order, the elements of exactly those `payload.get(key)` values that are lists |
| Payload.ListsUnderComplete | fiscalizagov.py:129-132 | every key that holds a list contributes that list |
| Payload.ScanKeys | notificar_fiscalizagov.py:57-60 | the loop over the known keys collects the list values under the keys, in key order |
| Payload.ScanValues | notificar_fiscalizagov.py:65-67 | the inner loop of the second pass appends the list values of one mapping, in entry order |
| Payload.ListValuesFacts | fiscalizagov.py:138-140 | one mapping contributes no list exactly when none of its values is a list, and every list it contributes is one of its values |
| Payload.ListValuesInOrder | fiscalizagov.py:138-140 | one mapping contributes, in entry order, the elements of exactly those of its values that are lists |
| Payload.ListValuesComplete | fiscalizagov.py:138-140 | every list value of the mapping is contributed |
| Payload.NestedListsFacts | fiscalizagov.py:135-140 | every list the second pass finds sits one level down, inside a top-level mapping value |
| Payload.NestedListsComplete | fiscalizagov.py:135-140 | every list one level down, inside a top-level mapping value, is found |
| Payload.NestedListsAppend | fiscalizagov.py:136 | the second pass walks the top-level entries in order: the lists of earlier entries come before those of later ones |
| Payload.NestedListsOne | fiscalizagov.py:136-140 | one top-level entry contributes the list values inside it when it is a mapping, and nothing otherwise |
| Payload.FindCandidateLists | fiscalizagov.py:127-140 | the two passes yield the known-key lists, or the one-level-deep lists when the known keys hold none |
| Payload.FallbackOnlyWithoutKnownList | notificar_fiscalizagov.py:56-67 | the second pass decides the result exactly when no known key holds a list; otherwise the known-key lists, which are non-empty, are used |
| Payload.AliasRule | fiscalizagov.py:147-149 | each field takes the value of the first alias holding a truthy value, or else the value of the last alias |
| Payload.LinkRule | fiscalizagov.py:152-157 | the link is the first truthy url/link/href as text; otherwise the gazette page `https://www.in.gov.br/web/dou/-/` followed by the first truthy id alias; otherwise empty; it is non-empty exactly when some link or id alias is truthy |
| Payload.ExtractRecord | fiscalizagov.py:147-166 | a record carries the given date and the upper-cased section, and its title, summary and agency are in normal form |
| Payload.UnrecognisedRecordIsEmpty | notificar_fiscalizagov.py:74-84 | a mapping that uses none of the recognised field names yields a record with every text field empty, and that record is not kept |
| Payload.MappedRecordsMembers | fiscalizagov.py:143-145 | a list's records come exactly from its mapping elements; other elements are skipped |
| Payload.RecordsMembers | fiscalizagov.py:142-166 | a record is produced exactly when some mapping element of some candidate list turns into it |
| Payload.ExtractIsKeptRecords | fiscalizagov.py:168-169 | the parser's output is exactly the produced records with a non-empty title, summary or link, in production order, each kept record as many times as it was produced |
| Payload.ExtractShape | fiscalizagov.py:159-169 | every output record has the given date, the upper-cased section, normal-form title, summary and agency, and a non-empty title, summary or link |
| App.AppendList | fiscalizagov.py:142-166 | the loop over one list appends, in element order, the record of every mapping element and skips the other elements |
| App.ParsePayload | fiscalizagov.py:120-170 | the app's parser, which appends every record and then filters, computes `Extract` |
| Notifier.ParseList | notificar_fiscalizagov.py:70-92 | the loop over one list appends, in element order, exactly the records of its mapping elements that have a title, summary or link |
| Notifier.ParsePayload | notificar_fiscalizagov.py:53-93 | the notifier's parser, which filters while appending, computes `Extract`, the same result as the app's parser |
| Keywords.SearchTermsMembers | fiscalizagov.py:226 | the search terms are exactly the trimmed, lower-cased non-blank terms; there are none exactly when every term is blank |
| Keywords.MatchesAnyExists | fiscalizagov.py:236-238 | the OR-ed mask holds for a row exactly when some term occurs in its blob |
| Seqs.SelectByPredicate | fiscalizagov.py:239 | indexing by the mask of a predicate selects, in order, the rows satisfying it |
| Keywords.MatchMask | fiscalizagov.py:235-238 | after the loop over the terms, the mask holds for a row exactly when some term occurs in its blob |
| Keywords.FilterRows | fiscalizagov.py:221-239 | the term-by-term mask loop followed by `df[mask]` computes `Filtered` |
| Keywords.FilteredIdentity | notificar_fiscalizagov.py:122-127 | with no rows, or with every term blank after trimming (including no terms), the input comes back unchanged |
| Keywords.FilteredMembers | fiscalizagov.py:230-239 | with some non-blank term, a row is kept exactly when it is an input row and the lower-cased `title + " " + summary + " " + agency` contains some trimmed, lower-cased term literally |
| Keywords.FilteredCount | fiscalizagov.py:230-239 | with some non-blank term, `df[mask]` keeps every copy of a matching row and no copy of a row that matches no term |
| Keywords.MatchesCleanTerm | fiscalizagov.py:230-238 | the mask holds for a row exactly when its blob contains one of the trimmed, lower-cased non-blank terms |
| Keywords.FilteredKeepsOrder | notificar_fiscalizagov.py:129-133 | the output is a subsequence of the input: kept rows keep their relative order |
| Scoring.TableHitsExactly | fiscalizagov.py:268-271 | a trigger fires exactly when its term occurs in the text, and the triggers that fire keep the table's declaration order |
| Scoring.AlertHitsExactly | fiscalizagov.py:273-276 | a hit is exactly the lower-cased form of a non-empty alert term that occurs in the text, and there are no more hits than alert terms |
| Scoring.AlertHitsInOrder | fiscalizagov.py:273-276 | the hits are, in alert order, the lower-cased forms of exactly the alert terms that fire, one hit per firing term |
| Scoring.ScanTriggers | fiscalizagov.py:268-271 | the trigger loop adds the points and appends the terms of exactly the triggers that fire, in table order |
| Scoring.ScanAlerts | fiscalizagov.py:273-276 | the alert loop adds 12 and appends `match:<term>` for exactly the alerts that fire, in alert order |
| Scoring.Clamp | fiscalizagov.py:278 | `max(0, min(100, x))` lies in [0, 100] and is x when x already does |
| Scoring.ScoreRow | fiscalizagov.py:241-279 | the method computes `Score` and `Reasons`; the score lies in [10, 100] and there are at most 8 reasons |
| Scoring.ScoreBounds | fiscalizagov.py:247-278 | every score lies in [10, 100]; points are only ever added, so the lower clamp never applies |
| Scoring.ScoreIsAdditive | fiscalizagov.py:247-278 | the score is 10, plus the points of every trigger found, plus 12 per alert found, capped at 100 |
| Scoring.ReasonsAreFirstEight | fiscalizagov.py:279 | the reasons are a prefix of all reasons fired, and there are min(8, number fired) of them |
| Scoring.ReasonsOrder | fiscalizagov.py:268-279 | the reasons are the triggers that fired, in table order, then `match:<term>` for each alert that fired, in alert order |
| Scoring.ScoreMonotoneInAlerts | fiscalizagov.py:273-276 | adding an alert term never lowers a score |
| Ranking.ScoredAt | fiscalizagov.py:284-292 | row i of the scored frame is input row i with its score and its `", "`-joined reasons |
| Ranking.ScoreAll | fiscalizagov.py:284-292 | the loop that fills `scores` and `motivos_list` and attaches them computes `Scored` |
| Ranking.SortOrdered | fiscalizagov.py:293 | the sorted frame has score non-increasing and, among equal scores, date non-increasing |
| Ranking.SortPermutes | fiscalizagov.py:293 | the sort neither adds nor drops rows (multiset equality) |
| Ranking.SortStable | fiscalizagov.py:293 | rows sharing a score and a date keep their input order |
| Ranking.Rank | fiscalizagov.py:281-295 | the ranking is the sorted scored frame: ordered, a permutation of the scored rows, and stable on ties |
| Text.StrLessTransitive | fiscalizagov.py:293 | Python's order on the date strings is transitive; with `StrLessTotal`, `StrLessAsymmetric` and `StrLessIrreflexive` it is a strict total order |
| Text.StrLessTotal | fiscalizagov.py:293 | any two different date strings are ordered one way or the other |
| App.Tidy | fiscalizagov.py:211-213 | normalising the title, agency, summary and link columns puts all four in normal form and keeps the date, the section and the link's non-whitespace characters |
| App.Collect | fiscalizagov.py:179-213 | over already-fetched sections, the collector computes `Collected`, and every row has the collection date and a normal-form link |
| App.GatheredDates | fiscalizagov.py:181-199 | every record gathered across sections carries the collection date |
| App.BlankLinkKeepsEmptyRow | fiscalizagov.py:152-169 | as written: the payload `{"jsonArray": [{"url": "   "}]}` for section `do1` yields one row whose title, summary and link are all empty |
| App.CollectedNonEmptyRows | fiscalizagov.py:168-169 | corrected: with the emptiness filter applied after the final normalisation, every row has a non-empty title, summary or link and normal-form title, summary and link, and the rows keep their order |
| App.BlankLinkDropped | fiscalizagov.py:168-169 | corrected: the blank-link payload yields no row |

## Left out

- Network access: `requests.get`, the status-code check, the fallback JSON
  decoding of a non-JSON body, and `time.sleep` between sections. Each
  section's fetch is an input `App.Fetch`: either `Unavailable` or the
  decoded body.
- The notifier's `dou_collect` (notificar_fiscalizagov.py:95-120) is not
  modelled. It is the app's collector without the final normalisation.
- The `st.cache_data` memoisation, Telegram delivery and message templates,
  CSV/XLSX export, the Streamlit UI and password gate, the notifier's
  `main` and environment parsing, and the wall clock: all are I/O or
  library behaviour outside the core.
- `App.Collect`: the reformatting of the date column to `dd/mm/yyyy` via
  `pd.to_datetime` (fiscalizagov.py:217) and the constant `Fonte` column are
  not modelled; dates stay the opaque string given. A date that fails to
  parse (NaN) is therefore not modelled either, nor its place at the end
  of the sort.
- `Text.Lower`, `Text.Upper`: case mapping covers ASCII and the Latin-1
  letters with a Latin-1 counterpart. Other characters are unchanged, so
  `ß`→`SS`, `ÿ`→`Ÿ`, `µ`→`Μ` and mappings outside Latin-1 are not modelled.
- `Json.AsText`: `str()` of a list or a dict uses plain single quotes
  around strings, without Python's `repr` escaping or its choice of double
  quotes. Floats are not part of the value model.
- `Keywords.FilterRows`: `fillna("")` and `astype(str)` are not modelled,
  because every column it reads is a string produced by the parser.
- `Payload.LinkOf`: both parsers store the raw value of the first truthy
  url/link/href alias as the link, not its `str()`; the model stores the
  text. That value is truthy exactly when its text is non-empty, so the
  emptiness test and the rows kept are the same, and the app's later
  `normalize_text` of the link column applies `str()` anyway.
- Duplicate keys in a JSON object: the value model allows them and `d.get`
  is modelled as taking the first entry, whereas Python's `json` keeps the
  last. A decoded payload never has duplicates; for distinct keys the two
  agree (`Json.GetDistinct`).
- `Ranking.Rank`: for an empty frame the source returns it without the
  `Score` and `Motivos` columns; the model returns the empty sequence.
  Column order in the output frame is not modelled.
- `Ranking.SortRanked`: pandas' two-key `sort_values` is taken to be
  stable, which is how its lexicographic multi-key sort behaves.

## Findings

| source | as written | input that shows it | evidently intended | confidence | as-written member | corrected member |
|---|---|---|---|---|---|---|
| fiscalizagov.py:168-169, 211-213 | records are dropped as "too empty" before the link column is normalised, so a link made only of whitespace keeps the record, and normalisation then empties the link | payload `{"jsonArray": [{"url": "   "}]}` for section `do1` gives the row `(date, "DO1", "", "", "", "")` | no row has an empty title, summary and link | not executed | App.BlankLinkKeepsEmptyRow | App.CollectedNonEmptyRows |

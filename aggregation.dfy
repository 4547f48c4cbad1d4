/**
 * `process_and_aggregate`: for every parsed use case and every one of its
 * keywords, the first catalog hit (if any) becomes one six-column tuple; the
 * tuples are then grouped by (title, description), pandas-style, and each of
 * the four remaining columns of a group is reduced on its own to
 * `", ".join(sorted(column.unique()))`.
 */
module Aggregation {
  import opened Wrappers
  import opened Strings
  import opened Ordering
  import opened KaggleSearch
  import opened UseCaseParser

  // ---------------------------------------------------------------------------
  // Accumulation
  // ---------------------------------------------------------------------------

  /** One element of `all_resources`. */
  datatype Entry = Entry(title: string, description: string, keyword: string,
                         name: string, link: string, source: string)

  /** The `KeyError` that `use_case[key]` raises when the record lacks `key`. */
  datatype KeyError = KeyError(key: string)

  /** The three fields the aggregator reads from every record. */
  datatype Required = Required(title: string, description: string, keywords: seq<string>)

  const TitleKey: string := "title"
  const DescriptionKey: string := "description"
  const KeywordsKey: string := "keywords"

  /** How many catalog hits per keyword are kept (`[:1]`). */
  const MaxHitsPerKeyword: nat := 1

  /** The record carries all three fields the aggregator reads. */
  predicate Complete(uc: UseCase) {
    uc.title.Some? && uc.description.Some? && uc.keywords.Some?
  }

  /**
   * `use_case["title"]`, `use_case["description"]`, `use_case["keywords"]`,
   * read in that order: the first missing key raises.
   */
  function RequiredFields(uc: UseCase): (r: Result<Required, KeyError>)
    ensures r.Ok? <==> Complete(uc)
    ensures r.Ok? ==> r.value == Required(uc.title.value, uc.description.value, uc.keywords.value)
    ensures uc.title.None? ==> r == Err(KeyError(TitleKey))
    ensures uc.title.Some? && uc.description.None? ==> r == Err(KeyError(DescriptionKey))
    ensures uc.title.Some? && uc.description.Some? && uc.keywords.None? ==> r == Err(KeyError(KeywordsKey))
  {
    match (uc.title, uc.description, uc.keywords)
    case (None, _, _) => Err(KeyError(TitleKey))
    case (Some(_), None, _) => Err(KeyError(DescriptionKey))
    case (Some(_), Some(_), None) => Err(KeyError(KeywordsKey))
    case (Some(t), Some(d), Some(ks)) => Ok(Required(t, d, ks))
  }

  /** The catalog lists at least one dataset for `keyword`. */
  predicate HasHit(keyword: string, search: string -> SearchOutcome) {
    search(keyword).Listed? && search(keyword).datasets != []
  }

  /** The tuple that the first dataset listed for `keyword` gives. */
  function FirstEntry(title: string, description: string, keyword: string, search: string -> SearchOutcome): Entry
    requires HasHit(keyword, search)
  {
    var dataset := search(keyword).datasets[0];
    Entry(title, description, keyword, dataset.title, KaggleUrlPrefix + dataset.ref, KaggleSource)
  }

  /** `fetch_datasets_from_kaggle(keyword)[:1]` */
  function FirstHits(keyword: string, search: string -> SearchOutcome): seq<Resource> {
    var resources := FetchDatasetsFromKaggle(keyword, search);
    resources[..Min(MaxHitsPerKeyword, |resources|)]
  }

  /** One tuple per resource, tagged with the use case and keyword it was found for. */
  function ToEntries(title: string, description: string, keyword: string, resources: seq<Resource>): seq<Entry> {
    seq(|resources|, i requires 0 <= i < |resources| =>
      Entry(title, description, keyword, resources[i].name, resources[i].url, resources[i].source))
  }

  /**
   * The tuples one keyword of one use case contributes: exactly one, built
   * from the first dataset listed, when the catalog lists any; none when it
   * lists nothing or raises.
   */
  function EntriesFor(title: string, description: string, keyword: string, search: string -> SearchOutcome): (r: seq<Entry>)
    ensures HasHit(keyword, search) ==> r == [FirstEntry(title, description, keyword, search)]
    ensures !HasHit(keyword, search) ==> r == []
  {
    ToEntries(title, description, keyword, FirstHits(keyword, search))
  }

  /** The tuples the keywords of one use case contribute, keyword by keyword. */
  function KeywordEntries(title: string, description: string, keywords: seq<string>, search: string -> SearchOutcome): seq<Entry> {
    if keywords == [] then []
    else
      var last := keywords[|keywords| - 1];
      KeywordEntries(title, description, keywords[..|keywords| - 1], search) + EntriesFor(title, description, last, search)
  }

  /** One pass of the outer loop: read the record's fields, then add its keywords' tuples. */
  function AddUseCase(acc: Result<seq<Entry>, KeyError>, uc: UseCase, search: string -> SearchOutcome): Result<seq<Entry>, KeyError> {
    match acc
    case Err(e) => Err(e)
    case Ok(entries) =>
      match RequiredFields(uc)
      case Err(e) => Err(e)
      case Ok(Required(title, description, keywords)) =>
        Ok(entries + KeywordEntries(title, description, keywords, search))
  }

  /** `all_resources` after the loop over `useCases`, or the `KeyError` that stops it. */
  function CollectEntries(useCases: seq<UseCase>, search: string -> SearchOutcome): Result<seq<Entry>, KeyError> {
    if useCases == [] then Ok([])
    else AddUseCase(CollectEntries(useCases[..|useCases| - 1], search), useCases[|useCases| - 1], search)
  }

  /** `uc` is a complete record whose keyword `keyword` has a hit that gives tuple `e`. */
  predicate Yields(uc: UseCase, keyword: string, e: Entry, search: string -> SearchOutcome) {
    && Complete(uc)
    && keyword in uc.keywords.value
    && HasHit(keyword, search)
    && e == FirstEntry(uc.title.value, uc.description.value, keyword, search)
  }

  /**
   * A use case's keywords contribute at most one tuple each: the tuples are
   * exactly the first hits of those keywords that have one.
   */
  lemma {:induction false} KeywordEntriesAreFirstHits(title: string, description: string, keywords: seq<string>, search: string -> SearchOutcome)
    ensures |KeywordEntries(title, description, keywords, search)| <= |keywords|
    ensures forall e :: e in KeywordEntries(title, description, keywords, search) <==>
              exists keyword :: keyword in keywords && HasHit(keyword, search) && e == FirstEntry(title, description, keyword, search)
  {
    if keywords != [] {
      var init := keywords[..|keywords| - 1];
      var last := keywords[|keywords| - 1];
      KeywordEntriesAreFirstHits(title, description, init, search);
      assert keywords == init + [last];
      var here := EntriesFor(title, description, last, search);
      assert KeywordEntries(title, description, keywords, search) == KeywordEntries(title, description, init, search) + here;
      forall e | e in KeywordEntries(title, description, keywords, search)
        ensures exists keyword :: keyword in keywords && HasHit(keyword, search) && e == FirstEntry(title, description, keyword, search)
      {
        if e in here {
          assert last in keywords;
        } else {
          var keyword :| keyword in init && HasHit(keyword, search) && e == FirstEntry(title, description, keyword, search);
          assert keyword in keywords;
        }
      }
      forall keyword | keyword in keywords && HasHit(keyword, search)
        ensures FirstEntry(title, description, keyword, search) in KeywordEntries(title, description, keywords, search)
      {
        if keyword != last {
          assert keyword in init;
        }
      }
    }
  }

  /** The use case at index `i` is the first one that lacks a field the aggregator reads. */
  predicate FirstIncomplete(useCases: seq<UseCase>, i: int) {
    && 0 <= i < |useCases|
    && !Complete(useCases[i])
    && forall j :: 0 <= j < i ==> Complete(useCases[j])
  }

  /**
   * Accumulation raises exactly when some record lacks a field, and then it
   * raises the `KeyError` of the first such record, for its first missing key.
   */
  lemma {:induction false} CollectEntriesFails(useCases: seq<UseCase>, search: string -> SearchOutcome)
    ensures CollectEntries(useCases, search).Err? <==> exists i :: 0 <= i < |useCases| && !Complete(useCases[i])
    ensures CollectEntries(useCases, search).Err? ==>
              exists i :: FirstIncomplete(useCases, i) && CollectEntries(useCases, search) == Err(RequiredFields(useCases[i]).error)
  {
    if useCases != [] {
      var n := |useCases| - 1;
      var init := useCases[..n];
      CollectEntriesFails(init, search);
      var acc := CollectEntries(init, search);
      assert CollectEntries(useCases, search) == AddUseCase(acc, useCases[n], search);
      assert forall j :: 0 <= j < n ==> init[j] == useCases[j];
      if acc.Err? {
        var i :| FirstIncomplete(init, i) && acc == Err(RequiredFields(init[i]).error);
        assert FirstIncomplete(useCases, i);
      } else if !Complete(useCases[n]) {
        assert FirstIncomplete(useCases, n);
      } else {
        assert forall j :: 0 <= j < |useCases| ==> Complete(useCases[j]);
      }
    }
  }

  /**
   * When accumulation succeeds, every record is complete and the tuples are
   * exactly the first hits of the keywords of the records: one tuple per
   * (record, keyword with a hit), none for a keyword without one.
   */
  lemma {:induction false} CollectedEntriesAreFirstHits(useCases: seq<UseCase>, search: string -> SearchOutcome)
    ensures CollectEntries(useCases, search).Ok? ==>
              forall e :: e in CollectEntries(useCases, search).value <==> exists uc, keyword :: uc in useCases && Yields(uc, keyword, e, search)
  {
    if useCases != [] && CollectEntries(useCases, search).Ok? {
      var n := |useCases| - 1;
      var init := useCases[..n];
      var uc := useCases[n];
      CollectedEntriesAreFirstHits(init, search);
      assert useCases == init + [uc];
      var before := CollectEntries(init, search).value;
      var here := KeywordEntries(uc.title.value, uc.description.value, uc.keywords.value, search);
      KeywordEntriesAreFirstHits(uc.title.value, uc.description.value, uc.keywords.value, search);
      assert CollectEntries(useCases, search).value == before + here;
      forall e ensures e in before + here <==> exists u, keyword :: u in useCases && Yields(u, keyword, e, search) {
        if e in here {
          var keyword :| keyword in uc.keywords.value && HasHit(keyword, search)
            && e == FirstEntry(uc.title.value, uc.description.value, keyword, search);
          assert Yields(uc, keyword, e, search);
        } else if e in before {
          var u, keyword :| u in init && Yields(u, keyword, e, search);
          assert u in useCases;
        }
        if exists u, keyword :: u in useCases && Yields(u, keyword, e, search) {
          var u, keyword :| u in useCases && Yields(u, keyword, e, search);
          if u == uc {
            assert e in here;
          } else {
            assert u in init;
          }
        }
      }
    }
  }

  // ---------------------------------------------------------------------------
  // Grouping
  // ---------------------------------------------------------------------------

  /** The `groupby` key. */
  datatype GroupKey = GroupKey(title: string, description: string)

  function KeyOf(e: Entry): GroupKey {
    GroupKey(e.title, e.description)
  }

  /** pandas' key order: by title, then by description. */
  predicate KeyBelow(a: GroupKey, b: GroupKey) {
    Below(a.title, b.title) || (a.title == b.title && Below(a.description, b.description))
  }

  lemma KeyBelowIsStrictTotalOrder()
    ensures IsStrictTotalOrder(KeyBelow)
  {
    BelowIsStrictTotalOrder();
    forall a: GroupKey, b: GroupKey ensures a == b || KeyBelow(a, b) || KeyBelow(b, a) {
      assert a.title == b.title && a.description == b.description ==> a == b;
    }
  }

  /** The four reduced columns. */
  datatype Column = KeywordColumn | NameColumn | LinkColumn | SourceColumn

  function Cell(e: Entry, c: Column): string {
    match c
    case KeywordColumn => e.keyword
    case NameColumn => e.name
    case LinkColumn => e.link
    case SourceColumn => e.source
  }

  function Keys(entries: seq<Entry>): seq<GroupKey> {
    seq(|entries|, i requires 0 <= i < |entries| => KeyOf(entries[i]))
  }

  function ColumnValues(entries: seq<Entry>, c: Column): seq<string> {
    seq(|entries|, i requires 0 <= i < |entries| => Cell(entries[i], c))
  }

  /** The group keys `groupby` finds: each key once, in ascending key order. */
  function GroupKeys(entries: seq<Entry>): (ks: seq<GroupKey>)
    ensures StrictlySorted(ks, KeyBelow)
    ensures Elements(ks) == Elements(Keys(entries))
  {
    KeyBelowIsStrictTotalOrder();
    SortSorted(Unique(Keys(entries)), KeyBelow);
    Sort(Unique(Keys(entries)), KeyBelow)
  }

  /** The entries of the group with key `k`, in their accumulated order. */
  function Group(entries: seq<Entry>, k: GroupKey): seq<Entry> {
    if entries == [] then []
    else
      var last := entries[|entries| - 1];
      Group(entries[..|entries| - 1], k) + (if KeyOf(last) == k then [last] else [])
  }

  /** `lambda x: ', '.join(sorted(x.unique()))` */
  function Reduce(group: seq<Entry>, c: Column): string {
    Join(SortedUnique(ColumnValues(group, c)), CellSeparator)
  }

  const CellSeparator: string := ", "

  /** One row of the aggregated frame after `reset_index()`. */
  datatype AggregatedRow = AggregatedRow(title: string, description: string, keyword: string,
                                         datasetName: string, datasetLink: string, source: string)

  function RowFor(entries: seq<Entry>, k: GroupKey): AggregatedRow {
    var group := Group(entries, k);
    AggregatedRow(k.title, k.description, Reduce(group, KeywordColumn), Reduce(group, NameColumn),
                  Reduce(group, LinkColumn), Reduce(group, SourceColumn))
  }

  /** `df.groupby([...]).agg({...}).reset_index()`: one row per group key, in key order. */
  function Aggregate(entries: seq<Entry>): seq<AggregatedRow> {
    var ks := GroupKeys(entries);
    seq(|ks|, i requires 0 <= i < |ks| => RowFor(entries, ks[i]))
  }

  /** The whole of `process_and_aggregate` on values: its rows, or the `KeyError` it raises. */
  function Aggregated(useCases: seq<UseCase>, search: string -> SearchOutcome): Result<seq<AggregatedRow>, KeyError> {
    match CollectEntries(useCases, search)
    case Err(e) => Err(e)
    case Ok(entries) => Ok(Aggregate(entries))
  }

  /** The first record that lacks a field stops the loop with that record's `KeyError`. */
  lemma {:induction false} CollectEntriesFailsAt(useCases: seq<UseCase>, u: nat, search: string -> SearchOutcome)
    requires u < |useCases| && CollectEntries(useCases[..u], search).Ok? && !Complete(useCases[u])
    ensures CollectEntries(useCases, search) == Err(RequiredFields(useCases[u]).error)
    decreases |useCases|
  {
    var init := useCases[..|useCases| - 1];
    if u + 1 < |useCases| {
      assert init[..u] == useCases[..u];
      CollectEntriesFailsAt(init, u, search);
    } else {
      assert init == useCases[..u];
    }
  }

  /**
   * `process_and_aggregate(use_cases)`: the nested loops accumulate the
   * tuples, stopping with a `KeyError` at the first record that lacks a
   * field; a non-empty accumulation is then grouped and reduced, an empty one
   * yields an empty frame.
   */
  method ProcessAndAggregate(useCases: seq<UseCase>, search: string -> SearchOutcome)
    returns (r: Result<seq<AggregatedRow>, KeyError>)
    ensures r == Aggregated(useCases, search)
  {
    var allResources: seq<Entry> := [];
    for u := 0 to |useCases|
      invariant CollectEntries(useCases[..u], search) == Ok(allResources)
    {
      var useCase := useCases[u];
      if useCase.title.None? {
        CollectEntriesFailsAt(useCases, u, search);
        return Err(KeyError(TitleKey));
      }
      var title := useCase.title.value;
      if useCase.description.None? {
        CollectEntriesFailsAt(useCases, u, search);
        return Err(KeyError(DescriptionKey));
      }
      var description := useCase.description.value;
      if useCase.keywords.None? {
        CollectEntriesFailsAt(useCases, u, search);
        return Err(KeyError(KeywordsKey));
      }
      var keywords := useCase.keywords.value;
      ghost var beforeUseCase := allResources;
      for k := 0 to |keywords|
        invariant allResources == beforeUseCase + KeywordEntries(title, description, keywords[..k], search)
      {
        var keyword := keywords[k];
        var kaggleDatasets := FirstHits(keyword, search);
        for d := 0 to |kaggleDatasets|
          invariant allResources == beforeUseCase + KeywordEntries(title, description, keywords[..k], search)
                                    + ToEntries(title, description, keyword, kaggleDatasets[..d])
        {
          var dataset := kaggleDatasets[d];
          AppendOneEntry(beforeUseCase + KeywordEntries(title, description, keywords[..k], search), title, description, keyword, kaggleDatasets, d);
          allResources := allResources + [Entry(title, description, keyword, dataset.name, dataset.url, dataset.source)];
        }
        AppendKeyword(beforeUseCase, title, description, keywords, k, search);
      }
      CollectEntriesAppend(useCases, u, beforeUseCase, search);
    }
    WholePrefix(useCases);
    if |allResources| > 0 {
      r := Ok(Aggregate(allResources));
    } else {
      AggregateEmptyIff(allResources);
      r := Ok([]);
    }
  }

  lemma AppendOneEntry(prefix: seq<Entry>, title: string, description: string, keyword: string, resources: seq<Resource>, d: nat)
    requires d < |resources|
    ensures prefix + ToEntries(title, description, keyword, resources[..d])
              + [Entry(title, description, keyword, resources[d].name, resources[d].url, resources[d].source)]
            == prefix + ToEntries(title, description, keyword, resources[..d + 1])
  {
    ToEntriesStep(title, description, keyword, resources, d);
  }

  lemma AppendKeyword(prefix: seq<Entry>, title: string, description: string, keywords: seq<string>, k: nat, search: string -> SearchOutcome)
    requires k < |keywords|
    ensures prefix + KeywordEntries(title, description, keywords[..k], search)
              + ToEntries(title, description, keywords[k], FirstHits(keywords[k], search)[..|FirstHits(keywords[k], search)|])
            == prefix + KeywordEntries(title, description, keywords[..k + 1], search)
  {
    WholePrefix(FirstHits(keywords[k], search));
    KeywordEntriesStep(title, description, keywords, k, search);
  }

  /** A named form of `s[..|s|] == s`, which the loop proofs need to close each loop. */
  lemma WholePrefix<T>(s: seq<T>)
    ensures s[..|s|] == s
  {
  }

  lemma ToEntriesStep(title: string, description: string, keyword: string, resources: seq<Resource>, d: nat)
    requires d < |resources|
    ensures ToEntries(title, description, keyword, resources[..d + 1]) ==
              ToEntries(title, description, keyword, resources[..d])
              + [Entry(title, description, keyword, resources[d].name, resources[d].url, resources[d].source)]
  {
  }

  lemma KeywordEntriesStep(title: string, description: string, keywords: seq<string>, k: nat, search: string -> SearchOutcome)
    requires k < |keywords|
    ensures KeywordEntries(title, description, keywords[..k + 1], search) ==
              KeywordEntries(title, description, keywords[..k], search) + ToEntries(title, description, keywords[k], FirstHits(keywords[k], search))
  {
    assert keywords[..k + 1][..k] == keywords[..k];
  }

  lemma CollectEntriesAppend(useCases: seq<UseCase>, u: nat, before: seq<Entry>, search: string -> SearchOutcome)
    requires u < |useCases| && CollectEntries(useCases[..u], search) == Ok(before) && Complete(useCases[u])
    ensures var uc := useCases[u];
      CollectEntries(useCases[..u + 1], search) ==
        Ok(before + KeywordEntries(uc.title.value, uc.description.value, uc.keywords.value[..|uc.keywords.value|], search))
  {
    CollectEntriesStep(useCases, u, search);
    WholePrefix(useCases[u].keywords.value);
  }

  lemma CollectEntriesStep(useCases: seq<UseCase>, u: nat, search: string -> SearchOutcome)
    requires u < |useCases|
    ensures CollectEntries(useCases[..u + 1], search) == AddUseCase(CollectEntries(useCases[..u], search), useCases[u], search)
  {
    assert useCases[..u + 1][..u] == useCases[..u];
  }

  // ---------------------------------------------------------------------------
  // Properties of the grouping
  // ---------------------------------------------------------------------------

  /** The values column `c` takes among the tuples with key `k`. */
  function GroupValues(entries: seq<Entry>, k: GroupKey, c: Column): set<string> {
    set e | e in entries && KeyOf(e) == k :: Cell(e, c)
  }

  function RowKey(row: AggregatedRow): GroupKey {
    GroupKey(row.title, row.description)
  }

  function RowKeys(rows: seq<AggregatedRow>): seq<GroupKey> {
    seq(|rows|, i requires 0 <= i < |rows| => RowKey(rows[i]))
  }

  /** The cell of `row` in column `c`. */
  function RowCell(row: AggregatedRow, c: Column): string {
    match c
    case KeywordColumn => row.keyword
    case NameColumn => row.datasetName
    case LinkColumn => row.datasetLink
    case SourceColumn => row.source
  }

  /** A group holds exactly the tuples that carry its key. */
  lemma {:induction false} GroupMembers(entries: seq<Entry>, k: GroupKey)
    ensures forall e :: e in Group(entries, k) <==> e in entries && KeyOf(e) == k
  {
    if entries != [] {
      var init := entries[..|entries| - 1];
      GroupMembers(init, k);
      assert entries == init + [entries[|entries| - 1]];
    }
  }

  lemma GroupColumnValues(entries: seq<Entry>, k: GroupKey, c: Column)
    ensures Elements(ColumnValues(Group(entries, k), c)) == GroupValues(entries, k, c)
  {
    GroupMembers(entries, k);
    var g := Group(entries, k);
    var column := ColumnValues(g, c);
    forall v ensures v in Elements(column) <==> v in GroupValues(entries, k, c) {
      if v in Elements(column) {
        var i :| 0 <= i < |g| && column[i] == v;
        assert g[i] in g;
      }
      if v in GroupValues(entries, k, c) {
        var e :| e in entries && KeyOf(e) == k && Cell(e, c) == v;
        assert e in g;
        var i :| 0 <= i < |g| && g[i] == e;
        assert column[i] == v;
      }
    }
  }

  lemma KeysOf(entries: seq<Entry>)
    ensures Elements(Keys(entries)) == set e | e in entries :: KeyOf(e)
  {
    var keys := Keys(entries);
    forall k ensures k in Elements(keys) <==> exists e :: e in entries && KeyOf(e) == k {
      if k in Elements(keys) {
        var i :| 0 <= i < |keys| && keys[i] == k;
        assert entries[i] in entries;
      }
      if exists e :: e in entries && KeyOf(e) == k {
        var e :| e in entries && KeyOf(e) == k;
        var i :| 0 <= i < |entries| && entries[i] == e;
        assert keys[i] == k;
      }
    }
  }

  /**
   * The rows are strictly ascending by (title, description) and there is
   * exactly one row for each distinct key among the tuples.
   */
  lemma RowsAreSortedGroups(entries: seq<Entry>)
    ensures StrictlySorted(RowKeys(Aggregate(entries)), KeyBelow)
    ensures Elements(RowKeys(Aggregate(entries))) == Elements(Keys(entries))
  {
    assert RowKeys(Aggregate(entries)) == GroupKeys(entries);
  }

  /**
   * Each cell of a row is the strictly ascending list of the distinct values
   * its column takes within the row's group, joined by ", ": it equals the
   * join of ANY strictly ascending list of exactly those values.
   */
  lemma RowCellIsSortedDistinctValues(entries: seq<Entry>, i: nat, c: Column, xs: seq<string>)
    requires i < |Aggregate(entries)|
    requires StrictlySorted(xs, Below)
    requires Elements(xs) == GroupValues(entries, RowKey(Aggregate(entries)[i]), c)
    ensures RowCell(Aggregate(entries)[i], c) == Join(xs, CellSeparator)
  {
    var k := GroupKeys(entries)[i];
    var row := Aggregate(entries)[i];
    assert row == RowFor(entries, k);
    GroupColumnValues(entries, k, c);
    BelowIsStrictTotalOrder();
    StrictlySortedUnique(xs, SortedUnique(ColumnValues(Group(entries, k), c)), Below);
    assert RowCell(row, c) == Reduce(Group(entries, k), c);
  }

  lemma ReduceDependsOnlyOnElements(a: seq<Entry>, b: seq<Entry>, k: GroupKey, c: Column)
    requires Elements(a) == Elements(b)
    ensures Reduce(Group(a, k), c) == Reduce(Group(b, k), c)
  {
    GroupColumnValues(a, k, c);
    GroupColumnValues(b, k, c);
    assert forall e :: e in a <==> e in Elements(b);
    assert GroupValues(a, k, c) == GroupValues(b, k, c);
    SortedUniqueDependsOnlyOnElements(ColumnValues(Group(a, k), c), ColumnValues(Group(b, k), c));
  }

  /**
   * The aggregated frame depends only on which tuples were accumulated, not
   * on their order or how often they repeat; in particular any permutation
   * of the tuples gives the same rows.
   */
  lemma AggregateDependsOnlyOnElements(a: seq<Entry>, b: seq<Entry>)
    requires Elements(a) == Elements(b)
    ensures Aggregate(a) == Aggregate(b)
  {
    KeysOf(a);
    KeysOf(b);
    assert forall e :: e in a <==> e in Elements(b);
    KeyBelowIsStrictTotalOrder();
    StrictlySortedUnique(GroupKeys(a), GroupKeys(b), KeyBelow);
    var ks := GroupKeys(a);
    forall i | 0 <= i < |ks| ensures RowFor(a, ks[i]) == RowFor(b, ks[i]) {
      ReduceDependsOnlyOnElements(a, b, ks[i], KeywordColumn);
      ReduceDependsOnlyOnElements(a, b, ks[i], NameColumn);
      ReduceDependsOnlyOnElements(a, b, ks[i], LinkColumn);
      ReduceDependsOnlyOnElements(a, b, ks[i], SourceColumn);
    }
  }

  /** The frame is empty exactly when no tuple was accumulated. */
  lemma AggregateEmptyIff(entries: seq<Entry>)
    ensures Aggregate(entries) == [] <==> entries == []
  {
    NoElements(GroupKeys(entries));
    NoElements(Keys(entries));
  }

  // ---------------------------------------------------------------------------
  // From records to rows
  // ---------------------------------------------------------------------------

  /**
   * Every accumulated tuple comes from the first dataset the catalog lists
   * for its keyword: its name is that dataset's title, its link is the Kaggle
   * prefix followed by the dataset's reference, and its source is "Kaggle".
   */
  lemma EntryProvenance(useCases: seq<UseCase>, search: string -> SearchOutcome)
    requires CollectEntries(useCases, search).Ok?
    ensures forall e :: e in CollectEntries(useCases, search).value ==>
              && HasHit(e.keyword, search)
              && e.name == search(e.keyword).datasets[0].title
              && e.link == KaggleUrlPrefix + search(e.keyword).datasets[0].ref
              && e.source == KaggleSource
  {
    CollectedEntriesAreFirstHits(useCases, search);
  }

  /** The keywords with a hit of all complete records whose key is `k`. */
  function HitKeywords(useCases: seq<UseCase>, k: GroupKey, search: string -> SearchOutcome): set<string> {
    set uc, keyword | uc in useCases && Complete(uc) && keyword in uc.keywords.value
                      && GroupKey(uc.title.value, uc.description.value) == k && HasHit(keyword, search)
      :: keyword
  }

  /**
   * The keyword values of the group with key `k` are the keywords with a hit
   * of ALL records with that key: records sharing a title and description
   * merge, and a keyword without a hit never shows up.
   */
  lemma KeywordValuesAreHitKeywords(useCases: seq<UseCase>, k: GroupKey, search: string -> SearchOutcome)
    requires CollectEntries(useCases, search).Ok?
    ensures GroupValues(CollectEntries(useCases, search).value, k, KeywordColumn) == HitKeywords(useCases, k, search)
  {
    var entries := CollectEntries(useCases, search).value;
    CollectedEntriesAreFirstHits(useCases, search);
    forall keyword ensures keyword in GroupValues(entries, k, KeywordColumn) <==> keyword in HitKeywords(useCases, k, search) {
      if keyword in GroupValues(entries, k, KeywordColumn) {
        var e :| e in entries && KeyOf(e) == k && e.keyword == keyword;
        var uc, kw :| uc in useCases && Yields(uc, kw, e, search);
        assert kw == keyword;
      }
      if keyword in HitKeywords(useCases, k, search) {
        var uc :| uc in useCases && Complete(uc) && keyword in uc.keywords.value
                  && GroupKey(uc.title.value, uc.description.value) == k && HasHit(keyword, search);
        var e := FirstEntry(uc.title.value, uc.description.value, keyword, search);
        assert Yields(uc, keyword, e, search);
        assert e in entries && KeyOf(e) == k;
      }
    }
  }

  /** There is a row for key `k` exactly when some record with that key has a keyword with a hit. */
  lemma RowsAreKeysWithHits(useCases: seq<UseCase>, k: GroupKey, search: string -> SearchOutcome)
    requires Aggregated(useCases, search).Ok?
    ensures k in Elements(RowKeys(Aggregated(useCases, search).value)) <==> HitKeywords(useCases, k, search) != {}
  {
    var entries := CollectEntries(useCases, search).value;
    RowsAreSortedGroups(entries);
    KeysOf(entries);
    KeywordValuesAreHitKeywords(useCases, k, search);
    if HitKeywords(useCases, k, search) != {} {
      var keyword :| keyword in GroupValues(entries, k, KeywordColumn);
      var e :| e in entries && KeyOf(e) == k && Cell(e, KeywordColumn) == keyword;
    }
    if k in Elements(Keys(entries)) {
      var e :| e in entries && KeyOf(e) == k;
      assert Cell(e, KeywordColumn) in GroupValues(entries, k, KeywordColumn);
    }
  }

  /**
   * The Keyword cell of each row is the strictly ascending list of the
   * distinct keywords with a hit of the records with that row's key, joined
   * by ", ".
   */
  lemma KeywordCellIsSortedHitKeywords(useCases: seq<UseCase>, i: nat, xs: seq<string>, search: string -> SearchOutcome)
    requires Aggregated(useCases, search).Ok? && i < |Aggregated(useCases, search).value|
    requires StrictlySorted(xs, Below)
    requires Elements(xs) == HitKeywords(useCases, RowKey(Aggregated(useCases, search).value[i]), search)
    ensures Aggregated(useCases, search).value[i].keyword == Join(xs, CellSeparator)
  {
    var entries := CollectEntries(useCases, search).value;
    var row := Aggregate(entries)[i];
    KeywordValuesAreHitKeywords(useCases, RowKey(row), search);
    RowCellIsSortedDistinctValues(entries, i, KeywordColumn, xs);
  }

  /** Every row's Source cell is exactly "Kaggle". */
  lemma SourceCellIsKaggle(useCases: seq<UseCase>, i: nat, search: string -> SearchOutcome)
    requires Aggregated(useCases, search).Ok? && i < |Aggregated(useCases, search).value|
    ensures Aggregated(useCases, search).value[i].source == KaggleSource
  {
    var entries := CollectEntries(useCases, search).value;
    assert Aggregated(useCases, search).value == Aggregate(entries);
    EntryProvenance(useCases, search);
    SourceCellOfKaggleEntries(entries, i);
  }

  lemma SourceCellOfKaggleEntries(entries: seq<Entry>, i: nat)
    requires forall e :: e in entries ==> e.source == KaggleSource
    requires i < |Aggregate(entries)|
    ensures Aggregate(entries)[i].source == KaggleSource
  {
    RowKeyHasEntry(entries, i);
    GroupOfOneSource(entries, RowKey(Aggregate(entries)[i]));
    SingleValueCell(entries, i, SourceColumn, KaggleSource);
    SourceIsRowCell(Aggregate(entries)[i]);
  }

  /** Every row's key is the key of some accumulated tuple. */
  lemma RowKeyHasEntry(entries: seq<Entry>, i: nat)
    requires i < |Aggregate(entries)|
    ensures exists e :: e in entries && KeyOf(e) == RowKey(Aggregate(entries)[i])
  {
    var ks := GroupKeys(entries);
    assert RowKey(Aggregate(entries)[i]) == ks[i];
    assert ks[i] in Elements(Keys(entries));
    var j :| 0 <= j < |entries| && Keys(entries)[j] == ks[i];
    assert entries[j] in entries;
  }

  /** A column that takes a single value within a group shows just that value. */
  lemma SingleValueCell(entries: seq<Entry>, i: nat, c: Column, v: string)
    requires i < |Aggregate(entries)|
    requires GroupValues(entries, RowKey(Aggregate(entries)[i]), c) == {v}
    ensures RowCell(Aggregate(entries)[i], c) == v
  {
    assert Elements([v]) == {v};
    RowCellIsSortedDistinctValues(entries, i, c, [v]);
    assert Join([v], CellSeparator) == v;
  }

  /** `RowCell` on the source column, stated apart because the solver is slow to unfold it there. */
  lemma SourceIsRowCell(row: AggregatedRow)
    ensures row.source == RowCell(row, SourceColumn)
  {
  }

  lemma GroupOfOneSource(entries: seq<Entry>, k: GroupKey)
    requires forall e :: e in entries ==> e.source == KaggleSource
    requires exists e :: e in entries && KeyOf(e) == k
    ensures GroupValues(entries, k, SourceColumn) == {KaggleSource}
  {
    var e :| e in entries && KeyOf(e) == k;
    assert Cell(e, SourceColumn) in GroupValues(entries, k, SourceColumn);
  }

  /** Some keyword of some complete record has a hit. */
  predicate AnyHit(useCases: seq<UseCase>, search: string -> SearchOutcome) {
    exists uc, keyword :: uc in useCases && Complete(uc) && keyword in uc.keywords.value && HasHit(keyword, search)
  }

  /**
   * With all records complete, the frame is empty exactly when no keyword of
   * any record has a hit.
   */
  lemma NoHitsNoRows(useCases: seq<UseCase>, search: string -> SearchOutcome)
    requires Aggregated(useCases, search).Ok?
    ensures Aggregated(useCases, search).value == [] <==> !AnyHit(useCases, search)
  {
    var entries := CollectEntries(useCases, search).value;
    assert Aggregated(useCases, search).value == Aggregate(entries);
    AggregateEmptyIff(entries);
    CollectedEntriesAreFirstHits(useCases, search);
    if entries != [] {
      assert entries[0] in entries;
      var uc, keyword :| uc in useCases && Yields(uc, keyword, entries[0], search);
      assert AnyHit(useCases, search);
    }
    if AnyHit(useCases, search) {
      var uc, keyword :| uc in useCases && Complete(uc) && keyword in uc.keywords.value && HasHit(keyword, search);
      var e := FirstEntry(uc.title.value, uc.description.value, keyword, search);
      assert Yields(uc, keyword, e, search);
      assert e in entries;
    }
  }

  // ---------------------------------------------------------------------------
  // A record with a single keyword that has a hit
  // ---------------------------------------------------------------------------

  /** A strictly sorted sequence whose only value is `x` is `[x]`. */
  lemma SortedSingleton<T(!new)>(xs: seq<T>, x: T, lt: (T, T) -> bool)
    requires IsStrictTotalOrder(lt)
    requires StrictlySorted(xs, lt) && Elements(xs) == {x}
    ensures xs == [x]
  {
    StrictlySortedUnique(xs, [x], lt);
  }

  /** The frame of a single tuple is one row carrying that tuple's values. */
  lemma AggregateOne(e: Entry)
    ensures Aggregate([e]) == [AggregatedRow(e.title, e.description, e.keyword, e.name, e.link, e.source)]
  {
    GroupKeysOne(e);
    RowForOne(e);
    var rows := Aggregate([e]);
    assert |rows| == 1 && rows[0] == RowFor([e], KeyOf(e));
  }

  lemma RowForOne(e: Entry)
    ensures RowFor([e], KeyOf(e)) == AggregatedRow(e.title, e.description, e.keyword, e.name, e.link, e.source)
  {
    var group := Group([e], KeyOf(e));
    GroupOne(e);
    assert Reduce(group, KeywordColumn) == e.keyword by { ReduceOne(e, KeywordColumn); }
    assert Reduce(group, NameColumn) == e.name by { ReduceOne(e, NameColumn); }
    assert Reduce(group, LinkColumn) == e.link by { ReduceOne(e, LinkColumn); }
    assert Reduce(group, SourceColumn) == e.source by { ReduceOne(e, SourceColumn); }
  }

  lemma GroupOne(e: Entry)
    ensures Group([e], KeyOf(e)) == [e]
  {
    assert [e][..0] == [];
    assert Group([e], KeyOf(e)) == Group([], KeyOf(e)) + [e];
  }

  lemma GroupKeysOne(e: Entry)
    ensures GroupKeys([e]) == [KeyOf(e)]
  {
    KeyBelowIsStrictTotalOrder();
    assert Keys([e]) == [KeyOf(e)];
    assert Elements(Keys([e])) == {KeyOf(e)};
    SortedSingleton(GroupKeys([e]), KeyOf(e), KeyBelow);
  }

  /**
   * Reducing a one-tuple group gives that tuple's value. The second clause
   * repeats the first for the source column, which the solver is slow to
   * derive from `Cell`.
   */
  lemma ReduceOne(e: Entry, c: Column)
    ensures Reduce([e], c) == Cell(e, c)
    ensures c == SourceColumn ==> Reduce([e], c) == e.source
  {
    BelowIsStrictTotalOrder();
    assert ColumnValues([e], c) == [Cell(e, c)];
    assert Elements(ColumnValues([e], c)) == {Cell(e, c)};
    SortedSingleton(SortedUnique(ColumnValues([e], c)), Cell(e, c), Below);
  }

  /**
   * A complete record of which exactly one keyword has a hit gives exactly
   * one row. Its keyword cell is that keyword alone, not all of the
   * record's keywords, and the other cells come from that keyword's first
   * listed dataset.
   */
  lemma {:induction false} SingleHitKeyword(uc: UseCase, keyword: string, search: string -> SearchOutcome)
    requires Complete(uc) && keyword in uc.keywords.value && HasHit(keyword, search)
    requires forall k :: k in uc.keywords.value && k != keyword ==> !HasHit(k, search)
    ensures Aggregated([uc], search) ==
              Ok([AggregatedRow(uc.title.value, uc.description.value, keyword,
                                search(keyword).datasets[0].title,
                                KaggleUrlPrefix + search(keyword).datasets[0].ref, KaggleSource)])
  {
    var title, description, keywords := uc.title.value, uc.description.value, uc.keywords.value;
    var entries := KeywordEntries(title, description, keywords, search);
    assert CollectEntries([uc], search) == Ok(entries) by {
      assert [uc][..0] == [];
      assert CollectEntries([uc], search) == AddUseCase(Ok([]), uc, search);
      assert RequiredFields(uc) == Ok(Required(title, description, keywords));
      assert [] + entries == entries;
    }
    var e := FirstEntry(title, description, keyword, search);
    KeywordEntriesAreFirstHits(title, description, keywords, search);
    assert Elements(entries) == Elements([e]) by {
      assert e in entries;
      forall x | x in entries ensures x == e {
        var k :| k in keywords && HasHit(k, search) && x == FirstEntry(title, description, k, search);
      }
    }
    AggregateDependsOnlyOnElements(entries, [e]);
    AggregateOne(e);
  }

  /**
   * The record "Demand Forecasting" with keywords `retail sales, inventory,
   * forecasting, demand`, when the catalog lists one dataset for
   * `inventory` and nothing for any other query, gives one row whose
   * keyword cell is `inventory`.
   */
  lemma DemandForecastingExample(search: string -> SearchOutcome, name: string, ref: string)
    requires search("inventory") == Listed([Dataset(name, ref)])
    requires forall q :: q != "inventory" ==> search(q) == Listed([])
    ensures Aggregated([UseCase(Some("Demand Forecasting"), Some("Predict product demand"),
                                Some(["retail sales", "inventory", "forecasting", "demand"]))], search) ==
              Ok([AggregatedRow("Demand Forecasting", "Predict product demand", "inventory",
                                name, KaggleUrlPrefix + ref, KaggleSource)])
  {
    var uc := UseCase(Some("Demand Forecasting"), Some("Predict product demand"),
                      Some(["retail sales", "inventory", "forecasting", "demand"]));
    forall k | k in uc.keywords.value && k != "inventory"
      ensures !HasHit(k, search)
    {
    }
    SingleHitKeyword(uc, "inventory", search);
  }
}

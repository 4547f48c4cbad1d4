/**
 * The dataset catalog as the aggregator sees it: `fetch_datasets_from_kaggle`.
 * The catalog call itself (client construction, authentication and
 * `dataset_list(search=query)`) is an oracle that, for a query, either lists
 * datasets or raises.
 */
module KaggleSearch {
  import opened Strings

  /** One dataset the catalog lists: its display title and its `owner/slug` reference. */
  datatype Dataset = Dataset(title: string, ref: string)

  /** What the catalog call does for one query: it lists datasets, or raises. */
  datatype SearchOutcome = Listed(datasets: seq<Dataset>) | Raised

  /** One resource handed to the aggregator: `{"name", "url", "source"}`. */
  datatype Resource = Resource(name: string, url: string, source: string)

  const KaggleUrlPrefix: string := "https://www.kaggle.com/"
  const KaggleSource: string := "Kaggle"

  /**
   * `fetch_datasets_from_kaggle(query)`: a failed call yields no resources;
   * otherwise one resource per listed dataset, in catalog order, named by the
   * dataset's title, sourced "Kaggle", whose link is the Kaggle site prefix
   * followed by exactly the dataset's reference.
   */
  function FetchDatasetsFromKaggle(query: string, search: string -> SearchOutcome): (r: seq<Resource>)
    ensures search(query).Raised? ==> r == []
    ensures search(query).Listed? ==> |r| == |search(query).datasets|
    ensures forall i :: 0 <= i < |r| ==>
              && r[i].source == KaggleSource
              && StartsWith(r[i].url, KaggleUrlPrefix)
              && r[i].url[|KaggleUrlPrefix|..] == search(query).datasets[i].ref
              && r[i].name == search(query).datasets[i].title
  {
    match search(query)
    case Raised => []
    case Listed(datasets) =>
      seq(|datasets|, i requires 0 <= i < |datasets| =>
        Resource(datasets[i].title, KaggleUrlPrefix + datasets[i].ref, KaggleSource))
  }
}

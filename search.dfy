/**
 * One product search: build the search URL, load the rendered results page,
 * extract the candidate records and let the similarity matcher pick one.
 */
module Search {
  import opened Wrappers
  import opened JsStrings
  import opened Extractor
  import Site

  /** The similarity library's answer: the index of the best candidate and its rating. */
  datatype Match = Match(bestMatchIndex: int, rating: real)

  /** The similarity library, called with the query and the candidate titles. */
  type Matcher = (string, seq<string>) -> Match

  /** What the library promises: for a non-empty candidate list the best index is a position in it. */
  ghost predicate ValidMatcher(matcher: Matcher) {
    forall query: string, candidates: seq<string> :: |candidates| > 0 ==>
      0 <= matcher(query, candidates).bestMatchIndex < |candidates|
  }

  /**
   * What one search's page gives: the cards of the rendered page, or a fault of
   * the browser while opening the page (`newPage`), loading the URL (`goto`) or
   * closing the page (`close`).
   */
  datatype Visit = Rendered(cards: seq<Card>) | BrowserFailed

  /** The outside world: what the n-th opened page renders for a URL. */
  type Web = (nat, string) -> Visit

  /** A candidate record with the matcher's rating attached. */
  datatype RatedProduct = RatedProduct(product: Product, rating: real)

  /**
   * Why a search threw: the browser failed, a card had no price container,
   * or the matcher named a position with no candidate (`undefined.rating = ...`).
   */
  datatype Fault = Browser | MissingPriceContainer(card: nat) | NoSuchCandidate(index: int)

  datatype SearchOutcome = Found(selected: RatedProduct) | NoResult | Failed(fault: Fault)

  /** `toLowerCase().trim()`, with ASCII case folding. */
  function MatchKey(s: string): (k: string)
    ensures IsTrimmed(k)
  {
    Trim(AsciiLower(s))
  }

  /** The lower-cased, trimmed titles handed to the matcher, one per candidate in order. */
  function CandidateKeys(products: seq<Product>): (keys: seq<string>)
    ensures |keys| == |products|
    ensures forall i :: 0 <= i < |products| ==> keys[i] == MatchKey(products[i].title)
  {
    seq(|products|, i requires 0 <= i < |products| => MatchKey(products[i].title))
  }

  /**
   * Selection: no result for no candidates; otherwise the candidate at the
   * matcher's best index, unchanged, with the matcher's rating attached.
   */
  function Select(keyword: string, products: seq<Product>, matcher: Matcher): (r: SearchOutcome)
    ensures r.NoResult? <==> products == []
    ensures r.Found? ==> r.selected.product in products
    ensures !r.NoResult? ==>
      var m := matcher(MatchKey(keyword), CandidateKeys(products));
      if 0 <= m.bestMatchIndex < |products|
      then r == Found(RatedProduct(products[m.bestMatchIndex], m.rating))
      else r == Failed(NoSuchCandidate(m.bestMatchIndex))
  {
    if |products| > 0 then
      var m := matcher(MatchKey(keyword), CandidateKeys(products));
      if 0 <= m.bestMatchIndex < |products| then
        Found(RatedProduct(products[m.bestMatchIndex], m.rating))
      else
        Failed(NoSuchCandidate(m.bestMatchIndex))
    else
      NoResult
  }

  /**
   * With a matcher that keeps the library's promise, a non-empty candidate list
   * always yields the candidate at the best index, with its rating.
   */
  lemma SelectFindsBestMatch(keyword: string, products: seq<Product>, matcher: Matcher)
    requires ValidMatcher(matcher) && products != []
    ensures var m := matcher(MatchKey(keyword), CandidateKeys(products));
      Select(keyword, products, matcher) == Found(RatedProduct(products[m.bestMatchIndex], m.rating))
  {
    var m := matcher(MatchKey(keyword), CandidateKeys(products));
    assert 0 <= m.bestMatchIndex < |CandidateKeys(products)|;
  }

  /** The outcome of searching `keyword` when the browser shows `visit`. */
  function SearchResult(keyword: string, visit: Visit, matcher: Matcher): SearchOutcome {
    match visit
    case BrowserFailed => Failed(Browser)
    case Rendered(cards) =>
      match Extract(cards)
      case Err(k) => Failed(MissingPriceContainer(k))
      case Ok(products) => Select(keyword, products, matcher)
  }

  /**
   * The three outcomes, for a matcher that keeps the library's promise: no
   * result exactly for a rendered page with no cards; a failure exactly when
   * the browser failed or some card has no price container; otherwise one of the
   * page's own records, found.
   */
  lemma SearchResultCases(keyword: string, visit: Visit, matcher: Matcher)
    requires ValidMatcher(matcher)
    ensures var r := SearchResult(keyword, visit, matcher);
      && (r.NoResult? <==> visit == Rendered([]))
      && (r.Failed? <==> (visit.BrowserFailed?
                          || exists i :: 0 <= i < |visit.cards| && visit.cards[i].priceInfo.None?))
      && (r.Found? ==> exists i :: 0 <= i < |visit.cards| && r.selected.product == ProductOf(visit.cards[i]))
  {
    if visit.Rendered? {
      var e := Extract(visit.cards);
      if e.Ok? && e.value != [] {
        SelectFindsBestMatch(keyword, e.value, matcher);
        var s := Select(keyword, e.value, matcher);
        assert s.selected.product in e.value;
      }
    }
  }

  /**
   * searchProduct: open page number `request`, load the search URL, run the
   * extraction callback and select. A thrown fault is returned as `Failed`.
   */
  method SearchProduct(keyword: string, web: Web, request: nat, matcher: Matcher)
    returns (outcome: SearchOutcome)
    ensures outcome == SearchResult(keyword, web(request, Site.SearchUrlFixed(keyword)), matcher)
  {
    var url := Site.SearchUrlFixed(keyword);
    var visit := web(request, url);
    if visit.BrowserFailed? {
      return Failed(Browser);
    }
    var products := ExtractProducts(visit.cards);
    if products.Err? {
      return Failed(MissingPriceContainer(products.error));
    }
    var ps := products.value;
    assert SearchResult(keyword, visit, matcher) == Select(keyword, ps, matcher);
    if |ps| > 0 {
      var names := CandidateKeys(ps);
      var similarities := matcher(MatchKey(keyword), names);
      if !(0 <= similarities.bestMatchIndex < |ps|) {
        return Failed(NoSuchCandidate(similarities.bestMatchIndex));
      }
      var selectedProduct := RatedProduct(ps[similarities.bestMatchIndex], similarities.rating);
      return Found(selectedProduct);
    } else {
      return NoResult;
    }
  }
}

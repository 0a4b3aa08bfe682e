/**
 * The batch runner: for every catalog label from index 1000 on, search the
 * label's title and append one CSV row per product found.
 */
module Runner {
  import opened Wrappers
  import opened Search
  import Site

  /** A catalog label: its database id and title. */
  datatype Label = Label(id: int, title: string)

  /** One output row, with the columns TITLE, URL, PRICE, DB_ID, DB_TITLE. */
  datatype Row = Row(title: string, url: string, price: string, dbId: int, dbTitle: string)

  /** The first label index the run searches. */
  const START_INDEX: nat := 1000

  /** A found product stamped with its label (the rating is not a CSV column). */
  function Stamp(p: RatedProduct, entry: Label): (row: Row)
    ensures row.dbId == entry.id && row.dbTitle == entry.title
    ensures (row.title, row.url, row.price) == (p.product.title, p.product.url, p.product.price)
  {
    Row(p.product.title, p.product.url, p.product.price, entry.id, entry.title)
  }

  /** The append-only CSV writer: the rows written so far. */
  class CsvWriter {
    var rows: seq<Row>

    constructor ()
      ensures rows == []
    {
      rows := [];
    }

    method WriteRecords(records: seq<Row>)
      modifies this
      ensures rows == old(rows) + records
    {
      rows := rows + records;
    }
  }

  /** The outcome of every label's search, label `i` being searched on page number `i`. */
  function Outcomes(labels: seq<Label>, web: Web, matcher: Matcher): (outs: seq<SearchOutcome>)
    ensures |outs| == |labels|
  {
    seq(|labels|, i requires 0 <= i < |labels| =>
      SearchResult(labels[i].title, web(i, Site.SearchUrlFixed(labels[i].title)), matcher))
  }

  /** The rows one label contributes: one if its search found a product, none otherwise. */
  function LabelRows(entry: Label, outcome: SearchOutcome): seq<Row> {
    match outcome
    case Found(p) => [Stamp(p, entry)]
    case _ => []
  }

  /** The rows written once every label before `hi` has been searched, given each label's outcome. */
  function RowsUpTo(labels: seq<Label>, outs: seq<SearchOutcome>, hi: nat): seq<Row>
    requires hi <= |labels| && hi <= |outs|
  {
    if hi <= START_INDEX then [] else RowsUpTo(labels, outs, hi - 1) + LabelRows(labels[hi - 1], outs[hi - 1])
  }

  /** The indices, in increasing order, of the labels before `hi` whose search found a product. */
  function FoundIndices(outs: seq<SearchOutcome>, hi: nat): seq<nat>
    requires hi <= |outs|
  {
    if hi <= START_INDEX then []
    else FoundIndices(outs, hi - 1) + (if outs[hi - 1].Found? then [hi - 1] else [])
  }

  /**
   * run: the loop over labels START_INDEX .. |labels| - 1. `outcomes[i]` is
   * what searching label i's title returned or threw (see Outcomes).
   */
  method Run(writer: CsvWriter, labels: seq<Label>, outcomes: seq<SearchOutcome>)
    requires |outcomes| == |labels|
    modifies writer
    ensures writer.rows == old(writer.rows) + RowsUpTo(labels, outcomes, |labels|)
  {
    ghost var start := writer.rows;
    var i := START_INDEX;
    while i < |labels|
      invariant START_INDEX <= i
      invariant i <= |labels| || i == START_INDEX
      invariant writer.rows == start + (if i <= |labels| then RowsUpTo(labels, outcomes, i) else [])
    {
      var dbTitle := labels[i].title;
      var dbId := labels[i].id;
      var foundProduct: Option<RatedProduct> := None;
      ghost var written := writer.rows;
      match outcomes[i] {
        case Found(p) => foundProduct := Some(p);
        case NoResult => foundProduct := None;
        case Failed(_) => // the exception is caught and logged; nothing is found
      }
      if foundProduct.Some? {
        writer.WriteRecords([Stamp(foundProduct.value, Label(dbId, dbTitle))]);
      }
      assert writer.rows == written + LabelRows(labels[i], outcomes[i]);
      assert RowsUpTo(labels, outcomes, i + 1) == RowsUpTo(labels, outcomes, i) + LabelRows(labels[i], outcomes[i]);
      i := i + 1;
    }
  }

  // ---------------------------------------------------------------- lemmas

  /** A run stopped after any label has written a prefix of the full run's rows. */
  lemma {:induction false} RowsUpToPrefix(labels: seq<Label>, outs: seq<SearchOutcome>, lo: nat, hi: nat)
    requires lo <= hi <= |labels| && hi <= |outs|
    ensures RowsUpTo(labels, outs, lo) <= RowsUpTo(labels, outs, hi)
  {
    if lo < hi {
      RowsUpToPrefix(labels, outs, lo, hi - 1);
    }
  }

  /** The found indices are exactly the labels from START_INDEX on, before `hi`, whose search found a product, in increasing order. */
  lemma {:induction false} FoundIndicesExact(outs: seq<SearchOutcome>, hi: nat)
    requires hi <= |outs|
    ensures var ix := FoundIndices(outs, hi);
      && (forall k :: 0 <= k < |ix| ==> START_INDEX <= ix[k] < hi)
      && (forall k, l :: 0 <= k < l < |ix| ==> ix[k] < ix[l])
      && (forall i :: START_INDEX <= i < hi ==> (i in ix <==> outs[i].Found?))
  {
    if hi > START_INDEX {
      FoundIndicesExact(outs, hi - 1);
    }
  }

  /** Row k is the product found for the k-th found label, stamped with that label's id and title. */
  lemma {:induction false} RowsAreFoundProducts(labels: seq<Label>, outs: seq<SearchOutcome>, hi: nat)
    requires hi <= |labels| && hi <= |outs|
    ensures var rows, ix := RowsUpTo(labels, outs, hi), FoundIndices(outs, hi);
      && |rows| == |ix|
      && forall k :: 0 <= k < |ix| ==>
           ix[k] < hi && outs[ix[k]].Found? && rows[k] == Stamp(outs[ix[k]].selected, labels[ix[k]])
  {
    if hi > START_INDEX {
      RowsAreFoundProducts(labels, outs, hi - 1);
    }
  }

  /**
   * A label whose results page has a card without a price container (so the
   * extraction throws) writes no row, and the run goes on with the next label.
   */
  lemma BrokenPageWritesNothing(labels: seq<Label>, web: Web, matcher: Matcher, i: nat, c: nat)
    requires START_INDEX <= i < |labels|
    requires web(i, Site.SearchUrlFixed(labels[i].title)).Rendered?
    requires var cards := web(i, Site.SearchUrlFixed(labels[i].title)).cards;
      c < |cards| && cards[c].priceInfo.None?
    ensures var outs := Outcomes(labels, web, matcher);
      RowsUpTo(labels, outs, i + 1) == RowsUpTo(labels, outs, i) && i !in FoundIndices(outs, |labels|)
  {
    var outs := Outcomes(labels, web, matcher);
    assert outs[i].Failed?;
    FoundIndicesExact(outs, |labels|);
  }
}

/**
 * The record extractor: the callback run inside the rendered search-results
 * page, which turns every product card into one {title, url, price} record.
 *
 * The page is given by what the callback's selectors find in it: the list of
 * `.wag-product-cards` elements in document order and, per card, the title
 * anchor `.wag-prod-title > a`, the price container `.wag-prod-price-info`, its
 * message `.wag-price-msg` and its structured price `.product__price > .product__price`.
 */
module Extractor {
  import opened Wrappers
  import opened JsStrings
  import Site

  /** The sentinel for a field that could not be read. */
  const NA: string := "N.A."

  /** A child node, by node type: a text node, an element (with its rendered text), or anything else. */
  datatype Node =
    | Text(data: string)
    | Element(innerText: string)
    | OtherNode

  /** The title anchor: its child nodes and its `href` attribute (None when the attribute is absent). */
  datatype Anchor = Anchor(children: seq<Node>, href: Option<string>)

  /**
   * The price container: the rendered text of its price message, if it has one,
   * and the child nodes of its structured price element, if it has one.
   */
  datatype PriceInfo = PriceInfo(message: Option<string>, priceNode: Option<seq<Node>>)

  /** A product card, by the two parts the extractor looks up in it. */
  datatype Card = Card(anchor: Option<Anchor>, priceInfo: Option<PriceInfo>)

  /** One candidate record. */
  datatype Product = Product(title: string, url: string, price: string)

  // ---------------------------------------------------------------- title

  /** The trimmed text of the text-node children, in child order (filter, then map). */
  function TextSegments(nodes: seq<Node>): seq<string> {
    if nodes == [] then []
    else (if nodes[0].Text? then [Trim(nodes[0].data)] else []) + TextSegments(nodes[1..])
  }

  /** Every segment of the title is trimmed. */
  lemma {:induction false} TextSegmentsTrimmed(nodes: seq<Node>)
    ensures forall k :: 0 <= k < |TextSegments(nodes)| ==> IsTrimmed(TextSegments(nodes)[k])
  {
    if nodes != [] {
      TextSegmentsTrimmed(nodes[1..]);
      var head := if nodes[0].Text? then [Trim(nodes[0].data)] else [];
      var tail := TextSegments(nodes[1..]);
      assert TextSegments(nodes) == head + tail;
      assert forall k :: 0 <= k < |head| ==> IsTrimmed(head[k]);
    }
  }

  /** `join('')`. */
  function Concat(parts: seq<string>): string {
    if parts == [] then [] else parts[0] + Concat(parts[1..])
  }

  /** The title read from an anchor's children. */
  function AnchorTitle(nodes: seq<Node>): (t: string)
    ensures IsTrimmed(t)
  {
    TextSegmentsTrimmed(nodes);
    ConcatTrimmed(TextSegments(nodes));
    Concat(TextSegments(nodes))
  }

  function CardTitle(anchor: Option<Anchor>): (t: string)
    ensures anchor.None? ==> t == NA
    ensures anchor.Some? ==> IsTrimmed(t) && |t| <= |Concat(TextData(anchor.value.children))|
  {
    match anchor
    case None => NA
    case Some(a) => TitleNoLonger(a.children); AnchorTitle(a.children)
  }

  /** `BASE_URL + href`: JavaScript turns a missing attribute (null) into the text "null". */
  function HrefText(href: Option<string>): string {
    match href
    case None => "null"
    case Some(h) => h
  }

  function CardUrl(anchor: Option<Anchor>): (u: string)
    ensures anchor.None? ==> u == NA
    ensures anchor.Some? ==>
      |Site.BASE_URL| <= |u| && u[..|Site.BASE_URL|] == Site.BASE_URL
      && u[|Site.BASE_URL|..] == HrefText(anchor.value.href)
  {
    match anchor
    case None => NA
    case Some(a) => Site.BASE_URL + HrefText(a.href)
  }

  // ---------------------------------------------------------------- price

  /**
   * The value a price child contributes before filtering: the trimmed text of
   * a text node or the rendered text of an element, and null (None) when that
   * fails `/^\d*$/` or the node is of another type.
   */
  function Fragment(n: Node): (v: Option<string>)
    ensures v.Some? ==> AllDigits(v.value)
  {
    match n
    case Text(d) => if AllDigits(Trim(d)) then Some(Trim(d)) else None
    case Element(t) => if AllDigits(t) then Some(t) else None
    case OtherNode => None
  }

  /** A non-empty run of digits: what survives the truthiness filter. */
  predicate IsDigitRun(s: string) {
    s != [] && AllDigits(s)
  }

  /** The fragments kept by `filter(v => !!v)`, in child order. */
  function KeptFragments(nodes: seq<Node>): seq<string> {
    if nodes == [] then []
    else
      var v := Fragment(nodes[0]);
      (if v.Some? && v.value != [] then [v.value] else []) + KeptFragments(nodes[1..])
  }

  /** Every kept fragment is a non-empty run of digits. */
  lemma {:induction false} KeptFragmentsDigitRuns(nodes: seq<Node>)
    ensures forall k :: 0 <= k < |KeptFragments(nodes)| ==> IsDigitRun(KeptFragments(nodes)[k])
  {
    if nodes != [] {
      KeptFragmentsDigitRuns(nodes[1..]);
      var v := Fragment(nodes[0]);
      var head := if v.Some? && v.value != [] then [v.value] else [];
      var tail := KeptFragments(nodes[1..]);
      assert KeptFragments(nodes) == head + tail;
      assert forall k :: 0 <= k < |head| ==> IsDigitRun(head[k]);
    }
  }

  /** `join('.')`. */
  function JoinDots(parts: seq<string>): string {
    if |parts| == 0 then []
    else if |parts| == 1 then parts[0]
    else parts[0] + "." + JoinDots(parts[1..])
  }

  /** `split('.')`: the pieces between dots (one empty piece for the empty string). */
  function SplitDots(s: string): (pieces: seq<string>)
    ensures |pieces| >= 1
  {
    if s == [] then [[]]
    else
      var r := SplitDots(s[1..]);
      if s[0] == '.' then [[]] + r else [[s[0]] + r[0]] + r[1..]
  }

  /** Digits and dots only, with no dot at either end and no two dots in a row. */
  predicate IsDottedDigits(p: string) {
    && (forall i :: 0 <= i < |p| ==> IsDigit(p[i]) || p[i] == '.')
    && (p == [] || (p[0] != '.' && p[|p| - 1] != '.'))
    && (forall i :: 0 <= i < |p| - 1 ==> p[i] == '.' ==> p[i + 1] != '.')
  }

  /** The price read from a structured price element's children. */
  function StructuredPrice(nodes: seq<Node>): (p: string)
    ensures IsDottedDigits(p)
    ensures SplitDots(p) == if KeptFragments(nodes) == [] then [[]] else KeptFragments(nodes)
  {
    var frags := KeptFragments(nodes);
    KeptFragmentsDigitRuns(nodes);
    JoinDottedDigits(frags);
    if frags == [] then JoinDots(frags) else SplitJoin(frags); JoinDots(frags)
  }

  /** The three-way price rule: message text, else structured price, else the sentinel. */
  function CardPrice(info: PriceInfo): (p: string)
    ensures info.message.Some? ==> p == info.message.value
    ensures info.message.None? && info.priceNode.Some? ==>
      IsDottedDigits(p) && SplitDots(p) == (if KeptFragments(info.priceNode.value) == [] then [[]]
                                            else KeptFragments(info.priceNode.value))
    ensures info.message.None? && info.priceNode.None? ==> p == NA
  {
    match info.message
    case Some(m) => m
    case None =>
      match info.priceNode
      case Some(nodes) => StructuredPrice(nodes)
      case None => NA
  }

  // ---------------------------------------------------------------- records

  /** The record of a card that has a price container. */
  function ProductOf(card: Card): Product
    requires card.priceInfo.Some?
  {
    Product(CardTitle(card.anchor), CardUrl(card.anchor), CardPrice(card.priceInfo.value))
  }

  /**
   * The extraction of a whole page: one record per card, in card order, or the
   * index of the first card with no price container (where the callback throws).
   */
  function Extract(cards: seq<Card>): (r: Result<seq<Product>, nat>)
    ensures r.Ok? <==> forall i :: 0 <= i < |cards| ==> cards[i].priceInfo.Some?
    ensures r.Ok? ==>
      (|r.value| == |cards| && forall i :: 0 <= i < |cards| ==> r.value[i] == ProductOf(cards[i]))
    ensures r.Err? ==>
      (r.error < |cards| && cards[r.error].priceInfo.None?
       && forall j :: 0 <= j < r.error ==> cards[j].priceInfo.Some?)
  {
    if cards == [] then Ok([])
    else
      var n := |cards| - 1;
      var prefix := cards[..n];
      assert forall i :: 0 <= i < n ==> prefix[i] == cards[i];
      match Extract(prefix)
      case Err(k) => Err(k)
      case Ok(ps) => if cards[n].priceInfo.None? then Err(n) else Ok(ps + [ProductOf(cards[n])])
  }

  /** Extracting one card more appends that card's record. */
  lemma ExtractStep(cards: seq<Card>, i: nat, ps: seq<Product>)
    requires i < |cards| && cards[i].priceInfo.Some? && Extract(cards[..i]) == Ok(ps)
    ensures Extract(cards[..i + 1]) == Ok(ps + [ProductOf(cards[i])])
  {
    assert cards[..i + 1][..i] == cards[..i];
  }

  /** A card with no price container after a clean prefix is where the whole page fails. */
  lemma ExtractStopsAt(cards: seq<Card>, i: nat)
    requires i < |cards| && cards[i].priceInfo.None? && Extract(cards[..i]).Ok?
    ensures Extract(cards) == Err(i)
  {
    var prefix := cards[..i];
    forall j | 0 <= j < i
      ensures cards[j].priceInfo.Some?
    {
      assert prefix[j] == cards[j];
    }
    var r := Extract(cards);
    assert r.Err?;
    assert !(r.error < i) && !(i < r.error);
  }

  /** The callback itself: walk the cards, push one record per card, throw on a card without a price container. */
  method ExtractProducts(cards: seq<Card>) returns (r: Result<seq<Product>, nat>)
    ensures r == Extract(cards)
  {
    var result: seq<Product> := [];
    var i := 0;
    while i < |cards|
      invariant 0 <= i <= |cards|
      invariant Extract(cards[..i]) == Ok(result)
    {
      var card := cards[i];
      var title := CardTitle(card.anchor);
      var url := CardUrl(card.anchor);
      if card.priceInfo.None? {
        ExtractStopsAt(cards, i);
        return Err(i);
      }
      var price := CardPrice(card.priceInfo.value);
      ExtractStep(cards, i, result);
      result := result + [Product(title, url, price)];
      i := i + 1;
    }
    assert cards[..i] == cards;
    return Ok(result);
  }

  // ---------------------------------------------------------------- lemmas

  /** The text of every text node, untrimmed, in child order. */
  function TextData(nodes: seq<Node>): (data: seq<string>) {
    if nodes == [] then []
    else (if nodes[0].Text? then [nodes[0].data] else []) + TextData(nodes[1..])
  }

  lemma {:induction false} ConcatAppend(a: seq<string>, b: seq<string>)
    ensures Concat(a + b) == Concat(a) + Concat(b)
  {
    if a != [] {
      assert (a + b)[1..] == a[1..] + b;
      ConcatAppend(a[1..], b);
    } else {
      assert a + b == b;
    }
  }

  lemma {:induction false} TextSegmentsAppend(a: seq<Node>, b: seq<Node>)
    ensures TextSegments(a + b) == TextSegments(a) + TextSegments(b)
  {
    if a != [] {
      assert (a + b)[1..] == a[1..] + b;
      TextSegmentsAppend(a[1..], b);
    } else {
      assert a + b == b;
    }
  }

  /** Title of a concatenation of child lists is the concatenation of their titles. */
  lemma TitleAppend(a: seq<Node>, b: seq<Node>)
    ensures AnchorTitle(a + b) == AnchorTitle(a) + AnchorTitle(b)
  {
    TextSegmentsAppend(a, b);
    ConcatAppend(TextSegments(a), TextSegments(b));
  }

  /** A child that is not a text node (an element, a comment, ...) never reaches the title, wherever it sits. */
  lemma TitleIgnoresElements(a: seq<Node>, n: Node, b: seq<Node>)
    requires !n.Text?
    ensures AnchorTitle(a + [n] + b) == AnchorTitle(a + b)
  {
    TitleAppend(a + [n], b);
    TitleAppend(a, [n]);
    TitleAppend(a, b);
    assert TextSegments([n]) == [] by {
      assert [n][1..] == [];
    }
  }

  /** A text child, wherever it sits, puts its trimmed text into the title at its own place. */
  lemma TitleTextChild(a: seq<Node>, d: string, b: seq<Node>)
    ensures AnchorTitle(a + [Text(d)] + b) == AnchorTitle(a) + Trim(d) + AnchorTitle(b)
  {
    TitleAppend(a + [Text(d)], b);
    TitleAppend(a, [Text(d)]);
    assert TextSegments([Text(d)]) == [Trim(d)] by {
      assert [Text(d)][1..] == [];
    }
    assert Concat([Trim(d)]) == Trim(d) + Concat([]);
    assert AnchorTitle([Text(d)]) == Trim(d);
  }

  /** A title made of trimmed pieces is itself trimmed. */
  lemma {:induction false} ConcatTrimmed(parts: seq<string>)
    requires forall k :: 0 <= k < |parts| ==> IsTrimmed(parts[k])
    ensures IsTrimmed(Concat(parts))
  {
    if parts != [] {
      ConcatTrimmed(parts[1..]);
      var head, rest := parts[0], Concat(parts[1..]);
      assert IsTrimmed(head);
      if head != [] && rest != [] {
        assert (head + rest)[0] == head[0];
        assert (head + rest)[|head + rest| - 1] == rest[|rest| - 1];
      } else if rest == [] {
        assert head + rest == head;
      } else {
        assert head + rest == rest;
      }
    }
  }

  /** Trimming never lengthens the title beyond the raw text of the text nodes. */
  lemma {:induction false} TitleNoLonger(nodes: seq<Node>)
    ensures |AnchorTitle(nodes)| <= |Concat(TextData(nodes))|
  {
    if nodes != [] {
      TitleNoLonger(nodes[1..]);
      var head: seq<Node> := [nodes[0]];
      assert nodes == head + nodes[1..];
      TitleAppend(head, nodes[1..]);
      assert TextData(nodes) == (if nodes[0].Text? then [nodes[0].data] else []) + TextData(nodes[1..]);
      ConcatAppend(if nodes[0].Text? then [nodes[0].data] else [], TextData(nodes[1..]));
      assert TextSegments(head) == (if nodes[0].Text? then [Trim(nodes[0].data)] else []);
      if nodes[0].Text? {
        assert Concat([Trim(nodes[0].data)]) == Trim(nodes[0].data);
        assert Concat([nodes[0].data]) == nodes[0].data;
      }
    }
  }

  /** Joining non-empty digit runs with dots gives dotted digits. */
  lemma {:induction false} JoinDottedDigits(parts: seq<string>)
    requires forall k :: 0 <= k < |parts| ==> IsDigitRun(parts[k])
    ensures IsDottedDigits(JoinDots(parts))
    ensures parts != [] ==> JoinDots(parts) != [] && IsDigit(JoinDots(parts)[0])
  {
    if |parts| >= 2 {
      JoinDottedDigits(parts[1..]);
      var a, q := parts[0], JoinDots(parts[1..]);
      var p := a + "." + q;
      assert JoinDots(parts) == p;
      assert IsDigitRun(a);
      forall i | 0 <= i < |p| ensures IsDigit(p[i]) || p[i] == '.' {
        if i > |a| {
          assert p[i] == q[i - |a| - 1];
        }
      }
      forall i | 0 <= i < |p| - 1 ensures p[i] == '.' ==> p[i + 1] != '.' {
        if i < |a| {
          assert p[i] == a[i];
        } else if i == |a| {
          assert p[i + 1] == q[0];
        } else {
          assert p[i] == q[i - |a| - 1] && p[i + 1] == q[i - |a|];
        }
      }
      assert p[|p| - 1] == q[|q| - 1];
    }
  }

  predicate HasNoDot(s: string) {
    forall i :: 0 <= i < |s| ==> s[i] != '.'
  }

  /** Splitting text that starts with a dot-free run glues the run onto the first piece. */
  lemma {:induction false} SplitDotFreePrefix(a: string, t: string)
    requires HasNoDot(a)
    ensures SplitDots(a + t) == [a + SplitDots(t)[0]] + SplitDots(t)[1..]
  {
    if a != [] {
      assert (a + t)[1..] == a[1..] + t;
      SplitDotFreePrefix(a[1..], t);
      assert [a[0]] + (a[1..] + SplitDots(t)[0]) == a + SplitDots(t)[0];
    } else {
      var s := SplitDots(t);
      assert a + t == t;
      assert a + s[0] == s[0];
      assert s == [s[0]] + s[1..];
    }
  }

  /** Splitting the joined price at its dots gives back the fragments. */
  lemma {:induction false} SplitJoin(parts: seq<string>)
    requires parts != []
    requires forall k :: 0 <= k < |parts| ==> IsDigitRun(parts[k])
    ensures SplitDots(JoinDots(parts)) == parts
  {
    var a := parts[0];
    assert HasNoDot(a);
    if |parts| == 1 {
      SplitDotFreePrefix(a, []);
      assert a + [] == a;
    } else {
      SplitJoin(parts[1..]);
      var q := JoinDots(parts[1..]);
      assert JoinDots(parts) == a + ("." + q);
      SplitDotFreePrefix(a, "." + q);
      assert ("." + q)[1..] == q;
      assert SplitDots("." + q) == [[]] + parts[1..];
      assert a + [] == a;
    }
  }

  lemma {:induction false} KeptFragmentsAppend(a: seq<Node>, b: seq<Node>)
    ensures KeptFragments(a + b) == KeptFragments(a) + KeptFragments(b)
  {
    if a != [] {
      var v := Fragment(a[0]);
      var head := if v.Some? && v.value != [] then [v.value] else [];
      assert (a + b)[0] == a[0] && (a + b)[1..] == a[1..] + b;
      assert KeptFragments(a + b) == head + KeptFragments(a[1..] + b);
      KeptFragmentsAppend(a[1..], b);
    } else {
      assert a + b == b;
    }
  }

  /**
   * Wherever it sits among the price children, an element contributes its
   * rendered text exactly when that text is a non-empty run of digits, and
   * nothing otherwise.
   */
  lemma PriceElementKeptIff(a: seq<Node>, x: string, b: seq<Node>)
    ensures KeptFragments(a + [Element(x)] + b)
         == KeptFragments(a) + (if IsDigitRun(x) then [x] else []) + KeptFragments(b)
  {
    KeptFragmentsAppend(a + [Element(x)], b);
    KeptFragmentsAppend(a, [Element(x)]);
    assert KeptFragments([Element(x)]) == (if IsDigitRun(x) then [x] else []) by {
      assert [Element(x)][1..] == [];
    }
  }

  /** A text child contributes its trimmed text exactly when that is a non-empty run of digits. */
  lemma PriceTextKeptIff(a: seq<Node>, d: string, b: seq<Node>)
    ensures KeptFragments(a + [Text(d)] + b)
         == KeptFragments(a) + (if IsDigitRun(Trim(d)) then [Trim(d)] else []) + KeptFragments(b)
  {
    KeptFragmentsAppend(a + [Text(d)], b);
    KeptFragmentsAppend(a, [Text(d)]);
    assert KeptFragments([Text(d)]) == (if IsDigitRun(Trim(d)) then [Trim(d)] else []) by {
      assert [Text(d)][1..] == [];
    }
  }

  /** Split-digit reconstruction: "12", an icon with no digits and "99" read as "12.99". */
  lemma SplitDigitPriceExample()
    ensures StructuredPrice([Element("12"), Element("$"), Element("99")]) == "12.99"
  {
    var nodes := [Element("12"), Element("$"), Element("99")];
    assert KeptFragments(nodes) == ["12", "99"] by {
      assert Fragment(nodes[1]) == None by {
        assert !IsDigit("$"[0]);
      }
      assert KeptFragments(nodes[1..]) == ["99"] by {
        assert nodes[1..][1..] == nodes[2..];
      }
    }
    assert JoinDots(["12", "99"]) == "12.99";
  }
}

/**
 * The partitioner's output and the page documents built from it: which
 * elements are kept, which page each one is filed under, and the reference
 * definition of grouping (one document per page, first-seen page order,
 * texts joined by a line break).
 */
module PageGrouping {
  import opened Wrappers
  import opened Text

  /** A page number as the code reads it: an `int`, or Python's `None`. */
  type PageKey = Option<int>

  /** An element's `metadata`: it may lack a `page_number` attribute, or carry one (possibly `None`). */
  datatype ElementMetadata = NoPageNumber | WithPageNumber(pageNumber: PageKey)

  /** A partitioner element; `text` and `metadata` are attributes the element may lack (or, for `text`, hold `None`). */
  datatype Element = Element(text: Option<string>, metadata: Option<ElementMetadata>)

  /** A LangChain document: its `page_content` and the `page_number` entry of its metadata. */
  datatype Document = Document(pageContent: string, pageNumber: PageKey)

  /** The element has a text attribute that is truthy and not blank after `strip()`. */
  predicate Kept(e: Element) {
    e.text.Some? && e.text.value != "" && Strip(e.text.value) != ""
  }

  /** The page an element is filed under: 0 without metadata or without a `page_number` attribute. */
  function PageOf(e: Element): PageKey {
    match e.metadata
    case None => Some(0)
    case Some(NoPageNumber) => Some(0)
    case Some(WithPageNumber(k)) => k
  }

  /** The distinct pages of the kept elements, in order of first appearance. */
  function Pages(es: seq<Element>): seq<PageKey> {
    if es == [] then []
    else
      var ps := Pages(es[..|es| - 1]);
      var e := es[|es| - 1];
      if Kept(e) && PageOf(e) !in ps then ps + [PageOf(e)] else ps
  }

  /** The texts of the kept elements filed under page `k`, in input order. */
  function TextsOn(es: seq<Element>, k: PageKey): seq<string> {
    if es == [] then []
    else
      var e := es[|es| - 1];
      TextsOn(es[..|es| - 1], k) + (if Kept(e) && PageOf(e) == k then [e.text.value] else [])
  }

  /** Reference definition of the grouping: one document per page of `Pages(es)`. */
  function GroupByPage(es: seq<Element>): seq<Document> {
    var ps := Pages(es);
    seq(|ps|, i requires 0 <= i < |ps| => Document(Join("\n", TextsOn(es, ps[i])), ps[i]))
  }

  lemma {:induction false} PagesDistinct(es: seq<Element>)
    ensures forall i, j :: 0 <= i < j < |Pages(es)| ==> Pages(es)[i] != Pages(es)[j]
  {
    if es != [] {
      PagesDistinct(es[..|es| - 1]);
    }
  }

  /** A page is listed exactly when some kept element is filed under it. */
  lemma {:induction false} PagesMembership(es: seq<Element>, k: PageKey)
    ensures k in Pages(es) <==> exists j :: 0 <= j < |es| && Kept(es[j]) && PageOf(es[j]) == k
  {
    if es != [] {
      var init := es[..|es| - 1];
      PagesMembership(init, k);
      if exists j :: 0 <= j < |init| && Kept(init[j]) && PageOf(init[j]) == k {
        var j :| 0 <= j < |init| && Kept(init[j]) && PageOf(init[j]) == k;
        assert es[j] == init[j];
      }
      if exists j :: 0 <= j < |es| && Kept(es[j]) && PageOf(es[j]) == k {
        var j :| 0 <= j < |es| && Kept(es[j]) && PageOf(es[j]) == k;
        if j < |init| { assert init[j] == es[j]; }
      }
    }
  }

  /** First-seen order: the pages listed for any prefix of the input are a prefix of the pages listed for all of it. */
  lemma {:induction false} PagesFirstSeenOrder(es: seq<Element>, n: nat)
    requires n <= |es|
    ensures Pages(es[..n]) <= Pages(es)
  {
    if n < |es| {
      var init := es[..|es| - 1];
      assert init[..n] == es[..n];
      PagesFirstSeenOrder(init, n);
    } else {
      assert es[..n] == es;
    }
  }

  /** Filing texts by page distributes over concatenation of the input. */
  lemma {:induction false} TextsOnAppend(a: seq<Element>, b: seq<Element>, k: PageKey)
    ensures TextsOn(a + b, k) == TextsOn(a, k) + TextsOn(b, k)
  {
    if b == [] {
      assert a + b == a;
    } else {
      var e := b[|b| - 1];
      var ab := a + b;
      assert ab[..|ab| - 1] == a + b[..|b| - 1];
      assert ab[|ab| - 1] == e;
      TextsOnAppend(a, b[..|b| - 1], k);
    }
  }

  /** A single element contributes its text to its own page exactly when it is kept. */
  lemma TextsOnSingle(e: Element, k: PageKey)
    ensures TextsOn([e], k) == if Kept(e) && PageOf(e) == k then [e.text.value] else []
  {
    assert [e][..0] == [];
  }

  /** A page has texts exactly when it is listed. */
  lemma {:induction false} TextsOnNonEmptyIff(es: seq<Element>, k: PageKey)
    ensures TextsOn(es, k) != [] <==> k in Pages(es)
  {
    if es != [] {
      TextsOnNonEmptyIff(es[..|es| - 1], k);
    }
  }

  /** Every text filed under a page is one that `strip()` does not empty. */
  lemma {:induction false} TextsOnAreKept(es: seq<Element>, k: PageKey)
    ensures forall i :: 0 <= i < |TextsOn(es, k)| ==> Strip(TextsOn(es, k)[i]) != ""
  {
    if es != [] {
      TextsOnAreKept(es[..|es| - 1], k);
    }
  }

  /**
   * Shape of the grouping: one document per distinct page of the kept
   * elements, in first-seen order, each holding the line-break join of that
   * page's texts, which is never blank.
   */
  lemma GroupByPageShape(es: seq<Element>)
    ensures |GroupByPage(es)| == |Pages(es)|
    ensures forall i :: 0 <= i < |GroupByPage(es)| ==>
      GroupByPage(es)[i].pageNumber == Pages(es)[i]
      && GroupByPage(es)[i].pageContent == Join("\n", TextsOn(es, Pages(es)[i]))
      && Strip(GroupByPage(es)[i].pageContent) != ""
    ensures forall i, j :: 0 <= i < j < |GroupByPage(es)| ==> GroupByPage(es)[i].pageNumber != GroupByPage(es)[j].pageNumber
    ensures forall j :: 0 <= j < |es| && Kept(es[j]) ==>
      exists i :: 0 <= i < |GroupByPage(es)| && GroupByPage(es)[i].pageNumber == PageOf(es[j])
  {
    var docs := GroupByPage(es);
    var ps := Pages(es);
    PagesDistinct(es);
    forall i | 0 <= i < |docs| ensures Strip(docs[i].pageContent) != "" {
      var texts := TextsOn(es, ps[i]);
      TextsOnNonEmptyIff(es, ps[i]);
      TextsOnAreKept(es, ps[i]);
      JoinStartsWithFirst("\n", texts);
      BlankPrefix(texts[0], docs[i].pageContent);
    }
    forall j | 0 <= j < |es| && Kept(es[j])
      ensures exists i :: 0 <= i < |docs| && docs[i].pageNumber == PageOf(es[j])
    {
      PagesMembership(es, PageOf(es[j]));
      var i :| 0 <= i < |ps| && ps[i] == PageOf(es[j]);
      assert docs[i].pageNumber == PageOf(es[j]);
    }
  }

  /** A string that extends a non-blank prefix is non-blank. */
  lemma BlankPrefix(p: string, s: string)
    requires p <= s && Strip(p) != ""
    ensures Strip(s) != ""
  {
    StripSpec(p);
    StripSpec(s);
    var i :| 0 <= i < |p| && !IsWhitespace(p[i]);
    assert s[i] == p[i];
  }

  /** The grouping is empty exactly when no element is kept. */
  lemma GroupByPageEmptyIff(es: seq<Element>)
    ensures GroupByPage(es) == [] <==> forall j :: 0 <= j < |es| ==> !Kept(es[j])
  {
    if exists j :: 0 <= j < |es| && Kept(es[j]) {
      var j :| 0 <= j < |es| && Kept(es[j]);
      PagesMembership(es, PageOf(es[j]));
    } else if Pages(es) != [] {
      PagesMembership(es, Pages(es)[0]);
    }
  }
}

/** `detectStaticPagination`: the whole pipeline from anchors to results. */
module Detector {

  import opened Wrappers
  import opened Text
  import opened Candidates
  import opened PageSet
  import opened Plausibility

  /** One detected pagination scheme. */
  datatype PaginationResult = PaginationResult(urlTemplate: string, currentPage: nat, pages: seq<PaginationLink>)

  /** `new URL(currentUrl)` throws: nothing can be resolved. */
  datatype DetectError = InvalidReferenceUrl

  /** What one group turns into: nothing when it has fewer than two distinct
      page numbers or when neither signal holds; otherwise its template, the
      current page and the deduplicated pages. */
  function GroupResult(template: string, group: seq<Candidate>, currentUrl: string): Option<PaginationResult> {
    if |PageNumbers(group)| < 2 then None
    else
      var pages := UniqueByUrl(group);
      var result := PaginationResult(template, CurrentPage(currentUrl, template), pages);
      if PassesStructure(pages) || PassesTextMatch(pages) then Some(result) else None
  }

  /** The results for the keys `ts`, in key order. */
  function ResultsFor(ts: seq<string>, cs: seq<Candidate>, currentUrl: string): seq<PaginationResult>
    decreases |ts|
  {
    if ts == [] then []
    else
      var rs := ResultsFor(ts[..|ts| - 1], cs, currentUrl);
      var t := ts[|ts| - 1];
      match GroupResult(t, GroupOf(cs, t), currentUrl)
      case None => rs
      case Some(r) => rs + [r]
  }

  /** The whole detection, as a function of its inputs. `baseValid` says
      whether `new URL(currentUrl)` succeeds; `resolve` resolves an `href`
      against that base. */
  function Detect(currentUrl: string, baseValid: bool, anchors: seq<Anchor>, resolve: Resolver)
    : Result<seq<PaginationResult>, DetectError>
  {
    if !baseValid then Failure(InvalidReferenceUrl)
    else
      var cs := AllCandidates(anchors, resolve);
      Success(ResultsFor(Templates(cs), cs, currentUrl))
  }

  /** The loop over the template map's entries. */
  method BuildResults(order: seq<string>, groups: map<string, seq<Candidate>>, currentUrl: string,
                      ghost cs: seq<Candidate>)
    returns (results: seq<PaginationResult>)
    requires GroupsHold(cs, order, groups)
    ensures results == ResultsFor(order, cs, currentUrl)
  {
    results := [];
    for i := 0 to |order|
      invariant results == ResultsFor(order[..i], cs, currentUrl)
    {
      var template := order[i];
      var group := groups[template];
      assert order[..i + 1][..i] == order[..i];
      var uniquePages := set c | c in group :: c.pageNum;
      if |uniquePages| >= 2 {
        var pages := DedupByUrl(group);
        var currentPage := CurrentPage(currentUrl, template);
        var result := PaginationResult(template, currentPage, pages);
        var passesStructureCheck := PassesStructureCheck(pages);
        var passesTextMatch := PassesTextMatch(pages);
        if passesStructureCheck || passesTextMatch {
          results := results + [result];
        }
      }
    }
    assert order[..|order|] == order;
  }

  /** The entry point. */
  method DetectStaticPagination(currentUrl: string, baseValid: bool, anchors: seq<Anchor>, resolve: Resolver)
    returns (r: Result<seq<PaginationResult>, DetectError>)
    ensures r == Detect(currentUrl, baseValid, anchors, resolve)
  {
    if !baseValid {
      return Failure(InvalidReferenceUrl);
    }
    var order, groups := CollectCandidateGroups(anchors, resolve);
    var results := BuildResults(order, groups, currentUrl, AllCandidates(anchors, resolve));
    return Success(results);
  }

  /** What every emitted result satisfies: at least two pages with distinct
      page numbers, pairwise distinct URLs, every page rebuilt from the
      template by putting its own digit run back at the placeholder, every
      text trimmed and holding a digit, and one of the two signals. */
  ghost predicate ResultWellFormed(r: PaginationResult) {
    && |r.pages| >= 2
    && TwoPageNumbers(r.pages)
    && DistinctUrls(r.pages)
    && PagesRebuilt(r.urlTemplate, r.pages)
    && (PassesStructure(r.pages) || PassesTextMatch(r.pages))
  }

  /** Some two pages carry different page numbers. */
  ghost predicate TwoPageNumbers(pages: seq<PaginationLink>) {
    exists a, b :: 0 <= a < |pages| && 0 <= b < |pages| && pages[a].pageNumber != pages[b].pageNumber
  }

  /** No URL appears twice. */
  ghost predicate DistinctUrls(pages: seq<PaginationLink>) {
    forall a, b :: 0 <= a < b < |pages| ==> pages[a].url != pages[b].url
  }

  /** Every page's text is trimmed and holds a digit, and its URL is the
      template with a maximal digit run of value `pageNumber` put back at
      the placeholder. */
  ghost predicate PagesRebuilt(template: string, pages: seq<PaginationLink>) {
    forall k :: 0 <= k < |pages| ==>
      && Trim(pages[k].text) == pages[k].text && HasDigit(pages[k].text)
      && exists start, end :: RunTemplate(template, pages[k].url, pages[k].pageNumber, start, end)
  }

  /** |S| >= 2 gives two different members. */
  lemma TwoMembers(s: set<nat>) returns (x: nat, y: nat)
    requires |s| >= 2
    ensures x in s && y in s && x != y
  {
    x :| x in s;
    assert |s - {x}| == |s| - 1;
    y :| y in s - {x};
  }

  /** A group of well-formed candidates sharing template `t` yields, if
      anything, a well-formed result for `t`. */
  lemma GroupResultWellFormed(t: string, group: seq<Candidate>, currentUrl: string)
    requires forall c :: c in group ==> WellFormed(c) && c.template == t
    ensures GroupResult(t, group, currentUrl).Some? ==>
              var r := GroupResult(t, group, currentUrl).value;
              r.urlTemplate == t && r.currentPage == CurrentPage(currentUrl, t) && ResultWellFormed(r)
  {
    if GroupResult(t, group, currentUrl).Some? {
      var pages := UniqueByUrl(group);
      var r := GroupResult(t, group, currentUrl).value;
      assert r == PaginationResult(t, CurrentPage(currentUrl, t), pages);
      UniqueByUrlDistinct(group);
      PagesRebuild(t, group);
      var a, b := TwoDistinctPages(t, group);
      assert pages[a].pageNumber != pages[b].pageNumber;
      assert a != b;
      assert TwoPageNumbers(pages);
      assert ResultWellFormed(r);
    }
  }

  /** Every kept page has a trimmed text holding a digit and is rebuilt from
      the template by its own digit run. */
  lemma PagesRebuild(t: string, group: seq<Candidate>)
    requires forall c :: c in group ==> WellFormed(c) && c.template == t
    ensures PagesRebuilt(t, UniqueByUrl(group))
  {
    var pages := UniqueByUrl(group);
    UniqueByUrlSpec(group);
    var idx := FirstIndices(group);
    forall k | 0 <= k < |pages|
      ensures Trim(pages[k].text) == pages[k].text && HasDigit(pages[k].text)
      ensures exists start, end :: RunTemplate(t, pages[k].url, pages[k].pageNumber, start, end)
    {
      var c := group[idx[k]];
      assert c in group;
      var start, end :| FromRun(c, start, end);
    }
  }

  /** Two candidates with different page numbers survive deduplication as
      two pages, because within one template the URL fixes the number. */
  lemma TwoDistinctPages(t: string, group: seq<Candidate>) returns (a: nat, b: nat)
    requires forall c :: c in group ==> WellFormed(c) && c.template == t
    requires |PageNumbers(group)| >= 2
    ensures a < |UniqueByUrl(group)| && b < |UniqueByUrl(group)|
    ensures UniqueByUrl(group)[a].pageNumber != UniqueByUrl(group)[b].pageNumber
  {
    var x, y := TwoMembers(PageNumbers(group));
    var c1 :| c1 in group && c1.pageNum == x;
    var c2 :| c2 in group && c2.pageNum == y;
    a := PageOfCandidate(t, group, c1);
    b := PageOfCandidate(t, group, c2);
  }

  /** The page kept for a candidate's URL carries that candidate's number. */
  lemma PageOfCandidate(t: string, group: seq<Candidate>, c: Candidate) returns (k: nat)
    requires forall d :: d in group ==> WellFormed(d) && d.template == t
    requires c in group
    ensures k < |UniqueByUrl(group)| && UniqueByUrl(group)[k].pageNumber == c.pageNum
  {
    var pages := UniqueByUrl(group);
    UniqueByUrlSpec(group);
    UniqueByUrlKeepsUrls(group);
    assert c.url in UrlsOf(pages);
    var p :| p in pages && p.url == c.url;
    k :| 0 <= k < |pages| && pages[k] == p;
    var d := group[FirstIndices(group)[k]];
    assert d in group;
    var s1, e1 :| FromRun(c, s1, e1);
    var s2, e2 :| FromRun(d, s2, e2);
    SameUrlSamePage(c, s1, e1, d, s2, e2);
  }

  /** Results for a prefix of the keys come first. */
  lemma {:induction false} ResultsForPrefix(ts: seq<string>, cs: seq<Candidate>, currentUrl: string, n: nat)
    requires n <= |ts|
    ensures ResultsFor(ts[..n], cs, currentUrl) <= ResultsFor(ts, cs, currentUrl)
    decreases |ts| - n
  {
    if n < |ts| {
      ResultsForPrefix(ts, cs, currentUrl, n + 1);
      assert ts[..n + 1][..n] == ts[..n];
    } else {
      assert ts[..n] == ts;
    }
  }

  /** Over distinct keys: each result is the result of its own key, a key
      has a result exactly when its group yields one, and no key has two. */
  lemma {:induction false} ResultsForSpec(ts: seq<string>, cs: seq<Candidate>, currentUrl: string)
    requires forall a, b :: 0 <= a < b < |ts| ==> ts[a] != ts[b]
    ensures var rs := ResultsFor(ts, cs, currentUrl);
            && (forall r :: r in rs ==>
                  r.urlTemplate in ts && GroupResult(r.urlTemplate, GroupOf(cs, r.urlTemplate), currentUrl) == Some(r))
            && (forall t :: t in ts ==>
                  ((exists r :: r in rs && r.urlTemplate == t) <==> GroupResult(t, GroupOf(cs, t), currentUrl).Some?))
            && (forall i, j :: 0 <= i < j < |rs| ==> rs[i].urlTemplate != rs[j].urlTemplate)
    decreases |ts|
  {
    if ts != [] {
      var init := ts[..|ts| - 1];
      var t := ts[|ts| - 1];
      ResultsForSpec(init, cs, currentUrl);
      assert ts == init + [t];
      assert t !in init;
    }
  }

  /** Every result over well-formed candidates is well formed, belongs to
      a template of the candidates and carries the current page read from
      the reference URL against that template. */
  lemma ResultsWellFormed(cs: seq<Candidate>, currentUrl: string)
    requires forall c :: c in cs ==> WellFormed(c)
    ensures forall r :: r in ResultsFor(Templates(cs), cs, currentUrl) ==>
              && ResultWellFormed(r) && r.urlTemplate in Templates(cs)
              && r.currentPage == CurrentPage(currentUrl, r.urlTemplate)
  {
    var ts := Templates(cs);
    TemplatesSpec(cs);
    ResultsForSpec(ts, cs, currentUrl);
    forall r | r in ResultsFor(ts, cs, currentUrl)
      ensures ResultWellFormed(r) && r.currentPage == CurrentPage(currentUrl, r.urlTemplate)
    {
      var t := r.urlTemplate;
      GroupOfMembers(cs, t);
      GroupResultWellFormed(t, GroupOf(cs, t), currentUrl);
    }
  }

  /** A template yields a result exactly when its candidates carry at least
      two distinct page numbers and the structural or the text signal holds
      for its deduplicated pages; no template yields two. */
  lemma ResultsExactly(cs: seq<Candidate>, currentUrl: string)
    ensures var rs := ResultsFor(Templates(cs), cs, currentUrl);
            && (forall t :: t in Templates(cs) ==>
                  ((exists r :: r in rs && r.urlTemplate == t) <==>
                     var group := GroupOf(cs, t);
                     && |PageNumbers(group)| >= 2
                     && (PassesStructure(UniqueByUrl(group)) || PassesTextMatch(UniqueByUrl(group)))))
            && (forall i, j :: 0 <= i < j < |rs| ==> rs[i].urlTemplate != rs[j].urlTemplate)
  {
    TemplatesSpec(cs);
    ResultsForSpec(Templates(cs), cs, currentUrl);
  }

  /** Templates first seen among the first `n` candidates have their
      results first: output follows first appearance in the document. */
  lemma ResultsInDocumentOrder(cs: seq<Candidate>, currentUrl: string, n: nat)
    requires n <= |cs|
    ensures ResultsFor(Templates(cs[..n]), cs, currentUrl) <= ResultsFor(Templates(cs), cs, currentUrl)
  {
    TemplatesPrefix(cs, n);
    var m := |Templates(cs[..n])|;
    assert Templates(cs)[..m] == Templates(cs[..n]);
    ResultsForPrefix(Templates(cs), cs, currentUrl, m);
  }

  /** The detector's promises: an invalid reference URL is the only
      failure; otherwise the results are those of the templates in order
      of first appearance, each well formed. */
  lemma DetectSpec(currentUrl: string, baseValid: bool, anchors: seq<Anchor>, resolve: Resolver)
    ensures !baseValid <==> Detect(currentUrl, baseValid, anchors, resolve) == Failure(InvalidReferenceUrl)
    ensures baseValid ==>
              var cs := AllCandidates(anchors, resolve);
              && Detect(currentUrl, baseValid, anchors, resolve) == Success(ResultsFor(Templates(cs), cs, currentUrl))
              && forall r :: r in ResultsFor(Templates(cs), cs, currentUrl) ==>
                   && ResultWellFormed(r) && r.urlTemplate in Templates(cs)
                   && r.currentPage == CurrentPage(currentUrl, r.urlTemplate)
  {
    if baseValid {
      AllCandidatesWellFormed(anchors, resolve);
      ResultsWellFormed(AllCandidates(anchors, resolve), currentUrl);
    }
  }
}

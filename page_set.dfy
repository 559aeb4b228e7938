/** The page-set builder: the distinct-page test, the first-occurrence
    deduplication by URL, and the current page read back from the reference
    URL through the template. */
module PageSet {

  import opened Wrappers
  import opened Text
  import opened Candidates

  /** One page of a detected scheme. The element reference is kept as the
      attribute chain it leads to. */
  datatype PaginationLink = PaginationLink(url: string, text: string, pageNumber: nat, chain: seq<Attrs>)

  function LinkOf(c: Candidate): PaginationLink {
    PaginationLink(c.url, c.text, c.pageNum, c.chain)
  }

  /** The distinct page numbers of a group. */
  function PageNumbers(group: seq<Candidate>): set<nat> {
    set c | c in group :: c.pageNum
  }

  function UrlsOf(pages: seq<PaginationLink>): set<string> {
    set p | p in pages :: p.url
  }

  /** The pages the deduplication loop builds. */
  function UniqueByUrl(group: seq<Candidate>): seq<PaginationLink>
    decreases |group|
  {
    if group == [] then []
    else
      var pages := UniqueByUrl(group[..|group| - 1]);
      var c := group[|group| - 1];
      if c.url in UrlsOf(pages) then pages else pages + [LinkOf(c)]
  }

  /** The loop over a group with the `seen` set of URLs. */
  method DedupByUrl(group: seq<Candidate>) returns (pages: seq<PaginationLink>)
    ensures pages == UniqueByUrl(group)
  {
    var seen: set<string> := {};
    pages := [];
    for i := 0 to |group|
      invariant pages == UniqueByUrl(group[..i])
      invariant seen == UrlsOf(pages)
    {
      var c := group[i];
      assert group[..i + 1][..i] == group[..i];
      if c.url !in seen {
        pages := pages + [LinkOf(c)];
        seen := seen + {c.url};
      }
    }
    assert group[..|group|] == group;
  }

  /** No earlier candidate of the group has the URL of the one at `i`. */
  predicate FirstOfUrl(group: seq<Candidate>, i: nat)
    requires i < |group|
  {
    forall j :: 0 <= j < i ==> group[j].url != group[i].url
  }

  /** The positions of the first occurrences of each URL, in order. */
  ghost function FirstIndices(group: seq<Candidate>): seq<nat>
    decreases |group|
  {
    if group == [] then []
    else
      var idx := FirstIndices(group[..|group| - 1]);
      if FirstOfUrl(group, |group| - 1) then idx + [|group| - 1] else idx
  }

  /** Deduplication loses no URL. */
  lemma {:induction false} UniqueByUrlKeepsUrls(group: seq<Candidate>)
    ensures UrlsOf(UniqueByUrl(group)) == set c | c in group :: c.url
    decreases |group|
  {
    if group != [] {
      var init := group[..|group| - 1];
      UniqueByUrlKeepsUrls(init);
      var c := group[|group| - 1];
      var pages := UniqueByUrl(init);
      assert group == init + [c];
      assert (set d | d in group :: d.url) == (set d | d in init :: d.url) + {c.url};
      assert UrlsOf(pages + [LinkOf(c)]) == UrlsOf(pages) + {c.url};
    }
  }

  /** The last candidate is kept exactly when its URL is new. */
  lemma LastKept(group: seq<Candidate>)
    requires group != []
    ensures var n := |group| - 1;
            FirstOfUrl(group, n) <==> group[n].url !in UrlsOf(UniqueByUrl(group[..n]))
  {
    var n := |group| - 1;
    var init := group[..n];
    UniqueByUrlKeepsUrls(init);
    if !FirstOfUrl(group, n) {
      var j :| 0 <= j < n && group[j].url == group[n].url;
      assert init[j] in init;
    }
  }

  /** The deduplicated pages are exactly the first occurrence of each URL of
      the group, in the group's order, each with that occurrence's text and
      page number. */
  lemma {:induction false} UniqueByUrlSpec(group: seq<Candidate>)
    ensures var pages := UniqueByUrl(group);
            var idx := FirstIndices(group);
            && |idx| == |pages|
            && (forall k :: 0 <= k < |idx| ==>
                  idx[k] < |group| && FirstOfUrl(group, idx[k]) && pages[k] == LinkOf(group[idx[k]]))
            && (forall a, b :: 0 <= a < b < |idx| ==> idx[a] < idx[b])
            && (forall i :: 0 <= i < |group| && FirstOfUrl(group, i) ==> i in idx)
    decreases |group|
  {
    if group != [] {
      var n := |group| - 1;
      var init := group[..n];
      UniqueByUrlSpec(init);
      LastKept(group);
      var idx0 := FirstIndices(init);
      forall k | 0 <= k < |idx0|
        ensures FirstOfUrl(group, idx0[k])
      {
        assert FirstOfUrl(init, idx0[k]);
      }
      forall i | 0 <= i < n && FirstOfUrl(group, i)
        ensures i in idx0
      {
        assert FirstOfUrl(init, i);
      }
    }
  }

  /** Within the deduplicated pages no URL occurs twice. */
  lemma UniqueByUrlDistinct(group: seq<Candidate>)
    ensures var pages := UniqueByUrl(group);
            forall a, b :: 0 <= a < b < |pages| ==> pages[a].url != pages[b].url
  {
    UniqueByUrlSpec(group);
    var pages := UniqueByUrl(group);
    var idx := FirstIndices(group);
    forall a, b | 0 <= a < b < |pages|
      ensures pages[a].url != pages[b].url
    {
      assert idx[a] < idx[b];
      assert FirstOfUrl(group, idx[b]);
    }
  }

  /** The current page: the template is split at its first `{page}` (the
      escaped pattern's first `\{page\}` becomes `(\d+)`), and the reference
      URL must be, as a whole, the literal prefix, one or more digits, and
      the literal suffix. Without a match the page is 1. */
  function CurrentPage(currentUrl: string, template: string): nat {
    match IndexOfFrom(template, Placeholder, 0)
    case None => 1
    case Some(i) =>
      var prefix := template[..i];
      var suffix := template[i + |Placeholder|..];
      if && |currentUrl| > |prefix| + |suffix|
         && currentUrl[..|prefix|] == prefix
         && currentUrl[|currentUrl| - |suffix|..] == suffix
         && AllDigits(currentUrl[|prefix|..|currentUrl| - |suffix|])
      then NumberValue(currentUrl[|prefix|..|currentUrl| - |suffix|])
      else 1
  }

  /** The first `{page}` of `prefix + "{page}" + suffix` is the one after
      `prefix` when `prefix` has none of its own. */
  lemma FirstPlaceholder(prefix: string, suffix: string)
    requires !Contains(prefix, Placeholder)
    ensures IndexOfFrom(prefix + Placeholder + suffix, Placeholder, 0) == Some(|prefix|)
  {
    var t := prefix + Placeholder + suffix;
    assert OccursAt(t, Placeholder, |prefix|) by {
      assert t[|prefix|..|prefix| + |Placeholder|] == Placeholder;
    }
    forall j: nat | j < |prefix|
      ensures !OccursAt(t, Placeholder, j)
    {
      if j + |Placeholder| <= |prefix| {
        assert t[j..j + |Placeholder|] == prefix[j..j + |Placeholder|];
        assert !OccursAt(prefix, Placeholder, j);
      } else {
        assert t[|prefix|] == '{';
        assert forall k :: 1 <= k < |Placeholder| ==> Placeholder[k] != '{';
      }
    }
  }

  /** The current page is `d` exactly when the reference URL is the
      template's prefix, a non-empty numeral of value `d` and the template's
      suffix; otherwise it is 1. */
  lemma CurrentPageSpec(currentUrl: string, prefix: string, suffix: string)
    requires !Contains(prefix, Placeholder)
    ensures forall digits :: digits != [] && AllDigits(digits) && currentUrl == prefix + digits + suffix
              ==> CurrentPage(currentUrl, prefix + Placeholder + suffix) == NumberValue(digits)
    ensures (forall digits :: digits != [] && AllDigits(digits) ==> currentUrl != prefix + digits + suffix)
              ==> CurrentPage(currentUrl, prefix + Placeholder + suffix) == 1
  {
    FirstPlaceholder(prefix, suffix);
    var t := prefix + Placeholder + suffix;
    assert t[..|prefix|] == prefix;
    assert t[|prefix| + |Placeholder|..] == suffix;
    forall digits | digits != [] && AllDigits(digits) && currentUrl == prefix + digits + suffix
      ensures CurrentPage(currentUrl, t) == NumberValue(digits)
    {
      assert currentUrl[..|prefix|] == prefix;
      assert currentUrl[|currentUrl| - |suffix|..] == suffix;
      assert currentUrl[|prefix|..|currentUrl| - |suffix|] == digits;
    }
    var n := |currentUrl|;
    if && n > |prefix| + |suffix| && currentUrl[..|prefix|] == prefix
       && currentUrl[n - |suffix|..] == suffix && AllDigits(currentUrl[|prefix|..n - |suffix|])
    {
      var digits := currentUrl[|prefix|..n - |suffix|];
      assert currentUrl == prefix + digits + suffix;
    }
  }

  /** A template with no placeholder matches only itself and captures
      nothing, so the current page stays 1. */
  lemma CurrentPageWithoutPlaceholder(currentUrl: string, template: string)
    requires !Contains(template, Placeholder)
    ensures CurrentPage(currentUrl, template) == 1
  {
  }

  /** Matching a candidate's own URL against its template gives back its
      page number, provided the URL has no literal `{page}` before the run. */
  lemma CurrentPageOfOwnUrl(c: Candidate, start: nat, end: nat)
    requires FromRun(c, start, end) && !Contains(c.url[..start], Placeholder)
    ensures CurrentPage(c.url, c.template) == c.pageNum
  {
    var prefix, digits, suffix := c.url[..start], c.url[start..end], c.url[end..];
    CurrentPageSpec(c.url, prefix, suffix);
    assert c.url == prefix + digits + suffix;
  }
}

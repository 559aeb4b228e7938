/** The plausibility filter: a group is kept when one of its pages sits
    inside an element marked "pagination", or when one of its pages is
    labelled with exactly its own page number. */
module Plausibility {

  import opened Text
  import opened Candidates
  import opened PageSet

  const Marker: string := "pagination"

  /** An element is marked when its lower-cased `id` or `class` attribute
      (a missing one read as empty) contains "pagination". */
  predicate HasPaginationMarker(el: Attrs) {
    || Contains(ToLower(el.id.GetOr("")), Marker)
    || Contains(ToLower(el.classList.GetOr("")), Marker)
  }

  /** Some element of the chain, the link itself included, is marked. */
  predicate InPaginationContainer(chain: seq<Attrs>) {
    exists k :: 0 <= k < |chain| && HasPaginationMarker(chain[k])
  }

  /** The structural signal of a page set. */
  predicate PassesStructure(pages: seq<PaginationLink>) {
    exists k :: 0 <= k < |pages| && InPaginationContainer(pages[k].chain)
  }

  /** The text signal: some page's trimmed text is exactly the decimal
      string of its page number. */
  predicate PassesTextMatch(pages: seq<PaginationLink>) {
    exists k :: 0 <= k < |pages| && Trim(pages[k].text) == DecimalString(pages[k].pageNumber)
  }

  /** The walk from the link up through `parentNode`: true at the first
      element whose lower-cased `id` or `class` contains "pagination". */
  method FindPaginationAncestor(chain: seq<Attrs>) returns (found: bool)
    ensures found <==> exists k :: 0 <= k < |chain| && HasPaginationMarker(chain[k])
  {
    var i := 0;
    while i < |chain|
      invariant 0 <= i <= |chain|
      invariant forall k :: 0 <= k < i ==> !HasPaginationMarker(chain[k])
    {
      var el := chain[i];
      var id := if el.id.Some? then ToLower(el.id.value) else "";
      var classList := if el.classList.Some? then ToLower(el.classList.value) else "";
      if Contains(id, Marker) || Contains(classList, Marker) {
        return true;
      }
      i := i + 1;
    }
    return false;
  }

  /** The structural signal, computed page by page with the ancestor walk. */
  method PassesStructureCheck(pages: seq<PaginationLink>) returns (passes: bool)
    ensures passes <==> exists k :: 0 <= k < |pages| && InPaginationContainer(pages[k].chain)
  {
    for k := 0 to |pages|
      invariant forall j :: 0 <= j < k ==> !InPaginationContainer(pages[j].chain)
    {
      var found := FindPaginationAncestor(pages[k].chain);
      if found {
        return true;
      }
    }
    return false;
  }

  /** For trimmed texts, the text signal holds exactly when some page's
      text is a canonical numeral (digits only, no leading zero) whose value
      is that page's number: "3" passes for page 3, "Page 3" and "03" do
      not. */
  lemma PassesTextMatchIff(pages: seq<PaginationLink>)
    requires forall k :: 0 <= k < |pages| ==> Trim(pages[k].text) == pages[k].text
    ensures PassesTextMatch(pages) <==>
            exists k :: 0 <= k < |pages| && Canonical(pages[k].text)
                        && NumberValue(pages[k].text) == pages[k].pageNumber
  {
    forall k | 0 <= k < |pages|
      ensures pages[k].text == DecimalString(pages[k].pageNumber)
              <==> Canonical(pages[k].text) && NumberValue(pages[k].text) == pages[k].pageNumber
    {
      DecimalStringIff(pages[k].text, pages[k].pageNumber);
    }
  }
}

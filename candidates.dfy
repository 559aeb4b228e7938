/** Candidate extraction and grouping: the anchor loop that turns every digit
    run of every usable link into a URL template, and the insertion-ordered
    map from template to candidates that it fills. */
module Candidates {

  import opened Wrappers
  import opened Text
  import opened DigitScan

  /** The `id` and `class` attributes of one element. */
  datatype Attrs = Attrs(id: Option<string>, classList: Option<string>)

  /** One `<a>` element as the HTML parser presents it: its raw `href`
      attribute, its `innerText`, and the attributes of the element itself
      followed by those of each ancestor up to the root. */
  datatype Anchor = Anchor(href: Option<string>, innerText: string, chain: seq<Attrs>)

  /** One digit run of one link's absolute URL. The element reference is
      kept as the attribute chain it leads to. */
  datatype Candidate = Candidate(template: string, url: string, text: string, pageNum: nat, chain: seq<Attrs>)

  /** Resolution of a raw `href` against the document's base URL, giving the
      serialised absolute URL, or `None` where the href does not parse. */
  type Resolver = string -> Option<string>

  /** `template` and `pageNum` come from the digits `url[start..end]`: they
      form a maximal run, the template is the URL with exactly that run
      replaced by the placeholder, and the page number is the run's value. */
  predicate RunTemplate(template: string, url: string, pageNum: nat, start: nat, end: nat) {
    && MaximalRun(url, Run(start, end))
    && template == url[..start] + Placeholder + url[end..]
    && pageNum == NumberValue(url[start..end])
  }

  predicate FromRun(c: Candidate, start: nat, end: nat) {
    RunTemplate(c.template, c.url, c.pageNum, start, end)
  }

  /** The candidate built for one match (prefix, `{page}`, suffix). */
  function CandidateAt(url: string, text: string, chain: seq<Attrs>, r: Run): Candidate
    requires MaximalRun(url, r)
  {
    var prefix := url[..r.start];
    var number := url[r.start..r.end];
    var suffix := url[r.end..];
    Candidate(prefix + Placeholder + suffix, url, text, NumberValue(number), chain)
  }

  /** One candidate per match of `/\d+/g` in `url`, in match order. */
  function UrlCandidates(url: string, text: string, chain: seq<Attrs>): seq<Candidate> {
    var runs := DigitRuns(url);
    seq(|runs|, k requires 0 <= k < |runs| => CandidateAt(url, text, chain, runs[k]))
  }

  /** What one anchor contributes: nothing without a non-empty `href`, when
      resolution throws, or when the trimmed text has no digit; otherwise
      the candidates of its absolute URL. */
  function AnchorCandidates(a: Anchor, resolve: Resolver): seq<Candidate> {
    if a.href.None? || a.href.value == [] then []
    else
      match resolve(a.href.value)
      case None => []
      case Some(url) =>
        var text := Trim(a.innerText);
        if text == [] || !HasDigit(text) then [] else UrlCandidates(url, text, a.chain)
  }

  /** Every candidate of the document, in anchor order. */
  function AllCandidates(anchors: seq<Anchor>, resolve: Resolver): seq<Candidate>
    decreases |anchors|
  {
    if anchors == [] then []
    else AllCandidates(anchors[..|anchors| - 1], resolve) + AnchorCandidates(anchors[|anchors| - 1], resolve)
  }

  /** The keys of the template map in insertion order. */
  function Templates(cs: seq<Candidate>): seq<string>
    decreases |cs|
  {
    if cs == [] then []
    else
      var ts := Templates(cs[..|cs| - 1]);
      var t := cs[|cs| - 1].template;
      if t in ts then ts else ts + [t]
  }

  /** The value the template map holds for `t`. */
  function GroupOf(cs: seq<Candidate>, t: string): seq<Candidate>
    decreases |cs|
  {
    if cs == [] then []
    else
      var last := cs[|cs| - 1];
      GroupOf(cs[..|cs| - 1], t) + (if last.template == t then [last] else [])
  }

  /** The insertion-ordered map `(order, groups)` is the one the candidates
      `cs` produce. */
  ghost predicate GroupsHold(cs: seq<Candidate>, order: seq<string>, groups: map<string, seq<Candidate>>) {
    && order == Templates(cs)
    && (forall t :: t in groups <==> t in order)
    && (forall t :: t in groups ==> groups[t] == GroupOf(cs, t))
  }

  lemma {:induction false} GroupOfAbsent(cs: seq<Candidate>, t: string)
    requires t !in Templates(cs)
    ensures GroupOf(cs, t) == []
    decreases |cs|
  {
    if cs != [] {
      GroupOfAbsent(cs[..|cs| - 1], t);
    }
  }

  /** Pushing one candidate into the map, after creating its (empty) entry
      when the template is new, keeps the map in step with the candidates. */
  lemma PushKeepsGroups(cs: seq<Candidate>, c: Candidate,
                        order: seq<string>, groups: map<string, seq<Candidate>>,
                        created: map<string, seq<Candidate>>,
                        order': seq<string>, groups': map<string, seq<Candidate>>)
    requires GroupsHold(cs, order, groups)
    requires created == if c.template in groups then groups else groups[c.template := []]
    requires order' == if c.template in groups then order else order + [c.template]
    requires groups' == created[c.template := created[c.template] + [c]]
    ensures GroupsHold(cs + [c], order', groups')
  {
    var cs' := cs + [c];
    assert cs'[..|cs'| - 1] == cs;
    if c.template !in groups {
      GroupOfAbsent(cs, c.template);
    }
  }

  /** The inner loop over the matches of one absolute URL: pushes one
      candidate per digit run into the template map. */
  method PushUrlCandidates(url: string, text: string, chain: seq<Attrs>, ghost before: seq<Candidate>,
                           order0: seq<string>, groups0: map<string, seq<Candidate>>)
    returns (order: seq<string>, groups: map<string, seq<Candidate>>)
    requires GroupsHold(before, order0, groups0)
    ensures GroupsHold(before + UrlCandidates(url, text, chain), order, groups)
  {
    order, groups := order0, groups0;
    var runs := DigitRuns(url);
    ghost var found := UrlCandidates(url, text, chain);
    ghost var done := before;
    assert found[..0] == [];
    for j := 0 to |runs|
      invariant done == before + found[..j]
      invariant GroupsHold(done, order, groups)
    {
      var number := url[runs[j].start..runs[j].end];
      var template := url[..runs[j].start] + Placeholder + url[runs[j].end..];
      var pageNum := NumberValue(number);
      var c := Candidate(template, url, text, pageNum, chain);
      assert found[j] == CandidateAt(url, text, chain, runs[j]) == c;
      assert found[..j + 1] == found[..j] + [found[j]];
      ghost var order1, groups1 := order, groups;
      if template !in groups {
        groups := groups[template := []];
        order := order + [template];
      }
      ghost var created := groups;
      groups := groups[template := groups[template] + [c]];
      PushKeepsGroups(done, c, order1, groups1, created, order, groups);
      done := done + [c];
    }
    assert found[..|runs|] == found;
  }

  /** Collects the template map over all anchors, skipping those without a
      non-empty `href`, those whose `href` does not resolve and those whose
      trimmed text holds no digit. The result is the map of `AllCandidates`. */
  method CollectCandidateGroups(anchors: seq<Anchor>, resolve: Resolver)
    returns (order: seq<string>, groups: map<string, seq<Candidate>>)
    ensures GroupsHold(AllCandidates(anchors, resolve), order, groups)
  {
    order, groups := [], map[];
    for i := 0 to |anchors|
      invariant GroupsHold(AllCandidates(anchors[..i], resolve), order, groups)
    {
      var a := anchors[i];
      ghost var before := AllCandidates(anchors[..i], resolve);
      assert anchors[..i + 1][..i] == anchors[..i];
      assert AllCandidates(anchors[..i + 1], resolve) == before + AnchorCandidates(a, resolve);
      if a.href.Some? && a.href.value != [] {
        var resolved := resolve(a.href.value);
        if resolved.Some? {
          var text := Trim(a.innerText);
          if text != [] && HasDigit(text) {
            order, groups := PushUrlCandidates(resolved.value, text, a.chain, before, order, groups);
          } else {
            assert before + [] == before;
          }
        } else {
          assert before + [] == before;
        }
      } else {
        assert before + [] == before;
      }
    }
    assert anchors[..|anchors|] == anchors;
  }

  /** Which anchors contribute nothing, and what the others contribute: one
      candidate per maximal digit run of the absolute URL, in the runs'
      left-to-right order, each carrying the URL, the trimmed text and the
      element's attribute chain. */
  lemma AnchorCandidatesSpec(a: Anchor, resolve: Resolver)
    ensures a.href.None? || a.href.value == [] || resolve(a.href.value).None?
            || Trim(a.innerText) == [] || !HasDigit(Trim(a.innerText))
            ==> AnchorCandidates(a, resolve) == []
    ensures a.href.Some? && a.href.value != [] && resolve(a.href.value).Some?
            && HasDigit(Trim(a.innerText))
            ==> var url := resolve(a.href.value).value;
                var runs := DigitRuns(url);
                var cs := AnchorCandidates(a, resolve);
                && |cs| == |runs|
                && forall k :: 0 <= k < |cs| ==>
                     && FromRun(cs[k], runs[k].start, runs[k].end)
                     && cs[k].url == url && cs[k].text == Trim(a.innerText) && cs[k].chain == a.chain
  {
  }

  /** What every extracted candidate satisfies: it comes from one maximal
      digit run of its URL, and its text is trimmed and holds a digit. */
  ghost predicate WellFormed(c: Candidate) {
    && (exists start, end :: FromRun(c, start, end))
    && Trim(c.text) == c.text
    && HasDigit(c.text)
  }

  lemma {:induction false} AllCandidatesWellFormed(anchors: seq<Anchor>, resolve: Resolver)
    ensures forall c :: c in AllCandidates(anchors, resolve) ==> WellFormed(c)
    decreases |anchors|
  {
    if anchors != [] {
      var a := anchors[|anchors| - 1];
      AllCandidatesWellFormed(anchors[..|anchors| - 1], resolve);
      AnchorCandidatesSpec(a, resolve);
      TrimIdempotent(a.innerText);
      var cs := AnchorCandidates(a, resolve);
      forall c | c in cs
        ensures WellFormed(c)
      {
        var url := resolve(a.href.value).value;
        var runs := DigitRuns(url);
        var k :| 0 <= k < |cs| && cs[k] == c;
        assert FromRun(c, runs[k].start, runs[k].end);
      }
    }
  }

  lemma PlaceholderAt(c: Candidate, start: nat, end: nat)
    requires FromRun(c, start, end)
    ensures start < |c.template| && c.template[start] == '{' && IsDigit(c.url[start])
  {
  }

  lemma PrefixKept(c: Candidate, start: nat, end: nat, i: nat)
    requires FromRun(c, start, end) && i < start
    ensures c.template[i] == c.url[i]
  {
  }

  /** Within one template, the URL fixes the digit run and so the page
      number: the placeholder sits where the first digit of the run was. */
  lemma SameUrlSamePage(c1: Candidate, s1: nat, e1: nat, c2: Candidate, s2: nat, e2: nat)
    requires FromRun(c1, s1, e1) && FromRun(c2, s2, e2)
    requires c1.url == c2.url && c1.template == c2.template
    ensures s1 == s2 && e1 == e2 && c1.pageNum == c2.pageNum
  {
    // Where one template has the placeholder's '{', the other would still
    // have the digit that opens its run.
    if s1 < s2 {
      PlaceholderAt(c1, s1, e1);
      PrefixKept(c2, s2, e2, s1);
      assert false;
    } else if s2 < s1 {
      PlaceholderAt(c2, s2, e2);
      PrefixKept(c1, s1, e1, s2);
      assert false;
    }
    assert |c1.template| == |c1.url| - (e1 - s1) + |Placeholder|;
  }

  /** A template is a key exactly when some candidate has it, and no key is
      repeated. */
  lemma {:induction false} TemplatesSpec(cs: seq<Candidate>)
    ensures forall t :: t in Templates(cs) <==> exists k :: 0 <= k < |cs| && cs[k].template == t
    ensures forall a, b :: 0 <= a < b < |Templates(cs)| ==> Templates(cs)[a] != Templates(cs)[b]
    decreases |cs|
  {
    if cs != [] {
      var init := cs[..|cs| - 1];
      TemplatesSpec(init);
      forall t | t in Templates(cs)
        ensures exists k :: 0 <= k < |cs| && cs[k].template == t
      {
        if t in Templates(init) {
          var k :| 0 <= k < |init| && init[k].template == t;
          assert cs[k].template == t;
        }
      }
      forall t | exists k :: 0 <= k < |cs| && cs[k].template == t
        ensures t in Templates(cs)
      {
        var k :| 0 <= k < |cs| && cs[k].template == t;
        if k < |init| {
          assert init[k].template == t;
        }
      }
    }
  }

  /** Keys keep their first-seen order: the keys of any prefix of the
      candidates are a prefix of the keys of all of them. */
  lemma {:induction false} TemplatesPrefix(cs: seq<Candidate>, n: nat)
    requires n <= |cs|
    ensures Templates(cs[..n]) <= Templates(cs)
    decreases |cs| - n
  {
    if n < |cs| {
      TemplatesPrefix(cs, n + 1);
      assert cs[..n + 1][..n] == cs[..n];
    } else {
      assert cs[..n] == cs;
    }
  }

  /** The group of `t` holds exactly the candidates whose template is `t`. */
  lemma {:induction false} GroupOfMembers(cs: seq<Candidate>, t: string)
    ensures forall c :: c in GroupOf(cs, t) <==> c in cs && c.template == t
    decreases |cs|
  {
    if cs != [] {
      var init := cs[..|cs| - 1];
      GroupOfMembers(init, t);
      assert cs == init + [cs[|cs| - 1]];
    }
  }
}

/**
  The problem catalogue as the problem-set page and the custom-contest page build it from the
  judge's `problemset.problems` answer: the first 50 problems, each with its canonical URL and
  a tag list that defaults to empty; the distinct tags for the tag picker; and the tag filter.
 */
module Catalogue {

  import opened Seqs
  import opened Identity

  /** A problem as the judge's problem-set call returns it; `tags` may be missing. */
  datatype ApiProblem = ApiProblem(contestId: nat, index: string, name: string, tags: Option<seq<string>>)

  /** A catalogue entry as the pages keep it. */
  datatype Problem = Problem(name: string, contestId: nat, index: string, tags: seq<string>, url: string)

  /** Only this many problems of the judge's answer are kept. */
  const CatalogueLimit := 50

  /** One catalogue entry: the judge's fields, tags defaulting to `[]`, and the problem's URL. */
  function Shape(a: ApiProblem): (p: Problem)
    ensures p.name == a.name && p.contestId == a.contestId && p.index == a.index
    ensures p.tags == a.tags.GetOr([])
    ensures p.url == ProblemUrl(a.contestId, a.index)
  {
    Problem(a.name, a.contestId, a.index, a.tags.GetOr([]), ProblemUrl(a.contestId, a.index))
  }

  /** `problems.slice(0, 50).map(...)`: the shaped prefix of at most 50 problems. */
  function Catalogue(raw: seq<ApiProblem>): (r: seq<Problem>)
    ensures |r| <= CatalogueLimit
    ensures |r| == if |raw| < CatalogueLimit then |raw| else CatalogueLimit
    ensures forall k :: 0 <= k < |r| ==> r[k] == Shape(raw[k])
  {
    var kept := if |raw| < CatalogueLimit then raw else raw[..CatalogueLimit];
    seq(|kept|, k requires 0 <= k < |kept| => Shape(kept[k]))
  }

  /** The judge problem each entry was shaped from, as a (contest, index) pair. */
  function IdentityOf(a: ApiProblem): (nat, string) {
    (a.contestId, a.index)
  }

  function UrlOf(p: Problem): string {
    p.url
  }

  /**
    Every catalogue URL names, through the scoring page's matcher, exactly the judge problem it
    was built from; and when the judge listed distinct problems their URLs are distinct.
   */
  lemma CatalogueIdentifies(raw: seq<ApiProblem>)
    requires forall k :: 0 <= k < |raw| ==> '/' !in raw[k].index
    ensures forall k, c, i :: 0 <= k < |Catalogue(raw)| ==>
      (UrlNames(Catalogue(raw)[k].url, c, i) <==> c == raw[k].contestId && i == raw[k].index)
    ensures NoDupBy(IdentityOf, raw) ==> NoDupBy(UrlOf, Catalogue(raw))
  {
    var r := Catalogue(raw);
    forall k, c, i | 0 <= k < |r|
      ensures UrlNames(r[k].url, c, i) <==> c == raw[k].contestId && i == raw[k].index
    {
      UrlNamesRoundTrip(raw[k].contestId, raw[k].index, c, i);
    }
    if NoDupBy(IdentityOf, raw) {
      forall k, l | 0 <= k < l < |r|
        ensures UrlOf(r[k]) != UrlOf(r[l])
      {
        if r[k].url == r[l].url {
          ProblemUrlInjective(raw[k].contestId, raw[k].index, raw[l].contestId, raw[l].index);
        }
      }
    }
  }

  /** `problems.flatMap(p => p.tags)`. */
  function AllTags(ps: seq<Problem>): (r: seq<string>)
    ensures forall k, t :: 0 <= k < |ps| && t in ps[k].tags ==> t in r
    ensures forall t :: t in r ==> exists k :: 0 <= k < |ps| && t in ps[k].tags
  {
    var lists := seq(|ps|, k requires 0 <= k < |ps| => ps[k].tags);
    assert forall k :: 0 <= k < |ps| ==> lists[k] == ps[k].tags;
    Flatten(lists)
  }

  /**
    `[...new Set(problems.flatMap(p => p.tags))]`: every tag of every problem, each once, in
    order of first appearance.
   */
  function UniqueTags(ps: seq<Problem>): (r: seq<string>)
    ensures NoDup(r)
    ensures forall k, t :: 0 <= k < |ps| && t in ps[k].tags ==> t in r
    ensures forall t :: t in r ==> exists k :: 0 <= k < |ps| && t in ps[k].tags
    ensures forall i, j :: 0 <= i < j < |r| ==> FirstSeenBefore(AllTags(ps), r[i], r[j])
  {
    FirstOccurrences(AllTags(ps))
  }

  /** The test a problem passes under a selected tag. */
  function HasTag(tag: string): Problem -> bool {
    (p: Problem) => tag in p.tags
  }

  /**
    The tag picker: the empty choice ("All Tags") keeps the whole catalogue, any other tag keeps
    exactly the problems listing it.
   */
  function FilterByTag(ps: seq<Problem>, tag: string): (r: seq<Problem>)
    ensures tag == "" ==> r == ps
    ensures tag != "" ==> forall p :: p in r <==> p in ps && tag in p.tags
    ensures |r| <= |ps|
  {
    if tag == "" then ps else Filter(HasTag(tag), ps)
  }

  /** Filtering by tag keeps the catalogue's order: it distributes over concatenation. */
  lemma FilterByTagKeepsOrder(a: seq<Problem>, b: seq<Problem>, tag: string)
    ensures FilterByTag(a + b, tag) == FilterByTag(a, tag) + FilterByTag(b, tag)
  {
    if tag != "" {
      FilterAppend(HasTag(tag), a, b);
    }
  }
}

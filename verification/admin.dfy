/**
  The contest-authoring page: a catalogue of judge problems kept with their own fields, a
  selection held as a set of `contestId-index` keys with no size limit, the tag picker, the
  contest document assembled from the form and the selection, and the reset after a
  successful submission.
 */
module Admin {

  import opened Seqs
  import opened Identity
  import opened Catalogue
  import opened Roster

  /** A judge problem kept as returned, plus its URL; `tags` stays missing when the judge omits it. */
  datatype AdminProblem = AdminProblem(contestId: nat, index: string, name: string, tags: Option<seq<string>>, url: string)

  /** `problems.slice(0, 50).map(problem => ({...problem, url}))`. */
  function AdminCatalogue(raw: seq<ApiProblem>): (r: seq<AdminProblem>)
    ensures |r| == if |raw| < CatalogueLimit then |raw| else CatalogueLimit
    ensures forall k :: 0 <= k < |r| ==>
      && r[k].contestId == raw[k].contestId && r[k].index == raw[k].index
      && r[k].name == raw[k].name && r[k].tags == raw[k].tags
      && r[k].url == ProblemUrl(raw[k].contestId, raw[k].index)
  {
    var kept := if |raw| < CatalogueLimit then raw else raw[..CatalogueLimit];
    seq(|kept|, k requires 0 <= k < |kept| =>
      AdminProblem(kept[k].contestId, kept[k].index, kept[k].name, kept[k].tags,
                   ProblemUrl(kept[k].contestId, kept[k].index)))
  }

  /** The selection key of a problem. */
  function KeyOf(p: AdminProblem): string {
    ProblemKey(p.contestId, p.index)
  }

  /** Clicking a problem's checkbox: its key leaves the selection if present, joins it otherwise. */
  function ToggleKey(sel: set<string>, p: AdminProblem): (r: set<string>)
    ensures KeyOf(p) in r <==> KeyOf(p) !in sel
    ensures forall k :: k != KeyOf(p) ==> (k in r <==> k in sel)
    ensures KeyOf(p) !in sel ==> |r| == |sel| + 1
    ensures KeyOf(p) in sel ==> |r| == |sel| - 1
  {
    var key := KeyOf(p);
    if key in sel then sel - {key} else sel + {key}
  }

  /** Clicking the same problem twice restores the selection, whatever its size. */
  lemma ToggleKeyTwice(sel: set<string>, p: AdminProblem)
    ensures ToggleKey(ToggleKey(sel, p), p) == sel
  {
  }

  /** Two problems toggle the same key only when they are the same judge problem. */
  lemma ToggleKeyIsPerProblem(sel: set<string>, p: AdminProblem, q: AdminProblem)
    requires p.contestId != q.contestId || p.index != q.index
    ensures KeyOf(q) in ToggleKey(sel, p) <==> KeyOf(q) in sel
  {
    if KeyOf(q) == KeyOf(p) {
      ProblemKeyInjective(p.contestId, p.index, q.contestId, q.index);
    }
  }

  /**
    `problems.filter(problem => !tag || problem.tags.includes(tag))`. With a tag chosen, a
    problem whose `tags` is missing makes `includes` throw, so no list is produced (`None`).
   */
  function AdminFilter(ps: seq<AdminProblem>, tag: string): (r: Option<seq<AdminProblem>>)
    ensures tag == "" ==> r == Some(ps)
    ensures r.None? <==> tag != "" && exists k :: 0 <= k < |ps| && ps[k].tags.None?
    ensures r.Some? && tag != "" ==> forall p :: p in r.value <==> p in ps && tag in p.tags.value
    ensures r.Some? && tag != "" ==> r.value == Filter(Tagged(tag), ps)
  {
    if tag == "" then Some(ps)
    else
      var r := FilterTagged(ps, tag);
      if r.Some? then FilterTaggedIsFilter(ps, tag); r else r
  }

  /** The test a problem with `tags` passes under a chosen tag. */
  function Tagged(tag: string): AdminProblem -> bool {
    (p: AdminProblem) => p.tags.Some? && tag in p.tags.value
  }

  /** The filter with a tag chosen, failing at the first problem without tags. */
  function FilterTagged(ps: seq<AdminProblem>, tag: string): (r: Option<seq<AdminProblem>>)
    ensures r.None? <==> exists k :: 0 <= k < |ps| && ps[k].tags.None?
    ensures r.Some? ==> forall p :: p in r.value <==> p in ps && tag in p.tags.value
    ensures r.Some? ==> |r.value| <= |ps|
  {
    if |ps| == 0 then Some([])
    else if ps[0].tags.None? then None
    else match FilterTagged(ps[1..], tag)
      case None =>
        assert forall k :: 1 <= k < |ps| ==> ps[k] == ps[1..][k - 1];
        None
      case Some(rest) =>
        assert forall k :: 1 <= k < |ps| ==> ps[k] == ps[1..][k - 1];
        assert ps == [ps[0]] + ps[1..];
        Some(if tag in ps[0].tags.value then [ps[0]] + rest else rest)
  }

  /**
    When no problem lacks `tags`, the tagged filter is the ordinary order-keeping filter: the
    kept problems appear once each, in catalogue order.
   */
  lemma {:induction false} FilterTaggedIsFilter(ps: seq<AdminProblem>, tag: string)
    requires FilterTagged(ps, tag).Some?
    ensures FilterTagged(ps, tag).value == Filter(Tagged(tag), ps)
  {
    if |ps| > 0 {
      FilterTaggedIsFilter(ps[1..], tag);
    }
  }

  /** With a tag chosen, filtering the concatenation of two lists filters each and keeps them in order. */
  lemma AdminFilterKeepsOrder(a: seq<AdminProblem>, b: seq<AdminProblem>, tag: string)
    requires AdminFilter(a + b, tag).Some?
    ensures AdminFilter(a, tag).Some? && AdminFilter(b, tag).Some?
    ensures AdminFilter(a + b, tag).value == AdminFilter(a, tag).value + AdminFilter(b, tag).value
  {
    if tag != "" {
      assert forall k :: 0 <= k < |a| ==> a[k] == (a + b)[k];
      assert forall k :: 0 <= k < |b| ==> b[k] == (a + b)[|a| + k];
      FilterAppend(Tagged(tag), a, b);
    }
  }

  /** A tag as the picker lists it: a missing `tags` field contributes JavaScript's `undefined` (`None`). */
  function TagEntries(p: AdminProblem): (r: seq<Option<string>>)
    ensures p.tags.None? ==> r == [None]
    ensures p.tags.Some? ==> forall x :: x in r <==> x.Some? && x.value in p.tags.value
  {
    match p.tags
    case None => [None]
    case Some(ts) =>
      var r := seq(|ts|, j requires 0 <= j < |ts| => Some(ts[j]));
      forall t | t in ts
        ensures Some(t) in r
      {
        var j :| 0 <= j < |ts| && ts[j] == t;
        assert r[j] == Some(t);
      }
      r
  }

  /**
    `[...new Set(problems.flatMap(problem => problem.tags))]`: the tags of all problems, each
    once, in order of first appearance; a problem without tags contributes `undefined`.
   */
  function AdminTags(ps: seq<AdminProblem>): (r: seq<Option<string>>)
    ensures NoDup(r)
    ensures forall k, t :: 0 <= k < |ps| && ps[k].tags.Some? && t in ps[k].tags.value ==> Some(t) in r
    ensures forall k :: 0 <= k < |ps| && ps[k].tags.None? ==> None in r
    ensures forall x :: x in r ==> exists k :: 0 <= k < |ps| && x in TagEntries(ps[k])
    ensures forall i, j :: 0 <= i < j < |r| ==> FirstSeenBefore(TagStream(ps), r[i], r[j])
  {
    FirstOccurrences(TagStream(ps))
  }

  /** `problems.flatMap(problem => problem.tags)`: every problem's entries, problem after problem. */
  function TagStream(ps: seq<AdminProblem>): (r: seq<Option<string>>)
    ensures forall k, x :: 0 <= k < |ps| && x in TagEntries(ps[k]) ==> x in r
    ensures forall x :: x in r ==> exists k :: 0 <= k < |ps| && x in TagEntries(ps[k])
  {
    var lists := seq(|ps|, k requires 0 <= k < |ps| => TagEntries(ps[k]));
    assert forall k :: 0 <= k < |ps| ==> lists[k] == TagEntries(ps[k]);
    Flatten(lists)
  }

  /** The author address the form is pre-filled with (read-only on the page). */
  const DefaultAuthorEmail := "madhava2807@gmail.com"

  /** The contest form; `link` is set only on the document that is submitted. */
  datatype ContestForm = ContestForm(
    name: string,
    author: string,
    authoremail: string,
    aim: string,
    startDate: string,
    startTime: string,
    endTime: string,
    problems: seq<AdminProblem>,
    participants: seq<Participant>,
    id: string,
    link: Option<string>)

  /** The form as the page opens it (and resets it to), under a freshly generated `id`. */
  function BlankForm(id: string): ContestForm {
    ContestForm("", "", DefaultAuthorEmail, "", "", "", "", [], [], id, None)
  }

  function IsKeySelected(sel: set<string>): AdminProblem -> bool {
    (p: AdminProblem) => KeyOf(p) in sel
  }

  /**
    `finalContest`: the form with its problems replaced by the catalogue problems whose key is
    selected, and the link `/contest/{id}`; every other field is the form's.
   */
  function FinalContest(form: ContestForm, catalogue: seq<AdminProblem>, sel: set<string>): (c: ContestForm)
    ensures forall p :: p in c.problems <==> p in catalogue && KeyOf(p) in sel
    ensures |c.problems| <= |catalogue|
    ensures c.link == Some("/contest/" + form.id)
    ensures c.(problems := form.problems, link := form.link) == form
  {
    form.(problems := Filter(IsKeySelected(sel), catalogue), link := Some("/contest/" + form.id))
  }

  /** The submitted problems appear in catalogue order: selection filtering distributes over concatenation. */
  lemma FinalContestKeepsOrder(form: ContestForm, a: seq<AdminProblem>, b: seq<AdminProblem>, sel: set<string>)
    ensures FinalContest(form, a + b, sel).problems
         == FinalContest(form, a, sel).problems + FinalContest(form, b, sel).problems
  {
    FilterAppend(IsKeySelected(sel), a, b);
  }

  /** Everything the page holds. */
  datatype PageState = PageState(form: ContestForm, catalogue: seq<AdminProblem>, selected: set<string>, tag: string)

  /**
    After the server answers a submission: on success the form is blank again under `freshId`
    and nothing is selected; on failure nothing changes. The catalogue and tag are kept.
   */
  function AfterSubmit(s: PageState, succeeded: bool, freshId: string): (r: PageState)
    ensures !succeeded ==> r == s
    ensures succeeded ==> r.selected == {} && r.form == BlankForm(freshId)
    ensures r.catalogue == s.catalogue && r.tag == s.tag
  {
    if succeeded then s.(form := BlankForm(freshId), selected := {}) else s
  }

  /** After a successful submission the next contest document starts with no problems. */
  lemma SubmitClearsNextContest(s: PageState, freshId: string)
    ensures var r := AfterSubmit(s, true, freshId);
      FinalContest(r.form, r.catalogue, r.selected).problems == []
  {
    var r := AfterSubmit(s, true, freshId);
    FilterKeepsNone(IsKeySelected(r.selected), r.catalogue);
  }
}

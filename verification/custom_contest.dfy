/**
  The custom-contest page: picking at most seven catalogue problems (a selection keyed by
  problem URL) and the checks made before a private contest is created from the picks.
 */
module CustomContest {

  import opened Seqs
  import opened Text
  import opened Catalogue
  import opened Roster

  /** A custom contest holds at most this many problems. */
  const MaxSelection := 7

  /** `selected.some(p => p.url === url)`. */
  predicate IsSelected(sel: seq<Problem>, url: string) {
    exists q :: q in sel && q.url == url
  }

  /** The test a selected problem passes when the problem at `url` is deselected. */
  function OtherUrl(url: string): Problem -> bool {
    (q: Problem) => q.url != url
  }

  /**
    Clicking a problem's checkbox: a selected URL is dropped (every entry with it); an unselected
    problem is appended unless seven are already chosen, in which case nothing changes.
   */
  function Toggle(sel: seq<Problem>, p: Problem): (r: seq<Problem>)
    ensures IsSelected(sel, p.url) ==> !IsSelected(r, p.url)
    ensures IsSelected(sel, p.url) ==> forall q :: q in r <==> q in sel && q.url != p.url
    ensures !IsSelected(sel, p.url) && |sel| >= MaxSelection ==> r == sel
    ensures !IsSelected(sel, p.url) && |sel| < MaxSelection ==> r == sel + [p]
    ensures |sel| <= MaxSelection ==> |r| <= MaxSelection
    ensures NoDupBy(UrlOf, sel) ==> NoDupBy(UrlOf, r)
  {
    if IsSelected(sel, p.url) then
      var r := Filter(OtherUrl(p.url), sel);
      DeselectKeepsUrlsDistinct(sel, p.url);
      r
    else if |sel| >= MaxSelection then sel
    else
      assert forall k :: 0 <= k < |sel| ==> sel[k] in sel;
      sel + [p]
  }

  /** Helper for `Toggle`: deselecting keeps the remaining URLs distinct. */
  lemma DeselectKeepsUrlsDistinct(sel: seq<Problem>, url: string)
    ensures NoDupBy(UrlOf, sel) ==> NoDupBy(UrlOf, Filter(OtherUrl(url), sel))
  {
    if NoDupBy(UrlOf, sel) {
      FilterKeepsDistinctKeys(OtherUrl(url), UrlOf, sel);
    }
  }

  /** Deselecting keeps the other picks in their order: it distributes over concatenation. */
  lemma DeselectKeepsOrder(a: seq<Problem>, b: seq<Problem>, p: Problem)
    requires IsSelected(a + b, p.url)
    ensures Toggle(a + b, p) == Filter(OtherUrl(p.url), a) + Filter(OtherUrl(p.url), b)
  {
    FilterAppend(OtherUrl(p.url), a, b);
  }

  /** Picking an unselected problem and then clicking it again restores the selection. */
  lemma ToggleTwice(sel: seq<Problem>, p: Problem)
    requires !IsSelected(sel, p.url) && |sel| < MaxSelection
    ensures Toggle(Toggle(sel, p), p) == sel
  {
    var once := Toggle(sel, p);
    assert once == sel + [p];
    assert p in once;
    FilterAppend(OtherUrl(p.url), sel, [p]);
    assert Filter(OtherUrl(p.url), [p]) == [];
    forall k | 0 <= k < |sel|
      ensures OtherUrl(p.url)(sel[k])
    {
      assert sel[k] in sel;
    }
    FilterKeepsAll(OtherUrl(p.url), sel);
  }

  /** Why a contest could not be started. */
  datatype StartError = BlankName | NoProblemsSelected | MissingDateOrTime

  /** The private contest document sent to the server. */
  datatype NewContest = NewContest(
    name: string,
    organizer: Option<string>,
    email: Option<string>,
    contestId: string,
    problems: seq<Problem>,
    startTime: string,
    endTime: string,
    contestDate: string,
    participants: seq<Participant>)

  /**
    The "Create Contest" checks, in order: a name that is not blank once trimmed, at least one
    problem, and a date, start time and end time. Only then is a contest built, with the name as
    typed, the picks, and nobody registered. `contestId` is the freshly generated identifier.
   */
  function StartContest(
    name: string, sel: seq<Problem>, contestDate: string, startTime: string, endTime: string,
    organizer: Option<string>, email: Option<string>, contestId: string): (r: Result<NewContest, StartError>)
    ensures r == Err(BlankName) <==> IsBlank(name)
    ensures r == Err(NoProblemsSelected) <==> !IsBlank(name) && |sel| == 0
    ensures r == Err(MissingDateOrTime) <==>
      !IsBlank(name) && |sel| > 0 && (contestDate == "" || startTime == "" || endTime == "")
    ensures r.Ok? ==> r.value.name == name && r.value.problems == sel && r.value.participants == []
    ensures r.Ok? ==> r.value.contestDate == contestDate && r.value.startTime == startTime && r.value.endTime == endTime
    ensures r.Ok? ==> r.value.contestId == contestId && r.value.organizer == organizer && r.value.email == email
  {
    if Trim(name) == "" then Err(BlankName)
    else if |sel| == 0 then Err(NoProblemsSelected)
    else if contestDate == "" || startTime == "" || endTime == "" then Err(MissingDateOrTime)
    else Ok(NewContest(name, organizer, email, contestId, sel, startTime, endTime, contestDate, []))
  }
}

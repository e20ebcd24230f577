/**
  The contests page: which published contests are listed (upcoming or running) and which of
  them carry the "Live Now" badge. Instants are integers (seconds); a contest's start and end
  are both placed on its single `startDate`, at its start and end time of day.
 */
module Listing {

  import opened Seqs
  import opened Clock

  /** A published contest as far as listing is concerned. */
  datatype Contest = Contest(name: string, start: int, end: int)

  /** The badge shown on a listed contest. */
  datatype Badge = LiveNow | Upcoming

  /** The predicate the page filters the fetched contests with. */
  predicate IsListed(c: Contest, now: int) {
    c.start > now || (now >= c.start && now < c.end)
  }

  /** `isOngoing`: the contest has started and not yet ended. */
  predicate IsOngoing(c: Contest, now: int) {
    now >= c.start && now < c.end
  }

  /** The badge the page renders for a contest at instant `now`. */
  function BadgeOf(c: Contest, now: int): Badge {
    if IsOngoing(c, now) then LiveNow else Upcoming
  }

  /**
    Listing and badge at one instant: a contest is dropped exactly when it has started and its
    end is not after `now`; otherwise it is "Live Now" while running and "Upcoming" before it starts.
   */
  function Classify(c: Contest, now: int): (r: Option<Badge>)
    ensures r.None? <==> now >= c.start && now >= c.end
    ensures r == Some(LiveNow) <==> c.start <= now < c.end
    ensures r == Some(Upcoming) <==> now < c.start
  {
    if IsListed(c, now) then Some(BadgeOf(c, now)) else None
  }

  function ListedAt(now: int): Contest -> bool {
    (c: Contest) => IsListed(c, now)
  }

  /** `data.filter(...)`: the contests still worth showing, in the order fetched. */
  function ListContests(cs: seq<Contest>, now: int): (r: seq<Contest>)
    ensures forall c :: c in r <==> c in cs && (now < c.start || now < c.end)
    ensures |r| <= |cs|
  {
    Filter(ListedAt(now), cs)
  }

  /** Listing keeps the fetched order: it distributes over concatenation. */
  lemma ListContestsKeepsOrder(a: seq<Contest>, b: seq<Contest>, now: int)
    ensures ListContests(a + b, now) == ListContests(a, now) + ListContests(b, now)
  {
    FilterAppend(ListedAt(now), a, b);
  }

  /**
    Listed at the instant the list was fetched, each contest gets exactly one badge at the same
    instant: "Live Now" if running, "Upcoming" if not yet started.
   */
  lemma BadgesOfListed(cs: seq<Contest>, now: int)
    ensures forall c :: c in ListContests(cs, now) ==>
      (BadgeOf(c, now) == LiveNow <==> c.start <= now < c.end) &&
      (BadgeOf(c, now) == Upcoming <==> now < c.start)
  {
  }

  /**
    The page reads the clock twice, once when filtering and once when rendering. A contest that
    was running when fetched and has ended by the time it is drawn is badged "Upcoming".
   */
  lemma EndedBeforeRenderShowsUpcoming(c: Contest, fetchedAt: int, renderedAt: int)
    requires IsOngoing(c, fetchedAt) && renderedAt >= c.end
    ensures c in ListContests([c], fetchedAt)
    ensures BadgeOf(c, renderedAt) == Upcoming
  {
  }

  /**
    A contest entered as one date plus a start and an end time of day (minutes after
    midnight, both below 24 hours): both instants lie on that date.
   */
  function Scheduled(name: string, dayStart: int, startMinute: nat, endMinute: nat): (c: Contest)
    requires startMinute < 1440 && endMinute < 1440
    ensures dayStart <= c.start < dayStart + SecondsPerDay
    ensures dayStart <= c.end < dayStart + SecondsPerDay
    ensures c.end - c.start == (endMinute - startMinute) * SecondsPerMinute
  {
    Contest(name, dayStart + startMinute * SecondsPerMinute, dayStart + endMinute * SecondsPerMinute)
  }

  /**
    An end time not later than the start time (say a contest meant to run past midnight) gives
    a contest that is never live: it is listed as upcoming until it starts, then dropped.
   */
  lemma EndNotAfterStartNeverLive(name: string, dayStart: int, startMinute: nat, endMinute: nat, now: int)
    requires startMinute < 1440 && endMinute < 1440
    requires endMinute <= startMinute
    ensures Classify(Scheduled(name, dayStart, startMinute, endMinute), now) != Some(LiveNow)
    ensures Classify(Scheduled(name, dayStart, startMinute, endMinute), now).Some?
        <==> now < Scheduled(name, dayStart, startMinute, endMinute).start
  {
  }
}

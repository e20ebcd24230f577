/**
  Problem identity on the judge: the pair (contest number, problem index), and the two
  strings the application derives from it — the `contestId-index` selection key and the
  canonical problem URL — together with the URL matcher that reads the pair back.
 */
module Identity {

  import opened Seqs
  import opened Text

  /** The judge's problem pages live under this path; the URL ends in `/{contestId}/{index}`. */
  const ProblemUrlBase := "https://codeforces.com/problemset/problem"

  /** `${contestId}-${index}`: the key under which a problem is selected or counted as solved. */
  function ProblemKey(contestId: nat, index: string): (k: string)
    ensures |k| > 0 && IsDigit(k[0]) && k[0] == NatToString(contestId)[0]
  {
    NatToString(contestId) + "-" + index
  }

  /** Different problems never share a key, whatever their indices contain. */
  lemma ProblemKeyInjective(c1: nat, i1: string, c2: nat, i2: string)
    requires ProblemKey(c1, i1) == ProblemKey(c2, i2)
    ensures c1 == c2 && i1 == i2
  {
    assert '-' !in NatToString(c1) && '-' !in NatToString(c2);
    SeparatedInjective(NatToString(c1), i1, NatToString(c2), i2, '-');
    NatToStringInjective(c1, c2);
  }

  /** `https://codeforces.com/problemset/problem/${contestId}/${index}`. */
  function ProblemUrl(contestId: nat, index: string): (url: string)
    ensures |url| > |ProblemUrlBase| + 1 && url[..|ProblemUrlBase| + 1] == ProblemUrlBase + "/"
  {
    ProblemUrlBase + "/" + NatToString(contestId) + "/" + index
  }

  /** Different problems never share a URL, so a URL-keyed selection is keyed by problem identity. */
  lemma ProblemUrlInjective(c1: nat, i1: string, c2: nat, i2: string)
    requires ProblemUrl(c1, i1) == ProblemUrl(c2, i2)
    ensures c1 == c2 && i1 == i2
  {
    var head := ProblemUrlBase + "/";
    var u1 := ProblemUrl(c1, i1);
    assert u1 == head + (NatToString(c1) + "/" + i1);
    assert ProblemUrl(c2, i2) == head + (NatToString(c2) + "/" + i2);
    assert u1[|head|..] == NatToString(c1) + "/" + i1;
    assert '/' !in NatToString(c1) && '/' !in NatToString(c2);
    SeparatedInjective(NatToString(c1), i1, NatToString(c2), i2, '/');
    NatToStringInjective(c1, c2);
  }

  /**
    Whether a stored problem URL names the judge problem (`contestId`, `index`): the URL is
    split on `/`, the second-to-last piece is read with `parseInt` and the last piece is
    compared verbatim. A URL with fewer than two pieces names nothing.
   */
  predicate UrlNames(url: string, contestId: nat, index: string) {
    var pieces := Split(url, '/');
    && |pieces| >= 2
    && ParseLeadingInt(pieces[|pieces| - 2]) == Some(contestId)
    && pieces[|pieces| - 1] == index
  }

  /** Reading a canonical URL back yields exactly the problem it was built from. */
  lemma {:induction false} UrlNamesRoundTrip(contestId: nat, index: string, c: nat, i: string)
    requires '/' !in index
    ensures UrlNames(ProblemUrl(contestId, index), c, i) <==> c == contestId && i == index
  {
    var digits := NatToString(contestId);
    assert '/' !in digits;
    var url := ProblemUrl(contestId, index);
    assert url == (ProblemUrlBase + [('/')] + digits) + ['/'] + index;
    SplitLastPiece(ProblemUrlBase + [('/')] + digits, '/', index);
    SplitLastPiece(ProblemUrlBase, '/', digits);
    var pieces := Split(url, '/');
    assert pieces == Split(ProblemUrlBase, '/') + [digits] + [index];
    assert pieces[|pieces| - 2] == digits;
    assert pieces[|pieces| - 1] == index;
  }
}

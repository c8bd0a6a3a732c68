/** The URL rewriting of the client's API layer (src/api/pollApi.ts): avatar
    paths served by the backend are turned into absolute URLs, in the
    voters of public results and in the user records. */
module ClientApi {
  import opened Base
  import opened ApiTypes

  const ApiBaseUrl: string := "http://localhost:8000"
  const HttpScheme: string := "http://"
  const HttpsScheme: string := "https://"

  predicate IsAbsolute(path: string) {
    StartsWith(path, HttpScheme) || StartsWith(path, HttpsScheme)
  }

  /** `absoluteUrl`; a JavaScript null, undefined or empty string is None. */
  function AbsoluteUrl(path: Option<string>): Option<string> {
    if path.None? || path.value == "" then None
    else if IsAbsolute(path.value) then path
    else Some(ApiBaseUrl + path.value)
  }

  lemma BaseUrlIsAbsolute(path: string)
    ensures IsAbsolute(ApiBaseUrl + path)
  {
    assert (ApiBaseUrl + path)[..|HttpScheme|] == HttpScheme;
  }

  /** `absoluteUrl` gives nothing for a missing or empty path, keeps an
      http or https URL, prefixes the backend's address to anything else,
      so that every URL it gives is absolute and a second application
      changes nothing. */
  lemma AbsoluteUrlSpec(path: Option<string>)
    ensures AbsoluteUrl(path).None? <==> path.None? || path.value == ""
    ensures path.Some? && IsAbsolute(path.value) ==> AbsoluteUrl(path) == path
    ensures path.Some? && path.value != "" && !IsAbsolute(path.value) ==>
      AbsoluteUrl(path) == Some(ApiBaseUrl + path.value)
    ensures AbsoluteUrl(path).Some? ==> IsAbsolute(AbsoluteUrl(path).value)
    ensures AbsoluteUrl(AbsoluteUrl(path)) == AbsoluteUrl(path)
  {
    if path.Some? && path.value != "" && !IsAbsolute(path.value) {
      BaseUrlIsAbsolute(path.value);
    }
  }

  /** The mapping of one voter: `avatarUrl: absoluteUrl(voter.avatarUrl) ?? undefined`. */
  function RewriteVoter(v: Voter): Voter {
    v.(avatarUrl := AbsoluteUrl(v.avatarUrl))
  }

  function RewriteVoters(vs: seq<Voter>): (r: seq<Voter>)
    ensures |r| == |vs| && forall i :: 0 <= i < |vs| ==> r[i] == RewriteVoter(vs[i])
  {
    seq(|vs|, i requires 0 <= i < |vs| => RewriteVoter(vs[i]))
  }

  /** The mapping of one result row: `voters: item.voters?.map(...)`. */
  function RewriteItem(item: ResultItem): ResultItem {
    item.(voters := if item.voters.Some? then Some(RewriteVoters(item.voters.value)) else None)
  }

  function RewriteItems(items: seq<ResultItem>): (r: seq<ResultItem>)
    ensures |r| == |items| && forall i :: 0 <= i < |items| ==> r[i] == RewriteItem(items[i])
  {
    seq(|items|, i requires 0 <= i < |items| => RewriteItem(items[i]))
  }

  /** The post-processing of `getResults`. */
  function RewriteResults(data: VoteResult): VoteResult {
    if data.isAnonymous then data else data.(results := RewriteItems(data.results))
  }

  /** Voter `v` is `w` with at most its avatar URL rewritten. */
  predicate SameVoterBut(v: Voter, w: Voter) {
    v.id == w.id && v.username == w.username && v.name == w.name &&
    v.avatarUrl == AbsoluteUrl(w.avatarUrl)
  }

  /** Row `r` is `item` with the same id, label, count and voters, at most
      the voters' avatar URLs rewritten. */
  predicate SameItemBut(r: ResultItem, item: ResultItem) {
    r.id == item.id && r.text == item.text && r.count == item.count &&
    r.voters.Some? == item.voters.Some? &&
    (r.voters.Some? ==>
      |r.voters.value| == |item.voters.value| &&
      forall j :: 0 <= j < |item.voters.value| ==> SameVoterBut(r.voters.value[j], item.voters.value[j]))
  }

  /** Anonymous results come back untouched; public ones keep every field,
      every row in order with its id, label and count, and every voter in
      order, only the avatar URLs made absolute. */
  lemma RewriteResultsSpec(data: VoteResult)
    ensures data.isAnonymous ==> RewriteResults(data) == data
    ensures var r := RewriteResults(data);
      r.pollId == data.pollId && r.total == data.total && r.isAnonymous == data.isAnonymous &&
      r.totalVoters == data.totalVoters && r.participationRate == data.participationRate &&
      |r.results| == |data.results|
    ensures !data.isAnonymous ==>
      forall i :: 0 <= i < |data.results| ==> SameItemBut(RewriteResults(data).results[i], data.results[i])
  {
  }

  lemma RewriteVoterTwice(v: Voter)
    ensures RewriteVoter(RewriteVoter(v)) == RewriteVoter(v)
  {
    AbsoluteUrlSpec(v.avatarUrl);
  }

  lemma RewriteItemTwice(item: ResultItem)
    ensures RewriteItem(RewriteItem(item)) == RewriteItem(item)
  {
    if item.voters.Some? {
      var vs := item.voters.value;
      forall j | 0 <= j < |vs|
        ensures RewriteVoter(RewriteVoter(vs[j])) == RewriteVoter(vs[j])
      {
        RewriteVoterTwice(vs[j]);
      }
      assert RewriteVoters(RewriteVoters(vs)) == RewriteVoters(vs);
    }
  }

  /** Post-processing results that were already post-processed changes
      nothing. */
  lemma RewriteResultsIdempotent(data: VoteResult)
    ensures RewriteResults(RewriteResults(data)) == RewriteResults(data)
  {
    if !data.isAnonymous {
      var items := data.results;
      forall i | 0 <= i < |items|
        ensures RewriteItem(RewriteItem(items[i])) == RewriteItem(items[i])
      {
        RewriteItemTwice(items[i]);
      }
      assert RewriteItems(RewriteItems(items)) == RewriteItems(items);
    }
  }

  /** `normalizeUser`. */
  function NormalizeUser(u: User): User {
    u.(avatarUrl := AbsoluteUrl(u.avatarUrl))
  }

  /** Normalising keeps every field but the avatar URL, which ends up
      missing or absolute, and normalising twice is normalising once. */
  lemma NormalizeUserSpec(u: User)
    ensures var n := NormalizeUser(u);
      n.id == u.id && n.email == u.email && n.name == u.name &&
      n.role == u.role && n.username == u.username
    ensures NormalizeUser(u).avatarUrl.Some? ==> IsAbsolute(NormalizeUser(u).avatarUrl.value)
    ensures NormalizeUser(NormalizeUser(u)) == NormalizeUser(u)
  {
    AbsoluteUrlSpec(u.avatarUrl);
  }

  /** The response object of `getResults`, whose `results` field is
      reassigned in place. */
  class FetchedResults {
    const pollId: string
    const total: int
    var results: seq<ResultItem>
    const isAnonymous: bool
    const totalVoters: int
    const participationRate: real

    function Value(): VoteResult
      reads this
    {
      VoteResult(pollId, total, results, isAnonymous, totalVoters, participationRate)
    }

    constructor (data: VoteResult)
      ensures Value() == data
    {
      pollId, total, results := data.pollId, data.total, data.results;
      isAnonymous, totalVoters, participationRate := data.isAnonymous, data.totalVoters, data.participationRate;
    }

    /** `if (!data.isAnonymous) data.results = data.results.map(...)`. */
    method RewriteAvatars()
      modifies this
      ensures Value() == RewriteResults(old(Value()))
    {
      if !isAnonymous {
        results := RewriteItems(results);
      }
    }
  }
}

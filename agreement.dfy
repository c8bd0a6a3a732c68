/** How the client's checks line up with the server's: where a request the
    client lets through is sure to be accepted, and where the two disagree
    at a boundary. */
module Agreement {
  import opened Base
  import opened ApiTypes
  import opened Tables
  import opened Rules
  import Backend
  import ClientApp
  import ClientPollList
  import ClientResults
  import ClientCreator
  import ClientApi

  // ---------------------------------------------------------------------
  // When is a poll closed?

  /** Over one clock and one reading of the deadline (see `BrowserDeadline`),
      the notions of "closed" agree except at the deadline instant itself:
      the vote screen (`isPollClosed`) already refuses, the server still
      accepts a vote, and the list shows the poll as upcoming. */
  lemma ClosedBoundaries(p: Poll, now: int)
    ensures ClientPollList.PollStatus(p, now) == ClientPollList.Completed <==>
      p.deadline.Some? && now > p.deadline.value
    ensures ClientPollList.PollStatus(p, now) == ClientPollList.Completed ==> ClientApp.IsPollClosed(p, now)
    ensures ClientApp.IsPollClosed(p, now) && ClientPollList.PollStatus(p, now) != ClientPollList.Completed ==>
      now == p.deadline.value && ClientPollList.PollStatus(p, now) == ClientPollList.Upcoming
  {
    ClientPollList.PollStatusCases(p, now);
  }

  /** For a stored poll and a non-empty ballot, the server refuses the vote
      as closed exactly when the list shows the poll it serves as completed,
      provided the browser reads the served deadline as the instant the
      server stored (`OffsetDeadlineAgrees`; `OffsetlessDeadlineDisagrees`
      shows the program's own reading). */
  lemma ServerClosedIsCompleted(polls: seq<PollRow>, variants: seq<VariantRow>, users: seq<UserRow>,
                                pollId: string, req: VoteRequest, now: int)
    requires FindPoll(polls, pollId).Some? && req.choices != []
    ensures VoteCheck(polls, variants, users, pollId, req, now) == Some(PollClosed) <==>
      ClientPollList.PollStatus(ApiPoll(FindPoll(polls, pollId).value, VariantsOf(variants, pollId)), now)
        == ClientPollList.Completed
  {
    ClosedBoundaries(ApiPoll(FindPoll(polls, pollId).value, VariantsOf(variants, pollId)), now);
    VoteCheckOrder(polls, variants, users, pollId, req, now);
  }

  /** The instant a browser whose zone is `offset` milliseconds ahead of
      UTC reads from a served deadline. The server keeps the deadline as a
      naive UTC date-time and serves its `isoformat()`, which carries no
      offset (`hasOffset` false); `new Date` takes such a string as local
      wall-clock time, which names the instant `offset` earlier. A string
      with an offset names the same instant in every zone. */
  function BrowserDeadline(stored: int, hasOffset: bool, offset: int): (r: int)
    ensures r == stored <==> hasOffset || offset == 0
    ensures !hasOffset ==> stored - r == offset
  {
    if hasOffset then stored else stored - offset
  }

  /** The served poll as such a browser reads it: only the deadline moves. */
  function BrowserPoll(p: Poll, hasOffset: bool, offset: int): (r: Poll)
    ensures r == p.(deadline := r.deadline)
    ensures r.deadline.Some? <==> p.deadline.Some?
    ensures p.deadline.Some? ==> r.deadline.value == BrowserDeadline(p.deadline.value, hasOffset, offset)
  {
    if p.deadline.Some? then p.(deadline := Some(BrowserDeadline(p.deadline.value, hasOffset, offset))) else p
  }

  /** As written (the offset-less `isoformat()` read as local time): in a
      browser east of UTC the list shows a poll as completed, and the vote
      screen refuses, at the deadline instant while the server still takes
      votes; in a browser more than a millisecond west of UTC the vote
      screen still sends a vote the server refuses as closed. */
  lemma OffsetlessDeadlineDisagrees(polls: seq<PollRow>, variants: seq<VariantRow>, users: seq<UserRow>,
                                    pollId: string, req: VoteRequest, offset: int)
    requires FindPoll(polls, pollId).Some? && FindPoll(polls, pollId).value.deadline.Some?
    requires req.choices != []
    ensures offset > 0 ==>
      var d := FindPoll(polls, pollId).value.deadline.value;
      var seen := BrowserPoll(ApiPoll(FindPoll(polls, pollId).value, VariantsOf(variants, pollId)), false, offset);
      && ClientPollList.PollStatus(seen, d) == ClientPollList.Completed
      && ClientApp.IsPollClosed(seen, d)
      && VoteCheck(polls, variants, users, pollId, req, d) != Some(PollClosed)
    ensures offset < -1 ==>
      var d := FindPoll(polls, pollId).value.deadline.value;
      var seen := BrowserPoll(ApiPoll(FindPoll(polls, pollId).value, VariantsOf(variants, pollId)), false, offset);
      && !ClientApp.IsPollClosed(seen, d + 1)
      && ClientPollList.PollStatus(seen, d + 1) != ClientPollList.Completed
      && VoteCheck(polls, variants, users, pollId, req, d + 1) == Some(PollClosed)
  {
    var d := FindPoll(polls, pollId).value.deadline.value;
    var seen := BrowserPoll(ApiPoll(FindPoll(polls, pollId).value, VariantsOf(variants, pollId)), false, offset);
    ClientPollList.PollStatusCases(seen, d);
    ClientPollList.PollStatusCases(seen, d + 1);
    VoteCheckOrder(polls, variants, users, pollId, req, d);
    VoteCheckOrder(polls, variants, users, pollId, req, d + 1);
  }

  /** Corrected (the deadline served with its offset, or a browser at UTC):
      the browser sees the stored instant, so the server's closed refusal
      and the list's "completed" coincide at every instant. */
  lemma OffsetDeadlineAgrees(polls: seq<PollRow>, variants: seq<VariantRow>, users: seq<UserRow>,
                             pollId: string, req: VoteRequest, hasOffset: bool, offset: int, now: int)
    requires FindPoll(polls, pollId).Some? && req.choices != []
    requires hasOffset || offset == 0
    ensures var served := ApiPoll(FindPoll(polls, pollId).value, VariantsOf(variants, pollId));
      BrowserPoll(served, hasOffset, offset) == served
    ensures VoteCheck(polls, variants, users, pollId, req, now) == Some(PollClosed) <==>
      ClientPollList.PollStatus(BrowserPoll(ApiPoll(FindPoll(polls, pollId).value, VariantsOf(variants, pollId)),
                                            hasOffset, offset), now) == ClientPollList.Completed
  {
    ServerClosedIsCompleted(polls, variants, users, pollId, req, now);
  }

  // ---------------------------------------------------------------------
  // Voting

  lemma VariantIdsOfApiPoll(p: PollRow, vs: seq<VariantRow>)
    ensures ClientApp.VariantIdsOf(ApiPoll(p, vs)) == VariantIds(vs)
  {
    var a := ClientApp.VariantIdsOf(ApiPoll(p, vs));
    assert forall i :: 0 <= i < |vs| ==> a[i] == VariantIds(vs)[i];
  }

  /** A vote the client sends for a stored poll, by a user the server
      knows, choosing among that poll's variants (which every sequence of
      toggles does), passes every check of the server: the client's count
      check on the selection implies the server's on its de-duplication. */
  lemma SentVoteIsAccepted(polls: seq<PollRow>, variants: seq<VariantRow>, users: seq<UserRow>,
                           p: PollRow, selected: seq<string>, user: User, now: int)
    requires FindPoll(polls, p.id) == Some(p)
    requires UserExists(users, user.id)
    requires forall x :: x in selected ==> x in ClientApp.VariantIdsOf(ApiPoll(p, VariantsOf(variants, p.id)))
    requires ClientApp.VoteGate(Some(ApiPoll(p, VariantsOf(variants, p.id))), selected, Some(user), now).Send?
    ensures VoteCheck(polls, variants, users, p.id, VoteRequest(user.id, selected), now) == None
  {
    var poll := ApiPoll(p, VariantsOf(variants, p.id));
    ClientApp.VoteGateSendsIff(Some(poll), selected, Some(user), now);
    VariantIdsOfApiPoll(p, VariantsOf(variants, p.id));
    UniqueNonEmpty(selected);
    VoteAcceptedIff(polls, variants, users, p.id, VoteRequest(user.id, selected), now);
  }

  /** The request the gate sends is the one the server checks: it names the
      poll on screen and the logged-in user. */
  lemma SentVoteTargets(p: Poll, selected: seq<string>, user: User, now: int)
    requires ClientApp.VoteGate(Some(p), selected, Some(user), now).Send?
    ensures ClientApp.VoteGate(Some(p), selected, Some(user), now).pollId == p.id
    ensures ClientApp.VoteGate(Some(p), selected, Some(user), now).req.userId == user.id
    ensures ClientApp.VoteGate(Some(p), selected, Some(user), now).req.choices == selected
  {
    ClientApp.VoteGateSendsIff(Some(p), selected, Some(user), now);
  }

  // ---------------------------------------------------------------------
  // Deleting

  /** The list offers the delete action to exactly the users the server
      lets delete: for a stored poll and a caller identified by the id of a
      stored user, the server's check passes iff that user is an admin. */
  lemma DeleteOfferMatchesServer(polls: seq<PollRow>, users: seq<UserRow>, pollId: string, row: UserRow)
    requires FindPoll(polls, pollId).Some?
    requires FindUser(users, row.id) == Some(row) && row.id != ""
    ensures ClientPollList.DeleteOffered(Some(Backend.ApiUser(row))) <==>
      DeleteCheck(polls, users, pollId, Some(row.id)) == None
  {
  }

  // ---------------------------------------------------------------------
  // Results

  lemma {:induction false} SumBoundsEach(xs: seq<int>, i: int)
    requires forall j :: 0 <= j < |xs| ==> xs[j] >= 0
    requires 0 <= i < |xs|
    ensures 0 <= xs[i] <= Sum(xs)
    ensures Sum(xs) >= 0
  {
    if i == 0 {
      SumNonNegative(xs[1..]);
    } else {
      SumBoundsEach(xs[1..], i - 1);
    }
  }

  lemma {:induction false} SumNonNegative(xs: seq<int>)
    requires forall j :: 0 <= j < |xs| ==> xs[j] >= 0
    ensures Sum(xs) >= 0
  {
    if xs != [] {
      SumNonNegative(xs[1..]);
    }
  }

  /** The results screen, fed with the server's results after the API
      layer's rewriting, shows every percentage between 0 and 100 and, on
      an anonymous poll, no voter chips. */
  lemma ServerResultsDisplay(polls: seq<PollRow>, variants: seq<VariantRow>, votes: seq<VoteRow>,
                             users: seq<UserRow>, pollId: string)
    requires FindPoll(polls, pollId).Some? && VariantIdsDistinct(variants)
    requires VotesReferToVariants(votes, variants)
    ensures var shown := ClientResults.DisplayRows(ClientApi.RewriteResults(Results(polls, variants, votes, users, pollId).value));
      forall i :: 0 <= i < |shown| ==> 0 <= shown[i].percentage <= 100
    ensures FindPoll(polls, pollId).value.isAnonymous ==>
      var shown := ClientResults.DisplayRows(ClientApi.RewriteResults(Results(polls, variants, votes, users, pollId).value));
      forall i :: 0 <= i < |shown| ==> !shown[i].showsVoters
  {
    var res := Results(polls, variants, votes, users, pollId).value;
    var vs := VariantsOf(variants, pollId);
    ResultsShape(polls, variants, votes, users, pollId);
    var counts := Counts(votes, pollId, VariantIds(vs));
    forall i | 0 <= i < |res.results| ensures 0 <= res.results[i].count <= res.total {
      SumBoundsEach(counts, i);
    }
    var rewritten := ClientApi.RewriteResults(res);
    ClientApi.RewriteResultsSpec(res);
    assert forall i :: 0 <= i < |rewritten.results| ==> rewritten.results[i].count == res.results[i].count;
    ClientResults.DisplayPercentagesBounded(rewritten);
    ClientResults.DisplayRowsSpec(rewritten);
  }

  // ---------------------------------------------------------------------
  // Creating

  /** The request `handleCreatePoll` sends for the form's payload: every
      field of the payload carried over, a set deadline always well formed
      (the client sends `toISOString()`), and the logged-in user as owner
      (`ownerUserId: user?.id`). */
  function CreateRequest(p: ClientCreator.Payload, owner: Option<string>): (r: PollCreate)
    ensures r.title == p.title && r.kind == p.kind && r.variants == p.variants
    ensures r.maxSelections == Some(p.maxSelections) && r.ownerUserId == owner
    ensures r.description == Some(p.description) && r.isAnonymous == Some(p.isAnonymous)
    ensures r.deadline == NoDeadline <==> p.deadline.None?
    ensures p.deadline.Some? ==> r.deadline == At(p.deadline.value)
  {
    PollCreate(p.title, Some(p.description),
               if p.deadline.Some? then At(p.deadline.value) else NoDeadline,
               p.kind, p.variants, Some(p.maxSelections), Some(p.isAnonymous), owner)
  }

  /** A form accepted by the corrected submit check never meets the
      server's two-variant refusal. */
  lemma SubmittedFormHasEnoughVariants(f: ClientCreator.Form, now: int, owner: Option<string>,
                                       users: seq<UserRow>, serverNow: int)
    requires ClientCreator.Submit(f, now).Submitted?
    ensures CreateCheck(CreateRequest(ClientCreator.Submit(f, now).payload, owner), users, serverNow) != Some(TooFewVariants)
  {
    ClientCreator.SubmitSpec(f, now);
  }

  /** A single-choice form with a title and one real variant beside a
      blank one passes the check as written, and the server then refuses
      the poll for having fewer than two variants. */
  lemma BlankVariantRefusedByServer(f: ClientCreator.Form, now: int, owner: Option<string>,
                                    users: seq<UserRow>, serverNow: int)
    requires ClientCreator.NotBlank(f.title) && f.deadline.None? && !f.isMulti
    requires |f.variants| == 2 && ClientCreator.NotBlank(f.variants[0]) && !ClientCreator.NotBlank(f.variants[1])
    ensures ClientCreator.SubmitAsWritten(f, now).Submitted?
    ensures CreateCheck(CreateRequest(ClientCreator.SubmitAsWritten(f, now).payload, owner), users, serverNow)
      == Some(TooFewVariants)
  {
    ClientCreator.BlankVariantPasses(f, now);
  }

  /** The form does not check the cap of a multiple-choice poll: a cap
      below 1 reaches the server, which refuses it. */
  lemma CapRefusedByServer(f: ClientCreator.Form, now: int, owner: Option<string>,
                           users: seq<UserRow>, serverNow: int)
    requires ClientCreator.Submit(f, now).Submitted?
    requires f.isMulti && f.maxSelections < 1
    ensures CreateCheck(CreateRequest(ClientCreator.Submit(f, now).payload, owner), users, serverNow)
      == Some(MaxSelectionsTooSmall)
  {
    var p := ClientCreator.PayloadOf(f);
    assert ClientCreator.Submit(f, now).payload == p;
    assert p.kind == Multi && p.maxSelections == f.maxSelections;
  }

  lemma DeadlineAtNowRefused(body: PollCreate, users: seq<UserRow>, now: int)
    requires !(body.kind == Multi && (body.maxSelections.None? || body.maxSelections.value < 1))
    requires |body.variants| >= 2 && body.ownerUserId == None && body.deadline == At(now)
    ensures CreateCheck(body, users, now) == Some(DeadlineNotInFuture)
  {
  }

  /** The form accepts a deadline equal to the current instant (only one
      strictly before it is refused); the server refuses it. */
  lemma DeadlineNowRefusedByServer(f: ClientCreator.Form, now: int, users: seq<UserRow>)
    requires ClientCreator.Submit(f, now).Submitted?
    requires f.deadline == Some(now) && !(f.isMulti && f.maxSelections < 1)
    ensures CreateCheck(CreateRequest(ClientCreator.Submit(f, now).payload, None), users, now)
      == Some(DeadlineNotInFuture)
  {
    var p := ClientCreator.Submit(f, now).payload;
    assert p == ClientCreator.PayloadOf(f);
    assert |p.variants| >= 2;
    DeadlineAtNowRefused(CreateRequest(p, None), users, now);
  }
}

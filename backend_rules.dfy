/** The request validation of the poll server (backend/app.py) as pure
    functions of the request, the current tables and the current instant,
    with the properties the handlers promise. The handlers themselves, which
    change the tables, are in module Backend. */
module Rules {
  import opened Base
  import opened ApiTypes
  import opened Tables

  /** Every way a request is refused, with its HTTP status. */
  datatype Rejection =
    | PollNotFound
    | ChoicesEmpty
    | PollClosed
    | UserNotFound
    | InvalidChoices(ids: seq<string>)
    | SingleNeedsOneChoice
    | TooManyChoices(max: int)
    | MaxSelectionsTooSmall
    | TooFewVariants
    | OwnerNotFound
    | BadDeadlineFormat
    | DeadlineNotInFuture
    | AlreadyExists
    | AdminTokenInvalid
    | AdminRegistrationDisabled
    | MissingUserContext
    | InvalidUser
    | Forbidden
  {
    function Status(): int {
      match this
      case PollNotFound => 404
      case PollClosed | AdminTokenInvalid | AdminRegistrationDisabled | Forbidden => 403
      case AlreadyExists => 409
      case MissingUserContext | InvalidUser => 401
      case _ => 400
    }
  }

  /** Python truthiness of an optional string: present and non-empty. */
  predicate Truthy(s: Option<string>) {
    s.Some? && s.value != ""
  }

  // ---------------------------------------------------------------------
  // POST /polls

  /** The deadline field of a creation request, after ISO parsing (which is
      not modelled): absent or empty, unparseable, or an instant. */
  datatype DeadlineField = NoDeadline | Malformed | At(instant: int)

  datatype PollCreate = PollCreate(
    title: string,
    description: Option<string>,
    deadline: DeadlineField,
    kind: PollKind,
    variants: seq<string>,
    maxSelections: Option<int>,
    isAnonymous: Option<bool>,
    ownerUserId: Option<string>)

  /** The first failing check of `create_poll`, in the order the handler
      runs them, or None when the poll is created. */
  function CreateCheck(body: PollCreate, users: seq<UserRow>, now: int): (r: Option<Rejection>)
    ensures r == None <==>
      && !(body.kind == Multi && (body.maxSelections.None? || body.maxSelections.value < 1))
      && |body.variants| >= 2
      && (Truthy(body.ownerUserId) ==> UserExists(users, body.ownerUserId.value))
      && !body.deadline.Malformed?
      && (body.deadline.At? ==> body.deadline.instant > now)
    ensures r.Some? ==> r.value.Status() == 400
  {
    if body.kind == Multi && (body.maxSelections.None? || body.maxSelections.value < 1) then
      Some(MaxSelectionsTooSmall)
    else if |body.variants| < 2 then Some(TooFewVariants)
    else if Truthy(body.ownerUserId) && !UserExists(users, body.ownerUserId.value) then Some(OwnerNotFound)
    else match body.deadline
      case NoDeadline => None
      case Malformed => Some(BadDeadlineFormat)
      case At(t) => if t <= now then Some(DeadlineNotInFuture) else None
  }

  /** `body.maxSelections or 1`: a missing or zero value becomes 1. */
  function StoredMaxSelections(m: Option<int>): (r: int)
    ensures r != 0
    ensures m.Some? && m.value != 0 ==> r == m.value
  {
    if m.None? || m.value == 0 then 1 else m.value
  }

  /** An accepted multi poll stores the requested cap, which is at least 1. */
  lemma AcceptedMultiKeepsCap(body: PollCreate, users: seq<UserRow>, now: int)
    requires CreateCheck(body, users, now) == None && body.kind == Multi
    ensures StoredMaxSelections(body.maxSelections) == body.maxSelections.value >= 1
  {
  }

  function StoredDeadline(d: DeadlineField): Option<int> {
    if d.At? then Some(d.instant) else None
  }

  /** The row `create_poll` stores for an accepted request. */
  function NewPollRow(body: PollCreate, id: string): (r: PollRow)
    ensures r.id == id && r.kind == body.kind && r.title == body.title
    ensures r.maxSelections == StoredMaxSelections(body.maxSelections)
    ensures r.isAnonymous == (body.isAnonymous != Some(false))
    ensures r.deadline == StoredDeadline(body.deadline)
    ensures r.description == body.description && r.ownerUserId == body.ownerUserId
  {
    PollRow(id, body.title, body.description, StoredDeadline(body.deadline), body.kind,
            StoredMaxSelections(body.maxSelections),
            if body.isAnonymous.Some? then body.isAnonymous.value else true,
            body.ownerUserId)
  }

  // ---------------------------------------------------------------------
  // POST /polls/{poll_id}/vote

  /** Python's `[c for c in choices if c not in variant_ids]`. */
  function NotIn(ids: seq<string>): string -> bool {
    (c: string) => c !in ids
  }

  /** The first failing check of `vote`, in the handler's order, or None
      when the ballot is stored. */
  function VoteCheck(polls: seq<PollRow>, variants: seq<VariantRow>, users: seq<UserRow>,
                     pollId: string, req: VoteRequest, now: int): (r: Option<Rejection>)
  {
    var poll := FindPoll(polls, pollId);
    if poll.None? then Some(PollNotFound)
    else if |req.choices| == 0 then Some(ChoicesEmpty)
    else if poll.value.deadline.Some? && now > poll.value.deadline.value then Some(PollClosed)
    else if !UserExists(users, req.userId) then Some(UserNotFound)
    else
      var ids := VariantIds(VariantsOf(variants, pollId));
      var invalid := Filter(req.choices, NotIn(ids));
      if |invalid| > 0 then Some(InvalidChoices(invalid))
      else
        var unique := Unique(req.choices);
        if poll.value.kind == Single && |unique| != 1 then Some(SingleNeedsOneChoice)
        else if poll.value.kind == Multi && |unique| > poll.value.maxSelections then
          Some(TooManyChoices(poll.value.maxSelections))
        else None
  }

  /** The count rule applied to the de-duplicated choices. */
  predicate CountRuleHolds(kind: PollKind, maxSelections: int, choices: seq<string>) {
    (kind == Single ==> |Unique(choices)| == 1) && (kind == Multi ==> |Unique(choices)| <= maxSelections)
  }

  /** A vote is stored exactly when every check passes. */
  lemma VoteAcceptedIff(polls: seq<PollRow>, variants: seq<VariantRow>, users: seq<UserRow>,
                        pollId: string, req: VoteRequest, now: int)
    ensures VoteCheck(polls, variants, users, pollId, req, now) == None <==>
      && FindPoll(polls, pollId).Some?
      && |req.choices| > 0
      && !(FindPoll(polls, pollId).value.deadline.Some? && now > FindPoll(polls, pollId).value.deadline.value)
      && UserExists(users, req.userId)
      && (forall c :: c in req.choices ==> c in VariantIds(VariantsOf(variants, pollId)))
      && CountRuleHolds(FindPoll(polls, pollId).value.kind, FindPoll(polls, pollId).value.maxSelections, req.choices)
  {
    var poll := FindPoll(polls, pollId);
    if poll.Some? && |req.choices| > 0 {
      var ids := VariantIds(VariantsOf(variants, pollId));
      var invalid := Filter(req.choices, NotIn(ids));
      assert |invalid| == 0 <==> forall c :: c in req.choices ==> c in ids by {
        if |invalid| > 0 {
          assert invalid[0] in req.choices && invalid[0] !in ids;
        }
      }
    }
  }

  /** The rejections come in the handler's fixed order: unknown poll (404),
      empty ballot (400), closed poll (403), unknown user (400), choices not
      among the poll's variants (400, listing them), a single poll without
      exactly one distinct choice (400), a multi poll over its cap (400).
      Each clause assumes that the earlier checks passed. */
  lemma VoteCheckOrder(polls: seq<PollRow>, variants: seq<VariantRow>, users: seq<UserRow>,
                       pollId: string, req: VoteRequest, now: int)
    ensures FindPoll(polls, pollId).None? ==>
      VoteCheck(polls, variants, users, pollId, req, now) == Some(PollNotFound)
    ensures FindPoll(polls, pollId).Some? && req.choices == [] ==>
      VoteCheck(polls, variants, users, pollId, req, now) == Some(ChoicesEmpty)
    ensures FindPoll(polls, pollId).Some? && req.choices != [] &&
            FindPoll(polls, pollId).value.deadline.Some? && now > FindPoll(polls, pollId).value.deadline.value ==>
      VoteCheck(polls, variants, users, pollId, req, now) == Some(PollClosed)
    ensures OpenBallot(polls, pollId, req, now) && !UserExists(users, req.userId) ==>
      VoteCheck(polls, variants, users, pollId, req, now) == Some(UserNotFound)
    ensures OpenBallot(polls, pollId, req, now) && UserExists(users, req.userId) &&
            |Filter(req.choices, NotIn(VariantIds(VariantsOf(variants, pollId))))| > 0 ==>
      VoteCheck(polls, variants, users, pollId, req, now) ==
        Some(InvalidChoices(Filter(req.choices, NotIn(VariantIds(VariantsOf(variants, pollId))))))
    ensures OpenBallot(polls, pollId, req, now) && UserExists(users, req.userId) &&
            (forall c :: c in req.choices ==> c in VariantIds(VariantsOf(variants, pollId))) &&
            FindPoll(polls, pollId).value.kind == Single && |Unique(req.choices)| != 1 ==>
      VoteCheck(polls, variants, users, pollId, req, now) == Some(SingleNeedsOneChoice)
    ensures OpenBallot(polls, pollId, req, now) && UserExists(users, req.userId) &&
            (forall c :: c in req.choices ==> c in VariantIds(VariantsOf(variants, pollId))) &&
            FindPoll(polls, pollId).value.kind == Multi &&
            |Unique(req.choices)| > FindPoll(polls, pollId).value.maxSelections ==>
      VoteCheck(polls, variants, users, pollId, req, now) ==
        Some(TooManyChoices(FindPoll(polls, pollId).value.maxSelections))
    ensures VoteCheck(polls, variants, users, pollId, req, now) == Some(UserNotFound) ==>
      !UserExists(users, req.userId) && FindPoll(polls, pollId).Some?
    ensures VoteCheck(polls, variants, users, pollId, req, now).Some? ==>
      VoteCheck(polls, variants, users, pollId, req, now).value.Status() ==
        (match VoteCheck(polls, variants, users, pollId, req, now).value
         case PollNotFound => 404
         case PollClosed => 403
         case _ => 400)
  {
    var ids := VariantIds(VariantsOf(variants, pollId));
    var invalid := Filter(req.choices, NotIn(ids));
    assert |invalid| == 0 <==> forall c :: c in req.choices ==> c in ids by {
      if |invalid| > 0 {
        assert invalid[0] in req.choices && invalid[0] !in ids;
      }
    }
  }

  /** The poll exists, the ballot is non-empty and the deadline has not
      passed: the first three checks of `vote` let the request through. */
  predicate OpenBallot(polls: seq<PollRow>, pollId: string, req: VoteRequest, now: int) {
    && FindPoll(polls, pollId).Some?
    && req.choices != []
    && !(FindPoll(polls, pollId).value.deadline.Some? && now > FindPoll(polls, pollId).value.deadline.value)
  }

  /** Repeating a choice is harmless: ["a", "a"] is one choice, so it is
      accepted on an open single poll whose variant "a" exists. */
  lemma RepeatedChoiceOnSinglePoll(polls: seq<PollRow>, variants: seq<VariantRow>, users: seq<UserRow>,
                                   pollId: string, userId: string, a: string, now: int)
    requires FindPoll(polls, pollId).Some? && FindPoll(polls, pollId).value.kind == Single
    requires FindPoll(polls, pollId).value.deadline.None?
    requires UserExists(users, userId)
    requires a in VariantIds(VariantsOf(variants, pollId))
    ensures VoteCheck(polls, variants, users, pollId, VoteRequest(userId, [a, a]), now) == None
  {
    var choices := [a, a];
    var ids := VariantIds(VariantsOf(variants, pollId));
    FilterAllFalse(choices, NotIn(ids));
    assert [a, a][..1] == [a];
    assert Unique([a]) == [a];
    assert Unique(choices) == [a];
  }

  /** The rows the votes table holds after a successful vote: the user's old
      rows for the poll are deleted and one row per unique choice is added. */
  function ReplaceBallot(votes: seq<VoteRow>, pollId: string, userId: string, unique: seq<string>): seq<VoteRow> {
    Filter(votes, NotBallotRow(pollId, userId)) + BallotRows(pollId, userId, unique)
  }

  function BallotRows(pollId: string, userId: string, choices: seq<string>): (r: seq<VoteRow>)
    ensures |r| == |choices|
    ensures forall i :: 0 <= i < |r| ==> r[i] == VoteRow(pollId, choices[i], userId)
  {
    seq(|choices|, i requires 0 <= i < |choices| => VoteRow(pollId, choices[i], userId))
  }

  lemma {:induction false} BallotAppend(a: seq<VoteRow>, b: seq<VoteRow>, pollId: string, userId: string)
    ensures Ballot(a + b, pollId, userId) == Ballot(a, pollId, userId) + Ballot(b, pollId, userId)
  {
    if a == [] {
      assert a + b == b;
    } else {
      assert (a + b)[1..] == a[1..] + b;
      BallotAppend(a[1..], b, pollId, userId);
    }
  }

  lemma {:induction false} BallotOfOthers(votes: seq<VoteRow>, pollId: string, userId: string)
    ensures Ballot(Filter(votes, NotBallotRow(pollId, userId)), pollId, userId) == []
  {
    if votes != [] {
      BallotOfOthers(votes[1..], pollId, userId);
      var keep := if NotBallotRow(pollId, userId)(votes[0]) then [votes[0]] else [];
      BallotAppend(keep, Filter(votes[1..], NotBallotRow(pollId, userId)), pollId, userId);
    }
  }

  lemma {:induction false} BallotOfNewRows(pollId: string, userId: string, choices: seq<string>)
    ensures Ballot(BallotRows(pollId, userId, choices), pollId, userId) == choices
  {
    if choices != [] {
      BallotOfNewRows(pollId, userId, choices[1..]);
      assert BallotRows(pollId, userId, choices)[1..] == BallotRows(pollId, userId, choices[1..]);
    }
  }

  /** After a successful vote the user's ballot in that poll is exactly the
      unique choices, in order, and every other row is as before, in order. */
  lemma ReplaceBallotEffect(votes: seq<VoteRow>, pollId: string, userId: string, unique: seq<string>)
    ensures Ballot(ReplaceBallot(votes, pollId, userId, unique), pollId, userId) == unique
    ensures Filter(ReplaceBallot(votes, pollId, userId, unique), NotBallotRow(pollId, userId))
            == Filter(votes, NotBallotRow(pollId, userId))
  {
    var kept := Filter(votes, NotBallotRow(pollId, userId));
    var added := BallotRows(pollId, userId, unique);
    BallotAppend(kept, added, pollId, userId);
    BallotOfOthers(votes, pollId, userId);
    BallotOfNewRows(pollId, userId, unique);
    FilterAppend(kept, added, NotBallotRow(pollId, userId));
    FilterAllTrue(kept, NotBallotRow(pollId, userId));
    FilterAllFalse(added, NotBallotRow(pollId, userId));
    assert kept + [] == kept;
  }

  /** The table's uniqueness on (poll, user, variant) survives a vote. */
  lemma ReplaceBallotNoDup(votes: seq<VoteRow>, pollId: string, userId: string, unique: seq<string>)
    requires NoDup(votes) && NoDup(unique)
    ensures NoDup(ReplaceBallot(votes, pollId, userId, unique))
  {
    var kept := Filter(votes, NotBallotRow(pollId, userId));
    var added := BallotRows(pollId, userId, unique);
    FilterNoDup(votes, NotBallotRow(pollId, userId));
    var all := kept + added;
    forall i, j | 0 <= i < j < |all| ensures all[i] != all[j] {
      if j < |kept| {
      } else if i >= |kept| {
        assert all[i] == added[i - |kept|] && all[j] == added[j - |kept|];
      } else {
        assert NotBallotRow(pollId, userId)(all[i]);
        assert all[j] == added[j - |kept|];
      }
    }
  }

  // ---------------------------------------------------------------------
  // GET /polls/{poll_id}/results

  function Sum(xs: seq<int>): int {
    if xs == [] then 0 else xs[0] + Sum(xs[1..])
  }

  /** The counts the result items carry, one per variant id. */
  function Counts(votes: seq<VoteRow>, pollId: string, ids: seq<string>): (r: seq<int>)
    ensures |r| == |ids|
    ensures forall i :: 0 <= i < |ids| ==> r[i] == CountFor(votes, pollId, ids[i])
  {
    seq(|ids|, i requires 0 <= i < |ids| => CountFor(votes, pollId, ids[i]))
  }

  /** Taking off the first vote row lowers the sum of the item counts by
      one when that row is for one of the listed variants of the poll, and
      leaves it alone otherwise. */
  lemma {:induction false} SumCountsStep(votes: seq<VoteRow>, pollId: string, ids: seq<string>)
    requires votes != [] && NoDup(ids)
    ensures Sum(Counts(votes, pollId, ids)) ==
      (if votes[0].pollId == pollId && votes[0].variantId in ids then 1 else 0)
      + Sum(Counts(votes[1..], pollId, ids))
  {
    if ids != [] {
      assert NoDup(ids[1..]);
      SumCountsStep(votes, pollId, ids[1..]);
      CountsTail(votes, pollId, ids);
      CountsTail(votes[1..], pollId, ids);
      if votes[0].variantId == ids[0] {
        assert ids[0] !in ids[1..];
      }
    }
  }

  /** `total` (the sum of the grouped counts, i.e. the number of the poll's
      vote rows) equals the sum of the per-variant item counts whenever every
      vote row of the poll names one of the poll's variants. */
  lemma {:induction false} TotalIsSumOfItemCounts(votes: seq<VoteRow>, pollId: string, ids: seq<string>)
    requires NoDup(ids)
    requires forall r :: r in votes && r.pollId == pollId ==> r.variantId in ids
    ensures Sum(Counts(votes, pollId, ids)) == |Filter(votes, VoteOfPoll(pollId))|
  {
    if votes == [] {
      ZeroCounts(pollId, ids);
    } else {
      SumCountsStep(votes, pollId, ids);
      TotalIsSumOfItemCounts(votes[1..], pollId, ids);
    }
  }

  lemma {:induction false} ZeroCounts(pollId: string, ids: seq<string>)
    ensures Sum(Counts([], pollId, ids)) == 0
  {
    if ids != [] {
      CountsTail([], pollId, ids);
      ZeroCounts(pollId, ids[1..]);
    }
  }

  lemma CountsTail(votes: seq<VoteRow>, pollId: string, ids: seq<string>)
    requires ids != []
    ensures Counts(votes, pollId, ids)[1..] == Counts(votes, pollId, ids[1..])
  {
    var a := Counts(votes, pollId, ids)[1..];
    var b := Counts(votes, pollId, ids[1..]);
    forall i | 0 <= i < |a| ensures a[i] == b[i] {
      assert ids[1..][i] == ids[i + 1];
    }
  }

  /** `PublicVoter(username=name or username, ...)`. */
  function PublicVoter(u: UserRow): (r: Voter)
    ensures r.id == u.id && r.name == u.name && r.avatarUrl == u.avatarUrl
    ensures r.username == (if u.name != "" then Some(u.name) else if u.username != "" then Some(u.username) else None)
  {
    Voter(u.id, if u.name != "" then Some(u.name) else if u.username != "" then Some(u.username) else None,
          u.name, u.avatarUrl)
  }

  /** One row of the join of the poll's votes with the users table. */
  datatype Joined = Joined(variantId: string, user: UserRow)

  /** The joined rows in vote-table order; a vote whose user no longer
      exists drops out of the join. */
  function JoinRows(votes: seq<VoteRow>, users: seq<UserRow>, pollId: string): (r: seq<Joined>)
    ensures |r| <= |votes|
    ensures forall j :: j in r <==>
      exists k :: 0 <= k < |votes| && votes[k].pollId == pollId
        && votes[k].variantId == j.variantId && FindUser(users, votes[k].userId) == Some(j.user)
  {
    if votes == [] then []
    else
      var rest := JoinRows(votes[1..], users, pollId);
      assert forall k :: 1 <= k < |votes| ==> votes[k] == votes[1..][k - 1];
      var u := FindUser(users, votes[0].userId);
      (if votes[0].pollId == pollId && u.Some? then [Joined(votes[0].variantId, u.value)] else []) + rest
  }

  /** `voter_map[variantId]`: the public voters of one variant, in join
      order. */
  function VotersOf(details: seq<Joined>, variantId: string): (r: seq<Voter>)
    ensures forall x :: x in r <==> exists j :: j in details && j.variantId == variantId && x == PublicVoter(j.user)
  {
    if details == [] then []
    else
      var init := details[..|details| - 1];
      var last := details[|details| - 1];
      assert details == init + [last];
      VotersOf(init, variantId) + (if last.variantId == variantId then [PublicVoter(last.user)] else [])
  }

  /** The result item of one variant: `voters` is absent for an anonymous
      poll and for a variant nobody voted for (`voter_map.get`). */
  function ItemFor(isAnonymous: bool, votes: seq<VoteRow>, details: seq<Joined>, pollId: string,
                   v: VariantRow): ResultItem
  {
    var listed := VotersOf(details, v.id);
    ResultItem(v.id, v.text, CountFor(votes, pollId, v.id),
               if isAnonymous || listed == [] then None else Some(listed))
  }

  function Items(isAnonymous: bool, votes: seq<VoteRow>, details: seq<Joined>, pollId: string,
                 vs: seq<VariantRow>): (r: seq<ResultItem>)
    ensures |r| == |vs|
    ensures forall i :: 0 <= i < |vs| ==> r[i] == ItemFor(isAnonymous, votes, details, pollId, vs[i])
  {
    seq(|vs|, i requires 0 <= i < |vs| => ItemFor(isAnonymous, votes, details, pollId, vs[i]))
  }

  /** The JSON payload of `get_results`. `total` is the sum over the
      `GROUP BY variant_id` counts, that is the number of the poll's vote
      rows; `totalVoters` is `COUNT(DISTINCT user_id)`. */
  function Results(polls: seq<PollRow>, variants: seq<VariantRow>, votes: seq<VoteRow>,
                   users: seq<UserRow>, pollId: string): (r: Result<VoteResult, Rejection>)
    ensures r.Err? <==> FindPoll(polls, pollId).None?
    ensures r.Err? ==> r.error == PollNotFound
  {
    match FindPoll(polls, pollId)
    case None => Err(PollNotFound)
    case Some(p) =>
      var vs := VariantsOf(variants, pollId);
      var details := JoinRows(votes, users, pollId);
      Ok(VoteResult(pollId, |Filter(votes, VoteOfPoll(pollId))|, Items(p.isAnonymous, votes, details, pollId, vs),
                    p.isAnonymous, |VoterIds(votes, pollId)|, 100.0))
  }

  /** One item per variant of the poll, in the poll's variant order, each
      carrying the number of vote rows for it; no voters on an anonymous
      poll; and `total` is the sum of the item counts whenever every vote
      of the poll names one of its variants. */
  lemma ResultsShape(polls: seq<PollRow>, variants: seq<VariantRow>, votes: seq<VoteRow>,
                     users: seq<UserRow>, pollId: string)
    requires FindPoll(polls, pollId).Some? && VariantIdsDistinct(variants)
    requires VotesReferToVariants(votes, variants)
    ensures var res := Results(polls, variants, votes, users, pollId).value;
      var vs := VariantsOf(variants, pollId);
      && |res.results| == |vs|
      && (forall i :: 0 <= i < |vs| ==> res.results[i].id == vs[i].id && res.results[i].text == vs[i].text
                                        && res.results[i].count == CountFor(votes, pollId, vs[i].id))
      && (res.isAnonymous ==> forall i :: 0 <= i < |vs| ==> res.results[i].voters.None?)
      && res.total == Sum(Counts(votes, pollId, VariantIds(vs)))
      && res.totalVoters == |VoterIds(votes, pollId)|
  {
    var vs := VariantsOf(variants, pollId);
    VariantsOfNoDupIds(variants, pollId);
    forall r | r in votes && r.pollId == pollId ensures r.variantId in VariantIds(vs) {
      var v :| v in variants && v.id == r.variantId && v.pollId == r.pollId;
      VariantIdIn(variants, pollId, v);
    }
    TotalIsSumOfItemCounts(votes, pollId, VariantIds(vs));
  }

  /** A variant row of the poll contributes its id to the poll's ids, and
      every such id comes from one. */
  lemma VariantIdIn(variants: seq<VariantRow>, pollId: string, v: VariantRow)
    requires v in variants && v.pollId == pollId
    ensures v.id in VariantIds(VariantsOf(variants, pollId))
  {
    var vs := VariantsOf(variants, pollId);
    var i :| 0 <= i < |vs| && vs[i] == v;
    assert VariantIds(vs)[i] == v.id;
  }

  lemma VariantOfId(variants: seq<VariantRow>, pollId: string, c: string)
    requires c in VariantIds(VariantsOf(variants, pollId))
    ensures exists v :: v in variants && v.id == c && v.pollId == pollId
  {
    var vs := VariantsOf(variants, pollId);
    var i :| 0 <= i < |vs| && VariantIds(vs)[i] == c;
    assert vs[i] in vs;
  }

  lemma VariantsOfNoDupIds(variants: seq<VariantRow>, pollId: string)
    requires VariantIdsDistinct(variants)
    ensures NoDup(VariantIds(VariantsOf(variants, pollId)))
  {
    var vs := VariantsOf(variants, pollId);
    FilterIsSubseq(variants, OfPoll(pollId));
    SubseqKeysDistinct(vs, variants, (v: VariantRow) => v.id);
  }

  /** One of the poll's vote rows for variant `vid` belongs to `u`, whose
      user row still exists. */
  predicate VotedFor(votes: seq<VoteRow>, users: seq<UserRow>, pollId: string, vid: string, u: UserRow) {
    exists k :: 0 <= k < |votes| && votes[k].pollId == pollId && votes[k].variantId == vid
      && FindUser(users, votes[k].userId) == Some(u)
  }

  /** The i-th result item of an existing poll. */
  function ItemAt(polls: seq<PollRow>, variants: seq<VariantRow>, votes: seq<VoteRow>,
                  users: seq<UserRow>, pollId: string, i: int): ResultItem
    requires FindPoll(polls, pollId).Some? && 0 <= i < |VariantsOf(variants, pollId)|
  {
    Results(polls, variants, votes, users, pollId).value.results[i]
  }

  /** On a public poll, everyone who voted for a variant is listed under
      it. */
  lemma VotersAreListed(polls: seq<PollRow>, variants: seq<VariantRow>, votes: seq<VoteRow>,
                        users: seq<UserRow>, pollId: string, i: int, u: UserRow)
    requires FindPoll(polls, pollId).Some? && !FindPoll(polls, pollId).value.isAnonymous
    requires 0 <= i < |VariantsOf(variants, pollId)|
    requires VotedFor(votes, users, pollId, VariantsOf(variants, pollId)[i].id, u)
    ensures ItemAt(polls, variants, votes, users, pollId, i).voters.Some?
    ensures PublicVoter(u) in ItemAt(polls, variants, votes, users, pollId, i).voters.value
  {
    var vid := VariantsOf(variants, pollId)[i].id;
    var details := JoinRows(votes, users, pollId);
    assert Joined(vid, u) in details;
    assert PublicVoter(u) in VotersOf(details, vid);
  }

  /** Everyone listed under a variant voted for it. */
  lemma ListedHaveVoted(polls: seq<PollRow>, variants: seq<VariantRow>, votes: seq<VoteRow>,
                        users: seq<UserRow>, pollId: string, i: int, x: Voter)
    requires FindPoll(polls, pollId).Some? && 0 <= i < |VariantsOf(variants, pollId)|
    requires ItemAt(polls, variants, votes, users, pollId, i).voters.Some?
    requires x in ItemAt(polls, variants, votes, users, pollId, i).voters.value
    ensures exists u :: VotedFor(votes, users, pollId, VariantsOf(variants, pollId)[i].id, u) && x == PublicVoter(u)
  {
    var vid := VariantsOf(variants, pollId)[i].id;
    var details := JoinRows(votes, users, pollId);
    var j :| j in details && j.variantId == vid && x == PublicVoter(j.user);
    assert VotedFor(votes, users, pollId, vid, j.user);
  }

  /** An anonymous poll lists no voters at all. */
  lemma AnonymousListsNobody(polls: seq<PollRow>, variants: seq<VariantRow>, votes: seq<VoteRow>,
                             users: seq<UserRow>, pollId: string, i: int)
    requires FindPoll(polls, pollId).Some? && FindPoll(polls, pollId).value.isAnonymous
    requires 0 <= i < |VariantsOf(variants, pollId)|
    ensures ItemAt(polls, variants, votes, users, pollId, i).voters.None?
  {
  }

  // ---------------------------------------------------------------------
  // POST /auth/register

  datatype RequestedRole = AsUser | AsAdmin

  datatype RegisterRequest = RegisterRequest(
    username: string, email: string, name: string, password: string, role: RequestedRole)

  function RoleName(r: RequestedRole): string {
    if r == AsAdmin then AdminRole else UserRole
  }

  predicate Conflicts(users: seq<UserRow>, body: RegisterRequest) {
    exists i :: 0 <= i < |users| && (users[i].email == body.email || users[i].username == body.username)
  }

  predicate AdminExists(users: seq<UserRow>) {
    exists i :: 0 <= i < |users| && users[i].role == AdminRole
  }

  /** The first failing check of `register`: a taken e-mail or username,
      then the admin gate. `adminSecret` is the `ADMIN_SECRET` setting and
      `adminToken` the `X-Admin-Token` header. */
  function RegisterCheck(users: seq<UserRow>, body: RegisterRequest,
                         adminToken: Option<string>, adminSecret: Option<string>): (r: Option<Rejection>)
    ensures Conflicts(users, body) ==> r == Some(AlreadyExists)
    ensures body.role == AsUser ==> (r == None <==> !Conflicts(users, body))
  {
    if Conflicts(users, body) then Some(AlreadyExists)
    else if body.role == AsAdmin then
      if Truthy(adminSecret) then
        if adminToken != adminSecret then Some(AdminTokenInvalid) else None
      else if AdminExists(users) then Some(AdminRegistrationDisabled)
      else None
    else None
  }

  /** The admin gate: with a secret configured, an admin registers exactly
      when the token matches it; without one, exactly while no admin exists. */
  lemma AdminGate(users: seq<UserRow>, body: RegisterRequest,
                  adminToken: Option<string>, adminSecret: Option<string>)
    requires body.role == AsAdmin && !Conflicts(users, body)
    ensures Truthy(adminSecret) ==>
      (RegisterCheck(users, body, adminToken, adminSecret) == None <==> adminToken == adminSecret)
    ensures !Truthy(adminSecret) ==>
      (RegisterCheck(users, body, adminToken, adminSecret) == None <==> !AdminExists(users))
    ensures RegisterCheck(users, body, adminToken, adminSecret).Some? ==>
      RegisterCheck(users, body, adminToken, adminSecret).value.Status() == 403
  {
  }

  // ---------------------------------------------------------------------
  // DELETE /polls/{poll_id}

  /** The checks of `delete_poll`: the poll must exist, then the caller must
      be identified by `X-User-Id` and be an admin. */
  function DeleteCheck(polls: seq<PollRow>, users: seq<UserRow>, pollId: string,
                       xUserId: Option<string>): (r: Option<Rejection>)
    ensures r == None <==>
      FindPoll(polls, pollId).Some? && Truthy(xUserId)
      && FindUser(users, xUserId.value).Some? && FindUser(users, xUserId.value).value.role == AdminRole
  {
    if FindPoll(polls, pollId).None? then Some(PollNotFound)
    else if !Truthy(xUserId) then Some(MissingUserContext)
    else
      var user := FindUser(users, xUserId.value);
      if user.None? then Some(InvalidUser)
      else if user.value.role != AdminRole then Some(Forbidden)
      else None
  }
}

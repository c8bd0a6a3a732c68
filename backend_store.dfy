/** The server's request handlers over its four tables
    (backend/app.py): each handler is a method of `Store` that runs the
    checks of module Rules and then updates the tables step by step, as the
    handler does through its database session. Generated uuids and the
    password hash are inputs of the methods. */
module Backend {
  import opened Base
  import opened ApiTypes
  import opened Tables
  import opened Rules
  import opened Usernames

  /** The variant rows `create_poll` adds, one per label in input order. */
  function NewVariantRows(pollId: string, ids: seq<string>, labels: seq<string>): (r: seq<VariantRow>)
    requires |ids| == |labels|
    ensures |r| == |ids|
    ensures forall i :: 0 <= i < |ids| ==> r[i] == VariantRow(ids[i], pollId, labels[i])
  {
    seq(|ids|, i requires 0 <= i < |ids| => VariantRow(ids[i], pollId, labels[i]))
  }

  function OtherPoll(pollId: string): PollRow -> bool {
    (p: PollRow) => p.id != pollId
  }

  function VariantOfOtherPoll(pollId: string): VariantRow -> bool {
    (v: VariantRow) => v.pollId != pollId
  }

  function VoteOfOtherPoll(pollId: string): VoteRow -> bool {
    (r: VoteRow) => r.pollId != pollId
  }

  /** The row `register` stores. */
  function NewUserRow(body: RegisterRequest, id: string, passwordHash: string): UserRow {
    UserRow(id, body.email, body.name, RoleName(body.role), body.username, passwordHash, None)
  }

  /** `serialize_user_model`. */
  function ApiUser(u: UserRow): (r: User)
    ensures r.id == u.id && r.email == u.email && r.role == u.role && r.avatarUrl == u.avatarUrl
    ensures r.username == Some(u.username)
  {
    User(u.id, u.email, u.name, u.role, Some(u.username), u.avatarUrl)
  }

  /** The users table after the start-up username maintenance. */
  function Maintained(users: seq<UserRow>): (r: seq<UserRow>)
    ensures |r| == |users|
  {
    var backfilled := BackfillAll(users, PendingIds(users));
    DedupAll(backfilled, DupNames(backfilled))
  }

  /** After the maintenance, only usernames have changed, every user has a
      username, and no username is shared. */
  lemma MaintainedSpec(users: seq<UserRow>)
    requires UserIdsDistinct(users)
    ensures SameButUsernames(users, Maintained(users))
    ensures forall i :: 0 <= i < |users| ==> Maintained(users)[i].username != ""
    ensures forall n :: !Shared(Maintained(users), n)
  {
    var backfilled := BackfillAll(users, PendingIds(users));
    BackfillUsernamesSpec(users);
    assert UserIdsDistinct(backfilled);
    DedupAllEffect(backfilled, DupNames(backfilled));
    DedupAllNonEmpty(backfilled, DupNames(backfilled));
    SameButUsernamesTrans(users, backfilled, Maintained(users));
  }

  /** The schema's keys: primary keys are distinct, the vote table is
      unique on (poll, variant, user), variants belong to existing polls
      and every vote names a variant of its own poll. The users table's
      unique e-mail and username columns are not part of it. */
  predicate TablesValid(polls: seq<PollRow>, variants: seq<VariantRow>, votes: seq<VoteRow>, users: seq<UserRow>) {
    && PollIdsDistinct(polls)
    && VariantIdsDistinct(variants)
    && UserIdsDistinct(users)
    && NoDup(votes)
    && VariantsReferToPolls(variants, polls)
    && VotesReferToVariants(votes, variants)
  }

  lemma RenamingKeepsValid(polls: seq<PollRow>, variants: seq<VariantRow>, votes: seq<VoteRow>,
                           users: seq<UserRow>, users': seq<UserRow>)
    requires TablesValid(polls, variants, votes, users) && SameButUsernames(users, users')
    ensures TablesValid(polls, variants, votes, users')
  {
  }

  /** Adding a poll with a fresh id and its variants with fresh ids keeps
      the keys, and the new poll owns exactly the new variants. */
  lemma CreateKeepsValid(polls: seq<PollRow>, variants: seq<VariantRow>, votes: seq<VoteRow>,
                         users: seq<UserRow>, row: PollRow, added: seq<VariantRow>)
    requires TablesValid(polls, variants, votes, users)
    requires forall i :: 0 <= i < |polls| ==> polls[i].id != row.id
    requires forall i, j :: 0 <= i < |variants| && 0 <= j < |added| ==> variants[i].id != added[j].id
    requires VariantIdsDistinct(added)
    requires forall j :: 0 <= j < |added| ==> added[j].pollId == row.id
    ensures TablesValid(polls + [row], variants + added, votes, users)
    ensures VariantsOf(variants + added, row.id) == added
  {
    FilterAppend(variants, added, OfPoll(row.id));
    forall v | v in variants ensures !OfPoll(row.id)(v) {
      var i :| 0 <= i < |polls| && polls[i].id == v.pollId;
    }
    FilterAllFalse(variants, OfPoll(row.id));
    FilterAllTrue(added, OfPoll(row.id));
    assert [] + added == added;
    var polls' := polls + [row];
    var variants' := variants + added;
    forall i, j | 0 <= i < j < |variants'| ensures variants'[i].id != variants'[j].id {
      if j >= |variants| {
        assert variants'[j] == added[j - |variants|];
        if i >= |variants| {
          assert variants'[i] == added[i - |variants|];
        }
      }
    }
    forall v | v in variants' ensures exists i :: 0 <= i < |polls'| && polls'[i].id == v.pollId {
      if v in variants {
        var i :| 0 <= i < |polls| && polls[i].id == v.pollId;
        assert polls'[i] == polls[i];
      } else {
        assert polls'[|polls|].id == row.id;
      }
    }
  }

  /** Replacing a ballot by valid choices keeps the keys. */
  lemma VoteKeepsValid(polls: seq<PollRow>, variants: seq<VariantRow>, votes: seq<VoteRow>,
                       users: seq<UserRow>, pollId: string, userId: string, unique: seq<string>)
    requires TablesValid(polls, variants, votes, users) && NoDup(unique)
    requires forall c :: c in unique ==> c in VariantIds(VariantsOf(variants, pollId))
    ensures TablesValid(polls, variants, ReplaceBallot(votes, pollId, userId, unique), users)
  {
    ReplaceBallotNoDup(votes, pollId, userId, unique);
    var after := ReplaceBallot(votes, pollId, userId, unique);
    var added := BallotRows(pollId, userId, unique);
    forall r | r in after ensures exists v :: v in variants && v.id == r.variantId && v.pollId == r.pollId {
      if r !in votes {
        var k :| 0 <= k < |added| && added[k] == r;
        VariantOfId(variants, pollId, unique[k]);
      }
    }
  }

  /** Removing a poll with its variants and votes keeps the keys. */
  lemma DeleteKeepsValid(polls: seq<PollRow>, variants: seq<VariantRow>, votes: seq<VoteRow>,
                         users: seq<UserRow>, pollId: string)
    requires TablesValid(polls, variants, votes, users)
    ensures TablesValid(Filter(polls, OtherPoll(pollId)), Filter(variants, VariantOfOtherPoll(pollId)),
                        Filter(votes, VoteOfOtherPoll(pollId)), users)
  {
    DeleteKeepsKeys(polls, variants, votes, pollId);
    DeleteKeepsVariantRefs(polls, variants, pollId);
    DeleteKeepsVoteRefs(variants, votes, pollId);
  }

  lemma DeleteKeepsKeys(polls: seq<PollRow>, variants: seq<VariantRow>, votes: seq<VoteRow>, pollId: string)
    requires PollIdsDistinct(polls) && VariantIdsDistinct(variants) && NoDup(votes)
    ensures PollIdsDistinct(Filter(polls, OtherPoll(pollId)))
    ensures VariantIdsDistinct(Filter(variants, VariantOfOtherPoll(pollId)))
    ensures NoDup(Filter(votes, VoteOfOtherPoll(pollId)))
  {
    FilterIsSubseq(polls, OtherPoll(pollId));
    SubseqKeysDistinct(Filter(polls, OtherPoll(pollId)), polls, (p: PollRow) => p.id);
    FilterIsSubseq(variants, VariantOfOtherPoll(pollId));
    SubseqKeysDistinct(Filter(variants, VariantOfOtherPoll(pollId)), variants, (v: VariantRow) => v.id);
    FilterNoDup(votes, VoteOfOtherPoll(pollId));
  }

  lemma DeleteKeepsVariantRefs(polls: seq<PollRow>, variants: seq<VariantRow>, pollId: string)
    requires VariantsReferToPolls(variants, polls)
    ensures VariantsReferToPolls(Filter(variants, VariantOfOtherPoll(pollId)), Filter(polls, OtherPoll(pollId)))
  {
    var keptPolls := Filter(polls, OtherPoll(pollId));
    forall v | v in Filter(variants, VariantOfOtherPoll(pollId))
      ensures exists i :: 0 <= i < |keptPolls| && keptPolls[i].id == v.pollId
    {
      var i :| 0 <= i < |polls| && polls[i].id == v.pollId;
      assert polls[i] in keptPolls;
      var k :| 0 <= k < |keptPolls| && keptPolls[k] == polls[i];
    }
  }

  lemma DeleteKeepsVoteRefs(variants: seq<VariantRow>, votes: seq<VoteRow>, pollId: string)
    requires VotesReferToVariants(votes, variants)
    ensures VotesReferToVariants(Filter(votes, VoteOfOtherPoll(pollId)), Filter(variants, VariantOfOtherPoll(pollId)))
  {
    forall r | r in Filter(votes, VoteOfOtherPoll(pollId))
      ensures exists v :: v in Filter(variants, VariantOfOtherPoll(pollId)) && v.id == r.variantId && v.pollId == r.pollId
    {
      var v :| v in variants && v.id == r.variantId && v.pollId == r.pollId;
      assert v in Filter(variants, VariantOfOtherPoll(pollId));
    }
  }

  class Store {
    var polls: seq<PollRow>
    var variants: seq<VariantRow>
    var votes: seq<VoteRow>
    var users: seq<UserRow>

    predicate Valid()
      reads this
    {
      TablesValid(polls, variants, votes, users)
    }

    constructor ()
      ensures Valid()
      ensures polls == [] && variants == [] && votes == [] && users == []
    {
      polls, variants, votes, users := [], [], [], [];
    }

    // -------------------------------------------------------------------
    // POST /polls (backend/app.py:536-598)

    method CreatePoll(body: PollCreate, now: int, pollId: string, variantIds: seq<string>)
      returns (r: Result<Poll, Rejection>)
      requires Valid()
      requires |variantIds| == |body.variants| && NoDup(variantIds)
      requires forall i :: 0 <= i < |polls| ==> polls[i].id != pollId
      requires forall i, j :: 0 <= i < |variants| && 0 <= j < |variantIds| ==> variants[i].id != variantIds[j]
      modifies this
      ensures Valid()
      ensures votes == old(votes) && users == old(users)
      ensures CreateCheck(body, old(users), now).Some? ==>
        && r == Err(CreateCheck(body, old(users), now).value)
        && polls == old(polls) && variants == old(variants)
      ensures CreateCheck(body, old(users), now).None? ==>
        && polls == old(polls) + [NewPollRow(body, pollId)]
        && variants == old(variants) + NewVariantRows(pollId, variantIds, body.variants)
        && VariantsOf(variants, pollId) == NewVariantRows(pollId, variantIds, body.variants)
        && r == Ok(ApiPoll(NewPollRow(body, pollId), VariantsOf(variants, pollId)))
    {
      var rejection := CreateCheck(body, users, now);
      if rejection.Some? {
        return Err(rejection.value);
      }
      var row := NewPollRow(body, pollId);
      var added: seq<VariantRow> := [];
      for i := 0 to |body.variants|
        invariant added == NewVariantRows(pollId, variantIds[..i], body.variants[..i])
      {
        assert NewVariantRows(pollId, variantIds[..i + 1], body.variants[..i + 1])
            == NewVariantRows(pollId, variantIds[..i], body.variants[..i])
               + [VariantRow(variantIds[i], pollId, body.variants[i])];
        added := added + [VariantRow(variantIds[i], pollId, body.variants[i])];
      }
      assert variantIds[..|body.variants|] == variantIds && body.variants[..|body.variants|] == body.variants;
      CreateKeepsValid(polls, variants, votes, users, row, added);
      polls := polls + [row];
      variants := variants + added;
      r := Ok(ApiPoll(row, added));
    }

    // -------------------------------------------------------------------
    // POST /polls/{poll_id}/vote (backend/app.py:620-670)

    method Vote(pollId: string, req: VoteRequest, now: int) returns (rejection: Option<Rejection>)
      requires Valid()
      modifies this
      ensures Valid()
      ensures rejection == VoteCheck(old(polls), old(variants), old(users), pollId, req, now)
      ensures polls == old(polls) && variants == old(variants) && users == old(users)
      ensures rejection.Some? ==> votes == old(votes)
      ensures rejection.None? ==> votes == ReplaceBallot(old(votes), pollId, req.userId, Unique(req.choices))
    {
      var ps, vrs, vts, us := polls, variants, votes, users;
      rejection := VoteCheck(ps, vrs, us, pollId, req, now);
      if rejection.Some? {
        return;
      }
      VoteAcceptedIff(ps, vrs, us, pollId, req, now);
      var unique := Unique(req.choices);
      // delete the user's previous rows for this poll
      var kept := Filter(vts, NotBallotRow(pollId, req.userId));
      var rows := kept;
      // and add one row per unique choice
      for i := 0 to |unique|
        invariant rows == kept + BallotRows(pollId, req.userId, unique[..i])
      {
        assert BallotRows(pollId, req.userId, unique[..i + 1])
            == BallotRows(pollId, req.userId, unique[..i]) + [VoteRow(pollId, unique[i], req.userId)];
        rows := rows + [VoteRow(pollId, unique[i], req.userId)];
      }
      assert unique[..|unique|] == unique;
      VoteKeepsValid(ps, vrs, vts, us, pollId, req.userId, unique);
      votes := rows;
    }

    // -------------------------------------------------------------------
    // GET /polls/{poll_id}/results (backend/app.py:673-740)

    /** Builds `voter_map` and `items` in loops, exactly as the handler
        does, and so returns the payload `Results` specifies. */
    method GetResults(pollId: string) returns (r: Result<VoteResult, Rejection>)
      ensures r == Results(polls, variants, votes, users, pollId)
    {
      var ps, vrs, vts, us := polls, variants, votes, users;
      var poll := FindPoll(ps, pollId);
      if poll.None? {
        return Err(PollNotFound);
      }
      var p := poll.value;
      var vs := VariantsOf(vrs, pollId);
      var total := |Filter(vts, VoteOfPoll(pollId))|;
      var voterCount := |VoterIds(vts, pollId)|;
      var details := JoinRows(vts, us, pollId);
      var voterMap: map<string, seq<Voter>> := map[];
      if !p.isAnonymous {
        voterMap := VoterMap(details);
      }
      ghost var all := Items(p.isAnonymous, vts, details, pollId, vs);
      var items: seq<ResultItem> := [];
      for i := 0 to |vs|
        invariant items == all[..i]
      {
        var v := vs[i];
        var listed := if p.isAnonymous || v.id !in voterMap then None else Some(voterMap[v.id]);
        var item := ResultItem(v.id, v.text, CountFor(vts, pollId, v.id), listed);
        assert item == all[i];
        assert all[..i + 1] == all[..i] + [all[i]];
        items := items + [item];
      }
      assert all[..|vs|] == all;
      r := Ok(VoteResult(pollId, total, items, p.isAnonymous, voterCount, 100.0));
    }

    /** One more joined row adds its voter to its own variant's list only. */
    static lemma VotersOfSnoc(details: seq<Joined>, i: int)
      requires 0 <= i < |details|
      ensures forall vid :: (VotersOf(details[..i + 1], vid) ==
        VotersOf(details[..i], vid) + (if details[i].variantId == vid then [PublicVoter(details[i].user)] else []))
    {
      assert details[..i + 1][..i] == details[..i];
      assert details[..i + 1][i] == details[i];
    }

    /** The `voter_map` loop: each variant id with at least one joined row
        maps to its voters in join order. */
    method VoterMap(details: seq<Joined>) returns (voterMap: map<string, seq<Voter>>)
      ensures forall vid :: vid in voterMap <==> VotersOf(details, vid) != []
      ensures forall vid :: vid in voterMap ==> voterMap[vid] == VotersOf(details, vid)
    {
      voterMap := map[];
      for i := 0 to |details|
        invariant forall vid :: vid in voterMap <==> VotersOf(details[..i], vid) != []
        invariant forall vid :: vid in voterMap ==> voterMap[vid] == VotersOf(details[..i], vid)
      {
        var d := details[i];
        VotersOfSnoc(details, i);
        var prior := if d.variantId in voterMap then voterMap[d.variantId] else [];
        voterMap := voterMap[d.variantId := prior + [PublicVoter(d.user)]];
      }
      assert details[..|details|] == details;
    }

    // -------------------------------------------------------------------
    // DELETE /polls/{poll_id} (backend/app.py:770-788)

    method DeletePoll(pollId: string, xUserId: Option<string>) returns (rejection: Option<Rejection>)
      requires Valid()
      modifies this
      ensures Valid()
      ensures rejection == DeleteCheck(old(polls), old(users), pollId, xUserId)
      ensures users == old(users)
      ensures rejection.Some? ==> polls == old(polls) && variants == old(variants) && votes == old(votes)
      ensures rejection.None? ==>
        && polls == Filter(old(polls), OtherPoll(pollId))
        && variants == Filter(old(variants), VariantOfOtherPoll(pollId))
        && votes == Filter(old(votes), VoteOfOtherPoll(pollId))
    {
      rejection := DeleteCheck(polls, users, pollId, xUserId);
      if rejection.Some? {
        return;
      }
      // the poll, and by cascade its variants and votes
      DeleteKeepsValid(polls, variants, votes, users, pollId);
      polls := Filter(polls, OtherPoll(pollId));
      variants := Filter(variants, VariantOfOtherPoll(pollId));
      votes := Filter(votes, VoteOfOtherPoll(pollId));
    }

    // -------------------------------------------------------------------
    // Username maintenance (backend/app.py:137-200)

    /** The inner `while` loop of both passes: starting at suffix `start`,
        the first suffix whose candidate no other user holds. */
    method FreeSuffix(id: string, base: string, start: nat) returns (k: nat)
      ensures k >= start && !HeldByOther(users, id, Candidate(base, k))
      ensures forall j :: start <= j < k ==> HeldByOther(users, id, Candidate(base, j))
      ensures k == FirstFree(users, id, base, start)
    {
      k := start;
      while HeldByOther(users, id, Candidate(base, k))
        invariant k >= start
        invariant forall j :: start <= j < k ==> HeldByOther(users, id, Candidate(base, j))
        invariant FirstFree(users, id, base, k) == FirstFree(users, id, base, start)
        decreases Pow10(MaxLen(users)) - k
      {
        TakenSuffixBound(users, id, base, k);
        k := k + 1;
      }
    }

    method BackfillUsernames()
      requires Valid()
      modifies this
      ensures Valid()
      ensures polls == old(polls) && variants == old(variants) && votes == old(votes)
      ensures users == BackfillAll(old(users), PendingIds(old(users)))
    {
      var rows := PendingIds(users);
      for i := 0 to |rows|
        invariant BackfillAll(users, rows[i..]) == BackfillAll(old(users), rows)
        invariant SameButUsernames(old(users), users)
        invariant polls == old(polls) && variants == old(variants) && votes == old(votes)
      {
        var id := rows[i];
        assert rows[i..][1..] == rows[i + 1..];
        BackfillOneFrame(users, id);
        SameButUsernamesTrans(old(users), users, BackfillOne(users, id));
        var row := FindUser(users, id);
        if row.Some? {
          var base := BaseName(row.value);
          var k := FreeSuffix(id, base, 0);
          users := SetUsername(users, id, Candidate(base, k));
        }
      }
      assert rows[|rows|..] == [];
      RenamingKeepsValid(polls, variants, votes, old(users), users);
    }

    method ResolveDuplicateUsernames()
      requires Valid()
      modifies this
      ensures Valid()
      ensures polls == old(polls) && variants == old(variants) && votes == old(votes)
      ensures users == DedupAll(old(users), DupNames(old(users)))
    {
      var dups := DupNames(users);
      for i := 0 to |dups|
        invariant DedupAll(users, dups[i..]) == DedupAll(old(users), dups)
        invariant SameButUsernames(old(users), users)
        invariant polls == old(polls) && variants == old(variants) && votes == old(votes)
      {
        var name := dups[i];
        assert dups[i..][1..] == dups[i + 1..];
        DedupOneFrame(users, name);
        SameButUsernamesTrans(old(users), users, DedupOne(users, name));
        var holders := Holders(users, name);
        if |holders| > 1 {
          RenameHolders(name, holders);
        }
      }
      assert dups[|dups|..] == [];
      RenamingKeepsValid(polls, variants, votes, old(users), users);
    }

    /** The loop over one duplicated name's holders after the first, in id
        order, the one at position t trying suffixes from t upwards. */
    method RenameHolders(name: string, holders: seq<string>)
      requires |holders| > 1
      modifies this
      ensures polls == old(polls) && variants == old(variants) && votes == old(votes)
      ensures users == RenameRest(old(users), name, holders[1..], 1)
    {
      for t := 1 to |holders|
        invariant RenameRest(users, name, holders[t..], t) == RenameRest(old(users), name, holders[1..], 1)
        invariant polls == old(polls) && variants == old(variants) && votes == old(votes)
      {
        assert holders[t..][0] == holders[t] && holders[t..][1..] == holders[t + 1..];
        var k := FreeSuffix(holders[t], name, t);
        var next := SetUsername(users, holders[t], Candidate(name, k));
        assert RenameRest(users, name, holders[t..], t) == RenameRest(next, name, holders[t + 1..], t + 1);
        users := next;
      }
      assert holders[|holders|..] == [];
    }

    /** The username part of `ensure_user_columns`: backfill, then
        resolve duplicates. */
    method MaintainUsernames()
      requires Valid()
      modifies this
      ensures Valid()
      ensures polls == old(polls) && variants == old(variants) && votes == old(votes)
      ensures users == Maintained(old(users))
      ensures SameButUsernames(old(users), users)
      ensures forall i :: 0 <= i < |users| ==> users[i].username != ""
      ensures forall n :: !Shared(users, n)
    {
      MaintainedSpec(users);
      BackfillUsernames();
      ResolveDuplicateUsernames();
    }

    // -------------------------------------------------------------------
    // POST /auth/register (backend/app.py:342-385)

    method Register(body: RegisterRequest, adminToken: Option<string>, adminSecret: Option<string>,
                    newId: string, passwordHash: string) returns (r: Result<User, Rejection>)
      requires Valid()
      requires forall i :: 0 <= i < |users| ==> users[i].id != newId
      modifies this
      ensures Valid()
      ensures polls == old(polls) && variants == old(variants) && votes == old(votes)
      ensures RegisterCheck(Maintained(old(users)), body, adminToken, adminSecret).Some? ==>
        && r == Err(RegisterCheck(Maintained(old(users)), body, adminToken, adminSecret).value)
        && users == Maintained(old(users))
      ensures RegisterCheck(Maintained(old(users)), body, adminToken, adminSecret).None? ==>
        && users == Maintained(old(users)) + [NewUserRow(body, newId, passwordHash)]
        && r == Ok(ApiUser(NewUserRow(body, newId, passwordHash)))
    {
      MaintainUsernames();
      var rejection := RegisterCheck(users, body, adminToken, adminSecret);
      if rejection.Some? {
        return Err(rejection.value);
      }
      var row := NewUserRow(body, newId, passwordHash);
      assert forall i :: 0 <= i < |users| ==> users[i].id == old(users)[i].id;
      users := users + [row];
      r := Ok(ApiUser(row));
    }
  }
}

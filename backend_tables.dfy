/** The server's four tables (users, polls, poll_variants, votes) as rows,
    and the lookups the request handlers run against them. A table is a
    sequence of rows in insertion order; a lookup by primary key takes the
    first match. */
module Tables {
  import opened Base
  import opened ApiTypes

  datatype PollRow = PollRow(
    id: string,
    title: string,
    description: Option<string>,
    deadline: Option<int>,
    kind: PollKind,
    maxSelections: int,
    isAnonymous: bool,
    ownerUserId: Option<string>)

  datatype VariantRow = VariantRow(id: string, pollId: string, text: string)

  /** One chosen variant of one user in one poll; the table is unique on the
      whole triple. */
  datatype VoteRow = VoteRow(pollId: string, variantId: string, userId: string)

  /** A user row. `username` and `email` are "" when the column is NULL or
      empty: the maintenance code treats both alike. */
  datatype UserRow = UserRow(
    id: string,
    email: string,
    name: string,
    role: string,
    username: string,
    passwordHash: string,
    avatarUrl: Option<string>)

  function FindPoll(polls: seq<PollRow>, id: string): (r: Option<PollRow>)
    ensures r.Some? <==> exists i :: 0 <= i < |polls| && polls[i].id == id
    ensures r.Some? ==> r.value in polls && r.value.id == id
  {
    if polls == [] then None
    else if polls[0].id == id then Some(polls[0])
    else FindPoll(polls[1..], id)
  }

  function FindUser(users: seq<UserRow>, id: string): (r: Option<UserRow>)
    ensures r.Some? <==> exists i :: 0 <= i < |users| && users[i].id == id
    ensures r.Some? ==> r.value in users && r.value.id == id
  {
    if users == [] then None
    else if users[0].id == id then Some(users[0])
    else FindUser(users[1..], id)
  }

  /** The primary key of the users table. */
  predicate UserIdsDistinct(users: seq<UserRow>) {
    forall i, j :: 0 <= i < j < |users| ==> users[i].id != users[j].id
  }

  predicate PollIdsDistinct(polls: seq<PollRow>) {
    forall i, j :: 0 <= i < j < |polls| ==> polls[i].id != polls[j].id
  }

  predicate VariantIdsDistinct(variants: seq<VariantRow>) {
    forall i, j :: 0 <= i < j < |variants| ==> variants[i].id != variants[j].id
  }

  /** The foreign key `poll_variants.poll_id -> polls.id`. */
  predicate VariantsReferToPolls(variants: seq<VariantRow>, polls: seq<PollRow>) {
    forall v :: v in variants ==> exists i :: 0 <= i < |polls| && polls[i].id == v.pollId
  }

  /** Every vote row names a variant of its own poll. */
  predicate VotesReferToVariants(votes: seq<VoteRow>, variants: seq<VariantRow>) {
    forall r :: r in votes ==> exists v :: v in variants && v.id == r.variantId && v.pollId == r.pollId
  }

  predicate UserExists(users: seq<UserRow>, id: string) {
    exists i :: 0 <= i < |users| && users[i].id == id
  }

  function OfPoll(pollId: string): VariantRow -> bool {
    (v: VariantRow) => v.pollId == pollId
  }

  /** `poll.variants`: the poll's variants in insertion order. */
  function VariantsOf(variants: seq<VariantRow>, pollId: string): (r: seq<VariantRow>)
    ensures forall v :: v in r <==> v in variants && v.pollId == pollId
  {
    Filter(variants, OfPoll(pollId))
  }

  function VariantIds(vs: seq<VariantRow>): (r: seq<string>)
    ensures |r| == |vs| && forall i :: 0 <= i < |vs| ==> r[i] == vs[i].id
  {
    seq(|vs|, i requires 0 <= i < |vs| => vs[i].id)
  }

  /** The API form of a stored poll (the `Poll` response model). */
  function ApiPoll(p: PollRow, vs: seq<VariantRow>): (r: Poll)
    ensures r.id == p.id && r.kind == p.kind && r.maxSelections == Some(p.maxSelections)
    ensures r.deadline == p.deadline && r.isAnonymous == p.isAnonymous
    ensures r.title == p.title && r.description == p.description && r.ownerUserId == p.ownerUserId
    ensures |r.variants| == |vs|
    ensures forall i :: 0 <= i < |vs| ==> r.variants[i] == Variant(vs[i].id, vs[i].text)
  {
    Poll(p.id, p.title, p.description, p.deadline, p.kind,
         seq(|vs|, i requires 0 <= i < |vs| => Variant(vs[i].id, vs[i].text)),
         Some(p.maxSelections), p.isAnonymous, p.ownerUserId)
  }

  /** Rows belonging to one user's ballot in one poll. */
  function IsBallotRow(pollId: string, userId: string): VoteRow -> bool {
    (r: VoteRow) => r.pollId == pollId && r.userId == userId
  }

  function NotBallotRow(pollId: string, userId: string): VoteRow -> bool {
    (r: VoteRow) => !(r.pollId == pollId && r.userId == userId)
  }

  function VoteOfPoll(pollId: string): VoteRow -> bool {
    (r: VoteRow) => r.pollId == pollId
  }

  /** The variants one user has chosen in one poll, in row order. */
  function Ballot(votes: seq<VoteRow>, pollId: string, userId: string): (r: seq<string>)
    ensures |r| <= |votes|
  {
    if votes == [] then []
    else (if votes[0].pollId == pollId && votes[0].userId == userId then [votes[0].variantId] else [])
         + Ballot(votes[1..], pollId, userId)
  }

  /** The `WHERE poll_id = ? AND variant_id = ?` condition on vote rows. */
  function IsVoteFor(pollId: string, variantId: string): VoteRow -> bool {
    (r: VoteRow) => r.pollId == pollId && r.variantId == variantId
  }

  /** The number of vote rows for one variant of one poll (the SQL
      `COUNT ... GROUP BY variant_id`); absent groups count 0. */
  function CountFor(votes: seq<VoteRow>, pollId: string, variantId: string): (r: nat)
    ensures r <= |votes|
    ensures r == |Filter(votes, IsVoteFor(pollId, variantId))|
    ensures r == 0 <==> forall k :: 0 <= k < |votes| ==> !IsVoteFor(pollId, variantId)(votes[k])
  {
    if votes == [] then 0
    else (if votes[0].pollId == pollId && votes[0].variantId == variantId then 1 else 0)
         + CountFor(votes[1..], pollId, variantId)
  }

  /** The distinct users with at least one vote row in the poll. */
  function VoterIds(votes: seq<VoteRow>, pollId: string): set<string> {
    set r | r in votes && r.pollId == pollId :: r.userId
  }
}

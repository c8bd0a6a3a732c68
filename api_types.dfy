/** The JSON records exchanged between the server and the browser client:
    polls with their variants, vote results and users. Instants (deadlines,
    "now") are integers on one time line; the ISO-8601 text form is not
    modelled. An absent optional field (`null`, `undefined` or a missing key)
    is `None`. */
module ApiTypes {
  import opened Base

  datatype PollKind = Single | Multi

  /** `text` is the JSON field `label` (a reserved word in Dafny). */
  datatype Variant = Variant(id: string, text: string)

  /** A poll as the server returns it and the client holds it. The client
      reads `maxSelections` through `?? 1`, so it is optional here. */
  datatype Poll = Poll(
    id: string,
    title: string,
    description: Option<string>,
    deadline: Option<int>,
    kind: PollKind,
    variants: seq<Variant>,
    maxSelections: Option<int>,
    isAnonymous: bool,
    ownerUserId: Option<string>)

  /** One voter shown next to a result row of a public poll. */
  datatype Voter = Voter(id: string, username: Option<string>, name: string, avatarUrl: Option<string>)

  datatype ResultItem = ResultItem(id: string, text: string, count: int, voters: Option<seq<Voter>>)

  datatype VoteResult = VoteResult(
    pollId: string,
    total: int,
    results: seq<ResultItem>,
    isAnonymous: bool,
    totalVoters: int,
    participationRate: real)

  datatype VoteRequest = VoteRequest(userId: string, choices: seq<string>)

  datatype User = User(
    id: string,
    email: string,
    name: string,
    role: string,
    username: Option<string>,
    avatarUrl: Option<string>)

  const AdminRole: string := "admin"
  const UserRole: string := "user"
}

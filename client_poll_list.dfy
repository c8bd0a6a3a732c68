/** The poll list (src/components/PollList.tsx): each poll's status from
    its deadline and the clock, the filter buttons, the removal of a
    deleted poll, and who is offered the delete action. */
module ClientPollList {
  import opened Base
  import opened ApiTypes

  datatype PollState = Completed | Active | Upcoming

  /** `getPollStatus(poll).state`. */
  function PollStatus(p: Poll, now: int): PollState {
    if p.deadline.Some? && now > p.deadline.value then Completed
    else if p.deadline.Some? && now < p.deadline.value then Active
    else Upcoming
  }

  /** A poll is completed after its deadline, active before it, and
      upcoming without a deadline or at the deadline instant itself. */
  lemma PollStatusCases(p: Poll, now: int)
    ensures PollStatus(p, now) == Completed <==> p.deadline.Some? && now > p.deadline.value
    ensures PollStatus(p, now) == Active <==> p.deadline.Some? && now < p.deadline.value
    ensures PollStatus(p, now) == Upcoming <==> p.deadline.None? || now == p.deadline.value
  {
  }

  /** Time only moves a poll with a deadline from active to completed. */
  lemma StatusOverTime(p: Poll, now: int, later: int)
    requires now <= later
    ensures PollStatus(p, now) == Completed ==> PollStatus(p, later) == Completed
    ensures p.deadline.None? ==> PollStatus(p, later) == Upcoming
  {
  }

  datatype ListFilter = All | ActiveOnly | CompletedOnly

  function Keeps(f: ListFilter, now: int): Poll -> bool {
    (p: Poll) => match f
      case All => true
      case ActiveOnly => PollStatus(p, now) == Active
      case CompletedOnly => PollStatus(p, now) == Completed
  }

  /** `filteredPolls`. */
  function FilteredPolls(polls: seq<Poll>, f: ListFilter, now: int): seq<Poll> {
    Filter(polls, Keeps(f, now))
  }

  /** 'all' shows every poll; any filter shows polls of the list in list
      order; 'active' shows exactly the active ones and 'completed' exactly
      the completed ones, so upcoming polls appear only under 'all'. */
  lemma FilteredPollsSpec(polls: seq<Poll>, f: ListFilter, now: int)
    ensures f == All ==> FilteredPolls(polls, f, now) == polls
    ensures IsSubseq(FilteredPolls(polls, f, now), polls)
    ensures f == ActiveOnly ==>
      forall p :: p in FilteredPolls(polls, f, now) <==> p in polls && PollStatus(p, now) == Active
    ensures f == CompletedOnly ==>
      forall p :: p in FilteredPolls(polls, f, now) <==> p in polls && PollStatus(p, now) == Completed
    ensures forall p :: p in FilteredPolls(polls, f, now) && PollStatus(p, now) == Upcoming ==> f == All
  {
    if f == All {
      FilterAllTrue(polls, Keeps(f, now));
    }
    FilterIsSubseq(polls, Keeps(f, now));
  }

  function OtherId(pollId: string): Poll -> bool {
    (p: Poll) => p.id != pollId
  }

  /** `polls.filter(poll => poll.id !== pollId)`. */
  function WithoutPoll(polls: seq<Poll>, pollId: string): seq<Poll> {
    Filter(polls, OtherId(pollId))
  }

  /** Deleting removes exactly the polls with that id and keeps the rest in
      order; a missing id changes nothing. */
  lemma WithoutPollSpec(polls: seq<Poll>, pollId: string)
    ensures IsSubseq(WithoutPoll(polls, pollId), polls)
    ensures forall p :: p in WithoutPoll(polls, pollId) <==> p in polls && p.id != pollId
    ensures (forall i :: 0 <= i < |polls| ==> polls[i].id != pollId) ==> WithoutPoll(polls, pollId) == polls
  {
    FilterIsSubseq(polls, OtherId(pollId));
    if forall i :: 0 <= i < |polls| ==> polls[i].id != pollId {
      FilterAllTrue(polls, OtherId(pollId));
    }
  }

  /** The delete button is given to a logged-in admin only. */
  predicate DeleteOffered(user: Option<User>) {
    user.Some? && user.value.role == AdminRole
  }

  const LoadError: string := "Ошибка загрузки опросов"

  /** The component's state: the loaded polls, the filter, the loading
      flag and the load error. */
  class PollListState {
    var polls: seq<Poll>
    var filter: ListFilter
    var loading: bool
    var error: Option<string>

    constructor ()
      ensures polls == [] && filter == All && loading && error == None
    {
      polls, filter, loading, error := [], All, true, None;
    }

    /** The polls on screen at the instant `now`. */
    function Visible(now: int): seq<Poll>
      reads this
    {
      FilteredPolls(polls, filter, now)
    }

    /** `loadPolls`, given the server's answer (None when it fails). */
    method LoadPolls(fetched: Option<seq<Poll>>)
      modifies this
      ensures fetched.Some? ==> polls == fetched.value && error == None
      ensures fetched.None? ==> polls == old(polls) && error == Some(LoadError)
      ensures filter == old(filter) && !loading
    {
      loading := true;
      if fetched.Some? {
        polls := fetched.value;
        error := None;
      } else {
        error := Some(LoadError);
      }
      loading := false;
    }

    method SetFilter(f: ListFilter)
      modifies this
      ensures filter == f && polls == old(polls) && loading == old(loading) && error == old(error)
    {
      filter := f;
    }

    /** `handleDeletePoll`: `confirmed` is the answer to the confirm
        dialog, `deleted` whether the server call succeeded. */
    method DeletePoll(pollId: string, confirmed: bool, deleted: bool)
      modifies this
      ensures confirmed && deleted ==> polls == WithoutPoll(old(polls), pollId)
      ensures !(confirmed && deleted) ==> polls == old(polls)
      ensures filter == old(filter) && loading == old(loading) && error == old(error)
    {
      if !confirmed {
        return;
      }
      if deleted {
        polls := WithoutPoll(polls, pollId);
      }
    }
  }
}

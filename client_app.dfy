/** The browser client's voting screen (src/SurveyWireframeApp.tsx): the
    closed-poll test, the choice toggle, the pre-submit checks of the vote
    handler and the view changes of the select, navigation and user
    handlers. The React state is the fields of class `App`; each handler is
    a method that sets them as the handler's setters do, specified by a
    transition function on `Screen`, the value of all fields together. The
    clock, the logged-in user and the server's answers are inputs. */
module ClientApp {
  import opened Base
  import opened ApiTypes

  datatype View = LoginView | HomeView | PollView | SuccessView | ResultsView | OrganizerView | ProfileView

  /** `isPollClosed`: a poll without a deadline stays open; one with a
      deadline is closed from the deadline on. */
  predicate IsPollClosed(p: Poll, now: int) {
    p.deadline.Some? && p.deadline.value <= now
  }

  /** Once closed, a poll stays closed. */
  lemma ClosedMonotone(p: Poll, now: int, later: int)
    requires now <= later && IsPollClosed(p, now)
    ensures IsPollClosed(p, later)
  {
  }

  /** `poll.maxSelections ?? 1`. */
  function MaxSelections(p: Poll): int {
    if p.maxSelections.Some? then p.maxSelections.value else 1
  }

  function Without(variantId: string): string -> bool {
    (id: string) => id != variantId
  }

  // ---------------------------------------------------------------------
  // The choice toggle (the updater passed to setSelectedChoices)

  function Toggle(prev: seq<string>, variantId: string, p: Poll): (r: seq<string>)
    ensures p.kind == Single ==> r == [variantId]
    ensures p.kind == Multi && variantId in prev ==>
      variantId !in r && IsSubseq(r, prev) && forall x :: x in r <==> x in prev && x != variantId
    ensures p.kind == Multi && variantId !in prev && |prev| >= MaxSelections(p) ==> r == prev
    ensures p.kind == Multi && variantId !in prev && |prev| < MaxSelections(p) ==> r == prev + [variantId]
  {
    if p.kind == Multi then
      if variantId in prev then
        FilterIsSubseq(prev, Without(variantId));
        Filter(prev, Without(variantId))
      else if |prev| >= MaxSelections(p) then prev
      else prev + [variantId]
    else [variantId]
  }

  /** The most choices the poll's form lets a voter hold. */
  function Cap(p: Poll): int {
    if p.kind == Multi then MaxSelections(p) else 1
  }

  predicate WellFormedSelection(sel: seq<string>, p: Poll) {
    NoDup(sel) && |sel| <= Cap(p)
  }

  /** A toggle keeps a selection duplicate-free and within the cap. */
  lemma ToggleKeepsWellFormed(prev: seq<string>, variantId: string, p: Poll)
    requires WellFormedSelection(prev, p)
    ensures WellFormedSelection(Toggle(prev, variantId, p), p)
  {
    if p.kind == Multi && variantId in prev {
      FilterNoDup(prev, Without(variantId));
    } else if p.kind == Multi && |prev| < MaxSelections(p) {
      var r := prev + [variantId];
      forall i, j | 0 <= i < j < |r| ensures r[i] != r[j] {
        if j == |prev| {
          assert r[i] == prev[i];
        }
      }
    }
  }

  /** The selection after a series of toggles, oldest first. */
  function ToggleAll(sel: seq<string>, ids: seq<string>, p: Poll): seq<string>
    decreases |ids|
  {
    if ids == [] then sel else ToggleAll(Toggle(sel, ids[0], p), ids[1..], p)
  }

  /** Starting from a well-formed selection, every series of toggles keeps
      it duplicate-free and within the cap. */
  lemma {:induction false} ToggleAllKeepsWellFormed(sel: seq<string>, ids: seq<string>, p: Poll)
    requires WellFormedSelection(sel, p)
    ensures WellFormedSelection(ToggleAll(sel, ids, p), p)
    decreases |ids|
  {
    if ids != [] {
      ToggleKeepsWellFormed(sel, ids[0], p);
      ToggleAllKeepsWellFormed(Toggle(sel, ids[0], p), ids[1..], p);
    }
  }

  /** On a multi poll, toggling an unselected variant twice, when there is
      room for it, gives the selection back unchanged. */
  lemma ToggleTwiceRestores(prev: seq<string>, variantId: string, p: Poll)
    requires p.kind == Multi && variantId !in prev && |prev| < MaxSelections(p)
    ensures Toggle(Toggle(prev, variantId, p), variantId, p) == prev
  {
    FilterAppend(prev, [variantId], Without(variantId));
    FilterAllTrue(prev, Without(variantId));
    assert Filter([variantId], Without(variantId)) == [];
  }

  function VariantIdsOf(p: Poll): (r: seq<string>)
    ensures |r| == |p.variants| && forall i :: 0 <= i < |r| ==> r[i] == p.variants[i].id
  {
    seq(|p.variants|, i requires 0 <= i < |p.variants| => p.variants[i].id)
  }

  /** Toggling only the poll's own variants never selects anything else. */
  lemma {:induction false} ToggleAllStaysInPoll(sel: seq<string>, ids: seq<string>, p: Poll)
    requires forall x :: x in sel ==> x in VariantIdsOf(p)
    requires forall x :: x in ids ==> x in VariantIdsOf(p)
    ensures forall x :: x in ToggleAll(sel, ids, p) ==> x in VariantIdsOf(p)
    decreases |ids|
  {
    if ids != [] {
      var next := Toggle(sel, ids[0], p);
      assert ids[0] in ids;
      assert forall x :: x in ids[1..] ==> x in ids;
      ToggleAllStaysInPoll(next, ids[1..], p);
    }
  }

  // ---------------------------------------------------------------------
  // The vote handler's checks

  /** What `handleVote` does with the current poll, selection and user:
      nothing, an alert for a failed check, or the request it sends. */
  datatype VoteStep =
    | Ignored
    | RejectClosed
    | RejectNotOne
    | RejectTooMany(max: int)
    | RejectLoggedOut
    | Send(pollId: string, req: VoteRequest)

  function VoteGate(poll: Option<Poll>, selected: seq<string>, user: Option<User>, now: int): VoteStep {
    if poll.None? || |selected| == 0 then Ignored
    else if IsPollClosed(poll.value, now) then RejectClosed
    else if poll.value.kind != Multi && |selected| != 1 then RejectNotOne
    else if poll.value.kind == Multi && |selected| > MaxSelections(poll.value) then
      RejectTooMany(MaxSelections(poll.value))
    else if user.None? then RejectLoggedOut
    else Send(poll.value.id, VoteRequest(user.value.id, selected))
  }

  /** A vote is sent exactly when there is a poll, the selection is not
      empty, the poll is open, the selection's length fits the poll's mode
      and a user is logged in; the request carries that poll, that user
      and the selection as it is. */
  lemma VoteGateSendsIff(poll: Option<Poll>, selected: seq<string>, user: Option<User>, now: int)
    ensures VoteGate(poll, selected, user, now).Send? <==>
      && poll.Some? && |selected| > 0
      && !IsPollClosed(poll.value, now)
      && (poll.value.kind == Single ==> |selected| == 1)
      && (poll.value.kind == Multi ==> |selected| <= MaxSelections(poll.value))
      && user.Some?
    ensures VoteGate(poll, selected, user, now).Send? ==>
      VoteGate(poll, selected, user, now) == Send(poll.value.id, VoteRequest(user.value.id, selected))
  {
  }

  /** The checks run in the handler's order: a closed poll is reported
      before a bad count, a bad count (one choice for a single poll, the
      cap for a multi poll) before a missing user, and a missing user only
      once everything else passes. */
  lemma VoteGateOrder(poll: Poll, selected: seq<string>, user: Option<User>, now: int)
    requires |selected| > 0
    ensures IsPollClosed(poll, now) ==> VoteGate(Some(poll), selected, user, now) == RejectClosed
    ensures !IsPollClosed(poll, now) && poll.kind == Single && |selected| != 1 ==>
      VoteGate(Some(poll), selected, user, now) == RejectNotOne
    ensures !IsPollClosed(poll, now) && poll.kind == Multi && |selected| > MaxSelections(poll) ==>
      VoteGate(Some(poll), selected, user, now) == RejectTooMany(MaxSelections(poll))
    ensures VoteGate(Some(poll), selected, user, now) == RejectLoggedOut <==>
      && user.None?
      && !IsPollClosed(poll, now)
      && (poll.kind == Single ==> |selected| == 1)
      && (poll.kind == Multi ==> |selected| <= MaxSelections(poll))
  {
  }

  // ---------------------------------------------------------------------
  // Screen state and its transitions

  datatype Screen = Screen(
    view: View,
    currentPoll: Option<Poll>,
    selected: seq<string>,
    showConfirm: bool,
    results: Option<VoteResult>,
    user: Option<User>)

  const Initial: Screen := Screen(LoginView, None, [], false, None, None)

  /** `handlePollSelect`. */
  function AfterPollSelect(s: Screen, p: Poll): (r: Screen)
    ensures r.currentPoll == Some(p) && r.selected == [] && !r.showConfirm && r.view == PollView
    ensures r.results == s.results && r.user == s.user
  {
    s.(currentPoll := Some(p), selected := [], showConfirm := false, view := PollView)
  }

  /** `handleResultsSelect` as written: `loadResults` reads the poll of the
      render the click happened in, not the one just passed to
      `setCurrentPoll`, so it fetches the results of the previously
      selected poll, or nothing when none was selected. `server` gives the
      answer of `GET /polls/{id}/results`, None when the request fails. */
  function AfterResultsSelectAsWritten(s: Screen, p: Poll, server: string -> Option<VoteResult>): Screen {
    var s1 := s.(currentPoll := Some(p), selected := []);
    if s.currentPoll.None? then s1
    else
      match server(s.currentPoll.value.id)
      case None => s1
      case Some(res) => s1.(results := Some(res), view := ResultsView)
  }

  /** A first click on "results" from the poll list, with no poll selected
      yet, leaves the view where it was; after an earlier selection of
      another poll, the results screen pairs the new poll with the old
      poll's results. */
  lemma StaleResultsShown(s: Screen, p: Poll, q: Poll, server: string -> Option<VoteResult>)
    ensures s.currentPoll.None? ==>
      AfterResultsSelectAsWritten(s, p, server).view == s.view &&
      AfterResultsSelectAsWritten(s, p, server).results == s.results
    ensures s.currentPoll == Some(q) && server(q.id).Some? ==>
      && AfterResultsSelectAsWritten(s, p, server).view == ResultsView
      && AfterResultsSelectAsWritten(s, p, server).currentPoll == Some(p)
      && AfterResultsSelectAsWritten(s, p, server).results == server(q.id)
  {
  }

  /** A concrete case: from the poll list with no poll selected, clicking
      "results" on a poll whose results the server has does not open them. */
  lemma StaleResultsExample(p: Poll, res: VoteResult)
    ensures var server := (id: string) => if id == p.id then Some(res) else None;
      var s := Initial.(view := HomeView);
      AfterResultsSelectAsWritten(s, p, server).view == HomeView &&
      AfterResultsSelectAsWritten(s, p, server).results == None
  {
  }

  /** `handleResultsSelect` with the poll it is given passed through to
      the loader. */
  function AfterResultsSelect(s: Screen, p: Poll, server: string -> Option<VoteResult>): Screen {
    var s1 := s.(currentPoll := Some(p), selected := []);
    match server(p.id)
    case None => s1
    case Some(res) => s1.(results := Some(res), view := ResultsView)
  }

  /** With the poll passed through, the results screen always shows the
      chosen poll's own results; a failed request changes only the poll
      and the selection. */
  lemma ResultsSelectShowsChosenPoll(s: Screen, p: Poll, server: string -> Option<VoteResult>)
    ensures AfterResultsSelect(s, p, server).currentPoll == Some(p)
    ensures AfterResultsSelect(s, p, server).selected == []
    ensures server(p.id).Some? ==>
      AfterResultsSelect(s, p, server).view == ResultsView &&
      AfterResultsSelect(s, p, server).results == server(p.id)
    ensures server(p.id).None? ==>
      AfterResultsSelect(s, p, server) == s.(currentPoll := Some(p), selected := [])
  {
  }

  /** `handleNavigation`. */
  function AfterNavigation(s: Screen, next: View): Screen {
    if s.user.None? && (next == OrganizerView || next == ProfileView) then s.(view := LoginView)
    else s.(view := next)
  }

  /** Without a user, the organizer and profile views lead to the login
      view; every other request is taken as it is. Only the view changes. */
  lemma NavigationGuard(s: Screen, next: View)
    ensures AfterNavigation(s, next).view ==
      (if s.user.None? && (next == OrganizerView || next == ProfileView) then LoginView else next)
    ensures AfterNavigation(s, next).(view := s.view) == s
    ensures AfterNavigation(s, next).view == OrganizerView ==> s.user.Some?
  {
  }

  /** The effect on `user`: a user who appears leaves the login view for
      home, and one who is cleared sends the view to login. */
  function AfterUserChange(s: Screen, u: Option<User>): Screen {
    s.(user := u, view := if u.None? then LoginView else if s.view == LoginView then HomeView else s.view)
  }

  lemma UserChangeViews(s: Screen, u: Option<User>)
    ensures u.None? ==> AfterUserChange(s, u).view == LoginView
    ensures u.Some? && s.view == LoginView ==> AfterUserChange(s, u).view == HomeView
    ensures u.Some? && s.view != LoginView ==> AfterUserChange(s, u).view == s.view
    ensures AfterUserChange(s, u).(view := s.view, user := s.user) == s
  {
  }

  /** The submit button's `disabled`. */
  predicate SubmitDisabled(s: Screen, loading: bool, now: int) {
    |s.selected| == 0 || loading || (s.currentPoll.Some? && IsPollClosed(s.currentPoll.value, now))
  }

  /** The submit button opens the confirm dialog when it is enabled. */
  function AfterSubmitPress(s: Screen, loading: bool, now: int): Screen {
    if SubmitDisabled(s, loading, now) then s else s.(showConfirm := true)
  }

  /** An enabled submit button on a poll gets past the handler's first two
      checks: the selection is not empty and the poll is open. */
  lemma EnabledSubmitPassesFirstChecks(s: Screen, loading: bool, now: int)
    requires !SubmitDisabled(s, loading, now) && s.currentPoll.Some?
    ensures !VoteGate(s.currentPoll, s.selected, s.user, now).Ignored?
    ensures !VoteGate(s.currentPoll, s.selected, s.user, now).RejectClosed?
  {
  }

  /** `handleVote`, once the request (if any) has been answered; `ok`
      says whether the server accepted it. */
  function AfterVote(s: Screen, now: int, ok: bool): Screen {
    match VoteGate(s.currentPoll, s.selected, s.user, now)
    case RejectClosed => s.(showConfirm := false)
    case Send(_, _) =>
      if ok then s.(showConfirm := false, view := SuccessView, selected := []) else s
    case _ => s
  }

  /** Only an accepted request moves to the success view, clears the
      selection and closes the dialog; a closed poll only closes the
      dialog; every other outcome changes nothing. */
  lemma VoteOutcome(s: Screen, now: int, ok: bool)
    ensures VoteGate(s.currentPoll, s.selected, s.user, now).Send? && ok ==>
      AfterVote(s, now, ok) == s.(showConfirm := false, view := SuccessView, selected := [])
    ensures AfterVote(s, now, ok).view != s.view ==>
      VoteGate(s.currentPoll, s.selected, s.user, now).Send? && ok && AfterVote(s, now, ok).view == SuccessView
    ensures AfterVote(s, now, ok).selected != s.selected ==>
      VoteGate(s.currentPoll, s.selected, s.user, now).Send? && ok
    ensures AfterVote(s, now, ok).showConfirm != s.showConfirm ==>
      VoteGate(s.currentPoll, s.selected, s.user, now).RejectClosed? ||
      VoteGate(s.currentPoll, s.selected, s.user, now).Send?
    ensures AfterVote(s, now, ok).(showConfirm := s.showConfirm, view := s.view, selected := s.selected) == s
  {
  }

  // ---------------------------------------------------------------------
  // The component's state

  class App {
    var view: View
    var currentPoll: Option<Poll>
    var selected: seq<string>
    var showConfirm: bool
    var results: Option<VoteResult>
    var user: Option<User>

    function Snapshot(): Screen
      reads this
    {
      Screen(view, currentPoll, selected, showConfirm, results, user)
    }

    constructor ()
      ensures Snapshot() == Initial
    {
      view, currentPoll, selected, showConfirm, results, user := LoginView, None, [], false, None, None;
    }

    method UserChanged(u: Option<User>)
      modifies this
      ensures Snapshot() == AfterUserChange(old(Snapshot()), u)
    {
      user := u;
      if u.Some? {
        view := if view == LoginView then HomeView else view;
      } else {
        view := LoginView;
      }
    }

    method PollSelect(p: Poll)
      modifies this
      ensures Snapshot() == AfterPollSelect(old(Snapshot()), p)
    {
      currentPoll := Some(p);
      selected := [];
      showConfirm := false;
      view := PollView;
    }

    /** The results handler with the chosen poll passed to the loader. */
    method ResultsSelect(p: Poll, server: string -> Option<VoteResult>)
      modifies this
      ensures Snapshot() == AfterResultsSelect(old(Snapshot()), p, server)
    {
      currentPoll := Some(p);
      selected := [];
      var fetched := server(p.id);
      if fetched.Some? {
        results := fetched;
        view := ResultsView;
      }
    }

    method Navigate(next: View)
      modifies this
      ensures Snapshot() == AfterNavigation(old(Snapshot()), next)
    {
      if user.None? && (next == OrganizerView || next == ProfileView) {
        view := LoginView;
        return;
      }
      view := next;
    }

    /** A click on a variant's checkbox or radio button, which the poll
        view shows only while a poll is selected. */
    method ChoiceToggle(variantId: string)
      requires currentPoll.Some?
      modifies this
      ensures Snapshot() == old(Snapshot()).(selected := Toggle(old(selected), variantId, old(currentPoll).value))
    {
      selected := Toggle(selected, variantId, currentPoll.value);
    }

    method SubmitPress(loading: bool, now: int)
      modifies this
      ensures Snapshot() == AfterSubmitPress(old(Snapshot()), loading, now)
    {
      if !SubmitDisabled(Snapshot(), loading, now) {
        showConfirm := true;
      }
    }

    /** The dialog's cancel button. */
    method CancelConfirm()
      modifies this
      ensures Snapshot() == old(Snapshot()).(showConfirm := false)
    {
      showConfirm := false;
    }

    /** `handleVote`: returns what the handler did, and `ok` is the
        server's answer to the request when one is sent. */
    method Vote(now: int, ok: bool) returns (step: VoteStep)
      modifies this
      ensures step == VoteGate(old(currentPoll), old(selected), old(user), now)
      ensures Snapshot() == AfterVote(old(Snapshot()), now, ok)
    {
      step := VoteGate(currentPoll, selected, user, now);
      if currentPoll.None? || |selected| == 0 {
        return;
      }
      if IsPollClosed(currentPoll.value, now) {
        showConfirm := false;
        return;
      }
      var isMulti := currentPoll.value.kind == Multi;
      var max := MaxSelections(currentPoll.value);
      if !isMulti && |selected| != 1 {
        return;
      }
      if isMulti && |selected| > max {
        return;
      }
      if user.None? {
        return;
      }
      // the request VoteRequest(user.value.id, selected) goes out here
      if ok {
        showConfirm := false;
        view := SuccessView;
        selected := [];
      }
    }
  }
}

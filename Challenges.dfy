/**
 * The challenge list page: the list of challenges the page holds, the
 * create-challenge form, and the join, create and delete handlers. Every
 * backend call is replaced by its outcome, passed in as a parameter; the
 * handlers' effect on the page state is modelled exactly.
 */
module Challenges {
  import opened Wrappers
  import Text

  type UserId = string
  type ChallengeId = string

  /** A challenge row as fetched. `startDate` / `expirationDate` are the
      parsed timestamps in milliseconds, `None` where the column is empty;
      `participants` is `None` where the column is null. */
  datatype Challenge = Challenge(
    id: ChallengeId,
    title: string,
    creatorId: UserId,
    participants: Option<seq<UserId>>,
    startDate: Option<int>,
    expirationDate: Option<int>)

  /** The row sent to the backend by the create form. */
  datatype NewChallenge = NewChallenge(
    title: string,
    creatorId: UserId,
    participants: seq<UserId>,
    expirationDate: string,
    startDate: string)

  /** `challenge.participants || []`: the stored list, or none when the
      column is null. */
  function Participants(c: Challenge): (r: seq<UserId>)
    ensures c.participants.Some? ==> r == c.participants.value
    ensures r == [] <==> c.participants.None? || c.participants.value == []
  {
    c.participants.GetOr([])
  }

  /** The participant list `handleJoin` writes, or `None` when it returns
      early: there is no user, or the user already takes part. */
  function JoinRequest(user: Option<UserId>, c: Challenge): (r: Option<seq<UserId>>)
    ensures r.Some? <==> user.Some? && user.value !in Participants(c)
  {
    if user.None? then None
    else if user.value in Participants(c) then None
    else Some(Participants(c) + [user.value])
  }

  /** Joining appends the user once, at the end: the old participants keep
      their order and the user then occurs exactly once. */
  lemma JoinAppendsOnce(user: UserId, c: Challenge)
    requires user !in Participants(c)
    ensures var r := JoinRequest(Some(user), c);
      && r.Some?
      && r.value[..|Participants(c)|] == Participants(c)
      && |r.value| == |Participants(c)| + 1
      && r.value[|r.value| - 1] == user
      && multiset(r.value)[user] == 1
  {
    var p := Participants(c);
    assert multiset(p)[user] == 0;
    assert multiset(p + [user]) == multiset(p) + multiset{user};
  }

  /** `challenges.map(c => c.id === id ? { ...c, participants: updated } : c)`:
      every challenge with that id gets the new list; nothing else changes. */
  function WithParticipants(cs: seq<Challenge>, id: ChallengeId, updated: seq<UserId>): (r: seq<Challenge>)
    ensures |r| == |cs|
    ensures forall i :: 0 <= i < |cs| && cs[i].id != id ==> r[i] == cs[i]
    ensures forall i :: 0 <= i < |cs| && cs[i].id == id ==> r[i] == cs[i].(participants := Some(updated))
  {
    if cs == [] then []
    else
      var head := if cs[0].id == id then cs[0].(participants := Some(updated)) else cs[0];
      [head] + WithParticipants(cs[1..], id, updated)
  }

  /** `challenges.filter(c => c.id !== id)`: exactly the challenges with
      another id remain. */
  function WithoutChallenge(cs: seq<Challenge>, id: ChallengeId): (r: seq<Challenge>)
    ensures forall c :: c in r <==> c in cs && c.id != id
    ensures |r| <= |cs|
  {
    if cs == [] then []
    else if cs[0].id == id then WithoutChallenge(cs[1..], id)
    else [cs[0]] + WithoutChallenge(cs[1..], id)
  }

  /** Deleting keeps the survivors in their order: it distributes over
      concatenation, so it acts on each challenge where it stands. */
  lemma {:induction false} WithoutChallengeDistributes(xs: seq<Challenge>, ys: seq<Challenge>, id: ChallengeId)
    ensures WithoutChallenge(xs + ys, id) == WithoutChallenge(xs, id) + WithoutChallenge(ys, id)
  {
    if xs == [] {
      assert xs + ys == ys;
    } else {
      assert (xs + ys)[1..] == xs[1..] + ys;
      WithoutChallengeDistributes(xs[1..], ys, id);
    }
  }

  /** A list without the id is left exactly as it was. */
  lemma {:induction false} WithoutAbsentChallenge(cs: seq<Challenge>, id: ChallengeId)
    requires forall c :: c in cs ==> c.id != id
    ensures WithoutChallenge(cs, id) == cs
  {
    if cs != [] {
      assert cs == [cs[0]] + cs[1..];
      WithoutAbsentChallenge(cs[1..], id);
    }
  }

  /** The row `handleCreateChallenge` inserts, or `None` when its guard
      returns early: a blank title, no user, or an empty date field. */
  function CreateRequest(title: string, user: Option<UserId>, start: string, expiration: string): (r: Option<NewChallenge>)
    ensures r.Some? <==> !Text.IsBlank(title) && user.Some? && expiration != "" && start != ""
    ensures r.Some? ==> r.value.creatorId == user.value && r.value.participants == [user.value]
    ensures r.Some? ==> r.value.title == title && r.value.startDate == start && r.value.expirationDate == expiration
  {
    if Text.IsBlank(title) || user.None? || expiration == "" || start == "" then None
    else Some(NewChallenge(title, user.value, [user.value], expiration, start))
  }

  /** A title made of whitespace only is rejected, whatever the rest. */
  lemma WhitespaceTitleRejected(title: string, user: Option<UserId>, start: string, expiration: string)
    requires Text.AllWhitespace(title)
    ensures CreateRequest(title, user, start, expiration).None?
  {
  }

  class ChallengesPage {
    var challenges: seq<Challenge>
    var showCreate: bool
    var newTitle: string
    var newStart: string
    var newExpiration: string
    var error: Option<string>

    /** The state before the first fetch. */
    constructor ()
      ensures challenges == [] && !showCreate && error == None
      ensures newTitle == "" && newStart == "" && newExpiration == ""
    {
      challenges := [];
      showCreate := false;
      newTitle, newStart, newExpiration := "", "", "";
      error := None;
    }

    /** The answer to the page's fetch of the challenges: the error message is shown and the list kept;
        otherwise the fetched rows (none when the answer has no data)
        replace the list. */
    method ReceiveChallenges(data: Option<seq<Challenge>>, fetchError: Option<string>)
      modifies this`challenges, this`error
      ensures fetchError.Some? ==> error == fetchError && challenges == old(challenges)
      ensures fetchError.None? ==> error == old(error) && challenges == data.GetOr([])
    {
      if fetchError.Some? {
        error := fetchError;
      } else {
        challenges := data.GetOr([]);
      }
    }

    /** `handleCreateChallenge`. `insertError` is the backend's answer to
        the insert, read only when the insert is issued. A rejected form
        changes nothing (not even the error); a failed insert records its
        message; a successful one closes the form and clears its fields.
        The list itself is refetched by the page afterwards, which is not
        part of the handler. */
    method HandleCreate(user: Option<UserId>, insertError: Option<string>) returns (inserted: Option<NewChallenge>)
      modifies this`showCreate, this`newTitle, this`newStart, this`newExpiration, this`error
      ensures inserted == CreateRequest(old(newTitle), user, old(newStart), old(newExpiration))
      ensures inserted.None? ==> unchanged(this`error, this`showCreate, this`newTitle, this`newStart, this`newExpiration)
      ensures inserted.Some? && insertError.Some? ==>
        && error == insertError && showCreate == old(showCreate)
        && newTitle == old(newTitle) && newStart == old(newStart) && newExpiration == old(newExpiration)
      ensures inserted.Some? && insertError.None? ==>
        error == None && !showCreate && newTitle == "" && newStart == "" && newExpiration == ""
    {
      inserted := CreateRequest(newTitle, user, newStart, newExpiration);
      if inserted.None? {
        return;
      }
      error := None;
      if insertError.Some? {
        error := insertError;
      } else {
        showCreate := false;
        newTitle := "";
        newExpiration := "";
        newStart := "";
      }
    }

    /** `handleJoin`. `updateError` is the backend's answer to the update,
        read only when the update is issued. On success every challenge
        with the joined id gets the new participant list; the error is left
        as it was. */
    method HandleJoin(user: Option<UserId>, challenge: Challenge, updateError: Option<string>)
      returns (update: Option<seq<UserId>>)
      modifies this`challenges, this`error
      ensures update == JoinRequest(user, challenge)
      ensures update.None? ==> unchanged(this)
      ensures update.Some? && updateError.Some? ==> error == updateError && challenges == old(challenges)
      ensures update.Some? && updateError.None? ==>
        error == old(error) && challenges == WithParticipants(old(challenges), challenge.id, update.value)
      ensures showCreate == old(showCreate) && newTitle == old(newTitle)
      ensures newStart == old(newStart) && newExpiration == old(newExpiration)
    {
      if user.None? {
        return None;
      }
      if user.value in Participants(challenge) {
        return None;
      }
      var updated := Participants(challenge) + [user.value];
      update := Some(updated);
      if updateError.Some? {
        error := updateError;
      } else {
        challenges := WithParticipants(challenges, challenge.id, updated);
      }
    }

    /** The delete button's handler; the button is only rendered for the
        challenge's creator. A failed delete leaves the list (and the error)
        as they were; a successful one filters the challenge out. */
    method HandleDelete(user: Option<UserId>, challenge: Challenge, deleteError: Option<string>)
      returns (requested: bool)
      modifies this`challenges
      ensures requested <==> user.Some? && challenge.creatorId == user.value
      ensures requested && deleteError.None? ==> challenges == WithoutChallenge(old(challenges), challenge.id)
      ensures !requested || deleteError.Some? ==> challenges == old(challenges)
      ensures error == old(error) && showCreate == old(showCreate) && newTitle == old(newTitle)
      ensures newStart == old(newStart) && newExpiration == old(newExpiration)
    {
      requested := user.Some? && challenge.creatorId == user.value;
      if requested && deleteError.None? {
        challenges := WithoutChallenge(challenges, challenge.id);
      }
    }
  }
}

/** The subscription gate: for every configured chat, ask the platform for
    the user's membership status and collect the chats the user has not
    joined. The platform call is an oracle; `None` stands for a call that
    raised (user unknown to the chat, bot without access, chat gone). */
module Gate {
  import opened Options
  import opened ConfigValue
  import Seqs

  /** The membership statuses the platform reports. */
  datatype Status = Creator | Administrator | Member | Restricted | Left | Kicked

  /** The membership lookup for (chat id, user id). */
  type Lookup = (string, int) -> Option<Status>

  /** The statuses that count as subscribed. */
  predicate Subscribed(s: Status) {
    s == Member || s == Administrator || s == Creator
  }

  /** Fail-closed: the user has joined a chat only when the lookup succeeded
      and reported a subscribed status. */
  predicate HasJoined(lookup: Lookup, userId: int, chat: Chat) {
    match lookup(chat.id, userId)
    case None => false
    case Some(s) => Subscribed(s)
  }

  /** The selection test of `Missing`, as a function value. */
  function NotJoined(lookup: Lookup, userId: int): Chat -> bool {
    (c: Chat) => !HasJoined(lookup, userId, c)
  }

  function IdOf(c: Chat): string {
    c.id
  }

  /** The chat ids, in list order: the lookups an evaluation makes. */
  function Ids(chats: seq<Chat>): seq<string> {
    Seqs.Map(IdOf, chats)
  }

  /** The chats the user is missing, as a selection of the configured list:
      every copy of an unjoined chat is kept. */
  function Missing(lookup: Lookup, userId: int, chats: seq<Chat>): (r: seq<Chat>)
    ensures |r| <= |chats|
    ensures forall i :: 0 <= i < |chats| ==>
      (chats[i] in r <==>
        lookup(chats[i].id, userId).None? || !Subscribed(lookup(chats[i].id, userId).value))
    ensures forall c :: c in r ==> c in chats
    ensures forall c {:trigger multiset(r)[c]} :: multiset(r)[c] == (if HasJoined(lookup, userId, c) then 0 else multiset(chats)[c])
  {
    Seqs.FilterMultiplicity(NotJoined(lookup, userId), chats);
    Seqs.Filter(NotJoined(lookup, userId), chats)
  }

  /** `check_subscription`: every chat is looked up, in order, with no early
      exit; a chat is recorded as missing when the lookup raised or reported
      a status other than member, administrator or creator. */
  method CheckSubscription(lookup: Lookup, userId: int, chats: seq<Chat>)
    returns (missing: seq<Chat>, queried: seq<string>)
    ensures queried == Ids(chats)
    ensures missing == Missing(lookup, userId, chats)
  {
    missing := [];
    queried := [];
    for i := 0 to |chats|
      invariant queried == Ids(chats[..i])
      invariant missing == Missing(lookup, userId, chats[..i])
    {
      var chat := chats[i];
      queried := queried + [chat.id];
      var member := lookup(chat.id, userId);
      match member {
        case None =>
          missing := missing + [chat];
        case Some(status) =>
          if !Subscribed(status) {
            missing := missing + [chat];
          }
      }
      MissingStep(lookup, userId, chats, i);
    }
    assert chats[..|chats|] == chats;
  }

  /** One more chat extends the lookups by its id and the missing list by the
      chat itself when it is not joined. */
  lemma MissingStep(lookup: Lookup, userId: int, chats: seq<Chat>, i: nat)
    requires i < |chats|
    ensures Ids(chats[..i + 1]) == Ids(chats[..i]) + [chats[i].id]
    ensures Missing(lookup, userId, chats[..i + 1]) ==
      Missing(lookup, userId, chats[..i]) + (if HasJoined(lookup, userId, chats[i]) then [] else [chats[i]])
  {
    assert chats[..i + 1] == chats[..i] + [chats[i]];
    Seqs.FilterAppend(NotJoined(lookup, userId), chats[..i], [chats[i]]);
    Seqs.MapAppend(IdOf, chats[..i], [chats[i]]);
  }

  /** The missing chats keep their configured order. */
  lemma MissingInOrder(lookup: Lookup, userId: int, chats: seq<Chat>)
    ensures Seqs.IsSubsequence(Missing(lookup, userId, chats), chats)
  {
    Seqs.FilterIsSubsequence(NotJoined(lookup, userId), chats);
  }

  /** Nothing is missing exactly when every lookup succeeded with a
      subscribed status. */
  lemma NoneMissingIffAllJoined(lookup: Lookup, userId: int, chats: seq<Chat>)
    ensures Missing(lookup, userId, chats) == [] <==>
      forall i :: 0 <= i < |chats| ==> HasJoined(lookup, userId, chats[i])
  {
    var r := Missing(lookup, userId, chats);
    if r != [] {
      assert r[0] in r;
    }
  }

  /** Independence: the result depends on each chat's own lookup only, so
      two oracles that agree on the configured chats give the same result. */
  lemma {:induction false} MissingDependsOnOwnLookups(l1: Lookup, l2: Lookup, userId: int, chats: seq<Chat>)
    requires forall i :: 0 <= i < |chats| ==> l1(chats[i].id, userId) == l2(chats[i].id, userId)
    ensures Missing(l1, userId, chats) == Missing(l2, userId, chats)
    decreases |chats|
  {
    if |chats| > 0 {
      MissingDependsOnOwnLookups(l1, l2, userId, chats[1..]);
      assert chats == [chats[0]] + chats[1..];
      Seqs.FilterAppend(NotJoined(l1, userId), [chats[0]], chats[1..]);
      Seqs.FilterAppend(NotJoined(l2, userId), [chats[0]], chats[1..]);
    }
  }
}

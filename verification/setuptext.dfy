/** The pure string steps of the setup tool's two ways of adding a chat:
    the link recorded for a detected chat when none can be obtained from the
    platform, and the manual-entry dialogue that turns a typed link into a
    chat to save. */
module SetupText {
  import opened Options
  import opened PyStr
  import opened ConfigValue

  const PublicPrefix: string := "https://t.me/"
  const PrivatePrefix: string := "https://t.me/c/"

  /** The prefix of supergroup and channel ids. */
  const SupergroupMarker: string := "-100"

  /** The piece of a link after which the handle follows. */
  const HandleMarker: string := "t.me/"

  // ---------------------------------------------------------------------
  // The detected chat's link

  /** The link `process_chat` records: the chat's own invite link when it has
      one, else a freshly exported one, else a constructed fallback. An empty
      string stands for a missing link or username; `exported` is `None` when
      exporting raised. */
  function DetectedLink(inviteLink: string, exported: Option<string>, chatId: string, username: string): (link: string)
    ensures inviteLink != "" ==> link == inviteLink
    ensures inviteLink == "" && exported.Some? ==> link == exported.value
    ensures inviteLink == "" && exported.None? ==> link == FallbackLink(chatId, username)
  {
    if inviteLink != "" then inviteLink
    else match exported
      case Some(l) => l
      case None => FallbackLink(chatId, username)
  }

  /** A detected chat always gets a link, so the bot offers a button for it:
      every source of the link yields a non-empty one unless exporting
      returned the empty string. */
  lemma DetectedLinkNonEmpty(inviteLink: string, exported: Option<string>, chatId: string, username: string)
    ensures exported != Some("") ==> DetectedLink(inviteLink, exported, chatId, username) != ""
  {
  }

  /** The fallback link: the public link of the chat's username when it has
      one; otherwise a private-chat message link built from the id with every
      `-100` removed. */
  function FallbackLink(chatId: string, username: string): (link: string)
    ensures username != "" ==> link == PublicPrefix + username
    ensures username == "" ==> PrivatePrefix <= link && EndsWith(link, "/1")
  {
    if username != "" then PublicPrefix + username
    else
      var link := PrivatePrefix + Replace(chatId, SupergroupMarker, "") + "/1";
      assert link[|link| - 2..] == "/1";
      link
  }

  /** The private fallback link carries the id cut at every `-100`, the
      pieces glued back together. */
  lemma FallbackCutsMarker(chatId: string)
    ensures FallbackLink(chatId, "") == PrivatePrefix + Join(SplitOn(chatId, SupergroupMarker), "") + "/1"
  {
    ReplaceIsSplitJoin(chatId, SupergroupMarker, "");
  }

  /** For a supergroup id `-100<digits>` the fallback link names the chat by
      its digits, as the platform's private links do. */
  lemma SupergroupFallback(digits: string)
    requires '-' !in digits
    ensures FallbackLink(SupergroupMarker + digits, "") == PrivatePrefix + digits + "/1"
  {
    var id := SupergroupMarker + digits;
    assert SupergroupMarker <= id[0..];
    assert Find(id, SupergroupMarker) == Some(0);
    assert id[|SupergroupMarker|..] == digits;
    ReplaceAbsent(digits, SupergroupMarker, "");
  }

  // ---------------------------------------------------------------------
  // Manual entry

  /** The handle looked up for a typed public link: the text after the
      first `t.me/` up to the next one (or the whole link when it has none),
      with an `@` put in front unless it already starts with one. */
  function TargetHandle(link: string): (h: string)
    ensures |h| > 0 && h[0] == '@'
  {
    var target := if Contains(link, HandleMarker) then SplitOn(link, HandleMarker)[1] else link;
    if "@" <= target then target else "@" + target
  }

  /** A public link and the bare name it ends in resolve to the same handle. */
  lemma ProfileLinkHandle(name: string)
    requires !Contains(name, HandleMarker)
    ensures TargetHandle(PublicPrefix + name) == TargetHandle(name)
    ensures TargetHandle(name) == (if "@" <= name then name else "@" + name)
  {
    var s := PublicPrefix + name;
    assert HandleMarker <= s[8..];
    forall j | 0 <= j < 8
      ensures !(HandleMarker <= s[j..])
    {
      assert s[j] != 't' || s[j + 1] != '.';
    }
    assert Find(s, HandleMarker) == Some(8);
    assert s[..8] == "https://" && s[13..] == name;
    assert SplitOn(s, HandleMarker) == ["https://"] + SplitOn(name, HandleMarker);
  }

  /** What the typed link leads to. */
  datatype LinkKind =
    | NoLink
      /** An invite link (it contains `+`): the id must be typed in. */
    | PrivateLink(link: string)
      /** A public link: the chat is looked up by handle. */
    | PublicLink(link: string, handle: string)

  /** The first step of `manual_entry`: strip the typed text, stop when it is
      empty, ask for the id when it is an invite link, otherwise derive the
      handle to look up. */
  function Classify(typed: string): (k: LinkKind)
    ensures k.NoLink? <==> Strip(typed) == ""
    ensures k.PrivateLink? <==> Strip(typed) != "" && '+' in Strip(typed)
    ensures !k.NoLink? ==> k.link == Strip(typed)
    ensures k.PublicLink? ==> '+' !in k.link && |k.handle| > 0 && k.handle[0] == '@'
    ensures k.PublicLink? ==> k.handle == TargetHandle(k.link)
  {
    var link := Strip(typed);
    if link == "" then NoLink
    else if '+' in link then PrivateLink(link)
    else PublicLink(link, TargetHandle(link))
  }

  /** The chat `manual_entry` saves, if any. `resolve` is the platform's
      handle lookup (`None` when it raised) giving the chat's id;
      `typedId` is the id the user types when asked for one. */
  function ManualEntry(typed: string, resolve: string -> Option<string>, typedId: string): (r: Option<Chat>)
    ensures Strip(typed) == "" ==> r.None?
    ensures r.Some? ==> r.value.link == Strip(typed) && r.value.link != ""
    ensures Classify(typed).PrivateLink? ==>
      r == (if Strip(typedId) == "" then None else Some(Chat(Strip(typedId), Strip(typed))))
    ensures Classify(typed).PublicLink? && resolve(Classify(typed).handle).Some? ==>
      r == Some(Chat(resolve(Classify(typed).handle).value, Strip(typed)))
    ensures Classify(typed).PublicLink? && resolve(Classify(typed).handle).None? ==>
      r == (if Strip(typedId) == "" then None else Some(Chat(Strip(typedId), Strip(typed))))
  {
    match Classify(typed)
    case NoLink => None
    case PrivateLink(link) =>
      var id := Strip(typedId);
      if id == "" then None else Some(Chat(id, link))
    case PublicLink(link, handle) =>
      match resolve(handle)
      case Some(id) => Some(Chat(id, link))
      case None =>
        var id := Strip(typedId);
        if id == "" then None else Some(Chat(id, link))
  }

  /** An invite link is never looked up: the lookup cannot affect the
      result. */
  lemma PrivateLinkSkipsLookup(typed: string, r1: string -> Option<string>, r2: string -> Option<string>, typedId: string)
    requires '+' in Strip(typed)
    ensures ManualEntry(typed, r1, typedId) == ManualEntry(typed, r2, typedId)
  {
  }
}

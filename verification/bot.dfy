/** The gating bot: loading the configured chats from its environment, the
    `/start` handler and the "Check Again" callback handler, as pure
    functions from the configuration and the membership oracle to the reply
    and the lookups made. Sending and editing messages is the reply value. */
module Bot {
  import opened Options
  import opened ConfigValue
  import opened Gate
  import EnvFile
  import Seqs

  /** `get_required_chats`: no chats when the `.env` file is absent or the
      variable is unset or empty; otherwise the bot's reading of the value.
      `value` is what the environment loader hands over for `REQUIRED_CHATS`. */
  function RequiredChats(envFileExists: bool, value: Option<string>): seq<Chat> {
    if !envFileExists then []
    else
      match value
      case None => []
      case Some(v) => if v == "" then [] else BotParse(v)
  }

  // ---------------------------------------------------------------------
  // Replies

  const CallbackData: string := "check_subs"

  datatype Button =
    | UrlButton(text: string, url: string)
    | CallbackButton(text: string, data: string)

  /** The trailing button of every denial keyboard. */
  const CheckAgain: Button := CallbackButton("Check Again", CallbackData)

  /** The reply to `/start`. Each button of a keyboard occupies its own row. */
  datatype StartReply = NoConfig | Granted | Denied(keyboard: seq<Button>) {
    function Text(): string {
      match this
      case NoConfig => "Bot is active, but no subscription channels are configured."
      case Granted => "**Access Granted!**\n\nYou are subscribed to all required channels."
      case Denied(_) => "**Access Denied**\n\nPlease subscribe to the following channels to use this bot:"
    }
  }

  /** The reaction to "Check Again": edit the message to the granted text, or
      show an alert to the user only and leave the message as it is. */
  datatype CheckReply = EditGranted | Alert {
    function Text(): string {
      match this
      case EditGranted => "**Access Granted!**\n\nYou are subscribed to all required channels."
      case Alert => "You are still not subscribed to some channels!"
    }
  }

  /** A handler's reply together with the chat ids it looked up, in order. */
  datatype Handled<R> = Handled(reply: R, queried: seq<string>)

  // ---------------------------------------------------------------------
  // The denial keyboard

  predicate HasLink(c: Chat) {
    c.link != ""
  }

  function SubscribeButton(c: Chat): Button {
    UrlButton("Subscribe", c.link)
  }

  /** One "Subscribe" button per missing chat that has a link, in order,
      then "Check Again". */
  function Keyboard(missing: seq<Chat>): seq<Button> {
    Seqs.Map(SubscribeButton, Seqs.Filter(HasLink, missing)) + [CheckAgain]
  }

  /** The keyboard-building loop of the `/start` handler. */
  method BuildKeyboard(missing: seq<Chat>) returns (keyboard: seq<Button>)
    ensures keyboard == Keyboard(missing)
  {
    keyboard := [];
    for i := 0 to |missing|
      invariant keyboard == Seqs.Map(SubscribeButton, Seqs.Filter(HasLink, missing[..i]))
    {
      var chat := missing[i];
      ghost var before := Seqs.Filter(HasLink, missing[..i]);
      ghost var added := Seqs.Filter(HasLink, [chat]);
      if chat.link != "" {
        keyboard := keyboard + [UrlButton("Subscribe", chat.link)];
      }
      assert missing[..i + 1] == missing[..i] + [chat];
      Seqs.FilterAppend(HasLink, missing[..i], [chat]);
      Seqs.MapAppend(SubscribeButton, before, added);
    }
    assert missing[..|missing|] == missing;
    keyboard := keyboard + [CallbackButton("Check Again", CallbackData)];
  }

  // ---------------------------------------------------------------------
  // Handlers

  /** `cmd_start`. */
  function OnStart(envFileExists: bool, value: Option<string>, lookup: Lookup, userId: int): (h: Handled<StartReply>)
    ensures h.reply.NoConfig? <==> RequiredChats(envFileExists, value) == []
    ensures h.reply.NoConfig? ==> h.queried == []
    ensures !h.reply.NoConfig? ==> h.queried == Ids(RequiredChats(envFileExists, value))
    ensures h.reply.Granted? <==>
      var chats := RequiredChats(envFileExists, value);
      chats != [] && forall i :: 0 <= i < |chats| ==> HasJoined(lookup, userId, chats[i])
    ensures h.reply.Denied? ==>
      var missing := Missing(lookup, userId, RequiredChats(envFileExists, value));
      missing != [] && h.reply.keyboard == Keyboard(missing)
  {
    var chats := RequiredChats(envFileExists, value);
    if chats == [] then Handled(NoConfig, [])
    else
      var missing := Missing(lookup, userId, chats);
      NoneMissingIffAllJoined(lookup, userId, chats);
      if missing == [] then Handled(Granted, Ids(chats))
      else Handled(Denied(Keyboard(missing)), Ids(chats))
  }

  /** `on_check_click`. */
  function OnCheckClick(envFileExists: bool, value: Option<string>, lookup: Lookup, userId: int): (h: Handled<CheckReply>)
    ensures h.reply.EditGranted? <==>
      var chats := RequiredChats(envFileExists, value);
      forall i :: 0 <= i < |chats| ==> HasJoined(lookup, userId, chats[i])
    ensures h.queried == Ids(RequiredChats(envFileExists, value))
  {
    var chats := RequiredChats(envFileExists, value);
    var missing := Missing(lookup, userId, chats);
    NoneMissingIffAllJoined(lookup, userId, chats);
    if missing == [] then Handled(EditGranted, Ids(chats))
    else Handled(Alert, Ids(chats))
  }

  /** Callback dispatch: only the data `check_subs` reaches `on_check_click`. */
  function OnCallback(data: string, envFileExists: bool, value: Option<string>, lookup: Lookup, userId: int)
    : (r: Option<Handled<CheckReply>>)
    ensures r.Some? <==> data == CallbackData
    ensures r.Some? ==> r.value == OnCheckClick(envFileExists, value, lookup, userId)
  {
    if data == CallbackData then Some(OnCheckClick(envFileExists, value, lookup, userId)) else None
  }

  // ---------------------------------------------------------------------
  // Properties

  /** The bot reads the configured chats exactly as the setup tool does,
      given that the environment loader hands over the stripped text after
      the first `=` of the first configuration line. */
  lemma BotReadsWhatSetupWrote(file: Option<seq<string>>)
    ensures RequiredChats(file.Some?, EnvFile.StoredValue(EnvFile.LinesOf(file))) == EnvFile.GetSavedChats(file)
  {
    match EnvFile.StoredValue(EnvFile.LinesOf(file))
    case None =>
    case Some(v) => ParsersAgree(v);
  }

  /** An unset or empty value, like an absent file, configures no chats. */
  lemma NothingConfigured(envFileExists: bool, value: Option<string>, lookup: Lookup, userId: int)
    requires !envFileExists || value.None? || value == Some("")
    ensures RequiredChats(envFileExists, value) == []
    ensures OnStart(envFileExists, value, lookup, userId) == Handled(NoConfig, [])
  {
  }

  /** The denial keyboard: "Subscribe" URL buttons with non-empty links, in
      the order of the missing chats, one for each missing chat with a link
      (so duplicates get one each), then exactly one "Check Again" button
      whose data reaches the check handler. A missing chat gets a button
      exactly when its link is non-empty. */
  lemma KeyboardShape(missing: seq<Chat>)
    ensures var k := Keyboard(missing);
      && |k| >= 1 && k[|k| - 1] == CheckAgain && k[|k| - 1].data == CallbackData
      && (forall i :: 0 <= i < |k| - 1 ==> k[i].UrlButton? && k[i].text == "Subscribe" && k[i].url != "")
      && Seqs.IsSubsequence(k[..|k| - 1], Seqs.Map(SubscribeButton, missing))
      && |k| - 1 == Seqs.Count(HasLink, missing)
    ensures forall c :: c in missing ==>
      (UrlButton("Subscribe", c.link) in Keyboard(missing) <==> c.link != "")
  {
    var linked := Seqs.Filter(HasLink, missing);
    var k := Keyboard(missing);
    assert k[..|k| - 1] == Seqs.Map(SubscribeButton, linked);
    forall i | 0 <= i < |k| - 1
      ensures k[i].UrlButton? && k[i].text == "Subscribe" && k[i].url != ""
    {
      assert linked[i] in linked;
    }
    Seqs.FilterIsSubsequence(HasLink, missing);
    Seqs.FilterCount(HasLink, missing);
    Seqs.MapSubsequence(SubscribeButton, linked, missing);
    forall c | c in missing
      ensures UrlButton("Subscribe", c.link) in k <==> c.link != ""
    {
      if c.link != "" {
        var j :| 0 <= j < |linked| && linked[j] == c;
        assert k[j] == UrlButton("Subscribe", c.link);
      } else {
        assert forall j :: 0 <= j < |k| ==> k[j] != UrlButton("Subscribe", c.link);
      }
    }
  }

  /** The two handlers agree: with the same configuration and the same
      lookups, `/start` grants access exactly when "Check Again" does (the
      unconfigured bot aside, where "Check Again" grants), and the
      "Check Again" button of a denial reaches a handler that alerts. */
  lemma StartAndCheckAgree(envFileExists: bool, value: Option<string>, lookup: Lookup, userId: int)
    ensures OnStart(envFileExists, value, lookup, userId).reply.Granted? ==>
      OnCheckClick(envFileExists, value, lookup, userId).reply == EditGranted
    ensures OnStart(envFileExists, value, lookup, userId).reply.NoConfig? ==>
      OnCheckClick(envFileExists, value, lookup, userId) == Handled(EditGranted, [])
    ensures OnStart(envFileExists, value, lookup, userId).reply.Denied? ==>
      var k := OnStart(envFileExists, value, lookup, userId).reply.keyboard;
      && |k| > 0 && k[|k| - 1].CallbackButton?
      && OnCallback(k[|k| - 1].data, envFileExists, value, lookup, userId)
         == Some(Handled(Alert, Ids(RequiredChats(envFileExists, value))))
  {
  }

  /** Two configured chats, the user a member of the first only: the second
      is the one missing, and the denial shows one "Subscribe" button with its
      link, then "Check Again". */
  lemma OneOfTwoMissing(a: Chat, b: Chat, lookup: Lookup, userId: int)
    requires Clean(a) && Clean(b) && b.link != ""
    requires HasJoined(lookup, userId, a) && !HasJoined(lookup, userId, b)
    ensures var value := Some(Entry(a) + "," + Entry(b));
      OnStart(true, value, lookup, userId)
        == Handled(Denied([UrlButton("Subscribe", b.link), CheckAgain]), [a.id, b.id])
  {
    TwoEntriesRead(a, b);
    SecondMissing(a, b, lookup, userId);
    OneButton(b);
    assert Ids([a, b]) == [a.id, b.id];
  }

  lemma OneButton(b: Chat)
    requires b.link != ""
    ensures Keyboard([b]) == [UrlButton("Subscribe", b.link), CheckAgain]
  {
    assert Seqs.Filter(HasLink, [b]) == [b];
  }

  lemma TwoEntriesRead(a: Chat, b: Chat)
    requires Clean(a) && Clean(b)
    ensures RequiredChats(true, Some(Entry(a) + "," + Entry(b))) == [a, b]
  {
    ParseConcat(Entry(a), Entry(b));
    SingleEntry(a);
    SingleEntry(b);
    ParsersAgree(Entry(a) + "," + Entry(b));
  }

  lemma SecondMissing(a: Chat, b: Chat, lookup: Lookup, userId: int)
    requires HasJoined(lookup, userId, a) && !HasJoined(lookup, userId, b)
    ensures Missing(lookup, userId, [a, b]) == [b]
  {
    assert [a, b] == [a] + [b];
    Seqs.FilterAppend(NotJoined(lookup, userId), [a], [b]);
  }
}

# Subscription-gate bot: a Dafny model

The system is a Telegram bot that only serves users who have joined a
configured list of channels and groups, plus a console setup tool that
maintains that list. The list is one line of the `.env` file:
`REQUIRED_CHATS=<id>|<link>,<id>|<link>,...`.

The model covers the pure logic of both programs. The Telegram API is an
oracle passed in as a function. The `.env` file is its list of lines.

- `Options`: the `Option` type.
- `PyStr`: the Python string operations the code relies on, with their
  exact semantics for the non-empty separators and patterns the code uses
  (`,`, `|`, `=`, `t.me/`, `-100`). These are `find`, `in`, `split(sep)`, `split("=", 1)`,
  `strip`/`rstrip`/`lstrip` (Python's `isspace` set), `endswith`,
  `join` and `replace`.
- `Seqs`: order-preserving filter, map, filter-map, first index, and
  subsequence.
- `ConfigValue`: the `Chat` entry, the serialiser of `write_chats_to_env`,
  the setup tool's parser and the bot's parser.
- `EnvFile`: the setup tool's `.env` handling. This covers reading the chats
  (`get_saved_chats`), rewriting the configuration line (`write_chats_to_env`)
  and insert-or-update (`save_chat_to_env`).
- `Gate`: `check_subscription` as a fail-closed filter over a membership
  oracle. The oracle answers `None` when the platform call raised.
- `Bot`: `get_required_chats` and the `/start` and "Check Again" handlers.
  Each handler is a pure function to its reply (text and keyboard) and the
  lookups it made.
- `SetupText`: the fallback invite link of `process_chat` and the
  manual-entry dialogue.

### Loading and saving back is not always stable

`get_saved_chats` strips the whole configuration line and only then splits
it. So when the last kept entry's link ends in whitespace and anything follows
it on the line, the read keeps that whitespace. What follows can be a dropped
item (one without `|`) or a further `|` segment of the same item. Saving the list
back puts the link at the end of the line, where the next read strips it. The
values `1|a ,x` and `1|a |b` both show this.

- `EnvFile.ReloadLosesTrailingSpace` proves the general counterexample with a dropped item, and `EnvFile.ReloadLosesSpaceBeforeSegment` with a further segment.
- `EnvFile.ReloadStable` proves that a load followed by a save is stable
  under the condition that makes it so.
- Whitespace at the start of the value is never lost, because the line
  begins with `REQUIRED_CHATS=`.

## Model

In the table, "bar" is the `|` character that separates an id from its link.

| member | source | states |
|---|---|---|
| PyStr.Find | setup.py:136 | `str.find`: the result is an occurrence of the pattern with none before it; `None` exactly when the pattern occurs nowhere |
| PyStr.SplitOn | setup.py:136 | `str.split(sep)`: at least one piece; the pieces joined with `sep` give the input back; no piece contains `sep`; two or more pieces exactly when `sep` occurs, and then the first cut is at the first occurrence |
| PyStr.Split | setup.py:22-24 | splitting on one character: the pieces rejoin to the input, none holds the separator, and there are two or more exactly when the separator occurs |
| PyStr.SplitOnce | setup.py:19 | `split("=", 1)`: one or two pieces, two exactly when `=` occurs; the first piece has no `=`, and the input is the first piece, `=`, then the second |
| PyStr.StripLeft | setup.py:19 | `lstrip`: a suffix of the input; only whitespace is removed; the result does not start with whitespace |
| PyStr.StripRight | setup.py:19 | `rstrip`: a prefix of the input; only whitespace is removed; the result does not end with whitespace |
| PyStr.Strip | setup.py:19 | `strip`: no longer than the input, neither starting nor ending with whitespace; `StripLeft` and `StripRight` say what is removed |
| PyStr.Join | setup.py:42 | `str.join`; its meaning is given by `PyStr.SplitJoin` (splitting undoes it) and by the rejoin clause of `PyStr.SplitOn` |
| PyStr.Replace | setup.py:72 | `str.replace`; its meaning is given by `PyStr.ReplaceIsSplitJoin` |
| PyStr.SplitJoin | setup.py:42 | splitting a `,`-join of separator-free pieces gives the pieces back |
| PyStr.SplitConcat | setup.py:22 | splitting `a + sep + b` is splitting `a` then `b`, concatenated |
| PyStr.ReplaceIsSplitJoin | setup.py:72 | `s.replace(p, r)` equals `r.join(s.split(p))` |
| PyStr.StripRightAppend | setup.py:19 | right-stripping never reaches into a prefix that ends in a non-space |
| ConfigValue.Serialize | setup.py:42 | the serialised value is empty exactly for the empty list, and otherwise ends with the last entry (id, bar, link) |
| ConfigValue.ParseItem | setup.py:23-25 | an item is kept exactly when it contains a bar, and neither field of the kept chat contains one; `ConfigValue.ParseItemShape` pins the fields |
| ConfigValue.Parse | setup.py:22-25 | the setup tool's reading of a value; its meaning is given by `ConfigValue.ParseSerialize`, `ConfigValue.ParseConcat`, `ConfigValue.ParseWithoutBar` and `ConfigValue.ParsedClean` |
| ConfigValue.BotParseItem | main.py:31-35 | the bot reads each item exactly as the setup tool does |
| ConfigValue.BotParse | main.py:28-36 | the bot's reading of a value; equal to `ConfigValue.Parse` by `ConfigValue.ParsersAgree` |
| ConfigValue.ParseItemShape | setup.py:22-25 | an item is kept exactly when it contains a bar; the id is the text before the first bar, the link the text up to the second bar or the end |
| ConfigValue.ParseSerialize | setup.py:22-25 | round trip with line 42: reading a serialised list of entries free of commas and bars gives the list back, in order |
| ConfigValue.SingleEntry | setup.py:42 | one entry is written as id, bar, link and reads back as itself |
| ConfigValue.ParseConcat | setup.py:22-25 | the reader works item by item: reading `a,b` is reading `a` then reading `b` |
| ConfigValue.ParseWithoutBar | setup.py:22-23 | a value with no bar reads as the empty list: every item is dropped |
| ConfigValue.ParsedClean | setup.py:22-25 | every entry read is free of commas and bars, so it can be written back |
| ConfigValue.ParsersAgree | main.py:28-35 | the bot's reader and the setup tool's reader agree on every value; the bot's `else ""` fallback is never taken |
| EnvFile.StoredValue | setup.py:17-20 | the value on the first configuration line; its meaning is given by `EnvFile.StoredValueOfKeyLine` |
| EnvFile.GetSavedChats | setup.py:13-27 | `get_saved_chats`; its meaning is given by `EnvFile.OnlyFirstKeyLineRead`, `EnvFile.NonEmptyReadNeedsEntry`, `EnvFile.ReadSingleKeyLine` and `EnvFile.WriteThenRead` |
| EnvFile.WriteChats | setup.py:41-59 | `write_chats_to_env`; its meaning is given by `EnvFile.RewriteLines` and `EnvFile.WriteThenRead` |
| EnvFile.SaveChat | setup.py:29-39 | `save_chat_to_env`; its meaning is given by `EnvFile.Upsert` and `EnvFile.SaveChatReadsBack` |
| EnvFile.StoredValueOfKeyLine | setup.py:17-20 | a value is found exactly when some line starts with `REQUIRED_CHATS=`; it is the stripped first such line after the key, so the `len(parts) < 2` branch is unreachable |
| EnvFile.OnlyFirstKeyLineRead | setup.py:17-26 | only the first configuration line is consulted; later ones never affect the result |
| EnvFile.NonEmptyReadNeedsEntry | setup.py:13-27 | a non-empty read needs an existing file, a configuration line, and a bar on it: an absent file, a missing line or an empty value read as no chats |
| EnvFile.ReadSingleKeyLine | setup.py:18-26 | for a value `v` that does not end in whitespace, a file holding just the configuration line for `v` reads as no chats when `v` is empty, else as the parse of `v` |
| EnvFile.RewriteLines | setup.py:47-57 | with a configuration line present, same length, other lines unchanged at their index, every configuration line replaced; without one, the old lines (the last one newline-terminated) plus one appended configuration line |
| EnvFile.TerminatedKeepsNonKey | setup.py:56 | adding the missing newline never turns a line into a configuration line |
| EnvFile.RewriteFirstKeyLine | setup.py:49-57 | after a rewrite, the first configuration line is the one written |
| EnvFile.ReadAfterRewrite | setup.py:49-57 | the value read after a rewrite is the written value, right-stripped |
| EnvFile.RewriteIdempotent | setup.py:49-54 | rewriting twice with the same value equals rewriting once |
| EnvFile.WriteThenRead | setup.py:41-57 | writing a list whose fields hold no comma, bar or line break and whose last link does not end in whitespace, then reading, gives the list back |
| EnvFile.Upsert | setup.py:31-37 | the new entry is in the result; the first entry with the same id is updated in place, all else unchanged; with no such entry the new one is appended at the end |
| EnvFile.SaveChatReadsBack | setup.py:29-39 | after saving, reading gives the upserted list, which holds the saved entry (under the write-then-read condition) |
| EnvFile.ReloadStable | setup.py:29-38 | loading and saving back unchanged is stable when the last link read does not end in whitespace and no field read holds a line break |
| EnvFile.ReloadLosesTrailingSpace | setup.py:19 | counterexample: an entry whose link ends in a space, followed by a comma and an item without a bar, reads as that one entry; writing it back and reading again gives the link stripped |
| EnvFile.ReloadLosesSpaceBeforeSegment | setup.py:18-25 | for a link ending in whitespace followed by a further `|` segment, the read keeps the link as written and a save-and-reload strips it, so the reload is not stable |
| Gate.Missing | main.py:38-51 | at most as many chats as configured; a configured chat is missing exactly when its lookup raised or gave a status other than member, administrator or creator; only configured chats are missing; every copy of an unjoined chat is kept, none of a joined one |
| Gate.CheckSubscription | main.py:38-51 | the loop looks up every chat, in order, with no early exit, and returns exactly the missing chats |
| Gate.MissingInOrder | main.py:40-51 | the missing chats are a subsequence of the configured list |
| Gate.NoneMissingIffAllJoined | main.py:43-50 | nothing is missing exactly when every lookup succeeded with a subscribed status |
| Gate.MissingDependsOnOwnLookups | main.py:41-50 | two oracles that agree on the configured chats give the same missing list |
| Bot.BuildKeyboard | main.py:67-76 | the keyboard loop builds one "Subscribe" button per missing chat with a link, then "Check Again" |
| Bot.Keyboard | main.py:67-76 | the denial keyboard; its meaning is given by `Bot.KeyboardShape` |
| Bot.KeyboardShape | main.py:67-76 | the last button is "Check Again" with data `check_subs`; every earlier one is a "Subscribe" URL button with a non-empty link; they follow the order of the missing chats, one per missing chat with a link (duplicates included); a missing chat gets a button exactly when its link is non-empty |
| Bot.OnStart | main.py:53-81 | no configured chats gives the "not configured" reply with no lookups; "granted" exactly when chats exist and all are joined; a denial carries the keyboard of a non-empty missing list; each configured chat is looked up otherwise |
| Bot.OnCheckClick | main.py:83-91 | edits to "granted" exactly when every configured chat is joined (so with none configured); otherwise only alerts; every configured chat is looked up |
| Bot.OnCallback | main.py:83 | a callback reaches the check handler exactly when its data is `check_subs`, and then the reply is that handler's |
| Bot.RequiredChats | main.py:16-36 | `get_required_chats`; its meaning is given by `Bot.NothingConfigured` and `Bot.BotReadsWhatSetupWrote` |
| Bot.BotReadsWhatSetupWrote | main.py:16-36 | when the environment loader passes the bot the setup tool's stored value, the bot's chats equal what the setup tool reads from the same file |
| Bot.NothingConfigured | main.py:18-26 | an absent file, unset or empty value gives no chats, and `/start` gives the "not configured" reply with no lookups, whatever the oracle and user |
| Bot.StartAndCheckAgree | main.py:53-91 | with the same configuration and lookups, `/start` granting implies "Check Again" grants; an unconfigured bot's "Check Again" grants with no lookups; a denial's last button leads to an alert |
| Bot.OneOfTwoMissing | main.py:55-81 | two chats, the user a member only of the first: one "Subscribe" button with the second's link, then "Check Again" |
| SetupText.DetectedLink | setup.py:67-73 | the chat's own invite link wins, then an exported one, then the fallback |
| SetupText.DetectedLinkNonEmpty | setup.py:67-73 | a detected chat always gets a non-empty link, and so a Subscribe button in the bot, unless exporting returned an empty string |
| SetupText.FallbackLink | setup.py:72-73 | with a username, the public link of that username; otherwise a `https://t.me/c/...` link ending `/1` |
| SetupText.FallbackCutsMarker | setup.py:72 | the private fallback carries the id with every `-100` cut out |
| SetupText.SupergroupFallback | setup.py:72 | for an id `-100<digits>`, the fallback is `https://t.me/c/<digits>/1` |
| SetupText.TargetHandle | setup.py:136-137 | the handle looked up always starts with `@` |
| SetupText.ProfileLinkHandle | setup.py:136-137 | for a name without `t.me/`, `https://t.me/<name>` and `<name>` resolve to the same handle, `<name>` with an `@` put in front unless it already has one |
| SetupText.Classify | setup.py:128-137 | empty input stops; a link containing `+` asks for the id; otherwise the handle `SetupText.TargetHandle` derives from the stripped link is looked up |
| SetupText.ManualEntry | setup.py:128-147 | a saved chat always carries the stripped, non-empty link; a private link saves the typed id when one was typed; a resolved public link saves the resolved id; a public link whose lookup raised saves the typed id when one was typed |
| SetupText.PrivateLinkSkipsLookup | setup.py:130-134 | an invite link is never looked up: the lookup cannot change the result |

## Left out

- File access (`os.path.exists`, `open`, `readlines`, `writelines`) is not modelled. A file is `Option<seq<string>>` of lines, with `None` for an absent file. How `readlines` cuts text into lines is not modelled; `EnvFile.Storable` excludes line breaks inside fields instead, and `EnvFile.ReloadStable` assumes the chats read hold none, as is so for any line `readlines` returns. Two processes writing the file at once are not modelled either.
- The environment loader (`python-dotenv`, `load_dotenv(override=True)`, `os.getenv`) is not modelled. `Bot.RequiredChats` takes the loaded value as a parameter. `Bot.BotReadsWhatSetupWrote` assumes the loader hands over the stripped text after the first `=` of the first configuration line. Quoting, comments, `export`, the process environment and repeated keys are not modelled.
- Telegram calls are oracles or left out:
  - `get_chat_member` is the `Gate.Lookup` oracle.
  - `get_chat` is the `resolve` parameter of `SetupText.ManualEntry`.
  - `export_chat_invite_link` is the `exported` parameter of `SetupText.DetectedLink`.
  - Sending, editing and answering messages are the reply values.
  - Sessions, webhooks and polling are left out.
- Keyboard layout is not modelled. Each button occupies its own row in the source; the model keeps one flat sequence.
- Message formatting is not modelled. The texts are modelled as the strings sent; how the client renders `**` is not modelled.
- Chat ids are strings throughout. The `str()` conversion of integer ids from the platform happens before the model. `EnvFile.Upsert` compares ids as strings, as the source does.
- A missing username or invite link (`None` or empty in the source) is the empty string.
- The scanner polling loop, update offsets, the console menus, the yes/no prompt of `process_chat`, `KeyboardInterrupt`/`EOFError` handling, printing, the token checks, the event-loop policy, `asyncio.run` and handler registration are left out. They are I/O and control flow around the modelled steps.
- SetupText.TargetHandle: its contract states only that the handle starts with `@`. The exact handle is stated for public profile links and bare names by `SetupText.ProfileLinkHandle`, not for every link.
- SetupText.FallbackLink: states nothing about whether the constructed `t.me/c/...` link is a working invite link. It is a string function only.

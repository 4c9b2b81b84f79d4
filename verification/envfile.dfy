/** The setup tool's handling of the `.env` file: reading the configured
    chats, rewriting the `REQUIRED_CHATS=` line, and the insert-or-update of
    one chat. The file is its list of lines as `readlines` returns them (each
    line keeps its `"\n"`, the last may lack one); `None` is an absent file. */
module EnvFile {
  import opened Options
  import opened PyStr
  import opened ConfigValue
  import Seqs

  /** The prefix that marks the configuration line. */
  const Key: string := "REQUIRED_CHATS="

  /** A configuration line is one that begins with the key. */
  predicate IsKeyLine(line: string) {
    Key <= line
  }

  /** The line written for a value: the key, the value, a newline. */
  function KeyLine(value: string): string {
    Key + value + "\n"
  }

  /** The lines of the file; an absent file has none. */
  function LinesOf(file: Option<seq<string>>): seq<string> {
    match file
    case None => []
    case Some(lines) => lines
  }

  /** Index of the first configuration line, the only one ever consulted. */
  function FirstKeyLine(lines: seq<string>): Option<nat> {
    Seqs.FirstIndex(IsKeyLine, lines)
  }

  /** The value text on the first configuration line: the stripped line
      after its first `=`. `None` when there is no configuration line. */
  function StoredValue(lines: seq<string>): Option<string> {
    match FirstKeyLine(lines)
    case None => None
    case Some(i) =>
      var parts := SplitOnce(Strip(lines[i]), '=');
      if |parts| < 2 then None else Some(parts[1])
  }

  /** `get_saved_chats`: the configured chats, or none when the file is
      absent, has no configuration line, or the value is empty. */
  function GetSavedChats(file: Option<seq<string>>): seq<Chat> {
    match file
    case None => []
    case Some(lines) =>
      match StoredValue(lines)
      case None => []
      case Some(v) => if v == "" then [] else Parse(v)
  }

  /** A line ends in `"\n"` after this, whether or not it did before. */
  function Terminated(line: string): string {
    if EndsWith(line, "\n") then line else line + "\n"
  }

  /** The body of `write_chats_to_env` over the file's lines: every
      configuration line is replaced; when there is none, the last line is
      terminated and one configuration line is appended. */
  function RewriteLines(lines: seq<string>, value: string): (r: seq<string>)
    ensures FirstKeyLine(lines).Some? ==>
      && |r| == |lines|
      && (forall i :: 0 <= i < |lines| && !IsKeyLine(lines[i]) ==> r[i] == lines[i])
      && (forall i :: 0 <= i < |lines| && IsKeyLine(lines[i]) ==> r[i] == KeyLine(value))
    ensures FirstKeyLine(lines).None? ==>
      && |r| == |lines| + 1
      && r[|lines|] == KeyLine(value)
      && (forall i :: 0 <= i < |lines| - 1 ==> r[i] == lines[i])
      && (|lines| > 0 ==> r[|lines| - 1] == Terminated(lines[|lines| - 1]))
  {
    var replaced := Seqs.Map((line: string) => if IsKeyLine(line) then KeyLine(value) else line, lines);
    if FirstKeyLine(lines).Some? then replaced
    else if |replaced| > 0 && !EndsWith(replaced[|replaced| - 1], "\n") then
      replaced[..|replaced| - 1] + [replaced[|replaced| - 1] + "\n"] + [KeyLine(value)]
    else replaced + [KeyLine(value)]
  }

  /** `write_chats_to_env` applied to the file: the lines written back. */
  function WriteChats(file: Option<seq<string>>, chats: seq<Chat>): seq<string> {
    RewriteLines(LinesOf(file), Serialize(chats))
  }

  /** The list edit of `save_chat_to_env`: the first entry with the same id
      gets the new link; without one, a new entry is appended. */
  function Upsert(chats: seq<Chat>, id: string, link: string): (r: seq<Chat>)
    ensures Chat(id, link) in r
    ensures (forall j :: 0 <= j < |chats| ==> chats[j].id != id) ==>
      r == chats + [Chat(id, link)]
    ensures forall i ::
      (0 <= i < |chats| && chats[i].id == id && forall j :: 0 <= j < i ==> chats[j].id != id)
      ==> r == chats[i := Chat(id, link)]
  {
    match Seqs.FirstIndex((c: Chat) => c.id == id, chats)
    case Some(i) =>
      var r := chats[i := chats[i].(link := link)];
      assert r[i] == Chat(id, link);
      r
    case None => chats + [Chat(id, link)]
  }

  /** `save_chat_to_env`: load, upsert, write. */
  function SaveChat(file: Option<seq<string>>, id: string, link: string): seq<string> {
    WriteChats(file, Upsert(GetSavedChats(file), id, link))
  }

  /** A link whose last character `strip` would remove. */
  predicate EndsInSpace(s: string) {
    |s| > 0 && IsSpace(s[|s| - 1])
  }

  /** A chat whose fields hold no line break, so that writing it keeps the
      configuration on one line of the file as `readlines` cuts it. */
  predicate OneLine(c: Chat) {
    '\n' !in c.id && '\r' !in c.id && '\n' !in c.link && '\r' !in c.link
  }

  /** A list that survives the write-then-read cycle: no separator or line
      break inside a field, and the value does not end in whitespace that
      `strip` removes. */
  predicate Storable(chats: seq<Chat>) {
    && (forall i :: 0 <= i < |chats| ==> Clean(chats[i]) && OneLine(chats[i]))
    && (chats == [] || !EndsInSpace(chats[|chats| - 1].link))
  }

  // ---------------------------------------------------------------------
  // Reading a configuration line

  /** `strip` leaves the key of a configuration line in place. */
  lemma StripKeepsKey(line: string)
    requires IsKeyLine(line)
    ensures IsKeyLine(Strip(line))
    ensures Strip(line) == StripRight(line)
  {
    var r := StripRight(line);
    assert line[|Key| - 1] == '=' && !IsSpace(line[|Key| - 1]);
    assert |r| >= |Key|;
    assert r[..|Key|] == line[..|Key|];
  }

  /** The value is everything after the key: `split("=", 1)` always finds
      the key's `=`, so the `len(parts) < 2` branch is never taken. */
  lemma SplitAfterKey(w: string)
    ensures SplitOnce(Key + w, '=') == [Key[..|Key| - 1], w]
  {
    assert Key[|Key| - 1] == '=' && '=' !in Key[..|Key| - 1];
    SplitAfterFirst(Key, w, '=');
  }

  /** Splitting once after a prefix whose only separator is its last
      character cuts exactly there. */
  lemma SplitAfterFirst(k: string, w: string, sep: char)
    requires |k| > 0 && k[|k| - 1] == sep && sep !in k[..|k| - 1]
    ensures SplitOnce(k + w, sep) == [k[..|k| - 1], w]
  {
    var s := k + w;
    assert s[|k| - 1] == sep;
    var parts := SplitOnce(s, sep);
    var p0, p1 := parts[0], parts[1];
    assert s == p0 + [sep] + p1;
    assert forall n :: 0 <= n < |p0| ==> s[n] == p0[n] != sep;
    assert |p0| <= |k| - 1;
    assert s[|p0|] == sep;
    assert forall n :: 0 <= n < |k| - 1 ==> s[n] == k[..|k| - 1][n] != sep;
    assert |p0| == |k| - 1;
    assert p0 == s[..|k| - 1] == k[..|k| - 1];
    assert p1 == s[|k|..] == w;
  }

  /** A configuration line always yields a value: the stripped text after
      the key. */
  lemma StoredValueOfKeyLine(lines: seq<string>)
    ensures StoredValue(lines).Some? <==> FirstKeyLine(lines).Some?
    ensures FirstKeyLine(lines).Some? ==>
      Key + StoredValue(lines).value == Strip(lines[FirstKeyLine(lines).value])
  {
    match FirstKeyLine(lines)
    case None =>
    case Some(i) =>
      var line := lines[i];
      StripKeepsKey(line);
      var st := Strip(line);
      var w := st[|Key|..];
      assert st == Key + w;
      SplitAfterKey(w);
      assert SplitOnce(st, '=') == [Key[..|Key| - 1], w];
  }

  /** What is written comes back through `strip`: only trailing whitespace
      of the value is lost. */
  lemma StripKeyLine(v: string)
    ensures Strip(KeyLine(v)) == Key + StripRight(v)
  {
    var line := KeyLine(v);
    assert StripLeft(line) == line;
    assert line == Key + (v + "\n");
    StripRightAppend(Key, v + "\n");
    StripRightNewline(v);
  }

  /** Terminating a line that is not a configuration line does not make it one. */
  lemma TerminatedKeepsNonKey(line: string)
    requires !IsKeyLine(line)
    ensures !IsKeyLine(Terminated(line))
  {
    var t := Terminated(line);
    if |line| >= |Key| {
      assert t[..|Key|] == line[..|Key|];
    } else if t != line {
      assert t[|line|] == '\n' && Key[|line|] != '\n';
    }
  }

  // ---------------------------------------------------------------------
  // Properties of the rewrite

  /** After a rewrite the first configuration line is a freshly written one. */
  lemma RewriteFirstKeyLine(lines: seq<string>, v: string)
    ensures FirstKeyLine(RewriteLines(lines, v)).Some?
    ensures RewriteLines(lines, v)[FirstKeyLine(RewriteLines(lines, v)).value] == KeyLine(v)
  {
    match FirstKeyLine(lines)
    case Some(i) => RewriteKeepsFirst(lines, v, i);
    case None => RewriteAppends(lines, v);
  }

  lemma RewriteKeepsFirst(lines: seq<string>, v: string, i: nat)
    requires FirstKeyLine(lines) == Some(i)
    ensures FirstKeyLine(RewriteLines(lines, v)) == Some(i)
    ensures RewriteLines(lines, v)[i] == KeyLine(v)
  {
    var r := RewriteLines(lines, v);
    assert r[i] == KeyLine(v);
    assert forall j :: 0 <= j < i ==> r[j] == lines[j];
    FirstKeyLineAt(r, i);
  }

  lemma RewriteAppends(lines: seq<string>, v: string)
    requires FirstKeyLine(lines).None?
    ensures FirstKeyLine(RewriteLines(lines, v)) == Some(|lines|)
    ensures RewriteLines(lines, v)[|lines|] == KeyLine(v)
  {
    var r := RewriteLines(lines, v);
    if |lines| > 0 {
      TerminatedKeepsNonKey(lines[|lines| - 1]);
    }
    assert forall j :: 0 <= j < |lines| ==> !IsKeyLine(r[j]);
    FirstKeyLineAt(r, |lines|);
  }

  /** The first configuration line is the first line that is one. */
  lemma FirstKeyLineAt(lines: seq<string>, k: nat)
    requires k < |lines| && IsKeyLine(lines[k])
    requires forall j :: 0 <= j < k ==> !IsKeyLine(lines[j])
    ensures FirstKeyLine(lines) == Some(k)
  {
    assert FirstKeyLine(lines).Some?;
  }

  /** The value read back after a rewrite is the written value, minus the
      trailing whitespace `strip` removes. */
  lemma ReadAfterRewrite(lines: seq<string>, v: string)
    ensures StoredValue(RewriteLines(lines, v)) == Some(StripRight(v))
  {
    var r := RewriteLines(lines, v);
    RewriteFirstKeyLine(lines, v);
    var k := FirstKeyLine(r).value;
    StripKeyLine(v);
    SplitAfterKey(StripRight(v));
  }

  /** Round trip through the file: writing a storable list and reading the
      file back gives the same list, whatever else the file holds. */
  lemma WriteThenRead(file: Option<seq<string>>, chats: seq<Chat>)
    requires Storable(chats)
    ensures GetSavedChats(Some(WriteChats(file, chats))) == chats
  {
    var v := Serialize(chats);
    ReadAfterRewrite(LinesOf(file), v);
    SerializedUnstripped(chats);
    ParseSerialize(chats);
  }

  /** A storable list serialises to a value `strip` leaves alone at the end. */
  lemma SerializedUnstripped(chats: seq<Chat>)
    requires Storable(chats)
    ensures StripRight(Serialize(chats)) == Serialize(chats)
  {
    var v := Serialize(chats);
    if chats != [] {
      var last := chats[|chats| - 1];
      var e := Entry(last);
      assert v[|v| - |e|..] == e;
      assert v[|v| - 1] == e[|e| - 1];
      assert !IsSpace(e[|e| - 1]) by {
        if |last.link| > 0 {
          assert e[|e| - 1] == last.link[|last.link| - 1];
        } else {
          assert e[|e| - 1] == '|';
        }
      }
    }
  }

  /** Writing the same value twice is writing it once. */
  lemma RewriteIdempotent(lines: seq<string>, v: string)
    ensures RewriteLines(RewriteLines(lines, v), v) == RewriteLines(lines, v)
  {
    var r := RewriteLines(lines, v);
    RewriteFirstKeyLine(lines, v);
    RewrittenKeyLines(lines, v);
    var rr := RewriteLines(r, v);
    assert |rr| == |r|;
    forall i | 0 <= i < |r|
      ensures rr[i] == r[i]
    {
    }
  }

  /** Every configuration line left by a rewrite holds the written value. */
  lemma RewrittenKeyLines(lines: seq<string>, v: string)
    ensures forall i :: 0 <= i < |RewriteLines(lines, v)| && IsKeyLine(RewriteLines(lines, v)[i]) ==>
      RewriteLines(lines, v)[i] == KeyLine(v)
  {
    var r := RewriteLines(lines, v);
    forall i | 0 <= i < |r| && IsKeyLine(r[i])
      ensures r[i] == KeyLine(v)
    {
      if FirstKeyLine(lines).None? && i < |lines| {
        if i == |lines| - 1 {
          TerminatedKeepsNonKey(lines[i]);
        }
        assert false;
      }
    }
  }

  /** Only the first configuration line is consulted: the reading is the
      same as for a file holding that line alone. */
  lemma OnlyFirstKeyLineRead(lines: seq<string>)
    requires FirstKeyLine(lines).Some?
    ensures GetSavedChats(Some(lines)) == GetSavedChats(Some([lines[FirstKeyLine(lines).value]]))
  {
    var line := lines[FirstKeyLine(lines).value];
    assert FirstKeyLine([line]) == Some(0);
  }

  /** A non-empty reading needs a file whose first configuration line
      contains a `|`; every other file reads as no chats. */
  lemma NonEmptyReadNeedsEntry(file: Option<seq<string>>)
    requires GetSavedChats(file) != []
    ensures file.Some? && FirstKeyLine(file.value).Some?
    ensures '|' in file.value[FirstKeyLine(file.value).value]
  {
    var lines := file.value;
    StoredValueOfKeyLine(lines);
    var line := lines[FirstKeyLine(lines).value];
    var v := StoredValue(lines).value;
    if '|' !in line {
      ValueWithinLine(lines, '|');
      ParseWithoutBar(v);
    }
  }

  /** The value holds no character its configuration line does not. */
  lemma ValueWithinLine(lines: seq<string>, ch: char)
    requires FirstKeyLine(lines).Some?
    requires ch !in lines[FirstKeyLine(lines).value]
    ensures StoredValue(lines).Some? && ch !in StoredValue(lines).value
  {
    StoredValueOfKeyLine(lines);
    var line := lines[FirstKeyLine(lines).value];
    StripKeepsKey(line);
    SuffixWithin(line, StoredValue(lines).value, ch);
  }

  /** What follows the key in the right-stripped line is part of the line. */
  lemma SuffixWithin(line: string, v: string, ch: char)
    requires StripRight(line) == Key + v && ch !in line
    ensures ch !in v
  {
    var st := StripRight(line);
    forall n | 0 <= n < |v|
      ensures v[n] != ch
    {
      assert v[n] == st[|Key| + n] == line[|Key| + n];
    }
  }

  /** The value stored on a configuration line that strips to `Key + w` is `w`. */
  lemma StoredValueIs(lines: seq<string>, w: string)
    requires FirstKeyLine(lines).Some?
    requires Strip(lines[FirstKeyLine(lines).value]) == Key + w
    ensures StoredValue(lines) == Some(w)
  {
    StoredValueOfKeyLine(lines);
    var v := StoredValue(lines).value;
    assert v == (Key + v)[|Key|..];
    assert w == (Key + w)[|Key|..];
  }

  // ---------------------------------------------------------------------
  // Properties of saving one chat

  /** `save_chat_to_env` stores exactly the upserted list (when it is
      storable); that the other lines of the file stay as they were is
      `RewriteLines`'s contract. */
  lemma SaveChatReadsBack(file: Option<seq<string>>, id: string, link: string)
    requires Storable(Upsert(GetSavedChats(file), id, link))
    ensures GetSavedChats(Some(SaveChat(file, id, link))) == Upsert(GetSavedChats(file), id, link)
    ensures Chat(id, link) in GetSavedChats(Some(SaveChat(file, id, link)))
  {
    WriteThenRead(file, Upsert(GetSavedChats(file), id, link));
  }

  /** Reloading after saving what was loaded changes nothing, provided the
      last loaded link does not end in whitespace (and, as for every line
      `readlines` returns, nothing loaded holds a line break). */
  lemma ReloadStable(file: Option<seq<string>>)
    requires GetSavedChats(file) == [] || !EndsInSpace(GetSavedChats(file)[|GetSavedChats(file)| - 1].link)
    requires forall i :: 0 <= i < |GetSavedChats(file)| ==> OneLine(GetSavedChats(file)[i])
    ensures GetSavedChats(Some(WriteChats(file, GetSavedChats(file)))) == GetSavedChats(file)
  {
    var chats := GetSavedChats(file);
    if chats != [] {
      ParsedClean(StoredValue(file.value).value);
    }
    WriteThenRead(file, chats);
  }

  /** A file holding one configuration line whose value has no trailing
      whitespace reads as that value. */
  lemma ReadSingleKeyLine(v: string)
    requires StripRight(v) == v
    ensures GetSavedChats(Some([KeyLine(v)])) == (if v == "" then [] else Parse(v))
  {
    var lines := [KeyLine(v)];
    FirstKeyLineAt(lines, 0);
    StripKeyLine(v);
    StoredValueIs(lines, v);
  }

  /** Without that proviso reloading is not stable. A value such as
      `1|a ,x` reads as one chat whose link ends in whitespace (the item `x`
      is dropped); written back, that whitespace ends the line and `strip`
      removes it, so the next reading has a different link. */
  lemma ReloadLosesTrailingSpace(id: string, link: string, junk: string)
    requires Clean(Chat(id, link)) && EndsInSpace(link)
    requires '|' !in junk && |junk| > 0 && !IsSpace(junk[|junk| - 1])
    ensures GetSavedChats(Some([KeyLine(id + "|" + link + "," + junk)])) == [Chat(id, link)]
    ensures GetSavedChats(Some(WriteChats(Some([KeyLine(id + "|" + link + "," + junk)]), [Chat(id, link)])))
      == [Chat(id, StripRight(link))]
    ensures StripRight(link) != link
  {
    ReadDropsJunk(id, link, junk);
    WriteStripsLink([KeyLine(id + "|" + link + "," + junk)], id, link);
  }

  lemma ReadDropsJunk(id: string, link: string, junk: string)
    requires Clean(Chat(id, link))
    requires '|' !in junk && |junk| > 0 && !IsSpace(junk[|junk| - 1])
    ensures GetSavedChats(Some([KeyLine(id + "|" + link + "," + junk)])) == [Chat(id, link)]
  {
    var entry := id + "|" + link;
    var v := entry + "," + junk;
    assert Parse(v) == [Chat(id, link)] by {
      ParseConcat(entry, junk);
      ParseWithoutBar(junk);
      SingleEntry(Chat(id, link));
    }
    assert StripRight(v) == v;
    ReadSingleKeyLine(v);
  }

  /** The same loss when a further `|` segment follows the link: `1|a |b`
      reads as link `a `, and after saving as link `a`. */
  lemma ReloadLosesSpaceBeforeSegment(id: string, link: string, rest: string)
    requires Clean(Chat(id, link)) && EndsInSpace(link)
    requires ',' !in rest && |rest| > 0 && !IsSpace(rest[|rest| - 1])
    ensures GetSavedChats(Some([KeyLine(id + "|" + link + "|" + rest)])) == [Chat(id, link)]
    ensures GetSavedChats(Some(WriteChats(Some([KeyLine(id + "|" + link + "|" + rest)]), [Chat(id, link)])))
      == [Chat(id, StripRight(link))]
    ensures StripRight(link) != link
  {
    ReadKeepsSegmentLink(id, link, rest);
    WriteStripsLink([KeyLine(id + "|" + link + "|" + rest)], id, link);
  }

  lemma ReadKeepsSegmentLink(id: string, link: string, rest: string)
    requires Clean(Chat(id, link))
    requires ',' !in rest && |rest| > 0 && !IsSpace(rest[|rest| - 1])
    ensures GetSavedChats(Some([KeyLine(id + "|" + link + "|" + rest)])) == [Chat(id, link)]
  {
    var entry := id + "|" + link;
    var v := entry + "|" + rest;
    assert Parse(v) == [Chat(id, link)] by {
      assert ',' !in v;
      SplitNone(v, ',');
      SplitConcat(entry, rest, '|');
      SplitConcat(id, link, '|');
      SplitNone(id, '|');
      SplitNone(link, '|');
      assert Split(v, '|') == [id, link] + Split(rest, '|');
    }
    assert StripRight(v) == v;
    ReadSingleKeyLine(v);
  }

  lemma WriteStripsLink(lines: seq<string>, id: string, link: string)
    requires Clean(Chat(id, link))
    ensures GetSavedChats(Some(WriteChats(Some(lines), [Chat(id, link)]))) == [Chat(id, StripRight(link))]
  {
    var stripped := StripRight(link);
    var v := id + "|" + link;
    assert Parse(id + "|" + stripped) == [Chat(id, stripped)] by {
      PrefixWithin(link, |stripped|, ',');
      PrefixWithin(link, |stripped|, '|');
      SingleEntry(Chat(id, stripped));
    }
    assert StripRight(v) == id + "|" + stripped by {
      StripRightAppend(id + "|", link);
    }
    assert Serialize([Chat(id, link)]) == v by {
      SingleEntry(Chat(id, link));
    }
    ReadAfterWrite(Some(lines), [Chat(id, link)]);
  }

  /** What any write reads back as. */
  lemma ReadAfterWrite(file: Option<seq<string>>, chats: seq<Chat>)
    ensures GetSavedChats(Some(WriteChats(file, chats))) ==
      var v := StripRight(Serialize(chats));
      if v == "" then [] else Parse(v)
  {
    ReadAfterRewrite(LinesOf(file), Serialize(chats));
  }
}

/** The `REQUIRED_CHATS` value: a comma-separated list of `id|link`
    entries. Two independent parsers read it (one in the setup tool, one in
    the bot) and the setup tool writes it. */
module ConfigValue {
  import opened Options
  import opened PyStr
  import Seqs

  /** One required chat: its platform identifier (numeric or `@handle`) and
      an invite link, possibly empty. */
  datatype Chat = Chat(id: string, link: string)

  /** An entry survives being written into the value and read back only if
      neither field contains one of the two separators. */
  predicate Clean(c: Chat) {
    ',' !in c.id && '|' !in c.id && ',' !in c.link && '|' !in c.link
  }

  /** One entry of the value: the id, a bar, then the link. */
  function Entry(c: Chat): string {
    c.id + "|" + c.link
  }

  /** The entries of the list joined by commas, in list order. */
  function Serialize(chats: seq<Chat>): (v: string)
    ensures v == "" <==> chats == []
    ensures chats != [] ==> EndsWith(v, Entry(chats[|chats| - 1]))
  {
    var entries := Seqs.Map(Entry, chats);
    assert chats != [] ==> EndsWith(Join(entries, ","), entries[|entries| - 1]) by {
      if |entries| > 0 {
        JoinEndsWithLast(entries, ",");
      }
    }
    Join(entries, ",")
  }

  // ---------------------------------------------------------------------
  // The setup tool's reader

  /** One item of the value as the setup tool reads it: dropped unless it
      holds a `|`; otherwise the first two `|`-separated pieces. */
  function ParseItem(item: string): (r: Option<Chat>)
    ensures r.Some? <==> '|' in item
    ensures r.Some? ==> '|' !in r.value.id && '|' !in r.value.link
  {
    if '|' in item then
      var p := Split(item, '|');
      Some(Chat(p[0], p[1]))
    else None
  }

  /** The setup tool's reading of a non-empty value. */
  function Parse(v: string): seq<Chat> {
    Seqs.FilterMap(ParseItem, Split(v, ','))
  }

  // ---------------------------------------------------------------------
  // The bot's reader

  /** One item as the bot reads it; a link is taken only when a second
      piece exists. */
  function BotParseItem(item: string): (r: Option<Chat>)
    ensures r == ParseItem(item)
  {
    if '|' in item then
      var parts := Split(item, '|');
      Some(Chat(parts[0], if |parts| > 1 then parts[1] else ""))
    else None
  }

  /** The bot's reading of a non-empty value. */
  function BotParse(v: string): seq<Chat> {
    Seqs.FilterMap(BotParseItem, Split(v, ','))
  }

  // ---------------------------------------------------------------------
  // Properties

  /** An item is kept exactly when it contains `|`; the id is the text
      before the first `|` and the link the text between the first and the
      second `|` (or to the end of the item when there is no second one). */
  lemma ParseItemShape(item: string)
    ensures ParseItem(item).Some? <==> '|' in item
    ensures ParseItem(item).Some? ==>
      var c := ParseItem(item).value;
      && '|' !in c.id && '|' !in c.link
      && (item == c.id + "|" + c.link || c.id + "|" + c.link + "|" <= item)
  {
    if '|' in item {
      var p := Split(item, '|');
      if |p| > 2 {
        assert item == p[0] + "|" + (p[1] + "|" + Join(p[2..], "|"));
      }
    }
  }

  /** A cleanly written entry reads back as itself. */
  lemma ParseItemEntry(c: Chat)
    requires Clean(c)
    ensures ParseItem(Entry(c)) == Some(c)
  {
    SplitJoin([c.id, c.link], '|');
    assert Join([c.id, c.link], "|") == Entry(c);
  }

  lemma {:induction false} ParseEntries(chats: seq<Chat>)
    requires forall i :: 0 <= i < |chats| ==> Clean(chats[i])
    ensures Seqs.FilterMap(ParseItem, Seqs.Map(Entry, chats)) == chats
    decreases |chats|
  {
    if |chats| > 0 {
      var entries := Seqs.Map(Entry, chats);
      ParseItemEntry(chats[0]);
      ParseEntries(chats[1..]);
      assert ParseItem(entries[0]) == Some(chats[0]);
      assert entries[1..] == Seqs.Map(Entry, chats[1..]);
    }
  }

  /** Round trip: reading a serialised list of clean entries gives the list
      back, in order (the empty list included). */
  lemma ParseSerialize(chats: seq<Chat>)
    requires forall i :: 0 <= i < |chats| ==> Clean(chats[i])
    ensures Parse(Serialize(chats)) == chats
  {
    var entries := Seqs.Map(Entry, chats);
    if |chats| == 0 {
      assert Split("", ',') == [""] by { SplitNone("", ','); }
    } else {
      forall k | 0 <= k < |entries|
        ensures ',' !in entries[k]
      {
        assert entries[k] == chats[k].id + "|" + chats[k].link;
      }
      SplitJoin(entries, ',');
      ParseEntries(chats);
    }
  }

  /** A single entry is written as `id|link` and read back as itself. */
  lemma SingleEntry(c: Chat)
    requires Clean(c)
    ensures Serialize([c]) == c.id + "|" + c.link
    ensures Parse(c.id + "|" + c.link) == [c]
  {
    assert Seqs.Map(Entry, [c]) == [Entry(c)];
    ParseSerialize([c]);
  }

  /** The reader works item by item: a comma splits the value into two
      independently read halves. */
  lemma ParseConcat(a: string, b: string)
    ensures Parse(a + "," + b) == Parse(a) + Parse(b)
  {
    SplitConcat(a, b, ',');
    Seqs.FilterMapAppend(ParseItem, Split(a, ','), Split(b, ','));
  }

  /** A value without any `|` reads as the empty list: every item is dropped. */
  lemma ParseWithoutBar(v: string)
    requires '|' !in v
    ensures Parse(v) == []
  {
    var items := Split(v, ',');
    forall k | 0 <= k < |items|
      ensures '|' !in items[k]
    {
      if '|' in items[k] {
        SplitWithin(v, ',', k, '|');
      }
    }
    NoneKept(items);
  }

  lemma {:induction false} NoneKept(items: seq<string>)
    requires forall k :: 0 <= k < |items| ==> '|' !in items[k]
    ensures Seqs.FilterMap(ParseItem, items) == []
    decreases |items|
  {
    if |items| > 0 {
      NoneKept(items[1..]);
    }
  }

  /** Every entry read from a value is clean, so it can be written back. */
  lemma ParsedClean(v: string)
    ensures forall i :: 0 <= i < |Parse(v)| ==> Clean(Parse(v)[i])
  {
    var items := Split(v, ',');
    forall k | 0 <= k < |items|
      ensures ',' !in items[k]
    {
    }
    KeptClean(items);
  }

  lemma {:induction false} KeptClean(items: seq<string>)
    requires forall k :: 0 <= k < |items| ==> ',' !in items[k]
    ensures forall i :: 0 <= i < |Seqs.FilterMap(ParseItem, items)| ==>
      Clean(Seqs.FilterMap(ParseItem, items)[i])
    decreases |items|
  {
    if |items| > 0 {
      KeptClean(items[1..]);
      var item := items[0];
      if '|' in item {
        var p := Split(item, '|');
        forall ch | ch in p[0] || ch in p[1]
          ensures ch in item
        {
          if ch in p[0] { SplitWithin(item, '|', 0, ch); }
          else { SplitWithin(item, '|', 1, ch); }
        }
      }
    }
  }

  /** The bot and the setup tool read every value identically; in
      particular the bot's fallback to an empty link is never taken. */
  lemma ParsersAgree(v: string)
    ensures BotParse(v) == Parse(v)
  {
    ItemsAgree(Split(v, ','));
  }

  lemma {:induction false} ItemsAgree(items: seq<string>)
    ensures Seqs.FilterMap(BotParseItem, items) == Seqs.FilterMap(ParseItem, items)
    decreases |items|
  {
    if |items| > 0 {
      ItemsAgree(items[1..]);
    }
  }
}

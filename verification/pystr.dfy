/** The handful of Python `str` operations the bot relies on, written out
    over `seq<char>` with Python's semantics: `in`, `find`, `split(sep)`,
    `split(sep, 1)`, `sep.join`, `strip`, `endswith` and `replace`. */
module PyStr {
  import opened Options

  /** Python's `str.isspace` for a single character: the ASCII controls
      TAB..CR, the separators U+001C..U+001F, SPACE, and the Unicode spaces. */
  predicate IsSpace(c: char) {
    || ('\U{0009}' <= c <= '\U{000D}')
    || ('\U{001C}' <= c <= '\U{0020}')
    || c == '\U{0085}' || c == '\U{00A0}' || c == '\U{1680}'
    || ('\U{2000}' <= c <= '\U{200A}')
    || c == '\U{2028}' || c == '\U{2029}' || c == '\U{202F}'
    || c == '\U{205F}' || c == '\U{3000}'
  }

  /** `s.endswith(suffix)`. */
  predicate EndsWith(s: string, suffix: string) {
    |suffix| <= |s| && s[|s| - |suffix|..] == suffix
  }

  /** `s.find(pat)`, with `None` for Python's `-1`: the first position at
      which `pat` occurs in `s`. */
  function Find(s: string, pat: string): (r: Option<nat>)
    ensures r.Some? ==> r.value + |pat| <= |s| && pat <= s[r.value..]
    ensures r.Some? ==> forall j :: 0 <= j < r.value ==> !(pat <= s[j..])
    ensures r.None? ==> forall j :: 0 <= j <= |s| ==> !(pat <= s[j..])
    decreases |s|
  {
    if pat <= s then Some(0)
    else if |s| == 0 then None
    else
      var r := Find(s[1..], pat);
      assert forall j :: 1 <= j <= |s| ==> s[1..][j - 1..] == s[j..];
      match r
      case None => None
      case Some(i) => Some(i + 1)
  }

  /** `pat in s` for strings. */
  predicate Contains(s: string, pat: string) {
    Find(s, pat).Some?
  }

  /** Python's `str.join`: the parts with `sep` between neighbours. */
  function Join(parts: seq<string>, sep: string): string
    decreases |parts|
  {
    if |parts| == 0 then ""
    else if |parts| == 1 then parts[0]
    else parts[0] + sep + Join(parts[1..], sep)
  }

  /** An occurrence of `pat` inside the prefix `s[..i]` is an occurrence in `s`. */
  lemma OccurrenceInPrefix(s: string, i: nat, j: nat, pat: string)
    requires i <= |s| && j <= i
    requires pat <= s[..i][j..]
    ensures pat <= s[j..]
  {
    assert s[..i][j..] == s[j..i];
  }

  /** `s.split(sep)` for a non-empty separator: the pieces between the
      occurrences of `sep`, found left to right without overlap. */
  function SplitOn(s: string, sep: string): (parts: seq<string>)
    requires |sep| > 0
    ensures |parts| >= 1
    ensures Join(parts, sep) == s
    ensures forall k :: 0 <= k < |parts| ==> !Contains(parts[k], sep)
    ensures Contains(s, sep) <==> |parts| >= 2
    ensures |parts| >= 2 ==> Find(s, sep) == Some(|parts[0]|)
    decreases |s|
  {
    match Find(s, sep)
    case None => [s]
    case Some(i) =>
      var rest := SplitOn(s[i + |sep|..], sep);
      assert s[i..][..|sep|] == sep;
      assert s == s[..i] + sep + s[i + |sep|..];
      forall j | 0 <= j <= i && sep <= s[..i][j..]
        ensures false
      {
        OccurrenceInPrefix(s, i, j, sep);
      }
      assert !Contains(s[..i], sep);
      assert |([s[..i]] + rest)[0]| == i;
      [s[..i]] + rest
  }

  /** Finding a single character is finding its first index. */
  lemma FindChar(s: string, c: char)
    ensures Find(s, [c]).None? <==> c !in s
    ensures Find(s, [c]).Some? ==> s[Find(s, [c]).value] == c && c !in s[..Find(s, [c]).value]
  {
    match Find(s, [c])
    case None =>
      forall j | 0 <= j < |s|
        ensures s[j] != c
      {
        assert !([c] <= s[j..]);
      }
    case Some(i) =>
      assert s[i..][0] == c;
      forall j | 0 <= j < i
        ensures s[j] != c
      {
        assert !([c] <= s[j..]);
      }
  }

  /** The first occurrence of a character is what `Find` reports. */
  lemma FindCharAt(s: string, c: char, i: nat)
    requires i < |s| && s[i] == c && c !in s[..i]
    ensures Find(s, [c]) == Some(i)
  {
    FindChar(s, c);
  }

  /** `s.split(sep)` for a one-character separator. */
  function Split(s: string, sep: char): (parts: seq<string>)
    ensures |parts| >= 1
    ensures Join(parts, [sep]) == s
    ensures forall k :: 0 <= k < |parts| ==> sep !in parts[k]
    ensures sep in s <==> |parts| >= 2
  {
    var parts := SplitOn(s, [sep]);
    FindChar(s, sep);
    forall k | 0 <= k < |parts|
      ensures sep !in parts[k]
    {
      FindChar(parts[k], sep);
    }
    parts
  }

  /** `s.split(sep, 1)` for a one-character separator. */
  function SplitOnce(s: string, sep: char): (parts: seq<string>)
    ensures 1 <= |parts| <= 2
    ensures |parts| == 2 <==> sep in s
    ensures |parts| == 2 ==> s == parts[0] + [sep] + parts[1] && sep !in parts[0]
    ensures |parts| == 1 ==> parts[0] == s
  {
    FindChar(s, sep);
    match Find(s, [sep])
    case None => [s]
    case Some(i) =>
      assert s == s[..i] + [sep] + s[i + 1..];
      [s[..i], s[i + 1..]]
  }

  /** `s.lstrip()`. */
  function StripLeft(s: string): (r: string)
    ensures |r| <= |s| && r == s[|s| - |r|..]
    ensures forall i :: 0 <= i < |s| - |r| ==> IsSpace(s[i])
    ensures |r| == 0 || !IsSpace(r[0])
  {
    if |s| > 0 && IsSpace(s[0]) then StripLeft(s[1..]) else s
  }

  /** `s.rstrip()`. */
  function StripRight(s: string): (r: string)
    ensures |r| <= |s| && r == s[..|r|]
    ensures forall i :: |r| <= i < |s| ==> IsSpace(s[i])
    ensures |r| == 0 || !IsSpace(r[|r| - 1])
  {
    if |s| > 0 && IsSpace(s[|s| - 1]) then StripRight(s[..|s| - 1]) else s
  }

  /** `s.strip()`. */
  function Strip(s: string): (r: string)
    ensures |r| <= |s|
    ensures |r| == 0 || (!IsSpace(r[0]) && !IsSpace(r[|r| - 1]))
  {
    StripRight(StripLeft(s))
  }

  /** `s.replace(pat, rep)`: every occurrence found scanning left to right,
      without overlap, is replaced. */
  function Replace(s: string, pat: string, rep: string): string
    requires |pat| > 0
    decreases |s|
  {
    match Find(s, pat)
    case None => s
    case Some(i) => s[..i] + rep + Replace(s[i + |pat|..], pat, rep)
  }

  /** Splitting a join undoes it when no piece contains the separator. */
  lemma {:induction false} SplitJoin(parts: seq<string>, sep: char)
    requires |parts| >= 1
    requires forall k :: 0 <= k < |parts| ==> sep !in parts[k]
    ensures Split(Join(parts, [sep]), sep) == parts
    decreases |parts|
  {
    var s := Join(parts, [sep]);
    if |parts| == 1 {
      FindChar(s, sep);
    } else {
      var p0 := parts[0];
      var rest := Join(parts[1..], [sep]);
      assert s == p0 + [sep] + rest;
      assert s[..|p0|] == p0;
      FindCharAt(s, sep, |p0|);
      assert s[|p0| + 1..] == rest;
      SplitJoin(parts[1..], sep);
      assert Split(s, sep) == [p0] + Split(rest, sep);
    }
  }

  /** One step of `split` at the first occurrence of the separator. */
  lemma SplitStep(s: string, sep: char, i: nat)
    requires i < |s| && s[i] == sep && sep !in s[..i]
    ensures Split(s, sep) == [s[..i]] + Split(s[i + 1..], sep)
  {
    FindCharAt(s, sep, i);
  }

  /** A string without the separator splits into itself alone. */
  lemma SplitNone(s: string, sep: char)
    requires sep !in s
    ensures Split(s, sep) == [s]
  {
    FindChar(s, sep);
  }

  /** `(a + sep + b).split(sep) == a.split(sep) + b.split(sep)`. */
  lemma {:induction false} SplitConcat(a: string, b: string, sep: char)
    ensures Split(a + [sep] + b, sep) == Split(a, sep) + Split(b, sep)
    decreases |a|, 1
  {
    var s := a + [sep] + b;
    FindChar(a, sep);
    if sep !in a {
      assert s[..|a|] == a;
      assert s[|a| + 1..] == b;
      SplitStep(s, sep, |a|);
      SplitNone(a, sep);
    } else {
      var i := Find(a, [sep]).value;
      SplitConcatAt(a, b, sep, i);
    }
  }

  lemma {:induction false} SplitConcatAt(a: string, b: string, sep: char, i: nat)
    requires i < |a| && a[i] == sep && sep !in a[..i]
    ensures Split(a + [sep] + b, sep) == Split(a, sep) + Split(b, sep)
    decreases |a|, 0
  {
    var s := a + [sep] + b;
    var tail := a[i + 1..];
    var head := a[..i];
    assert s[..i] == head && s[i] == sep && s[i + 1..] == tail + [sep] + b by {
      assert s[..i] == head;
      assert s[i + 1..] == tail + [sep] + b;
    }
    var x := Split(s, sep);
    var y := Split(tail + [sep] + b, sep);
    assert x == [head] + y by {
      SplitStep(s, sep, i);
    }
    assert Split(a, sep) == [head] + Split(tail, sep) by {
      SplitStep(a, sep, i);
    }
    assert y == Split(tail, sep) + Split(b, sep) by {
      SplitConcat(tail, b, sep);
    }
    AppendAssoc([head], Split(tail, sep), Split(b, sep));
  }

  lemma AppendAssoc<T>(a: seq<T>, b: seq<T>, c: seq<T>)
    ensures a + (b + c) == (a + b) + c
  {
  }

  /** Every character of a piece occurs in the joined string. */
  lemma {:induction false} JoinContains(parts: seq<string>, sep: string, k: nat, ch: char)
    requires k < |parts| && ch in parts[k]
    ensures ch in Join(parts, sep)
    decreases |parts|
  {
    if |parts| > 1 {
      var rest := Join(parts[1..], sep);
      assert Join(parts, sep) == parts[0] + sep + rest;
      if k == 0 {
        var n :| 0 <= n < |parts[0]| && parts[0][n] == ch;
        assert Join(parts, sep)[n] == ch;
      } else {
        JoinContains(parts[1..], sep, k - 1, ch);
        var n :| 0 <= n < |rest| && rest[n] == ch;
        assert Join(parts, sep)[|parts[0]| + |sep| + n] == ch;
      }
    }
  }

  /** Every character of a piece of `s.split(sep)` occurs in `s`. */
  lemma SplitWithin(s: string, sep: char, k: nat, ch: char)
    requires k < |Split(s, sep)| && ch in Split(s, sep)[k]
    ensures ch in s
  {
    JoinContains(Split(s, sep), [sep], k, ch);
  }

  /** A joined string ends with its last piece. */
  lemma {:induction false} JoinEndsWithLast(parts: seq<string>, sep: string)
    requires |parts| >= 1
    ensures EndsWith(Join(parts, sep), parts[|parts| - 1])
    decreases |parts|
  {
    if |parts| > 1 {
      JoinEndsWithLast(parts[1..], sep);
      var j := Join(parts[1..], sep);
      var whole := parts[0] + sep + j;
      var last := parts[|parts| - 1];
      assert whole[|whole| - |last|..] == j[|j| - |last|..];
    }
  }

  /** Right-stripping never reaches into a prefix that ends in a non-space. */
  lemma {:induction false} StripRightAppend(p: string, w: string)
    requires |p| > 0 && !IsSpace(p[|p| - 1])
    ensures StripRight(p + w) == p + StripRight(w)
    decreases |w|
  {
    if |w| > 0 && IsSpace(w[|w| - 1]) {
      assert (p + w)[..|p + w| - 1] == p + w[..|w| - 1];
      StripRightAppend(p, w[..|w| - 1]);
    }
  }

  /** A trailing newline never survives `rstrip`. */
  lemma StripRightNewline(v: string)
    ensures StripRight(v + "\n") == StripRight(v)
  {
    assert (v + "\n")[..|v|] == v;
  }

  /** A character of a prefix is a character of the whole. */
  lemma PrefixWithin(s: string, k: nat, ch: char)
    requires k <= |s| && ch !in s
    ensures ch !in s[..k]
  {
  }

  /** `s.replace(pat, rep) == rep.join(s.split(pat))`: both cut `s` at the
      same occurrences of `pat`. */
  lemma {:induction false} ReplaceIsSplitJoin(s: string, pat: string, rep: string)
    requires |pat| > 0
    ensures Replace(s, pat, rep) == Join(SplitOn(s, pat), rep)
    decreases |s|
  {
    match Find(s, pat)
    case None =>
    case Some(i) =>
      var rest := s[i + |pat|..];
      ReplaceIsSplitJoin(rest, pat, rep);
      assert SplitOn(s, pat) == [s[..i]] + SplitOn(rest, pat);
      assert ([s[..i]] + SplitOn(rest, pat))[1..] == SplitOn(rest, pat);
  }

  /** A string with no occurrence of `pat` is left as it is by `replace`. */
  lemma ReplaceAbsent(s: string, pat: string, rep: string)
    requires |pat| > 0 && pat[0] !in s
    ensures Replace(s, pat, rep) == s
  {
    forall j | 0 <= j <= |s|
      ensures !(pat <= s[j..])
    {
      if j < |s| {
        assert s[j] in s;
      }
    }
  }
}

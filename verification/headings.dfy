/** Reading the titles out of a section heading (edit.py, the first loop of
    `fix`) and writing a heading back from titles (the second loop), with
    `escapeEqualSign` in between. */
module Headings {
  import opened Wrappers
  import opened Text

  /** One section as the section splitter hands it over: the heading line,
      `=` markers included, and the body that follows it. */
  datatype Section = Section(title: string, content: string)

  /** The characters removed by `strip('= ')`. */
  predicate IsHeadingPad(c: char) {
    c == '=' || c == ' '
  }

  /** The characters removed by `strip('[]')`. */
  predicate IsBracket(c: char) {
    c == '[' || c == ']'
  }

  /** The separators allowed between the links of a list heading. */
  predicate IsListDelim(c: char) {
    c == '、' || c == '，' || c == ' '
  }

  /** The heading with its `=` markers and surrounding blanks removed. */
  function HeadingText(title: string): string {
    Strip(title, IsHeadingPad)
  }

  // ---------------------------------------------------------------------
  // Closed discussions
  // ---------------------------------------------------------------------

  /** `{{\s*(delh|TalkendH)\s*(\||}})` matches at index `i` of `s`, ignoring
      ASCII case. */
  predicate ClosedAt(s: string, i: nat) {
    && i + 2 <= |s| && s[i] == '{' && s[i + 1] == '{'
    && var j := i + 2 + Run(s, i + 2, IsSpace);
       var k := if MatchesIgnoreCase(s, j, "delh") then j + 4
                else if MatchesIgnoreCase(s, j, "talkendh") then j + 8
                else 0;
       && k > 0
       && var m := k + Run(s, k, IsSpace);
          || (m < |s| && s[m] == '|')
          || (m + 1 < |s| && s[m] == '}' && s[m + 1] == '}')
  }

  /** The pattern is searched for anywhere from index `i` on. */
  function ClosedFrom(s: string, i: nat): (r: bool)
    requires i <= |s|
    ensures r <==> exists j :: i <= j < |s| && ClosedAt(s, j)
    decreases |s| - i
  {
    if i == |s| then false else ClosedAt(s, i) || ClosedFrom(s, i + 1)
  }

  /** The body of the section carries a closing template: the discussion is
      finished and the section is left as it is. */
  predicate IsClosed(content: string) {
    ClosedFrom(content, 0)
  }

  /** A `{{delh}}` anywhere in the body closes the section. */
  lemma ClosedByDelh(x: string, y: string)
    ensures IsClosed(x + "{{delh}}" + y)
  {
    var s := x + "{{delh}}" + y;
    var i := |x|;
    assert s[i..i + 8] == "{{delh}}";
    RunExact(s, i + 2, 0, IsSpace);
    RunExact(s, i + 6, 0, IsSpace);
    assert MatchesIgnoreCase(s, i + 2, "delh");
    assert ClosedAt(s, i);
  }

  // ---------------------------------------------------------------------
  // Shape 1: a single link
  // ---------------------------------------------------------------------

  function Link(t: string): string {
    "[[" + t + "]]"
  }

  /** `^\[\[([^\]]+)\]\]$`: the title inside a heading that is one link. */
  function SingleLink(h: string): (r: Option<string>)
    ensures r.Some? ==> h == Link(r.value) && |r.value| > 0 && ']' !in r.value
    ensures r.None? ==> forall t :: h == Link(t) ==> |t| == 0 || ']' in t
  {
    if |h| >= 5 && h[..2] == "[[" && h[|h| - 2..] == "]]" && ']' !in h[2..|h| - 2] then
      Some(h[2..|h| - 2])
    else
      assert forall t :: h == Link(t) ==> t == h[2..|h| - 2];
      None
  }

  // ---------------------------------------------------------------------
  // Shape 2: links joined by `、`, `，` or a space
  // ---------------------------------------------------------------------

  /** Length of the `\[\[[^\]]+\]\]` link at the front of `h`, if there is one. */
  function LinkLen(h: string): (r: Option<nat>)
    ensures r.Some? ==> 5 <= r.value <= |h|
    ensures r.Some? ==> h[..r.value] == Link(h[2..r.value - 2]) && ']' !in h[2..r.value - 2]
  {
    if |h| >= 2 && h[0] == '[' && h[1] == '[' then
      var p := FirstFrom(h, ']', 2);
      if p > 2 && p + 1 < |h| && h[p + 1] == ']' then
        assert h[..p + 2] == Link(h[2..p]);
        Some(p + 2)
      else
        None
    else
      None
  }

  /** `^(\[\[[^\]]+\]\][、， ])+\[\[[^\]]+\]\]$` on what is left of the
      heading; `more` records that a link and a separator were already read. */
  predicate LinkListFrom(h: string, more: bool)
    decreases |h|
  {
    match LinkLen(h)
    case None => false
    case Some(e) =>
      || (e == |h| && more)
      || (e < |h| && IsListDelim(h[e]) && LinkListFrom(h[e + 1..], true))
  }

  predicate IsLinkList(h: string) {
    LinkListFrom(h, false)
  }

  /** `re.sub(r'\]\][， ]\[\[', ']]、[[', s)`: every separator between two
      links becomes `、`. */
  function NormalizeDelims(s: string): (r: string)
    ensures |r| == |s|
    decreases |s|
  {
    if |s| >= 5 && s[0] == ']' && s[1] == ']' && (s[2] == '，' || s[2] == ' ')
       && s[3] == '[' && s[4] == '['
    then
      "]]、[[" + NormalizeDelims(s[5..])
    else if |s| == 0 then
      ""
    else
      [s[0]] + NormalizeDelims(s[1..])
  }

  /** Normalising changes nothing but separators: a character that differs
      is a `，` or a blank turned into `、`, with `]]` before it and `[[`
      after it. */
  lemma {:induction false} NormalizeChangesOnlyDelims(s: string)
    ensures forall i :: 0 <= i < |s| && NormalizeDelims(s)[i] != s[i] ==>
              && NormalizeDelims(s)[i] == '、' && (s[i] == '，' || s[i] == ' ')
              && 2 <= i < |s| - 2 && s[i - 2] == ']' && s[i - 1] == ']' && s[i + 1] == '[' && s[i + 2] == '['
    decreases |s|
  {
    var r := NormalizeDelims(s);
    if |s| >= 5 && s[0] == ']' && s[1] == ']' && (s[2] == '，' || s[2] == ' ')
       && s[3] == '[' && s[4] == '['
    {
      NormalizeChangesOnlyDelims(s[5..]);
      assert forall i :: 5 <= i < |s| ==> s[5..][i - 5] == s[i] && r[i] == NormalizeDelims(s[5..])[i - 5];
    } else if |s| > 0 {
      NormalizeChangesOnlyDelims(s[1..]);
      assert forall i :: 1 <= i < |s| ==> s[1..][i - 1] == s[i] && r[i] == NormalizeDelims(s[1..])[i - 1];
    }
  }

  /** The titles of a list heading: split at `、`, then `strip('[]')` each piece. */
  function ListTitles(h: string): (r: seq<string>)
    ensures |r| > 0 && |r| == |Split(NormalizeDelims(h), "、")|
    ensures forall k :: 0 <= k < |r| ==> '、' !in r[k]
    ensures forall k :: 0 <= k < |r| && |r[k]| > 0 ==> !IsBracket(r[k][0]) && !IsBracket(r[k][|r[k]| - 1])
  {
    var pieces := Split(NormalizeDelims(h), "、");
    assert forall k :: 0 <= k < |pieces| ==> '、' !in pieces[k] by {
      SplitCharFree(NormalizeDelims(h), '、');
    }
    seq(|pieces|, k requires 0 <= k < |pieces| => PieceTitle(pieces[k]))
  }

  /** `strip('[]')` on one piece of a list heading. */
  function PieceTitle(piece: string): (t: string)
    ensures '、' !in piece ==> '、' !in t
    ensures |t| > 0 ==> !IsBracket(t[0]) && !IsBracket(t[|t| - 1])
  {
    StripFree(piece, IsBracket, '、');
    Strip(piece, IsBracket)
  }

  // ---------------------------------------------------------------------
  // Shape 3: `{{al|...}}`
  // ---------------------------------------------------------------------

  /** `^{{al\|((?:[^\]]+\|)+[^\]]+)}}$` with `al` in any ASCII case: the
      argument text between `{{al|` and the closing `}}`. */
  function AlInner(h: string): (r: Option<string>)
    ensures r.Some? ==> |h| >= 10 && h == h[..5] + r.value + "}}"
    ensures r.Some? ==> ']' !in r.value && |r.value| >= 3
    ensures r.Some? ==> '|' in r.value[1..|r.value| - 1]
  {
    if && |h| >= 10 && h[0] == '{' && h[1] == '{' && Lower(h[2]) == 'a' && Lower(h[3]) == 'l'
       && h[4] == '|' && h[|h| - 2] == '}' && h[|h| - 1] == '}'
    then
      var inner := h[5..|h| - 2];
      if ']' !in inner && '|' in inner[1..|inner| - 1] then
        assert h == h[..5] + inner + "}}";
        Some(inner)
      else
        None
    else
      None
  }

  /** `\s*\d+\s*=` at the front of an argument: the index of its `=`. */
  function AlEquals(p: string): (r: Option<nat>)
    ensures r.Some? ==> 0 < r.value < |p| && p[r.value] == '='
    ensures r.Some? ==> forall k :: 0 <= k < r.value ==> IsSpace(p[k]) || IsDigit(p[k])
    ensures r.Some? ==> exists a, d :: PositionalPrefix(p, a, d, r.value)
  {
    var a := Run(p, 0, IsSpace);
    var d := Run(p, a, IsDigit);
    var c := a + d + Run(p, a + d, IsSpace);
    if d == 0 || c == |p| || p[c] != '=' then
      None
    else
      assert PositionalPrefix(p, a, d, c);
      Some(c)
  }

  /** `\s*\d+\s*=` read at the start of `p`: `a` blanks, `d > 0` digits,
      blanks again, and the `=` at index `c`. */
  predicate PositionalPrefix(p: string, a: nat, d: nat, c: nat) {
    && 0 < d && a + d <= c < |p| && p[c] == '='
    && (forall k :: 0 <= k < a ==> IsSpace(p[k]))
    && (forall k :: a <= k < a + d ==> IsDigit(p[k]))
    && (forall k :: a + d <= k < c ==> IsSpace(p[k]))
  }

  /** The prefix pattern can only be read one way: blanks and digits are
      disjoint, so each run ends where the next kind of character starts. */
  lemma AlEqualsComplete(p: string, a: nat, d: nat, c: nat)
    requires PositionalPrefix(p, a, d, c)
    ensures AlEquals(p) == Some(c)
  {
    assert Run(p, 0, IsSpace) == a && Run(p, a, IsDigit) == d && Run(p, a + d, IsSpace) == c - a - d by {
      PrefixRuns(p, a, d, c);
    }
    assert d != 0 && c != |p| && p[c] == '=' by {
      assert PositionalPrefix(p, a, d, c);
    }
  }

  lemma PrefixRuns(p: string, a: nat, d: nat, c: nat)
    requires PositionalPrefix(p, a, d, c)
    ensures Run(p, 0, IsSpace) == a
    ensures Run(p, a, IsDigit) == d
    ensures Run(p, a + d, IsSpace) == c - a - d
  {
    assert !IsSpace(p[a]);
    RunExact(p, 0, a, IsSpace);
    assert !IsDigit(p[a + d]);
    RunExact(p, a, d, IsDigit);
    RunExact(p, a + d, c - a - d, IsSpace);
  }

  /** `^\s*\d+\s*=\s*(.+)$` on one argument: the text after the `N=`
      positional prefix when the argument has one, otherwise the argument. */
  function AlPart(p: string): (r: string)
    ensures |r| <= |p| && r == p[|p| - |r|..]
    ensures r != p ==> '=' in p
    ensures AlEquals(p).None? ==> r == p
    ensures AlEquals(p).Some? ==> r == AlValue(p, AlEquals(p).value)
  {
    match AlEquals(p)
    case None => p
    case Some(c) =>
      assert p[c] in p;
      AlValue(p, c)
  }

  /** What follows the `=` at index `c`: the rest of the argument from its
      first non-blank character (`\s*(.+)$`), or the whole argument when a
      newline stops `.` from reaching the end. */
  function AlValue(p: string, c: nat): (r: string)
    requires c < |p|
    ensures |r| <= |p| && r == p[|p| - |r|..]
    ensures r != p ==> && c + 1 < |p| && 0 < |r| <= |p| - c - 1 && '\n' !in r
                       && (forall k :: c + 1 <= k < |p| - |r| ==> IsSpace(p[k]))
                       && (|r| > 1 ==> !IsSpace(r[0]))
    ensures c + 1 < |p| && '\n' !in p[c + 1..] ==> r != p
  {
    if c + 1 == |p| then
      p
    else
      var w := Run(p, c + 1, IsSpace);
      var j := if c + 1 + w < |p| then c + 1 + w else |p| - 1;
      if '\n' in p[j..] then
        p
      else
        assert forall k :: 0 <= k < |p| - j ==> p[j..][k] == p[j + k];
        p[j..]
  }

  /** The titles of an `al` heading. */
  function AlTitles(inner: string): (r: seq<string>)
    ensures |r| > 0 && |r| == |Split(inner, "|")|
    ensures forall k :: 0 <= k < |r| ==> '|' !in r[k]
    ensures forall k :: 0 <= k < |r| ==>
              var part := Split(inner, "|")[k];
              |r[k]| <= |part| && r[k] == part[|part| - |r[k]|..]
  {
    var parts := Split(inner, "|");
    SplitCharFree(inner, '|');
    seq(|parts|, k requires 0 <= k < |parts| => AlPart(parts[k]))
  }

  // ---------------------------------------------------------------------
  // The three shapes in order
  // ---------------------------------------------------------------------

  /** The titles a heading names; the first shape that matches wins, and a
      heading of no known shape names none. */
  function ParseHeading(h: string): (r: Option<seq<string>>)
    ensures r.Some? ==> |r.value| > 0
    ensures SingleLink(h).Some? ==> r == Some([SingleLink(h).value])
    ensures SingleLink(h).None? && !IsLinkList(h) && AlInner(h).None? ==> r.None?
  {
    match SingleLink(h)
    case Some(t) => Some([t])
    case None =>
      if IsLinkList(h) then
        Some(ListTitles(h))
      else
        match AlInner(h)
        case Some(inner) => Some(AlTitles(inner))
        case None => None
  }

  /** The titles of a section, or none when it is closed or its heading has
      no known shape. */
  function ParseSection(sec: Section): (r: Option<seq<string>>)
    ensures IsClosed(sec.content) ==> r.None?
    ensures r.Some? ==> |r.value| > 0
    ensures !IsClosed(sec.content) && SingleLink(HeadingText(sec.title)).Some? ==>
              r == Some([SingleLink(HeadingText(sec.title)).value])
    ensures var h := HeadingText(sec.title);
      SingleLink(h).None? && !IsLinkList(h) && AlInner(h).None? ==> r.None?
    ensures !IsClosed(sec.content) ==> r == ParseHeading(HeadingText(sec.title))
  {
    if IsClosed(sec.content) then None else ParseHeading(HeadingText(sec.title))
  }

  /** `^(=+)` on the heading line: its leading run of `=`. */
  function HeadingLevel(title: string): (r: Option<string>)
    ensures r.None? <==> |title| == 0 || title[0] != '='
    ensures r.Some? ==> 0 < |r.value| <= |title| && r.value == title[..|r.value|]
    ensures r.Some? ==> forall k :: 0 <= k < |r.value| ==> r.value[k] == '='
    ensures r.Some? ==> |r.value| == |title| || title[|r.value|] != '='
  {
    var n := Run(title, 0, c => c == '=');
    if n == 0 then None else Some(title[..n])
  }

  // ---------------------------------------------------------------------
  // Writing a heading back
  // ---------------------------------------------------------------------

  /** `escapeEqualSign`: once any title holds `=`, every title gets its
      1-based position and `=` in front, so that `{{al|...}}` does not read
      it as a named argument. */
  function EscapeEqualSign(ts: seq<string>): (r: seq<string>)
    ensures |r| == |ts|
    ensures (forall k :: 0 <= k < |ts| ==> '=' !in ts[k]) ==> r == ts
    ensures (exists k :: 0 <= k < |ts| && '=' in ts[k]) ==>
              forall k :: 0 <= k < |ts| ==> r[k] == NatToString(k + 1) + "=" + ts[k]
  {
    if exists k :: 0 <= k < |ts| && '=' in ts[k] then
      seq(|ts|, k requires 0 <= k < |ts| => NatToString(k + 1) + "=" + ts[k])
    else
      ts
  }

  /** `[[t]]` for one title, `{{al|t1|t2|...}}` for more. */
  function RenderHeading(ts: seq<string>): (r: string)
    requires |ts| > 0
    ensures |r| >= 4
    ensures r[0] == '[' <==> |ts| == 1
    ensures r[0] == '[' || r[0] == '{'
    ensures r[|r| - 1] == ']' || r[|r| - 1] == '}'
    ensures (forall k :: 0 <= k < |ts| ==> '\n' !in ts[k]) ==> '\n' !in r
  {
    if |ts| == 1 then
      Link(ts[0])
    else
      JoinFree(ts, "|", '\n');
      "{{al|" + Join(ts, "|") + "}}"
  }

  /** The new heading line: the old `=` run on both sides of the heading.
      Read back, its level is that run and its text is the heading. */
  function HeadingLine(level: string, heading: string): (r: string)
    ensures IsLevel(level) ==> HeadingLevel(r) == Some(level)
    ensures IsLevel(level) && |heading| > 0 && !IsHeadingPad(heading[0]) && !IsHeadingPad(heading[|heading| - 1]) ==>
              HeadingText(r) == heading
    ensures IsLevel(level) ==> r[0] == '=' && r[|r| - 1] == '='
    ensures '\n' !in level && '\n' !in heading ==> '\n' !in r
  {
    LineLevel(level, heading);
    LineText(level, heading);
    level + " " + heading + " " + level
  }

  /** A run of at least one `=`, as `^(=+)` captures it. */
  predicate IsLevel(level: string) {
    |level| > 0 && forall k :: 0 <= k < |level| ==> level[k] == '='
  }

  /** A level holds nothing but `=`. */
  lemma LevelChars(level: string, c: char)
    requires IsLevel(level) && c != '='
    ensures c !in level
  {
  }

  /** The run of `=` that opens the line is the level, ended by the space. */
  lemma LineLevel(level: string, heading: string)
    ensures IsLevel(level) ==> HeadingLevel(level + " " + heading + " " + level) == Some(level)
  {
    if IsLevel(level) {
      var line := level + " " + heading + " " + level;
      assert forall k :: 0 <= k < |level| ==> line[k] == '=';
      assert line[|level|] == ' ';
      RunExact(line, 0, |level|, c => c == '=');
      assert line[..|level|] == level;
    }
  }

  /** The padding around the heading is exactly what stripping removes. */
  lemma LineText(level: string, heading: string)
    ensures IsLevel(level) && |heading| > 0 && !IsHeadingPad(heading[0]) && !IsHeadingPad(heading[|heading| - 1]) ==>
              HeadingText(level + " " + heading + " " + level) == heading
  {
    if IsLevel(level) && |heading| > 0 && !IsHeadingPad(heading[0]) && !IsHeadingPad(heading[|heading| - 1]) {
      assert level + " " + heading + " " + level == (level + " ") + heading + (" " + level);
      StripFrame(level + " ", heading, " " + level, IsHeadingPad);
    }
  }
}

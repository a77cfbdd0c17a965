/** `appendComment` (edit.py:92-122): the bot's note under a discussion,
    saying which titles it fixed and whether the page is fit for the
    discussion at all. */
module Comments {
  import opened Wrappers
  import opened Text
  import opened Resolver

  /** The marker the bot's notes carry; text holding it is never annotated
      again. */
  const Marker := "A2093064-bot"

  /** The horizontal rule that ends a discussion, with the newline before it. */
  const Rule := "\n----"

  /** The configured messages. A fix message that is not a string in the
      configuration is `None`; the `main` template is the text before and
      after its one `{}` field. */
  datatype Config = Config(
    redirectsNote: Option<string>,
    convertedNote: Option<string>,
    normalizedNote: Option<string>,
    mainBefore: string,
    mainAfter: string,
    vfdNote: string)

  /** A configured message, when its tag is present. */
  function NoteIf(mode: seq<Tag>, t: Tag, note: Option<string>): (r: seq<string>)
    ensures |r| <= 1
    ensures |r| == 1 <==> t in mode && note.Some?
    ensures |r| == 1 ==> r[0] == note.value
  {
    if t in mode && note.Some? then [note.value] else []
  }

  /** One for a condition that holds, none otherwise. */
  function Count(b: bool): nat {
    if b then 1 else 0
  }

  /** The fix messages, in the order redirects, converted, normalized. */
  function FixNotes(mode: seq<Tag>, cfg: Config): (r: seq<string>)
    ensures Fix !in mode ==> r == []
    ensures |r| <= 3
    ensures Fix in mode ==>
              var nr := Count(Redirects in mode && cfg.redirectsNote.Some?);
              var nc := Count(Converted in mode && cfg.convertedNote.Some?);
              var nn := Count(Normalized in mode && cfg.normalizedNote.Some?);
              && |r| == nr + nc + nn
              && (nr == 1 ==> r[0] == cfg.redirectsNote.value)
              && (nc == 1 ==> r[nr] == cfg.convertedNote.value)
              && (nn == 1 ==> r[nr + nc] == cfg.normalizedNote.value)
  {
    if Fix !in mode then []
    else
      NoteIf(mode, Redirects, cfg.redirectsNote)
      + NoteIf(mode, Converted, cfg.convertedNote)
      + NoteIf(mode, Normalized, cfg.normalizedNote)
  }

  /** The notes to append: the `main` template around the fix messages when
      there are any, then the no-deletion notice when `no_vfd` is set. */
  function Notes(mode: seq<Tag>, cfg: Config): (r: seq<string>)
    ensures |r| <= 2
    ensures |r| == Count(|FixNotes(mode, cfg)| > 0) + Count(NoVfd in mode)
    ensures |r| == 0 <==> |FixNotes(mode, cfg)| == 0 && NoVfd !in mode
    ensures |FixNotes(mode, cfg)| > 0 ==> r[0] == cfg.mainBefore + Join(FixNotes(mode, cfg), "") + cfg.mainAfter
    ensures NoVfd in mode ==> r[|r| - 1] == cfg.vfdNote
  {
    var fixes := FixNotes(mode, cfg);
    (if |fixes| > 0 then [cfg.mainBefore + Join(fixes, "") + cfg.mainAfter] else [])
    + (if NoVfd in mode then [cfg.vfdNote] else [])
  }

  /** The block goes in just before the last rule of the stripped text, or
      after it, between newlines, when it has no rule. */
  function Insert(t: string, block: string): (r: string)
    ensures Contains(t, Rule) ==> exists i :: 0 <= i <= |t| && r == t[..i] + "\n" + block + t[i..]
    ensures !Contains(t, Rule) ==> r == t + "\n" + block + "\n"
  {
    if Contains(t, Rule) then
      var parts := Split(t, Rule);
      var x := Join(parts[..|parts| - 1], Rule);
      var y := parts[|parts| - 1];
      assert t == x + Rule + y by {
        LastRuleSplit(t);
      }
      SpliceAt(t, x, Rule + y, block);
      x + "\n" + block + (Rule + y)
    else
      t + "\n" + block + "\n"
  }

  /** Text spliced in between the two parts of `t`. */
  lemma SpliceAt(t: string, x: string, y: string, block: string)
    requires t == x + y
    ensures x + "\n" + block + y == t[..|x|] + "\n" + block + t[|x|..]
  {
    assert t[..|x|] == x && t[|x|..] == y;
  }

  /** `appendComment` on the text accumulated so far. */
  function AppendComment(text: string, mode: seq<Tag>, cfg: Config): (r: string)
    ensures Contains(text, Marker) ==> r == text
    ensures Notes(mode, cfg) == [] ==> r == text
    ensures !Contains(text, Marker) && Notes(mode, cfg) != [] ==>
              r == Insert(Strip(text, IsSpace), Join(Notes(mode, cfg), "\n"))
  {
    if Contains(text, Marker) then
      text
    else
      var notes := Notes(mode, cfg);
      if |notes| == 0 then text else Insert(Strip(text, IsSpace), Join(notes, "\n"))
  }

  /** Text that already holds the marker, extended by anything, is left
      as it is. */
  lemma MarkedTextUntouched(x: string, y: string, mode: seq<Tag>, cfg: Config)
    requires Contains(x, Marker)
    ensures Contains(x + y, Marker)
    ensures AppendComment(x + y, mode, cfg) == x + y
  {
    ContainsExtended(x, y, Marker);
  }

  // ---------------------------------------------------------------------
  // Where the block goes
  // ---------------------------------------------------------------------

  /** In `x + Rule + y` with no rule inside `y`, no rule starts after `x`. */
  lemma {:induction false} NoRuleAfter(x: string, y: string)
    requires !Contains(y, Rule)
    ensures forall j :: |x| < j ==> !OccursAt(x + Rule + y, Rule, j)
  {
    var s := x + Rule + y;
    forall j | |x| < j
      ensures !OccursAt(s, Rule, j)
    {
      if j + |Rule| <= |s| {
        if j < |x| + |Rule| {
          assert s[j] == '-';
          assert s[j..j + |Rule|][0] == s[j];
        } else {
          var k := j - |x| - |Rule|;
          assert s[j..j + |Rule|] == y[k..k + |Rule|];
          assert !OccursAt(y, Rule, k);
        }
      }
    }
  }

  /** A text with a rule is its pieces up to the last rule, the last rule,
      and a tail free of rules. */
  lemma LastRuleSplit(t: string)
    requires Contains(t, Rule)
    ensures |Split(t, Rule)| >= 2
    ensures t == Join(Split(t, Rule)[..|Split(t, Rule)| - 1], Rule) + Rule + Split(t, Rule)[|Split(t, Rule)| - 1]
    ensures !Contains(Split(t, Rule)[|Split(t, Rule)| - 1], Rule)
  {
    var parts := Split(t, Rule);
    JoinSplit(t, Rule);
    SplitPiecesFree(t, Rule);
    JoinLast(parts, Rule);
  }

  /** In `x + Rule + y` with no rule inside `y`, the last rule starts right
      after `x`. */
  lemma LastRuleAt(t: string, x: string, y: string)
    requires t == x + Rule + y && !Contains(y, Rule)
    ensures LastIndexOf(t, Rule) == Some(|x|)
    ensures t[..|x|] == x && t[|x|..] == Rule + y
  {
    NoRuleAfter(x, y);
    assert t[|x|..|x| + |Rule|] == Rule;
    assert OccursAt(t, Rule, |x|);
  }

  /** With a rule in the text, the block goes in right before the last one. */
  lemma InsertBeforeLastRule(t: string, block: string)
    requires Contains(t, Rule)
    ensures LastIndexOf(t, Rule).Some?
    ensures Insert(t, block) == t[..LastIndexOf(t, Rule).value] + "\n" + block + t[LastIndexOf(t, Rule).value..]
  {
    var parts := Split(t, Rule);
    var x := Join(parts[..|parts| - 1], Rule);
    var y := parts[|parts| - 1];
    assert t == x + Rule + y && !Contains(y, Rule) by {
      LastRuleSplit(t);
    }
    LastRuleAt(t, x, y);
    assert Insert(t, block) == x + "\n" + block + (Rule + y);
  }

  /** The block is inserted exactly at the last rule of the text, and
      appended between newlines when there is none. */
  lemma InsertAtLastRule(t: string, block: string)
    ensures LastIndexOf(t, Rule).None? ==> Insert(t, block) == t + "\n" + block + "\n"
    ensures LastIndexOf(t, Rule).Some? ==>
              var i := LastIndexOf(t, Rule).value;
              Insert(t, block) == t[..i] + "\n" + block + t[i..]
  {
    if Contains(t, Rule) {
      InsertBeforeLastRule(t, block);
    }
  }

  // ---------------------------------------------------------------------
  // Properties
  // ---------------------------------------------------------------------

  /** A text that contains the separator-joined parts contains each part. */
  lemma {:induction false} ContainsJoinedPart(parts: seq<string>, sep: string, k: nat, p: string)
    requires k < |parts| && Contains(parts[k], p)
    ensures Contains(Join(parts, sep), p)
    decreases |parts|
  {
    if |parts| == 1 {
    } else if k == 0 {
      ContainsWithin("", parts[0], sep + Join(parts[1..], sep), p);
      assert "" + parts[0] + (sep + Join(parts[1..], sep)) == Join(parts, sep);
    } else {
      ContainsJoinedPart(parts[1..], sep, k - 1, p);
      ContainsWithin(parts[0] + sep, Join(parts[1..], sep), "", p);
      assert parts[0] + sep + Join(parts[1..], sep) + "" == Join(parts, sep);
    }
  }

  /** When one of the notes carries the marker, a second call leaves the
      annotated text alone: the bot annotates a discussion once. */
  lemma AppendCommentOnce(text: string, mode: seq<Tag>, cfg: Config, k: nat)
    requires k < |Notes(mode, cfg)| && Contains(Notes(mode, cfg)[k], Marker)
    ensures Contains(AppendComment(text, mode, cfg), Marker)
    ensures AppendComment(AppendComment(text, mode, cfg), mode, cfg) == AppendComment(text, mode, cfg)
  {
    if !Contains(text, Marker) {
      var t := Strip(text, IsSpace);
      var block := Join(Notes(mode, cfg), "\n");
      ContainsJoinedPart(Notes(mode, cfg), "\n", k, Marker);
      InsertAtLastRule(t, block);
      match LastIndexOf(t, Rule)
      case None =>
        ContainsWithin(t + "\n", block, "\n", Marker);
      case Some(i) =>
        ContainsWithin(t[..i] + "\n", block, t[i..], Marker);
    }
  }

  /** With every fix tag present and every message configured, the note is
      the `main` template around the redirect, conversion and normalisation
      messages in that order, followed by the no-deletion notice. */
  lemma NotesInOrder(mode: seq<Tag>, cfg: Config)
    requires Fix in mode && Redirects in mode && Converted in mode && Normalized in mode && NoVfd in mode
    requires cfg.redirectsNote.Some? && cfg.convertedNote.Some? && cfg.normalizedNote.Some?
    ensures Notes(mode, cfg) == [
              cfg.mainBefore
              + cfg.redirectsNote.value + cfg.convertedNote.value + cfg.normalizedNote.value
              + cfg.mainAfter,
              cfg.vfdNote]
  {
    var fixes := [cfg.redirectsNote.value, cfg.convertedNote.value, cfg.normalizedNote.value];
    assert FixNotes(mode, cfg) == fixes;
    var r, c, n := cfg.redirectsNote.value, cfg.convertedNote.value, cfg.normalizedNote.value;
    assert fixes[1..] == [c, n];
    assert fixes[1..][1..] == [n];
    assert Join([c, n], "") == c + "" + n == c + n;
    assert Join(fixes, "") == r + "" + (c + n) == r + c + n;
    assert cfg.mainBefore + (r + c + n) + cfg.mainAfter == cfg.mainBefore + r + c + n + cfg.mainAfter;
    assert Join(fixes, "") == cfg.redirectsNote.value + cfg.convertedNote.value + cfg.normalizedNote.value;
  }

  /** A worked example: `fix` and `redirects` tagged, the
      redirect message `R`, the `main` template `({})` and the conversion
      message disabled give exactly `(R)`. */
  lemma RedirectOnlyNote(cfg: Config)
    requires cfg.redirectsNote == Some("R") && cfg.convertedNote.None?
    requires cfg.mainBefore == "(" && cfg.mainAfter == ")"
    ensures Notes([Fix, Redirects], cfg) == ["(R)"]
    ensures Join(Notes([Fix, Redirects], cfg), "\n") == "(R)"
  {
    assert FixNotes([Fix, Redirects], cfg) == ["R"];
    assert Join(["R"], "") == "R";
    assert "(" + "R" + ")" == "(R)";
  }

  /** A piece of one line that neither starts nor ends with a blank. */
  predicate OneLine(p: string) {
    |p| > 0 && !IsSpace(p[0]) && !IsSpace(p[|p| - 1]) && '\n' !in p
  }

  /** The note goes in without breaking any line of the text: every
      one-line piece that neither starts nor ends with a blank is still in
      the annotated text, on the first run as on later ones. */
  lemma AppendCommentKeeps(text: string, mode: seq<Tag>, cfg: Config, p: string)
    requires OneLine(p) && Contains(text, p)
    ensures Contains(AppendComment(text, mode, cfg), p)
  {
    if !Contains(text, Marker) && Notes(mode, cfg) != [] {
      StripKeeps(text, p, IsSpace);
      InsertKeeps(Strip(text, IsSpace), Join(Notes(mode, cfg), "\n"), p);
    }
  }

  /** Inserting the block keeps every one-line piece of the text. */
  lemma InsertKeeps(t: string, block: string, p: string)
    requires '\n' !in p && Contains(t, p)
    ensures Contains(Insert(t, block), p)
  {
    InsertAtLastRule(t, block);
    var last := LastIndexOf(t, Rule);
    if last.None? {
      AppendedKeeps(t, block, p);
    } else {
      RuleAtNewline(t, last.value);
      SpliceKeeps(t, last.value, block, p);
    }
  }

  /** The block appended at the end keeps every piece of the text. */
  lemma AppendedKeeps(t: string, block: string, p: string)
    requires Contains(t, p)
    ensures Contains(t + "\n" + block + "\n", p)
  {
    ContainsExtended(t, "\n" + block + "\n", p);
    assert t + ("\n" + block + "\n") == t + "\n" + block + "\n";
  }

  /** A rule starts with a newline. */
  lemma RuleAtNewline(t: string, i: nat)
    requires OccursAt(t, Rule, i)
    ensures i < |t| && t[i] == '\n'
  {
    assert t[i] == t[i..i + |Rule|][0];
  }

  /** The block spliced in at a newline keeps every one-line piece. */
  lemma SpliceKeeps(t: string, i: nat, block: string, p: string)
    requires i < |t| && t[i] == '\n' && '\n' !in p && Contains(t, p)
    ensures Contains(t[..i] + "\n" + block + t[i..], p)
  {
    var j :| OccursAt(t, p, j);
    OneLineSide(t, i, p, j);
    if j + |p| <= i {
      KeptBefore(t, i, block, p, j);
    } else {
      KeptAfter(t, i, block, p, j);
    }
  }

  /** A one-line occurrence lies wholly before or wholly after a newline. */
  lemma OneLineSide(t: string, i: nat, p: string, j: nat)
    requires i < |t| && t[i] == '\n' && '\n' !in p && OccursAt(t, p, j)
    ensures j + |p| <= i || i < j
  {
    assert forall k :: j <= k < j + |p| ==> t[k] == t[j..j + |p|][k - j];
  }

  lemma KeptBefore(t: string, i: nat, block: string, p: string, j: nat)
    requires i <= |t| && OccursAt(t, p, j) && j + |p| <= i
    ensures Contains(t[..i] + "\n" + block + t[i..], p)
  {
    assert t[..i][j..j + |p|] == t[j..j + |p|];
    assert OccursAt(t[..i], p, j);
    ContainsExtended(t[..i], "\n" + block + t[i..], p);
    assert t[..i] + ("\n" + block + t[i..]) == t[..i] + "\n" + block + t[i..];
  }

  lemma KeptAfter(t: string, i: nat, block: string, p: string, j: nat)
    requires i < j && OccursAt(t, p, j)
    ensures Contains(t[..i] + "\n" + block + t[i..], p)
  {
    assert t[i..][j - i..j - i + |p|] == t[j..j + |p|];
    assert OccursAt(t[i..], p, j - i);
    ContainsWithin(t[..i] + "\n" + block, t[i..], "", p);
    assert t[..i] + "\n" + block + t[i..] + "" == t[..i] + "\n" + block + t[i..];
  }

  /** Messages that are not strings in the configuration are skipped; with
      none left the `main` template is not used. */
  lemma UnconfiguredFixesSkipped(mode: seq<Tag>, cfg: Config)
    requires cfg.redirectsNote.None? && cfg.convertedNote.None? && cfg.normalizedNote.None?
    ensures Notes(mode, cfg) == if NoVfd in mode then [cfg.vfdNote] else []
  {
  }
}

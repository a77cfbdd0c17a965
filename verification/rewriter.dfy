/** The second loop of `fix` (edit.py:200-246): each recognised section gets
    its titles resolved, a new heading written at the old level, and the
    bot's note appended. */
module Rewriter {
  import opened Wrappers
  import opened Text
  import opened Resolver
  import opened Headings
  import opened HeadingProofs
  import opened Comments

  /** A title as it goes back into the heading, with the tags it adds to
      its section. */
  datatype Chosen = Chosen(title: string, mode: seq<Tag>)

  /** All titles of one section as they go back, with the section's tags. */
  datatype Rewritten = Rewritten(titles: seq<string>, mode: seq<Tag>)

  /** The resolved title is used unless the title is a redirect whose target
      is not itself flagged for deletion. */
  predicate Adopts(mode: seq<Tag>) {
    (Redirects in mode && VfdOnTarget in mode) || Redirects !in mode
  }

  /** The title written back for one title of a heading, and its tags: `fix`
      when it differs from what was written, then the tags `check_title`
      collected. */
  function ChooseTitle(written: string, c: Resolution): (r: Chosen)
    requires |written| > 0 && Fix !in c.mode
    ensures Adopts(c.mode) <==> Redirects !in c.mode || VfdOnTarget in c.mode
    ensures Adopts(c.mode) && written[0] == ':' ==> r.title == ":" + c.title
    ensures Adopts(c.mode) && written[0] != ':' ==> r.title == c.title
    ensures !Adopts(c.mode) ==> r.title == written
    ensures Fix in r.mode <==> r.title != written
    ensures |r.mode| >= |c.mode| && r.mode[|r.mode| - |c.mode|..] == c.mode
    ensures |r.mode| <= |c.mode| + 1
    ensures r.mode == (if Fix in r.mode then [Fix] else []) + c.mode
  {
    var t := if Adopts(c.mode) then (if written[0] == ':' then ":" + c.title else c.title) else written;
    var m := (if t != written then [Fix] else []) + c.mode;
    assert m[|m| - |c.mode|..] == c.mode;
    Chosen(t, m)
  }

  /** What the rewrite relies on from `check_title`: it fails on an empty
      title and never adds `fix` itself. */
  ghost predicate IsChecker(check: string -> Result<Resolution, ResolveError>) {
    forall w :: check(w).Success? ==> |w| > 0 && Fix !in check(w).value.mode
  }

  /** `check_title` is such a checker, whatever the tables and the wiki say. */
  lemma CheckTitleIsChecker(tables: Tables, wiki: string -> Page)
    ensures IsChecker(w => CheckTitle(w, tables, wiki))
  {
  }

  /** `check_title` on every title of a section in turn; the first title it
      fails on ends the run. */
  function CheckAll(ws: seq<string>, check: string -> Result<Resolution, ResolveError>): (r: Result<seq<Resolution>, ResolveError>)
    ensures r.Success? <==> forall k :: 0 <= k < |ws| ==> check(ws[k]).Success?
    ensures r.Success? ==> |r.value| == |ws|
    ensures r.Success? ==> forall k :: 0 <= k < |ws| ==> r.value[k] == check(ws[k]).value
    decreases |ws|
  {
    if |ws| == 0 then
      Success([])
    else
      var c :- check(ws[0]);
      var rest :- CheckAll(ws[1..], check);
      assert forall k :: 1 <= k < |ws| ==> ws[k] == ws[1..][k - 1];
      Success([c] + rest)
  }

  /** A failed run reports the error of the first title that fails. */
  lemma {:induction false} CheckAllFailsAtFirst(ws: seq<string>, check: string -> Result<Resolution, ResolveError>)
    requires CheckAll(ws, check).Failure?
    ensures exists k :: && 0 <= k < |ws|
                        && check(ws[k]) == Failure(CheckAll(ws, check).error)
                        && forall j :: 0 <= j < k ==> check(ws[j]).Success?
    decreases |ws|
  {
    var e := CheckAll(ws, check).error;
    if check(ws[0]).Failure? {
      assert check(ws[0]) == Failure(e);
    } else {
      CheckAllFailsAtFirst(ws[1..], check);
      var k :| && 0 <= k < |ws[1..]|
               && check(ws[1..][k]) == Failure(e)
               && forall j :: 0 <= j < k ==> check(ws[1..][j]).Success?;
      assert forall j :: 1 <= j < k + 1 ==> ws[j] == ws[1..][j - 1];
      assert check(ws[k + 1]) == Failure(e);
    }
  }

  /** Resolutions that `check_title` can return for the given titles. */
  predicate Checked(ws: seq<string>, cs: seq<Resolution>) {
    |cs| == |ws| && forall k :: 0 <= k < |ws| ==> |ws[k]| > 0 && Fix !in cs[k].mode
  }

  /** The titles written back for a section and the section's tags, in
      title order. */
  function ChooseAll(ws: seq<string>, cs: seq<Resolution>): (r: Rewritten)
    requires Checked(ws, cs)
    ensures |r.titles| == |ws|
    ensures forall k :: 0 <= k < |ws| ==> r.titles[k] == ChooseTitle(ws[k], cs[k]).title
    decreases |ws|
  {
    if |ws| == 0 then
      Rewritten([], [])
    else
      var ch := ChooseTitle(ws[0], cs[0]);
      var rest := ChooseAll(ws[1..], cs[1..]);
      Rewritten([ch.title] + rest.titles, ch.mode + rest.mode)
  }

  /** Apart from `fix`, a section carries exactly the tags that
      `check_title` gave any of its titles. */
  lemma {:induction false} ChooseAllTags(ws: seq<string>, cs: seq<Resolution>, t: Tag)
    requires Checked(ws, cs) && t != Fix
    ensures t in ChooseAll(ws, cs).mode <==> exists k :: 0 <= k < |ws| && t in cs[k].mode
    decreases |ws|
  {
    if |ws| > 0 {
      var ch := ChooseTitle(ws[0], cs[0]);
      var rest := ChooseAll(ws[1..], cs[1..]);
      ChooseAllTags(ws[1..], cs[1..], t);
      assert ChooseAll(ws, cs).mode == ch.mode + rest.mode;
      assert t in ch.mode <==> t in cs[0].mode;
      if t in rest.mode {
        var k :| 0 <= k < |ws[1..]| && t in cs[1..][k].mode;
        assert cs[1..][k] == cs[k + 1];
      }
      if exists k :: 0 <= k < |ws| && t in cs[k].mode {
        var k :| 0 <= k < |ws| && t in cs[k].mode;
        if k > 0 {
          assert cs[1..][k - 1] == cs[k];
        }
      }
    }
  }

  /** The titles of a section as they go back into its heading. */
  function RewriteTitles(ws: seq<string>, check: string -> Result<Resolution, ResolveError>): (r: Result<Rewritten, ResolveError>)
    requires IsChecker(check)
    ensures r.Success? <==> CheckAll(ws, check).Success?
    ensures r.Success? ==> |r.value.titles| == |ws|
    ensures r.Success? ==> forall k :: 0 <= k < |ws| ==>
              && check(ws[k]).Success?
              && r.value.titles[k] == ChooseTitle(ws[k], check(ws[k]).value).title
    ensures r.Success? ==> forall t :: t != Fix ==>
              (t in r.value.mode <==> exists k :: 0 <= k < |ws| && check(ws[k]).Success? && t in check(ws[k]).value.mode)
    ensures r.Success? ==> (Fix in r.value.mode <==> exists k :: 0 <= k < |ws| && r.value.titles[k] != ws[k])
  {
    var cs :- CheckAll(ws, check);
    assert Checked(ws, cs) by {
      forall k | 0 <= k < |ws|
        ensures |ws[k]| > 0 && Fix !in cs[k].mode
      {
        assert check(ws[k]).Success?;
      }
    }
    FixWhenChanged(ws, cs);
    assert forall t :: t != Fix ==> (t in ChooseAll(ws, cs).mode <==> exists k :: 0 <= k < |ws| && t in cs[k].mode) by {
      forall t | t != Fix {
        ChooseAllTags(ws, cs, t);
      }
    }
    Success(ChooseAll(ws, cs))
  }

  /** One section appended to the text built so far: untouched when it was
      not recognised or its heading line does not start with `=`, otherwise
      with the new heading and the bot's note. */
  function RebuildSection(acc: string, sec: Section, titles: Option<seq<string>>,
                          check: string -> Result<Resolution, ResolveError>, cfg: Config): (r: Result<string, ResolveError>)
    requires IsChecker(check)
    requires titles.Some? ==> |titles.value| > 0
    ensures titles.None? || HeadingLevel(sec.title).None? ==> r == Success(acc + sec.title + sec.content)
    ensures titles.Some? && HeadingLevel(sec.title).Some? ==>
              (r.Success? <==> CheckAll(titles.value, check).Success?)
    ensures titles.Some? && HeadingLevel(sec.title).Some? && r.Success? ==>
              var rw := RewriteTitles(titles.value, check).value;
              r.value == AppendComment(acc + NewLine(HeadingLevel(sec.title).value, rw.titles) + sec.content, rw.mode, cfg)
  {
    if titles.None? then
      Success(acc + sec.title + sec.content)
    else
      match HeadingLevel(sec.title)
      case None => Success(acc + sec.title + sec.content)
      case Some(level) =>
        var rw :- RewriteTitles(titles.value, check);
        Success(AppendComment(acc + NewLine(level, rw.titles) + sec.content, rw.mode, cfg))
  }

  /** Section titles as the parser hands them over: none for a section it
      skipped, at least one for a section it recognised. */
  predicate WellParsed(secs: seq<Section>, parsed: seq<Option<seq<string>>>) {
    |parsed| == |secs| && forall k :: 0 <= k < |parsed| ==> parsed[k].Some? ==> |parsed[k].value| > 0
  }

  /** The sections in order, each appended to what the earlier ones built. */
  function RewriteSections(acc: string, secs: seq<Section>, parsed: seq<Option<seq<string>>>,
                           check: string -> Result<Resolution, ResolveError>, cfg: Config): (r: Result<string, ResolveError>)
    requires IsChecker(check) && WellParsed(secs, parsed)
    decreases |secs|
  {
    if |secs| == 0 then
      Success(acc)
    else
      var next :- RebuildSection(acc, secs[0], parsed[0], check, cfg);
      RewriteSections(next, secs[1..], parsed[1..], check, cfg)
  }

  /** A section that gets a new heading: one the parser recognised whose
      heading line starts with `=`. */
  predicate Rewrites(sec: Section, titles: Option<seq<string>>) {
    titles.Some? && HeadingLevel(sec.title).Some?
  }

  /** The sections as the splitter gave them, one after the other. */
  function Verbatim(secs: seq<Section>): string
    decreases |secs|
  {
    if |secs| == 0 then "" else secs[0].title + secs[0].content + Verbatim(secs[1..])
  }

  // ---------------------------------------------------------------------
  // Properties
  // ---------------------------------------------------------------------

  /** A redirect whose target is not flagged keeps the title as written and
      is not counted as a fix. */
  lemma RedirectKept(written: string, c: Resolution)
    requires |written| > 0 && Fix !in c.mode
    requires Redirects in c.mode && VfdOnTarget !in c.mode
    ensures ChooseTitle(written, c) == Chosen(written, c.mode)
  {
  }

  /** A section's tags hold `fix` exactly when one of its titles changed. */
  lemma {:induction false} FixWhenChanged(ws: seq<string>, cs: seq<Resolution>)
    requires Checked(ws, cs)
    ensures var rw := ChooseAll(ws, cs);
      Fix in rw.mode <==> exists k :: 0 <= k < |ws| && rw.titles[k] != ws[k]
    decreases |ws|
  {
    if |ws| > 0 {
      var rw := ChooseAll(ws, cs);
      var ch := ChooseTitle(ws[0], cs[0]);
      var rest := ChooseAll(ws[1..], cs[1..]);
      FixWhenChanged(ws[1..], cs[1..]);
      assert rw.titles == [ch.title] + rest.titles;
      assert Fix in rw.mode <==> ch.title != ws[0] || Fix in rest.mode;
      assert forall k :: 1 <= k < |ws| ==> (rw.titles[k] != ws[k] <==> rest.titles[k - 1] != ws[1..][k - 1]);
    }
  }

  /** Once the text carries the bot's marker, a rebuilt section adds no note:
      its new heading line and body are appended as they are, and the line
      reads back, at the same level, as the titles chosen for it. */
  lemma RebuiltAfterMarker(acc: string, sec: Section, ts: seq<string>,
                           check: string -> Result<Resolution, ResolveError>, cfg: Config)
    requires IsChecker(check) && |ts| > 0 && Contains(acc, Marker)
    requires HeadingLevel(sec.title).Some?
    requires RewriteTitles(ts, check).Success?
    requires var ns := RewriteTitles(ts, check).value.titles;
      && (forall k :: 0 <= k < |ns| ==> Writable(ns[k]))
      && (|ns| == 1 ==> '=' !in ns[0])
    ensures var level := HeadingLevel(sec.title).value;
      var ns := RewriteTitles(ts, check).value.titles;
      var line := HeadingLine(level, RenderHeading(EscapeEqualSign(ns)));
      && RebuildSection(acc, sec, Some(ts), check, cfg) == Success(acc + line + sec.content)
      && ParseHeading(HeadingText(line)) == Some(ns)
      && HeadingLevel(line) == Some(level)
  {
    var level := HeadingLevel(sec.title).value;
    var ns := RewriteTitles(ts, check).value.titles;
    RebuiltLineAfterMarker(acc, sec, ts, check, cfg);
    SectionHeadingRoundTrip(level, ns);
  }

  /** After the marker the rebuilt section is its new heading line and body. */
  lemma RebuiltLineAfterMarker(acc: string, sec: Section, ts: seq<string>,
                               check: string -> Result<Resolution, ResolveError>, cfg: Config)
    requires IsChecker(check) && |ts| > 0 && Contains(acc, Marker)
    requires HeadingLevel(sec.title).Some?
    requires RewriteTitles(ts, check).Success?
    ensures var rw := RewriteTitles(ts, check).value;
      var line := HeadingLine(HeadingLevel(sec.title).value, RenderHeading(EscapeEqualSign(rw.titles)));
      RebuildSection(acc, sec, Some(ts), check, cfg) == Success(acc + line + sec.content)
  {
    var level := HeadingLevel(sec.title).value;
    var rw := RewriteTitles(ts, check).value;
    var line := HeadingLine(level, RenderHeading(EscapeEqualSign(rw.titles)));
    ContainsExtended(acc, line, Marker);
    MarkedTextUntouched(acc + line, sec.content, rw.mode, cfg);
  }

  /** The heading line the bot writes, at the given level, for the titles
      chosen for a section: the titles escaped, rendered as one heading and
      framed by the old `=` run. */
  function NewLine(level: string, ns: seq<string>): (line: string)
    requires IsLevel(level) && |ns| > 0
    ensures HeadingLevel(line) == Some(level)
  {
    HeadingLine(level, RenderHeading(EscapeEqualSign(ns)))
  }

  /** Titles without a line break give a heading that is one line, opening
      and closing with `=`. */
  lemma NewLineOneLine(level: string, ns: seq<string>)
    requires IsLevel(level) && |ns| > 0
    requires forall k :: 0 <= k < |ns| ==> '\n' !in ns[k]
    ensures OneLine(NewLine(level, ns))
  {
    var es := EscapeEqualSign(ns);
    assert forall k :: 0 <= k < |es| ==> '\n' !in es[k] by {
      EscapeKeepsOut(ns, '\n');
    }
    var h := RenderHeading(es);
    assert '\n' !in h;
    LevelChars(level, '\n');
    var line := HeadingLine(level, h);
    assert line[0] == '=' && line[|line| - 1] == '=' && '\n' !in line;
  }

  /** The new heading line of a section the bot rewrites, when its titles
      all resolve. */
  function SectionLine(sec: Section, titles: Option<seq<string>>,
                       check: string -> Result<Resolution, ResolveError>): (r: Option<string>)
    requires IsChecker(check) && (titles.Some? ==> |titles.value| > 0)
    ensures r.Some? <==> Rewrites(sec, titles) && CheckAll(titles.value, check).Success?
    ensures r.Some? ==> HeadingLevel(r.value) == HeadingLevel(sec.title)
  {
    if Rewrites(sec, titles) && RewriteTitles(titles.value, check).Success? then
      Some(NewLine(HeadingLevel(sec.title).value, RewriteTitles(titles.value, check).value.titles))
    else
      None
  }

  /** A rebuilt section keeps every line of the text before it: the note
      goes in between lines, and stripping only takes blanks off the ends. */
  lemma RebuildKeeps(acc: string, sec: Section, titles: Option<seq<string>>,
                     check: string -> Result<Resolution, ResolveError>, cfg: Config, p: string)
    requires IsChecker(check) && (titles.Some? ==> |titles.value| > 0)
    requires RebuildSection(acc, sec, titles, check, cfg).Success?
    requires OneLine(p) && Contains(acc, p)
    ensures Contains(RebuildSection(acc, sec, titles, check, cfg).value, p)
  {
    if Rewrites(sec, titles) {
      var rw := RewriteTitles(titles.value, check).value;
      var text := acc + NewLine(HeadingLevel(sec.title).value, rw.titles) + sec.content;
      assert Contains(text, p) by {
        ContainsPrefix(acc, NewLine(HeadingLevel(sec.title).value, rw.titles), sec.content, p);
      }
      AppendCommentKeeps(text, rw.mode, cfg, p);
    } else {
      ContainsPrefix(acc, sec.title, sec.content, p);
    }
  }

  /** A rebuilt section holds its own new heading line, on the first run as
      after the marker: the note never splits it. */
  lemma RebuildWritesLine(acc: string, sec: Section, ts: seq<string>,
                          check: string -> Result<Resolution, ResolveError>, cfg: Config, line: string)
    requires IsChecker(check) && |ts| > 0 && HeadingLevel(sec.title).Some?
    requires RewriteTitles(ts, check).Success?
    requires line == NewLine(HeadingLevel(sec.title).value, RewriteTitles(ts, check).value.titles)
    requires OneLine(line)
    ensures RebuildSection(acc, sec, Some(ts), check, cfg).Success?
    ensures Contains(RebuildSection(acc, sec, Some(ts), check, cfg).value, line)
  {
    var mode := RewriteTitles(ts, check).value.mode;
    var text := acc + line + sec.content;
    assert RebuildSection(acc, sec, Some(ts), check, cfg) == Success(AppendComment(text, mode, cfg));
    assert Contains(AppendComment(text, mode, cfg), line) by {
      assert OccursAt(text, line, |acc|) by {
        assert text[|acc|..|acc| + |line|] == line;
      }
      AppendCommentKeeps(text, mode, cfg, line);
    }
  }

  /** Every line already in the text survives the remaining sections. */
  lemma {:induction false} RewriteSectionsKeep(acc: string, secs: seq<Section>, parsed: seq<Option<seq<string>>>,
                                               check: string -> Result<Resolution, ResolveError>, cfg: Config, p: string)
    requires IsChecker(check) && WellParsed(secs, parsed)
    requires RewriteSections(acc, secs, parsed, check, cfg).Success?
    requires OneLine(p) && Contains(acc, p)
    ensures Contains(RewriteSections(acc, secs, parsed, check, cfg).value, p)
    decreases |secs|
  {
    if |secs| > 0 {
      RebuildKeeps(acc, secs[0], parsed[0], check, cfg, p);
      var next := RebuildSection(acc, secs[0], parsed[0], check, cfg).value;
      RewriteSectionsKeep(next, secs[1..], parsed[1..], check, cfg, p);
    }
  }

  lemma TailAt<T>(s: seq<T>, k: nat)
    requires 0 < k < |s|
    ensures s[1..][k - 1] == s[k]
  {
  }

  /** The new heading line of the first section survives the rest. */
  lemma FirstSectionLine(acc: string, secs: seq<Section>, parsed: seq<Option<seq<string>>>,
                         check: string -> Result<Resolution, ResolveError>, cfg: Config, line: string)
    requires IsChecker(check) && WellParsed(secs, parsed) && |secs| > 0
    requires RewriteSections(acc, secs, parsed, check, cfg).Success?
    requires SectionLine(secs[0], parsed[0], check) == Some(line) && OneLine(line)
    ensures Contains(RewriteSections(acc, secs, parsed, check, cfg).value, line)
  {
    SectionStep(acc, secs, parsed, check, cfg);
    var next := RebuildSection(acc, secs[0], parsed[0], check, cfg).value;
    RebuildWritesLine(acc, secs[0], parsed[0].value, check, cfg, line);
    RewriteSectionsKeep(next, secs[1..], parsed[1..], check, cfg, line);
  }

  /** A successful run rebuilt its first section, and went on from there. */
  lemma SectionStep(acc: string, secs: seq<Section>, parsed: seq<Option<seq<string>>>,
                    check: string -> Result<Resolution, ResolveError>, cfg: Config)
    requires IsChecker(check) && WellParsed(secs, parsed) && |secs| > 0
    requires RewriteSections(acc, secs, parsed, check, cfg).Success?
    ensures RebuildSection(acc, secs[0], parsed[0], check, cfg).Success?
    ensures WellParsed(secs[1..], parsed[1..])
    ensures RewriteSections(acc, secs, parsed, check, cfg)
         == RewriteSections(RebuildSection(acc, secs[0], parsed[0], check, cfg).value, secs[1..], parsed[1..], check, cfg)
  {
  }

  /** The page written back holds the new heading line of every section the
      bot rewrote, whether or not the talk page was annotated before. */
  lemma {:induction false} RewriteSectionsWritesLines(acc: string, secs: seq<Section>, parsed: seq<Option<seq<string>>>,
                                                      check: string -> Result<Resolution, ResolveError>, cfg: Config,
                                                      k: nat, line: string)
    requires IsChecker(check) && WellParsed(secs, parsed)
    requires RewriteSections(acc, secs, parsed, check, cfg).Success?
    requires k < |secs| && SectionLine(secs[k], parsed[k], check) == Some(line) && OneLine(line)
    ensures Contains(RewriteSections(acc, secs, parsed, check, cfg).value, line)
    decreases k, 1
  {
    if k == 0 {
      FirstSectionLine(acc, secs, parsed, check, cfg, line);
    } else {
      assert LineDue(acc, secs, parsed, check, cfg, k, line);
      LaterSectionLine(acc, secs, parsed, check, cfg, k, line);
    }
  }

  /** A later section's line is written by the run over the remaining
      sections, which the whole run ends with. */
  lemma {:induction false} LaterSectionLine(acc: string, secs: seq<Section>, parsed: seq<Option<seq<string>>>,
                                            check: string -> Result<Resolution, ResolveError>, cfg: Config,
                                            k: nat, line: string)
    requires LineDue(acc, secs, parsed, check, cfg, k, line) && 0 < k
    ensures Contains(RewriteSections(acc, secs, parsed, check, cfg).value, line)
    decreases k, 0
  {
    var next := TailLineDue(acc, secs, parsed, check, cfg, k, line);
    RewriteSectionsWritesLines(next, secs[1..], parsed[1..], check, cfg, k - 1, line);
  }

  /** The preconditions of the line lemma, gathered. */
  ghost predicate LineDue(acc: string, secs: seq<Section>, parsed: seq<Option<seq<string>>>,
                          check: string -> Result<Resolution, ResolveError>, cfg: Config, k: nat, line: string) {
    IsChecker(check) && WellParsed(secs, parsed) && RewriteSections(acc, secs, parsed, check, cfg).Success? &&
    k < |secs| && SectionLine(secs[k], parsed[k], check) == Some(line) && OneLine(line)
  }

  /** The run from the second section on, with the first one's text as its
      start, is due to write the same line. */
  lemma TailLineDue(acc: string, secs: seq<Section>, parsed: seq<Option<seq<string>>>,
                    check: string -> Result<Resolution, ResolveError>, cfg: Config, k: nat, line: string)
    returns (next: string)
    requires LineDue(acc, secs, parsed, check, cfg, k, line) && 0 < k
    ensures LineDue(next, secs[1..], parsed[1..], check, cfg, k - 1, line)
    ensures RewriteSections(acc, secs, parsed, check, cfg) == RewriteSections(next, secs[1..], parsed[1..], check, cfg)
  {
    SectionStep(acc, secs, parsed, check, cfg);
    next := RebuildSection(acc, secs[0], parsed[0], check, cfg).value;
    TailAt(secs, k);
    TailAt(parsed, k);
  }

  /** The sections are rebuilt unless some title of a section that gets a
      new heading fails `check_title`. */
  lemma {:induction false} RewriteSectionsSucceeds(acc: string, secs: seq<Section>, parsed: seq<Option<seq<string>>>,
                                                   check: string -> Result<Resolution, ResolveError>, cfg: Config)
    requires IsChecker(check) && WellParsed(secs, parsed)
    ensures RewriteSections(acc, secs, parsed, check, cfg).Success? <==>
              forall k :: 0 <= k < |secs| && Rewrites(secs[k], parsed[k]) ==> CheckAll(parsed[k].value, check).Success?
    decreases |secs|
  {
    if |secs| > 0 {
      var first := RebuildSection(acc, secs[0], parsed[0], check, cfg);
      if first.Success? {
        assert WellParsed(secs[1..], parsed[1..]);
        RewriteSectionsSucceeds(first.value, secs[1..], parsed[1..], check, cfg);
        assert forall k :: 1 <= k < |secs| ==> secs[1..][k - 1] == secs[k] && parsed[1..][k - 1] == parsed[k];
      }
    }
  }

  /** Sections none of which was recognised come out exactly as they went
      in. */
  lemma {:induction false} UnrecognisedVerbatim(acc: string, secs: seq<Section>, parsed: seq<Option<seq<string>>>,
                                                check: string -> Result<Resolution, ResolveError>, cfg: Config)
    requires IsChecker(check) && |parsed| == |secs|
    requires forall k :: 0 <= k < |parsed| ==> parsed[k].None?
    ensures RewriteSections(acc, secs, parsed, check, cfg) == Success(acc + Verbatim(secs))
    decreases |secs|
  {
    if |secs| > 0 {
      var next := acc + secs[0].title + secs[0].content;
      SkippedSection(acc, secs, parsed, check, cfg);
      UnrecognisedVerbatim(next, secs[1..], parsed[1..], check, cfg);
      VerbatimCons(acc, secs);
    } else {
      assert acc + Verbatim(secs) == acc;
    }
  }

  /** A skipped first section is appended as it is before the rest. */
  lemma SkippedSection(acc: string, secs: seq<Section>, parsed: seq<Option<seq<string>>>,
                       check: string -> Result<Resolution, ResolveError>, cfg: Config)
    requires IsChecker(check) && |parsed| == |secs| > 0 && parsed[0].None?
    requires forall k :: 0 <= k < |parsed| ==> parsed[k].None?
    ensures RewriteSections(acc, secs, parsed, check, cfg)
         == RewriteSections(acc + secs[0].title + secs[0].content, secs[1..], parsed[1..], check, cfg)
  {
    assert RebuildSection(acc, secs[0], parsed[0], check, cfg) == Success(acc + secs[0].title + secs[0].content);
  }

  lemma VerbatimCons(acc: string, secs: seq<Section>)
    requires |secs| > 0
    ensures acc + secs[0].title + secs[0].content + Verbatim(secs[1..]) == acc + Verbatim(secs)
  {
    var t, c, v := secs[0].title, secs[0].content, Verbatim(secs[1..]);
    assert Verbatim(secs) == t + c + v;
    AppendsRegroup(acc, t, c, v);
  }

  /** A section rebuilt after the marker only appends to the text. */
  lemma MarkedSectionAppends(acc: string, sec: Section, titles: Option<seq<string>>,
                             check: string -> Result<Resolution, ResolveError>, cfg: Config)
    requires IsChecker(check) && (titles.Some? ==> |titles.value| > 0)
    requires Contains(acc, Marker)
    requires RebuildSection(acc, sec, titles, check, cfg).Success?
    ensures var r := RebuildSection(acc, sec, titles, check, cfg).value;
      |acc| <= |r| && r[..|acc|] == acc
  {
    if titles.None? || HeadingLevel(sec.title).None? {
      PrefixOfAppends(acc, sec.title, sec.content);
    } else {
      assert RewriteTitles(titles.value, check).Success?;
      var rw := RewriteTitles(titles.value, check).value;
      var line := HeadingLine(HeadingLevel(sec.title).value, RenderHeading(EscapeEqualSign(rw.titles)));
      RebuiltLineAfterMarker(acc, sec, titles.value, check, cfg);
      PrefixOfAppends(acc, line, sec.content);
    }
  }

  /** Text that already carries the marker is only ever extended: nothing
      before it is stripped or rewritten, and the marker stays. */
  lemma {:induction false} MarkedTextOnlyGrows(acc: string, secs: seq<Section>, parsed: seq<Option<seq<string>>>,
                                               check: string -> Result<Resolution, ResolveError>, cfg: Config)
    requires IsChecker(check) && WellParsed(secs, parsed)
    requires Contains(acc, Marker)
    requires RewriteSections(acc, secs, parsed, check, cfg).Success?
    ensures var r := RewriteSections(acc, secs, parsed, check, cfg).value;
      |acc| <= |r| && r[..|acc|] == acc && Contains(r, Marker)
    decreases |secs|
  {
    if |secs| > 0 {
      MarkedSectionAppends(acc, secs[0], parsed[0], check, cfg);
      var next := RebuildSection(acc, secs[0], parsed[0], check, cfg).value;
      var e := next[|acc|..];
      assert next == acc + e;
      ContainsExtended(acc, e, Marker);
      MarkedTextOnlyGrows(next, secs[1..], parsed[1..], check, cfg);
      var r := RewriteSections(acc, secs, parsed, check, cfg).value;
      assert r[..|acc|] == next[..|acc|];
    }
  }
}

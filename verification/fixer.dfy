/** `fix` (edit.py:135-269) around the two section loops: the archive page
    name, the title queries in batches of fifty, the lookup tables they
    fill, and the decision whether the rewritten page is saved. */
module Fixer {
  import opened Wrappers
  import opened Text
  import opened Resolver
  import opened Headings
  import opened Comments
  import opened Rewriter

  // ---------------------------------------------------------------------
  // Page name
  // ---------------------------------------------------------------------

  /** The prefix of the daily deletion-discussion log pages. */
  const ArchivePrefix := "Wikipedia:頁面存廢討論/記錄/"

  /** `\d{4}/\d{2}/\d{2}` matches at index `i`. */
  predicate DateAt(s: string, i: nat) {
    && i + 10 <= |s|
    && AllDigits(s[i..i + 4]) && s[i + 4] == '/'
    && AllDigits(s[i + 5..i + 7]) && s[i + 7] == '/'
    && AllDigits(s[i + 8..i + 10])
  }

  function DateFrom(s: string, i: nat): (r: bool)
    requires i <= |s|
    ensures r <==> exists j :: i <= j < |s| && DateAt(s, j)
    decreases |s| - i
  {
    if i == |s| then false else DateAt(s, i) || DateFrom(s, i + 1)
  }

  /** A date written `YYYY/MM/DD` appears somewhere in the name. */
  predicate ContainsDate(s: string) {
    DateFrom(s, 0)
  }

  /** The page a name given on the command line stands for: a name holding a
      date is the log page of that day. */
  function ArchivePageName(name: string): (r: string)
    ensures |r| >= |name| && r[|r| - |name|..] == name
    ensures r != name <==> ContainsDate(name)
    ensures ContainsDate(name) ==> |r| == |ArchivePrefix| + |name| && r[..|ArchivePrefix|] == ArchivePrefix
  {
    if ContainsDate(name) then ArchivePrefix + name else name
  }

  // ---------------------------------------------------------------------
  // Queries in batches
  // ---------------------------------------------------------------------

  /** How many titles one query names. */
  const BatchSize := 50

  function Flatten(xss: seq<seq<string>>): seq<string>
    decreases |xss|
  {
    if |xss| == 0 then [] else xss[0] + Flatten(xss[1..])
  }

  /** `xs[i:i + n]` for `i` in `range(0, len(xs), n)`: consecutive runs of
      `n` titles, the last one possibly shorter. */
  function Batches(xs: seq<string>, n: nat): (r: seq<seq<string>>)
    requires n > 0
    ensures Flatten(r) == xs
    ensures forall k :: 0 <= k < |r| ==> 0 < |r[k]| <= n
    ensures forall k :: 0 <= k < |r| - 1 ==> |r[k]| == n
    decreases |xs|
  {
    if |xs| == 0 then
      []
    else if |xs| <= n then
      assert Flatten([xs]) == xs + Flatten([]);
      [xs]
    else
      var rest := Batches(xs[n..], n);
      assert ([xs[..n]] + rest)[1..] == rest;
      assert xs[..n] + xs[n..] == xs;
      [xs[..n]] + rest
  }

  /** The titles of every recognised section, in section order. */
  function AllTitles(parsed: seq<Option<seq<string>>>): seq<string>
    decreases |parsed|
  {
    if |parsed| == 0 then []
    else (if parsed[0].Some? then parsed[0].value else []) + AllTitles(parsed[1..])
  }

  /** One `from`/`to` entry of a query answer. */
  datatype Pair = Pair(from: string, to: string)

  /** The three lists of a query answer; a list the answer leaves out is
      empty. */
  datatype Response = Response(normalized: seq<Pair>, converted: seq<Pair>, redirects: seq<Pair>)

  /** Storing each entry in the table, in order. */
  function Merge(m: map<string, string>, items: seq<Pair>): (r: map<string, string>)
    ensures m.Keys <= r.Keys
    decreases |items|
  {
    if |items| == 0 then m else Merge(m[items[0].from := items[0].to], items[1..])
  }

  /** The `to` of the last entry for `key`, if there is one. */
  function LastTo(items: seq<Pair>, key: string): (r: Option<string>)
    ensures r.None? <==> forall k :: 0 <= k < |items| ==> items[k].from != key
    decreases |items|
  {
    if |items| == 0 then None
    else if items[|items| - 1].from == key then Some(items[|items| - 1].to)
    else LastTo(items[..|items| - 1], key)
  }

  /** The tables after one query answer. */
  function Update(t: Tables, resp: Response): (r: Tables)
    ensures t.normalized.Keys <= r.normalized.Keys
    ensures t.converted.Keys <= r.converted.Keys
    ensures t.redirects.Keys <= r.redirects.Keys
  {
    Tables(Merge(t.normalized, resp.normalized), Merge(t.converted, resp.converted), Merge(t.redirects, resp.redirects))
  }

  /** The tables after the answers to every batch, queried in order. The
      tables are never cleared, so entries from earlier pages stay. */
  function FillTables(t: Tables, batches: seq<seq<string>>, query: seq<string> -> Response): (r: Tables)
    ensures t.normalized.Keys <= r.normalized.Keys
    ensures t.converted.Keys <= r.converted.Keys
    ensures t.redirects.Keys <= r.redirects.Keys
    decreases |batches|
  {
    if |batches| == 0 then t else FillTables(Update(t, query(batches[0])), batches[1..], query)
  }

  /** Which of the three lists of an answer, and of the tables. */
  datatype Kind = NormalizedKind | ConvertedKind | RedirectsKind

  function Listed(resp: Response, kind: Kind): seq<Pair> {
    match kind
    case NormalizedKind => resp.normalized
    case ConvertedKind => resp.converted
    case RedirectsKind => resp.redirects
  }

  function Table(t: Tables, kind: Kind): map<string, string> {
    match kind
    case NormalizedKind => t.normalized
    case ConvertedKind => t.converted
    case RedirectsKind => t.redirects
  }

  /** One kind of entry from the answers to every batch, in query order. */
  function Answers(batches: seq<seq<string>>, query: seq<string> -> Response, kind: Kind): seq<Pair>
    decreases |batches|
  {
    if |batches| == 0 then [] else Listed(query(batches[0]), kind) + Answers(batches[1..], query, kind)
  }

  // ---------------------------------------------------------------------
  // The whole page
  // ---------------------------------------------------------------------

  /** The titles of every section, or none where it is skipped. */
  function ParseAll(secs: seq<Section>): (r: seq<Option<seq<string>>>)
    ensures WellParsed(secs, r)
    ensures forall k :: 0 <= k < |secs| ==> r[k] == ParseSection(secs[k])
  {
    seq(|secs|, k requires 0 <= k < |secs| => ParseSection(secs[k]))
  }

  /** Two texts that differ only in whitespace count as the same page. */
  predicate Unchanged(before: string, after: string) {
    RemoveSpace(before) == RemoveSpace(after)
  }

  /** `check_title` against the given tables and wiki. */
  function Checker(tables: Tables, wiki: string -> Page): (r: string -> Result<Resolution, ResolveError>)
    ensures IsChecker(r)
  {
    CheckTitleIsChecker(tables, wiki);
    w => CheckTitle(w, tables, wiki)
  }

  /** The checker asks `check_title` with the filled tables. */
  lemma CheckerIsCheckTitle(tables: Tables, wiki: string -> Page, w: string)
    ensures Checker(tables, wiki)(w) == CheckTitle(w, tables, wiki)
  {
  }

  /** What `fix` does with a page: leaves it when only whitespace would
      change, saves it otherwise. */
  datatype Outcome = NothingChanged(text: string) | Saved(text: string)

  /** The outcome and the tables as the next page finds them. */
  datatype Fixed = Fixed(outcome: Outcome, tables: Tables)

  /** The tables once every recognised title has been queried. */
  function Filled(tables: Tables, secs: seq<Section>, query: seq<string> -> Response): (r: Tables)
    ensures tables.redirects.Keys <= r.redirects.Keys
  {
    FillTables(tables, Batches(AllTitles(ParseAll(secs)), BatchSize), query)
  }

  /** The header and the sections after the second loop. */
  function Body(header: string, secs: seq<Section>, filled: Tables, wiki: string -> Page, cfg: Config): Result<string, ResolveError> {
    RewriteSections(header, secs, ParseAll(secs), Checker(filled, wiki), cfg)
  }

  /** The sections are rebuilt unless a title of a section that gets a new
      heading fails `check_title`. */
  lemma BodySucceeds(header: string, secs: seq<Section>, filled: Tables, wiki: string -> Page, cfg: Config)
    ensures Body(header, secs, filled, wiki, cfg).Success? <==>
              forall k :: 0 <= k < |secs| && Rewrites(secs[k], ParseSection(secs[k])) ==>
                CheckAll(ParseSection(secs[k]).value, Checker(filled, wiki)).Success?
  {
    RewriteSectionsSucceeds(header, secs, ParseAll(secs), Checker(filled, wiki), cfg);
  }

  /** `fix` on a page whose text the splitter cut into a header, sections
      and a footer. */
  function Fix(text: string, header: string, secs: seq<Section>, footer: string, tables: Tables,
               query: seq<string> -> Response, wiki: string -> Page, cfg: Config): (r: Result<Fixed, ResolveError>)
    ensures r.Success? <==> Body(header, secs, Filled(tables, secs, query), wiki, cfg).Success?
    ensures r.Success? ==> r.value.tables == Filled(tables, secs, query)
    ensures r.Success? ==> (r.value.outcome.Saved? <==> !Unchanged(text, r.value.outcome.text))
    ensures r.Success? ==> tables.redirects.Keys <= r.value.tables.redirects.Keys
    ensures r.Success? ==> var out := r.value.outcome.text;
              |out| >= |footer| && out[|out| - |footer|..] == footer
  {
    var filled := Filled(tables, secs, query);
    var body :- Body(header, secs, filled, wiki, cfg);
    Success(Decide(text, body + footer, filled))
  }

  /** The last step of `fix`: compare the new text with the old, without
      spaces, and save only when they differ. */
  function Decide(text: string, newText: string, filled: Tables): (r: Fixed)
    ensures r.outcome.text == newText && r.tables == filled
    ensures r.outcome.Saved? <==> !Unchanged(text, newText)
  {
    if Unchanged(text, newText) then Fixed(NothingChanged(newText), filled) else Fixed(Saved(newText), filled)
  }

  /** Why `fix` as written stops before saving: the command line declares
      `-d/--debug` under the name `loglevel`, so asking for `debug` raises
      `AttributeError`. */
  datatype Crash = NoDebugAttribute

  /** The last step of `fix` as written: a page that changes reaches the
      `args.debug` test before the save and raises there. */
  function DecideAsWritten(text: string, newText: string, filled: Tables): (r: Result<Fixed, Crash>)
    ensures r.Failure? <==> !Unchanged(text, newText)
    ensures r.Success? ==> r.value.outcome.NothingChanged? && r.value.outcome.text == newText
  {
    if Unchanged(text, newText) then Success(Fixed(NothingChanged(newText), filled))
    else Failure(NoDebugAttribute)
  }

  /** As written, no page is ever saved, while the intended `Decide` saves
      every page that changes in more than whitespace. */
  lemma AsWrittenNeverSaves(text: string, newText: string, filled: Tables)
    ensures DecideAsWritten(text, newText, filled).Success? ==>
              DecideAsWritten(text, newText, filled).value.outcome.NothingChanged?
    ensures !Unchanged(text, newText) ==>
              && DecideAsWritten(text, newText, filled) == Failure(NoDebugAttribute)
              && Decide(text, newText, filled).outcome == Saved(newText)
  {
  }

  /** A concrete page: replacing the text `a` with `b` crashes as written
      and is saved as intended. */
  lemma ChangedPageCrashes(filled: Tables)
    ensures DecideAsWritten("a", "b", filled) == Failure(NoDebugAttribute)
    ensures Decide("a", "b", filled).outcome == Saved("b")
  {
    assert RemoveSpace("a") == "a";
  }

  // ---------------------------------------------------------------------
  // Properties
  // ---------------------------------------------------------------------

  /** A bare date names the log page of that day. */
  lemma DateNamesLogPage(y: string, m: string, d: string)
    requires |y| == 4 && |m| == 2 && |d| == 2
    requires AllDigits(y) && AllDigits(m) && AllDigits(d)
    ensures ArchivePageName(y + "/" + m + "/" + d) == ArchivePrefix + y + "/" + m + "/" + d
  {
    var s := y + "/" + m + "/" + d;
    assert s[0..4] == y && s[5..7] == m && s[8..10] == d;
    assert DateAt(s, 0);
  }

  /** A name without a slash is used as it is. */
  lemma NameWithoutSlashKept(name: string)
    requires '/' !in name
    ensures ArchivePageName(name) == name
  {
    forall j | 0 <= j < |name|
      ensures !DateAt(name, j)
    {
      if j + 10 <= |name| {
        assert name[j + 4] in name;
      }
    }
  }

  /** Merging one more entry is storing it last. */
  lemma {:induction false} MergeSnoc(m: map<string, string>, items: seq<Pair>, p: Pair)
    ensures Merge(m, items + [p]) == Merge(m, items)[p.from := p.to]
    decreases |items|
  {
    if |items| == 0 {
      assert items + [p] == [p];
    } else {
      assert (items + [p])[1..] == items[1..] + [p];
      MergeSnoc(m[items[0].from := items[0].to], items[1..], p);
    }
  }

  /** The table after an answer maps each key to the `to` of its last entry,
      and keeps every key the answer does not mention. */
  lemma {:induction false} MergeLastWins(m: map<string, string>, items: seq<Pair>, key: string)
    ensures key in Merge(m, items) <==> key in m || LastTo(items, key).Some?
    ensures LastTo(items, key).Some? ==> Merge(m, items)[key] == LastTo(items, key).value
    ensures LastTo(items, key).None? && key in m ==> Merge(m, items)[key] == m[key]
    decreases |items|
  {
    if |items| > 0 {
      var init := items[..|items| - 1];
      var p := items[|items| - 1];
      assert items == init + [p];
      MergeSnoc(m, init, p);
      MergeLastWins(m, init, key);
    }
  }

  /** One query per fifty titles, rounded up. */
  lemma {:induction false} BatchCount(xs: seq<string>)
    ensures |Batches(xs, BatchSize)| == (|xs| + BatchSize - 1) / BatchSize
    decreases |xs|
  {
    if |xs| > BatchSize {
      BatchCount(xs[BatchSize..]);
    }
  }

  /** Storing two answers one after the other is storing them joined. */
  lemma {:induction false} MergeAppend(m: map<string, string>, a: seq<Pair>, b: seq<Pair>)
    ensures Merge(m, a + b) == Merge(Merge(m, a), b)
    decreases |a|
  {
    if |a| == 0 {
      assert a + b == b;
    } else {
      assert (a + b)[1..] == a[1..] + b;
      MergeAppend(m[a[0].from := a[0].to], a[1..], b);
    }
  }

  /** Each table after all the queries is the old table with every answer's
      entries of its kind stored in query order. */
  lemma {:induction false} FillTablesMerges(t: Tables, batches: seq<seq<string>>, query: seq<string> -> Response, kind: Kind)
    ensures Table(FillTables(t, batches, query), kind) == Merge(Table(t, kind), Answers(batches, query, kind))
    decreases |batches|
  {
    if |batches| > 0 {
      var u := Update(t, query(batches[0]));
      FillTablesMerges(u, batches[1..], query, kind);
      MergeAppend(Table(t, kind), Listed(query(batches[0]), kind), Answers(batches[1..], query, kind));
      assert Table(u, kind) == Merge(Table(t, kind), Listed(query(batches[0]), kind));
    }
  }

  /** After all the queries a title is in a table iff it was before or some
      answer lists it; it then maps to what the last answer listing it says,
      and a title no answer lists keeps its old entry. */
  lemma FillTablesLastWins(t: Tables, batches: seq<seq<string>>, query: seq<string> -> Response, kind: Kind, key: string)
    ensures var all := Answers(batches, query, kind);
      var r := Table(FillTables(t, batches, query), kind);
      && (key in r <==> key in Table(t, kind) || LastTo(all, key).Some?)
      && (LastTo(all, key).Some? ==> r[key] == LastTo(all, key).value)
      && (LastTo(all, key).None? && key in Table(t, kind) ==> r[key] == Table(t, kind)[key])
  {
    FillTablesMerges(t, batches, query, kind);
    MergeLastWins(Table(t, kind), Answers(batches, query, kind), key);
  }

  /** The saved page holds the new heading line of every section the bot
      rewrote. */
  lemma FixWritesHeadings(text: string, header: string, secs: seq<Section>, footer: string, tables: Tables,
                          query: seq<string> -> Response, wiki: string -> Page, cfg: Config, k: nat, line: string)
    requires Fix(text, header, secs, footer, tables, query, wiki, cfg).Success?
    requires k < |secs|
    requires SectionLine(secs[k], ParseSection(secs[k]), Checker(Filled(tables, secs, query), wiki)) == Some(line)
    requires OneLine(line)
    ensures Contains(Fix(text, header, secs, footer, tables, query, wiki, cfg).value.outcome.text, line)
  {
    var filled := Filled(tables, secs, query);
    var body := Body(header, secs, filled, wiki, cfg);
    FixText(text, header, secs, footer, tables, query, wiki, cfg);
    assert Contains(body.value, line) by {
      var check := Checker(filled, wiki);
      assert LineDue(header, secs, ParseAll(secs), check, cfg, k, line);
      RewriteSectionsWritesLines(header, secs, ParseAll(secs), check, cfg, k, line);
    }
    ContainsPrefix(body.value, footer, "", line);
    assert body.value + footer + "" == body.value + footer;
  }

  /** The text `fix` ends up with is the rebuilt sections and the footer. */
  lemma FixText(text: string, header: string, secs: seq<Section>, footer: string, tables: Tables,
                query: seq<string> -> Response, wiki: string -> Page, cfg: Config)
    requires Fix(text, header, secs, footer, tables, query, wiki, cfg).Success?
    ensures Body(header, secs, Filled(tables, secs, query), wiki, cfg).Success?
    ensures Fix(text, header, secs, footer, tables, query, wiki, cfg).value.outcome.text
         == Body(header, secs, Filled(tables, secs, query), wiki, cfg).value + footer
  {
  }

  /** Once the sections are rebuilt, `fix` only compares and decides. */
  lemma FixOf(text: string, header: string, secs: seq<Section>, footer: string, tables: Tables,
              query: seq<string> -> Response, wiki: string -> Page, cfg: Config, body: string)
    requires Body(header, secs, Filled(tables, secs, query), wiki, cfg) == Success(body)
    ensures Fix(text, header, secs, footer, tables, query, wiki, cfg)
         == Success(Decide(text, body + footer, Filled(tables, secs, query)))
  {
  }

  /** A page none of whose sections is recognised is never saved, provided
      the splitter returned the text in pieces that make it up. */
  lemma NothingRecognisedNotSaved(text: string, header: string, secs: seq<Section>, footer: string, tables: Tables,
                                  query: seq<string> -> Response, wiki: string -> Page, cfg: Config)
    requires forall k :: 0 <= k < |secs| ==> ParseSection(secs[k]).None?
    requires Unchanged(text, header + Verbatim(secs) + footer)
    ensures Fix(text, header, secs, footer, tables, query, wiki, cfg).Success?
    ensures Fix(text, header, secs, footer, tables, query, wiki, cfg).value.outcome.NothingChanged?
  {
    UnrecognisedPage(header, secs, Filled(tables, secs, query), wiki, cfg);
    FixOf(text, header, secs, footer, tables, query, wiki, cfg, header + Verbatim(secs));
  }

  /** Sections the parser skips all come out as they went in. */
  lemma UnrecognisedPage(header: string, secs: seq<Section>, filled: Tables, wiki: string -> Page, cfg: Config)
    requires forall k :: 0 <= k < |secs| ==> ParseSection(secs[k]).None?
    ensures Body(header, secs, filled, wiki, cfg) == Success(header + Verbatim(secs))
  {
    var parsed := ParseAll(secs);
    forall k | 0 <= k < |parsed|
      ensures parsed[k].None?
    {
      assert parsed[k] == ParseSection(secs[k]);
    }
    UnrecognisedVerbatim(header, secs, parsed, Checker(filled, wiki), cfg);
  }

  /** Whitespace added anywhere does not count as a change. */
  lemma WhitespaceIsNoChange(x: string, w: string, y: string)
    requires AllSpace(w)
    ensures Unchanged(x + y, x + w + y)
  {
    RemoveSpaceAppend(x, y);
    RemoveSpaceAppend(x + w, y);
    RemoveSpaceAppend(x, w);
    RemoveSpaceOfSpaces(w);
  }
}

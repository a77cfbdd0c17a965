/** `check_title` (edit.py:51-89): a title is resolved through the lookup
    tables the query API filled in, and the pages at both ends are then
    classified as candidates for a deletion discussion or not. */
module Resolver {
  import opened Wrappers
  import opened Text

  /** The mode tags the bot collects for a title, plus `fix`, which the
      section rewrite adds when a title changes. */
  datatype Tag = Normalized | Converted | Redirects | VfdOnSource | VfdOnTarget | NoVfd | Fix

  /** The three lookup tables: namespace normalisation, script conversion
      and redirects, each from a title to the title it stands for. */
  datatype Tables = Tables(
    normalized: map<string, string>,
    converted: map<string, string>,
    redirects: map<string, string>)

  /** What the wiki reports about a page: it is missing, or it exists with
      a content model, a namespace number and wikitext. */
  datatype Page = Missing | Present(contentModel: string, namespace: int, text: string)

  /** How `check_title` fails: indexing an empty title, or the lookup of the
      converted title in the redirect table finding no entry. */
  datatype ResolveError = EmptyTitle | MissingRedirect(title: string)

  /** A resolved title and the tags collected for it. */
  datatype Resolution = Resolution(title: string, mode: seq<Tag>)

  /** The position of each tag in the order the bot appends them. */
  function Rank(t: Tag): nat {
    match t
    case Fix => 0
    case Normalized => 1
    case Converted => 2
    case Redirects => 3
    case VfdOnSource => 4
    case VfdOnTarget => 5
    case NoVfd => 6
  }

  /** The tags appear in the bot's order, each at most once. */
  predicate Ordered(m: seq<Tag>) {
    forall i, j :: 0 <= i < j < |m| ==> Rank(m[i]) < Rank(m[j])
  }

  // ---------------------------------------------------------------------
  // Deletion templates on a page
  // ---------------------------------------------------------------------

  /** `{{\s*([vaictumr]fd|Copyvio)` matches at index `i`, ignoring ASCII case. */
  predicate DeletionTemplateAt(s: string, i: nat) {
    && i + 2 <= |s| && s[i] == '{' && s[i + 1] == '{'
    && var j := i + 2 + Run(s, i + 2, IsSpace);
       || (j < |s| && Lower(s[j]) in "vaictumr" && MatchesIgnoreCase(s, j + 1, "fd"))
       || MatchesIgnoreCase(s, j, "copyvio")
  }

  function DeletionTemplateFrom(s: string, i: nat): (r: bool)
    requires i <= |s|
    ensures r <==> exists j :: i <= j < |s| && DeletionTemplateAt(s, j)
    decreases |s| - i
  {
    if i == |s| then false else DeletionTemplateAt(s, i) || DeletionTemplateFrom(s, i + 1)
  }

  /** The page text carries a deletion, copyright or similar template. */
  predicate HasDeletionTemplate(s: string) {
    DeletionTemplateFrom(s, 0)
  }

  /** A page that exists and is not an ordinary article that could be
      discussed normally: it is not wikitext, it lives in the MediaWiki
      namespace, or it already carries a deletion template. */
  predicate Flagged(p: Page) {
    && p.Present?
    && (p.contentModel != "wikitext" || p.namespace == 8 || HasDeletionTemplate(p.text))
  }

  // ---------------------------------------------------------------------
  // Resolution
  // ---------------------------------------------------------------------

  /** The title with one leading `:` removed. */
  function Unprefixed(written: string): (r: string)
    requires |written| > 0
    ensures written == r || written == ":" + r
    ensures written[0] == ':' <==> |r| < |written|
  {
    if written[0] == ':' then written[1..] else written
  }

  /** The title after the namespace normalisation table. */
  function Normalize(t: string, tables: Tables): (r: string)
    ensures t !in tables.normalized ==> r == t
  {
    if t in tables.normalized then tables.normalized[t] else t
  }

  /** The resolution tags for the three lookups that hit, in the bot's order. */
  function ResolutionTags(normalized: bool, converted: bool, redirected: bool): (m: seq<Tag>)
    ensures Ordered(m)
    ensures forall k :: 0 <= k < |m| ==> m[k] in {Normalized, Converted, Redirects}
    ensures Normalized in m <==> normalized
    ensures Converted in m <==> converted
    ensures Redirects in m <==> redirected
  {
    (if normalized then [Normalized] else [])
    + (if converted then [Converted] else [])
    + (if redirected then [Redirects] else [])
  }

  /** Looking a title up in the three tables in the bot's fixed order. The
      title after the conversion step is read from the redirect table; the
      redirect step follows one redirect only. */
  function Resolve(written: string, tables: Tables): (r: Result<Resolution, ResolveError>)
    ensures r == Failure(EmptyTitle) <==> |written| == 0
    ensures r.Success? ==> Ordered(r.value.mode)
    ensures r.Success? ==> forall k :: 0 <= k < |r.value.mode| ==> r.value.mode[k] in {Normalized, Converted, Redirects}
    ensures r.Success? ==> (Normalized in r.value.mode <==> Unprefixed(written) in tables.normalized)
    ensures r.Success? && Redirects in r.value.mode ==> r.value.title in tables.redirects.Values
    ensures |written| > 0 ==>
              var t1 := Normalize(Unprefixed(written), tables);
              (r.Failure? <==> t1 in tables.converted && t1 !in tables.redirects)
              && (r.Failure? ==> r.error == MissingRedirect(t1))
              && (r.Success? ==> (Converted in r.value.mode <==> t1 in tables.converted))
    ensures |written| > 0 && r.Success? ==>
              var t1 := Normalize(Unprefixed(written), tables);
              var t2 := if t1 in tables.converted && t1 in tables.redirects then tables.redirects[t1] else t1;
              && (Redirects in r.value.mode <==> t2 in tables.redirects)
              && (t2 in tables.redirects ==> r.value.title == tables.redirects[t2])
              && (t2 !in tables.redirects ==> r.value.title == t2)
  {
    if |written| == 0 then
      Failure(EmptyTitle)
    else
      var t0 := Unprefixed(written);
      var t1 := Normalize(t0, tables);
      if t1 in tables.converted && t1 !in tables.redirects then
        Failure(MissingRedirect(t1))
      else
        var t2 := if t1 in tables.converted && t1 in tables.redirects then tables.redirects[t1] else t1;
        var t3 := if t2 in tables.redirects then tables.redirects[t2] else t2;
        Success(Resolution(t3, ResolutionTags(t0 in tables.normalized, t1 in tables.converted, t2 in tables.redirects)))
  }

  // ---------------------------------------------------------------------
  // Classification
  // ---------------------------------------------------------------------

  /** The deletion tags for a resolved title. A title that was not
      redirected is checked at its resolved page, where a missing page also
      counts; a redirected one is checked at the page as written and at the
      target, and neither being missing counts. */
  function Classify(written: string, target: string, redirected: bool, wiki: string -> Page): (r: seq<Tag>)
    ensures NoVfd in r <==> VfdOnSource !in r && VfdOnTarget !in r
    ensures VfdOnTarget in r ==> redirected
    ensures !redirected ==> (VfdOnSource in r <==> wiki(target).Missing? || Flagged(wiki(target)))
    ensures redirected ==> (VfdOnSource in r <==> Flagged(wiki(written)))
    ensures redirected ==> (VfdOnTarget in r <==> Flagged(wiki(target)))
    ensures Ordered(r) && Normalized !in r && Converted !in r && Redirects !in r && Fix !in r
  {
    var m :=
      if !redirected then
        var p := wiki(target);
        (if p.Missing? then [VfdOnSource] else [])
        + (if p.Present? && Flagged(p) then [VfdOnSource] else [])
      else
        (if Flagged(wiki(written)) then [VfdOnSource] else [])
        + (if Flagged(wiki(target)) then [VfdOnTarget] else []);
    if VfdOnSource !in m && VfdOnTarget !in m then m + [NoVfd] else m
  }

  /** `check_title`: the resolved title and every tag, resolution tags first. */
  function CheckTitle(written: string, tables: Tables, wiki: string -> Page): (r: Result<Resolution, ResolveError>)
    ensures r.Failure? <==> Resolve(written, tables).Failure?
    ensures r.Success? ==> Ordered(r.value.mode) && Fix !in r.value.mode
    ensures r.Success? ==> (NoVfd in r.value.mode <==> VfdOnSource !in r.value.mode && VfdOnTarget !in r.value.mode)
    ensures r.Success? && VfdOnTarget in r.value.mode ==> Redirects in r.value.mode
    ensures r.Success? && Redirects !in r.value.mode ==>
              (VfdOnSource in r.value.mode <==> wiki(r.value.title).Missing? || Flagged(wiki(r.value.title)))
    ensures r.Success? && Redirects in r.value.mode ==>
              && (VfdOnSource in r.value.mode <==> Flagged(wiki(written)))
              && (VfdOnTarget in r.value.mode <==> Flagged(wiki(r.value.title)))
    ensures r.Success? ==>
              var res := Resolve(written, tables).value;
              && r.value.title == res.title
              && |res.mode| <= |r.value.mode| && r.value.mode[..|res.mode|] == res.mode
              && (Redirects in r.value.mode <==> Redirects in res.mode)
              && (forall t :: t in r.value.mode[|res.mode|..] ==> t in {VfdOnSource, VfdOnTarget, NoVfd})
  {
    var res :- Resolve(written, tables);
    ClassifiedTags(written, res, wiki);
    Success(Resolution(res.title, res.mode + Classify(written, res.title, Redirects in res.mode, wiki)))
  }

  /** The resolution tags followed by the deletion tags of the pages. */
  lemma ClassifiedTags(written: string, res: Resolution, wiki: string -> Page)
    requires Ordered(res.mode)
    requires forall k :: 0 <= k < |res.mode| ==> res.mode[k] in {Normalized, Converted, Redirects}
    ensures var m := res.mode + Classify(written, res.title, Redirects in res.mode, wiki);
      && Ordered(m) && Fix !in m
      && (forall t :: t in m[|res.mode|..] ==> t in {VfdOnSource, VfdOnTarget, NoVfd})
      && (Redirects in m <==> Redirects in res.mode)
      && (NoVfd in m <==> VfdOnSource !in m && VfdOnTarget !in m)
      && (VfdOnTarget in m ==> Redirects in m)
      && (Redirects !in m ==> (VfdOnSource in m <==> wiki(res.title).Missing? || Flagged(wiki(res.title))))
      && (Redirects in m ==> (VfdOnSource in m <==> Flagged(wiki(written))))
      && (Redirects in m ==> (VfdOnTarget in m <==> Flagged(wiki(res.title))))
  {
    var tags := Classify(written, res.title, Redirects in res.mode, wiki);
    OrderedAppend(res.mode, tags);
    assert (res.mode + tags)[|res.mode|..] == tags;
    DeletionTagsOnly(tags);
  }

  /** Tags other than the lookup tags and `fix` are deletion tags. */
  lemma DeletionTagsOnly(tags: seq<Tag>)
    requires Normalized !in tags && Converted !in tags && Redirects !in tags && Fix !in tags
    ensures forall t :: t in tags ==> t in {VfdOnSource, VfdOnTarget, NoVfd}
  {
    forall t | t in tags
      ensures t in {VfdOnSource, VfdOnTarget, NoVfd}
    {
      match t
      case VfdOnSource =>
      case VfdOnTarget =>
      case NoVfd =>
    }
  }

  /** Two ordered runs of tags, the second ranked after the first, stay
      ordered when appended. */
  lemma OrderedAppend(a: seq<Tag>, b: seq<Tag>)
    requires Ordered(a) && Ordered(b)
    requires forall k :: 0 <= k < |a| ==> Rank(a[k]) <= Rank(Redirects)
    requires forall k :: 0 <= k < |b| ==> Rank(Redirects) < Rank(b[k])
    ensures Ordered(a + b)
  {
  }

  // ---------------------------------------------------------------------
  // Properties
  // ---------------------------------------------------------------------

  /** A title no table knows resolves to itself, without its one leading
      colon, and collects no resolution tag. */
  lemma ResolveUnlisted(written: string, tables: Tables)
    requires |written| > 0
    requires Unprefixed(written) !in tables.normalized
    requires Unprefixed(written) !in tables.converted
    requires Unprefixed(written) !in tables.redirects
    ensures Resolve(written, tables) == Success(Resolution(Unprefixed(written), []))
  {
    assert ResolutionTags(false, false, false) == [];
  }

  /** The three tables are applied in order, each to the result of the
      previous one: a title that is normalised, then converted (the
      converted name read from the redirect table), then redirected,
      collects the three tags in that order. */
  lemma ResolveChain(t: string, a: string, b: string, c: string, tables: Tables)
    requires |t| > 0 && t[0] != ':'
    requires t in tables.normalized && tables.normalized[t] == a
    requires a in tables.converted && a in tables.redirects && tables.redirects[a] == b
    requires b in tables.redirects && tables.redirects[b] == c
    ensures Resolve(t, tables) == Success(Resolution(c, [Normalized, Converted, Redirects]))
    ensures Resolve(":" + t, tables) == Resolve(t, tables)
  {
    assert Unprefixed(t) == t;
    assert (":" + t)[1..] == t;
    assert Unprefixed(":" + t) == t;
    assert [Normalized] + [Converted] + [Redirects] == [Normalized, Converted, Redirects];
  }

  /** A plain redirect: a title that neither the normalisation nor the
      conversion table knows is replaced by its redirect target and tagged
      `redirects` alone. The target is not looked up again, so a chain of
      redirects is followed one step only. */
  lemma ResolvePlainRedirect(t: string, tables: Tables)
    requires |t| > 0 && t[0] != ':'
    requires t !in tables.normalized && t !in tables.converted && t in tables.redirects
    ensures Resolve(t, tables) == Success(Resolution(tables.redirects[t], [Redirects]))
  {
    assert Unprefixed(t) == t;
    assert ResolutionTags(false, false, true) == [Redirects];
  }

  /** One leading colon makes no difference to the lookups: `:T` resolves
      exactly as `T` does, for every title `T` not starting with a colon. */
  lemma ResolveIgnoresColon(t: string, tables: Tables)
    requires |t| > 0 && t[0] != ':'
    ensures Resolve(":" + t, tables) == Resolve(t, tables)
  {
    assert (":" + t)[1..] == t;
    assert Unprefixed(":" + t) == Unprefixed(t);
  }

  /** Which pages are flagged: any page of another content model or of the
      MediaWiki namespace, an ordinary wikitext page exactly when it carries
      a deletion template, and never a missing page. */
  lemma FlaggedPages(p: Page)
    ensures p.Missing? ==> !Flagged(p)
    ensures p.Present? && p.contentModel != "wikitext" ==> Flagged(p)
    ensures p.Present? && p.namespace == 8 ==> Flagged(p)
    ensures p.Present? && p.contentModel == "wikitext" && p.namespace != 8 ==> (Flagged(p) <==> HasDeletionTemplate(p.text))
  {
  }

  /** Only one leading colon is removed: `::T` is looked up as `:T`. */
  lemma OneColonRemoved(t: string, tables: Tables)
    requires ":" + t !in tables.normalized && ":" + t !in tables.converted && ":" + t !in tables.redirects
    ensures Resolve("::" + t, tables) == Success(Resolution(":" + t, []))
  {
    assert ("::" + t)[1..] == ":" + t;
    assert ResolutionTags(false, false, false) == [];
  }

  /** A title that is not a redirect and whose page is missing is tagged
      `vfd_on_source`. */
  lemma MissingPageIsSource(written: string, tables: Tables, wiki: string -> Page)
    requires Resolve(written, tables).Success?
    requires Redirects !in Resolve(written, tables).value.mode
    requires wiki(Resolve(written, tables).value.title).Missing?
    ensures CheckTitle(written, tables, wiki).Success?
    ensures VfdOnSource in CheckTitle(written, tables, wiki).value.mode
    ensures NoVfd !in CheckTitle(written, tables, wiki).value.mode
  {
  }

  /** A redirect whose pages are both missing is tagged `no_vfd`: missing
      pages only count when the title was not redirected. */
  lemma MissingRedirectPagesAreNoVfd(written: string, tables: Tables, wiki: string -> Page)
    requires Resolve(written, tables).Success?
    requires Redirects in Resolve(written, tables).value.mode
    requires wiki(written).Missing? && wiki(Resolve(written, tables).value.title).Missing?
    ensures CheckTitle(written, tables, wiki).Success?
    ensures NoVfd in CheckTitle(written, tables, wiki).value.mode
  {
  }

  /** A `{{vfd}}` anywhere on a page, in any case, flags it. */
  lemma VfdTemplateFlags(x: string, y: string)
    ensures HasDeletionTemplate(x + "{{VfD}}" + y)
  {
    var s := x + "{{VfD}}" + y;
    var i := |x|;
    assert s[i..i + 7] == "{{VfD}}";
    RunExact(s, i + 2, 0, IsSpace);
    assert Lower(s[i + 2]) == 'v';
    assert MatchesIgnoreCase(s, i + 3, "fd");
    assert DeletionTemplateAt(s, i);
  }
}

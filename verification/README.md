# afd-section-title, modelled in Dafny

The bot in `edit.py` tidies the section headings of a daily log page of
Chinese Wikipedia's deletion discussions (`Wikipedia:頁面存廢討論/記錄/YYYY/MM/DD`).
Each open discussion is headed by the titles under discussion. The headings
come in three shapes:
- a single link `[[T]]`;
- links joined by `、`, `，` or a space;
- an `{{al|A|B|...}}` template.

For every title the bot asks the wiki three things:
- how the title is normalised (namespace names);
- how it is converted (traditional/simplified script);
- where it redirects.

It then rewrites the heading with the resolved titles and classifies each
page as fit or unfit for a deletion discussion. Finally it appends a note
under the discussion, once, saying what it fixed and whether the page should
be here at all.

This project models that logic as pure functions over strings, sequences and
maps, and proves what it promises.

| module | file | what it holds |
|---|---|---|
| `Wrappers` | wrappers.dfy | `Option` and `Result`, the error paths of the bot |
| `Text` | text.dfy | The Python string operations the bot relies on, each with its laws. These are `in` for substrings, `strip`, `split`, `join`, the `\s` and `\d` classes, and the whitespace removal of `re.sub(r'\s+', '', …)`. |
| `Headings` | headings.dfy | The closed-discussion test. The three heading shapes and the order they are tried in. The `=` level of a heading line. `escapeEqualSign`. The new heading and heading line. |
| `HeadingProofs` | heading_proofs.dfy | Read-back lemmas: a heading the bot writes parses back as the titles it was written from. |
| `Resolver` | resolver.dfy | `check_title`: the three lookup tables in their fixed order, then the deletion tags for the page or pages found. |
| `Comments` | comments.dfy | `appendComment`: the marker guard, the messages in order, and where the block is inserted. |
| `Rewriter` | rewriter.dfy | The second loop of `fix`: title choice, `fix` tags, the rebuilt heading, and the note appended to the accumulated text. |
| `Fixer` | fixer.dfy | The whole of `fix`: the page name, the queries in batches of fifty, the lookup tables they fill, and the decision whether to save. |

The wiki is a parameter in every member that touches it:
- `wiki: string -> Page` answers, for a title, whether the page exists and, if so, its content model, namespace number and wikitext;
- `query: seq<string> -> Response` is the answer of the query API to one batch of titles;
- `Config` holds the configured messages.

Where the code does something one might not expect, the model follows the
code:
- The conversion step looks the converted title up in the redirect table
  (edit.py:63), not in the conversion table. When the redirect table has no
  entry, the lookup raises `KeyError`; `Resolve` returns `MissingRedirect` for it.
- `check_title` indexes `old_title[0]`. An empty title, which `{{al|a||b}}`
  produces, raises `IndexError`; `Resolve` returns `EmptyTitle` for it.
- For a redirect, the source page is probed under the title as written,
  leading colon included (edit.py:77). A missing page is only tagged when the
  title was not a redirect.
- `appendComment` runs on the whole text built so far, header and earlier
  sections included (edit.py:244). So the marker test looks at all of it, and
  `strip()` can remove leading whitespace of the header.
- `escapeEqualSign` is applied to a single title too. A lone title holding
  `=` is written `[[1=…]]` and read back as `1=…` (`HeadingProofs.LoneTitleWithEqualSign`).
- The lookup tables are module-level dictionaries that are never cleared.
  `Fix` takes the tables in and hands them on to the next page.

## Model

| member | source | states |
|---|---|---|
| `Resolver.Unprefixed` | edit.py:53-55 | Exactly one leading `:` is removed, and only when there is one. |
| `Resolver.Resolve` | edit.py:51-66 | An empty title is the only one that fails with `EmptyTitle`. The tags are a subsequence of normalized, converted, redirects in that order. `normalized` is present iff the colon-less title is a key of the normalisation table. A non-empty title fails iff its normalised form is a conversion key with no redirect entry, and then fails with that title. Otherwise `converted` is present iff it is a conversion key. Let `t2` be the title after the conversion step. Then `redirects` is present iff `t2` is a redirect key, and the resolved title is its redirect target if so, otherwise `t2` itself. |
| `Resolver.ResolutionTags` | edit.py:57-66 | The tags of the lookups that hit: each of normalized, converted, redirects is present iff its lookup hit, in that order, and nothing else is. |
| `Resolver.ResolvePlainRedirect` | edit.py:64-66 | A title that only the redirect table knows resolves to its redirect target, tagged `redirects` alone. |
| `Resolver.ResolveIgnoresColon` | edit.py:53-55 | `:T` resolves exactly as `T` does, title, tags and errors alike. |
| `Resolver.ResolveUnlisted` | edit.py:53-66 | A title no table knows resolves to itself without its leading colon, with no tags. |
| `Resolver.ResolveChain` | edit.py:57-66 | Normalisation, conversion and redirect are chained, each applied to the result of the previous one. The tags come out in that order, and a leading colon makes no difference. |
| `Resolver.OneColonRemoved` | edit.py:54-55 | `::T` is looked up as `:T`. |
| `Resolver.DeletionTemplateFrom` | edit.py:72-74 | The deletion-template pattern is found at or after index `i` iff it matches at some such index. |
| `Resolver.VfdTemplateFlags` | edit.py:72-75 | `{{VfD}}` anywhere in a page's text, in any letter case, is a deletion template, so an existing page carrying it is unfit. |
| `Resolver.Classify` | edit.py:68-88 | `no_vfd` is present iff neither `vfd_on_source` nor `vfd_on_target` is. `vfd_on_target` only comes with a redirect. Without a redirect, `vfd_on_source` is present iff the resolved page is missing or unfit. With one, `vfd_on_source` reflects the page as written and `vfd_on_target` the target. The deletion tags are ordered and never resolution tags. |
| `Resolver.CheckTitle` | edit.py:51-89 | `check_title` fails exactly when the lookup does. On success its title is the one the lookup resolved, and the lookup's tags come first, followed by deletion tags only: every tag after them is `vfd_on_source`, `vfd_on_target` or `no_vfd`. The tags are ordered and never hold `fix`. `redirects` is present iff the lookup found one. The deletion tags relate to the pages probed as in `Classify`, keyed on that. |
| `Resolver.FlaggedPages` | edit.py:72-74 | A missing page is never flagged. A page of another content model or in namespace 8 always is. An ordinary wikitext page is flagged iff it carries a deletion template. |
| `Resolver.ClassifiedTags` | edit.py:68-89 | The resolution tags followed by the deletion tags stay ordered. `redirects` in the whole list is `redirects` from the lookup. |
| `Resolver.MissingPageIsSource` | edit.py:68-71 | A title that is not a redirect and whose page is missing is tagged `vfd_on_source` and not `no_vfd`. |
| `Resolver.MissingRedirectPagesAreNoVfd` | edit.py:76-88 | A redirect whose two pages are both missing is tagged `no_vfd`. |
| `Comments.NoteIf` | edit.py:97-105 | A message is included iff its tag is present and it is configured as a string. |
| `Comments.FixNotes` | edit.py:95-105 | Without the `fix` tag there are no fix messages. With it there is exactly one message per tag that is present and configured, in the order redirects, converted, normalized, each message being that tag's configured text. |
| `Comments.Notes` | edit.py:94-112 | There is exactly one note for the fix messages when there are any, plus one for `no_vfd` when it is tagged. The first is `main` around the joined fix messages, and the `no_vfd` notice comes last. |
| `Comments.NotesInOrder` | edit.py:95-112 | With every tag and message present, the note is `main` around the redirect, conversion and normalisation messages in that order, followed by the `no_vfd` notice. |
| `Comments.RedirectOnlyNote` | edit.py:95-115 | With `fix` and `redirects` tagged, the redirect message `R`, the conversion message disabled and `main` set to `({})`, the appended block is exactly `(R)`. |
| `Comments.UnconfiguredFixesSkipped` | edit.py:97-108 | Messages not configured as strings are dropped. With none left, `main` is not used. |
| `Comments.AppendComment` | edit.py:92-122 | Text holding the marker, or with nothing to append, is returned unchanged. Otherwise the joined notes are inserted into the stripped text. |
| `Comments.MarkedTextUntouched` | edit.py:93 | Text that holds the marker, extended by anything, still holds it and is left alone. |
| `Comments.LastRuleSplit` | edit.py:117-119 | A text containing `\n----` is the pieces before the last rule, that rule, and a tail free of rules. |
| `Comments.InsertAtLastRule` | edit.py:113-121 | The block goes immediately before the last `\n----`. Without one it goes after the text, between newlines. |
| `Comments.Insert` | edit.py:116-121 | With a `\n----` rule in the text, the block and a newline are spliced in at some position and the text around it is kept. Without one, the block is appended between newlines. |
| `Comments.InsertKeeps` | edit.py:116-121 | Inserting the block keeps every piece of the text that holds no newline. |
| `Comments.AppendCommentKeeps` | edit.py:92-122 | Annotating keeps every one-line piece of the text that neither starts nor ends with a blank, on a first run as on later ones. |
| `Comments.AppendCommentOnce` | edit.py:92-122 | When a note carries the marker, the annotated text holds the marker and a second call changes nothing: a discussion is annotated once. |
| `Headings.ClosedFrom` | edit.py:149 | The closing-template pattern is found at or after index `i` iff it matches at some such index. |
| `Headings.ClosedByDelh` | edit.py:149-151 | A `{{delh}}` anywhere in the body closes the section. |
| `Headings.SingleLink` | edit.py:155-157 | A heading read as one link is that link around a non-empty title without `]`. When it is not read as one, it is no such link. |
| `Headings.LinkLen` | edit.py:160 | A link found at the front of a heading is `[[t]]` with `t` free of `]`. |
| `Headings.AlInner` | edit.py:168-170 | An accepted `{{al|…}}` heading is its opening, the argument text and `}}`. The arguments hold no `]`, are at least three characters long and hold a `\|` strictly inside, so there are at least two of them. |
| `Headings.AlEquals` | edit.py:173 | A positional prefix is recognised only when the argument starts with blanks, at least one digit, blanks again and then `=`, and the index returned is that `=`. |
| `Headings.AlEqualsComplete` | edit.py:173 | Every argument that starts with blanks, at least one digit, blanks and `=` is recognised, with the index of that `=`. |
| `Headings.AlValue` | edit.py:173-177 | What follows the `=` is a non-empty, newline-free suffix of the argument after it, reached by skipping blanks only, and starting with a non-blank when longer than one character. When the rest is free of newlines it is always taken. |
| `Headings.AlPart` | edit.py:173-177 | An argument without the positional prefix is kept as written. One with it is read as what follows its `=`. |
| `Headings.AlTitles` | edit.py:170-177 | One title per `\|`-separated argument, none holding `\|`, each a suffix of its argument. |
| `Headings.NormalizeChangesOnlyDelims` | edit.py:162 | Normalising the separators changes nothing but separators: a changed character is a `，` or a blank between `]]` and `[[` turned into `、`. |
| `Headings.ListTitles` | edit.py:162-165 | One title per `、`-separated piece of the normalised heading, none holding `、`, and none starting or ending with a bracket. |
| `Headings.ParseHeading` | edit.py:153-178 | A recognised heading yields at least one title. A single link wins over the other shapes. A heading of no known shape yields none. |
| `Headings.ParseSection` | edit.py:148-180 | A closed section yields no titles. An open one with a single-link heading yields exactly that link's title. A heading of no known shape yields none. A recognised heading yields at least one title. |
| `Headings.HeadingLevel` | edit.py:206-212 | The level is the maximal leading run of `=` on the heading line. There is none iff the line does not start with `=`. |
| `Headings.EscapeEqualSign` | edit.py:125-132 | The length is kept. A list without `=` is unchanged. Otherwise the k-th title (1-based) becomes `k=` in front of the title. |
| `Headings.RenderHeading` | edit.py:234-238 | One title is written as a link and more as an `al` template, as the first character shows. The result starts and ends with a bracket or a brace. Titles without a newline give a heading without one. |
| `Headings.HeadingLine` | edit.py:242 | The line `level heading level` has that level and reads back as that heading. It opens and closes with `=` and is one line when its parts are. |
| `HeadingProofs.SingleLinkOfLink` | edit.py:155-157 | `[[t]]` with a non-empty `t` free of `]` is read back as `t`. |
| `HeadingProofs.AlPartOfEscaped` | edit.py:173-175 | An argument written `N=t` is read back as `t` when `t` has no newline and does not start with whitespace. |
| `HeadingProofs.EscapedArgumentsReadBack` | edit.py:125-132 | Every escaped title is read back by the `N=` reader as the title it came from, and is free of `\|` and `]`. |
| `HeadingProofs.AlHeadingShape` | edit.py:168-170 | `{{al|…}}` around argument text of the accepted form parses as the `al` titles of that text. |
| `HeadingProofs.AlTitlesOfJoined` | edit.py:170-177 | Arguments joined by `\|` are split back into the same arguments, each read as its title. |
| `HeadingProofs.AlHeadingReadBack` | edit.py:232-238 | Two or more writable titles, escaped and written as `{{al|…}}`, parse back as the same titles. |
| `HeadingProofs.RenderedHeadingReadBack` | edit.py:232-238 | Any non-empty list of writable titles, escaped and rendered, parses back as itself. A lone title must hold no `=`. |
| `HeadingProofs.LoneTitleWithEqualSign` | edit.py:125-136 | A lone title with `=` is written `[[1=t]]` and read back as `1=t`. |
| `HeadingProofs.SectionHeadingRoundTrip` | edit.py:232-242 | The line written for a section is read back, on the next run, as the same titles at the same level. |
| `HeadingProofs.NormalizeJoinLinks` | edit.py:162 | Every separator between two links becomes `、`. |
| `HeadingProofs.JoinLinksIsList` | edit.py:160 | Two or more links joined by allowed separators are recognised as a list heading. |
| `HeadingProofs.JoinedLinksNotSingle` | edit.py:155-160 | Two or more joined links are not mistaken for a single link. |
| `HeadingProofs.LinkStripsToTitle` | edit.py:165 | `strip('[]')` of `[[t]]` is `t` when `t` neither starts nor ends with `[`. |
| `HeadingProofs.ListTitlesOfLinks` | edit.py:162-165 | A heading whose separators normalise to `、` between links yields the titles of those links. |
| `HeadingProofs.ListHeadingReadBack` | edit.py:153-166 | A list heading of two or more suitable titles parses as those titles, whichever separators join them. |
| `Rewriter.ChooseTitle` | edit.py:216-229 | The resolved title is adopted iff the title is not a redirect or its target is unfit. An adopted title gets back the leading `:` of the original. Otherwise the original is kept. The tags are `fix`, present iff the title changed, followed by exactly the `check_title` tags. |
| `Rewriter.RedirectKept` | edit.py:218-222 | A redirect to a fit target keeps the title as written and adds no `fix`. |
| `Rewriter.CheckTitleIsChecker` | edit.py:51-89 | `check_title` fails on an empty title and never adds `fix`, whatever the tables and the wiki say. |
| `Rewriter.CheckAll` | edit.py:216-217 | All titles of a section are checked in order. The run succeeds iff each title does, and yields each title's resolution. |
| `Rewriter.CheckAllFailsAtFirst` | edit.py:216-217 | A failed run reports the error of the first title that fails. |
| `Rewriter.ChooseAll` | edit.py:214-229 | Each title of a section is written back as `ChooseTitle` chooses, one for one. |
| `Rewriter.ChooseAllTags` | edit.py:225-228 | Apart from `fix`, a section carries a tag iff `check_title` gave it to one of its titles. |
| `Rewriter.FixWhenChanged` | edit.py:225-227 | A section's tags hold `fix` iff one of its titles changed. |
| `Rewriter.RewriteTitles` | edit.py:214-229 | Rewriting a section's titles succeeds iff checking them does. Each title becomes what `ChooseTitle` makes of it and its check. Apart from `fix`, a tag is present iff some title's check gave it, and `fix` is present iff some title changed. |
| `Rewriter.RebuildSection` | edit.py:201-244 | A skipped section, or one whose line does not start with `=`, is appended as it was. Otherwise the rebuild succeeds iff every title checks, and the result is the note appended to the text so far, the new heading line at the old level and the section body. |
| `Rewriter.RebuiltAfterMarker` | edit.py:242-244 | After the marker, a section is appended as its new line and body. The line reads back as the chosen titles at the old level. |
| `Rewriter.NewLine` | edit.py:232-242 | The new heading line has the level it is written at. |
| `Rewriter.NewLineOneLine` | edit.py:232-242 | For titles without a newline the new heading line is one line that opens and closes with `=`. |
| `Rewriter.SectionLine` | edit.py:206-242 | A section gets a new heading line iff it was recognised, its line starts with `=` and all its titles check. The new line keeps the old level. |
| `Rewriter.RebuildWritesLine` | edit.py:242-244 | A rebuilt section holds its new heading line, on a first run as after the marker: the note never splits it. |
| `Rewriter.RebuildKeeps` | edit.py:242-244 | Rebuilding a section keeps every one-line piece of the text before it. |
| `Rewriter.RewriteSectionsSucceeds` | edit.py:200-244 | The second loop succeeds iff every title of every section that gets a new heading checks. |
| `Rewriter.RewriteSectionsKeep` | edit.py:200-244 | Every one-line piece of the text so far survives the remaining sections. |
| `Rewriter.RewriteSectionsWritesLines` | edit.py:200-244 | The rebuilt page holds the new heading line of every section that gets one, whether or not the page was annotated before. |
| `Rewriter.UnrecognisedVerbatim` | edit.py:200-204 | Sections none of which was recognised come out exactly as they went in. |
| `Rewriter.MarkedSectionAppends` | edit.py:242-244 | A section rebuilt after the marker only appends to the text. |
| `Rewriter.MarkedTextOnlyGrows` | edit.py:200-244 | Text carrying the marker is only extended: nothing before it changes and the marker stays. |
| `Fixer.DateFrom` | edit.py:136 | A `YYYY/MM/DD` date is found at or after index `i` iff one starts at some such index. |
| `Fixer.ArchivePageName` | edit.py:136-137 | The name is always a suffix of the page name. A prefix is added iff the name holds a date, and it is then exactly the log-page prefix `Wikipedia:頁面存廢討論/記錄/`. |
| `Fixer.DateNamesLogPage` | edit.py:136-137 | A bare date names that day's log page. |
| `Fixer.NameWithoutSlashKept` | edit.py:136-137 | A name without `/` is used as it is. |
| `Fixer.Batches` | edit.py:183-186 | The batches concatenate to the title list. Each holds between one and `n` titles, and all but the last hold exactly `n`. |
| `Fixer.BatchCount` | edit.py:183 | The titles are queried in one batch per fifty titles, rounded up. |
| `Fixer.Merge` | edit.py:193-198 | Storing an answer never loses a key. |
| `Fixer.MergeSnoc` | edit.py:193-198 | Storing one more entry is storing it last. |
| `Fixer.MergeLastWins` | edit.py:193-198 | After an answer a key is present iff it was before or the answer names it. It maps to the `to` of its last entry in the answer. Keys the answer does not name are unchanged. |
| `Fixer.FillTables` | edit.py:182-198 | Filling the tables from the query answers never loses a key of any table. |
| `Fixer.MergeAppend` | edit.py:193-198 | Storing two answers one after the other is storing their entries joined. |
| `Fixer.FillTablesMerges` | edit.py:183-198 | Each table after all the queries is the old table with every answer's entries of its kind stored in query order. |
| `Fixer.FillTablesLastWins` | edit.py:183-198 | After all the queries a title is in a table iff it was before or some answer lists it. It then maps to what the last answer listing it says. A title no answer lists keeps its old entry. |
| `Fixer.ParseAll` | edit.py:147-178 | Every section gets the titles its heading yields, or none, and a recognised one gets at least one. |
| `Fixer.Fix` | edit.py:135-269 | `fix` fails iff the second loop does. On success it hands on the tables filled by the queries, its text ends with the footer, and the page is saved iff the new text differs from the old in more than whitespace (the intended behaviour; see Findings). The redirect table only grows. |
| `Fixer.BodySucceeds` | edit.py:200-246 | The sections are rebuilt unless a title of a section that gets a new heading fails `check_title` against the filled tables. |
| `Fixer.Decide` | edit.py:248-269 | The page is saved iff the new text differs from the old in more than whitespace, and the new text is what is saved or left. This is the intended behaviour; see Findings. |
| `Fixer.DecideAsWritten` | edit.py:248-255 | As written, an unchanged page is left and every changed page stops with `AttributeError` at the `args.debug` test, before any save. |
| `Fixer.AsWrittenNeverSaves` | edit.py:248-265 | As written no page is ever saved, while the intended `Decide` saves every page that changes in more than whitespace. |
| `Fixer.ChangedPageCrashes` | edit.py:255 | Replacing the text `a` with `b` crashes as written and is saved as intended. |
| `Fixer.FixWritesHeadings` | edit.py:200-269 | The page `fix` produces holds the new heading line of every section it rewrote. |
| `Fixer.NothingRecognisedNotSaved` | edit.py:200-252 | A page none of whose sections is recognised, split into pieces that make it up, is never saved. |
| `Fixer.WhitespaceIsNoChange` | edit.py:248 | Whitespace added anywhere does not count as a change. |
| `Text.Contains` | edit.py:93 | The substring test holds iff the text occurs at some index. |
| `Text.LastIndexOf` | edit.py:117-119 | The last occurrence, if any: none iff there is no occurrence, otherwise an occurrence with none after it. |
| `Text.Strip` | edit.py:114 | The stripped text neither starts nor ends with a stripped character. It is empty only when every character was one. |
| `Text.StripFrame` | edit.py:153 | Stripping removes exactly a frame of stripped characters around a core that neither starts nor ends with one. |
| `Text.RemoveSpace` | edit.py:248 | Deleting all whitespace leaves no whitespace and never lengthens the text. |
| `Text.RemoveSpaceAppend` | edit.py:248 | Deleting whitespace distributes over concatenation. |
| `Text.JoinSplit` | edit.py:118-119 | Joining the pieces of a split with the same separator gives the text back. |
| `Text.SplitPiecesFree` | edit.py:118 | No piece of a split contains the separator. |
| `Text.SplitJoinChar` | edit.py:162-170 | Splitting pieces joined by a one-character separator they do not contain gives the pieces back. |
| `Text.NatToStringRoundTrip` | edit.py:130 | The decimal rendering of a position reads back as that number. |

## Left out

- Network and wiki access is left out: login, page reads and saves, and the
  query API. Page facts and query answers are parameters (`wiki`, `query`).
- The section splitter `extract_sections` belongs to pywikibot and is not
  part of this model. `Fix` takes the header, the sections and the footer as
  given.
- Loading the configuration from JSON, `enable`, `summary` and
  `run_past_days` are left out. The fix messages that are strings are
  `Some`. The `main` template with its one `{}` field is the text before and
  after that field.
- Command-line arguments, logging, `showDiff`, the confirmation prompt and
  writing `out.txt` are I/O. `Fix` reports `Saved` for the page that would be
  saved. A declined confirmation is not modelled.
- `Fixer.Fix` and `Fixer.Decide` model the evidently intended save. As
  written, `args.debug` raises before every save (see Findings), and the loop
  over past days raises the same way at edit.py:275 before its first page.
- The loop over past days reads the clock and is left out. Only the
  page-name rule it feeds is modelled.
- Case-insensitive matching folds ASCII letters only. Python also matches,
  for example, the Kelvin sign with `k`.
- `Text.IsDigit` is ASCII only, while `\d` on a `str` also accepts other
  Unicode decimal digits.
- `Headings.AlInner`, `Headings.SingleLink` and `Headings.IsLinkList` read
  `$` as the end of the text. Python's `$` also matches before a final
  newline; headings handed over by the splitter are single lines.
- `Headings.AlPart` does the same: an argument whose value is followed by a
  single final newline, such as `1= x` and a newline, is kept as written,
  while Python's `$` matches before that newline and reads `x`. A newline
  right after `=` is skipped as a blank in both.
- Error answers of the query API are left out: a reply without a `query`
  key would raise `KeyError` in `fix`.
- Errors of the page probe are left out. For a title the wiki rejects as
  invalid, such as one holding `|` or `[`, `pywikibot.Page` raises
  (edit.py:69-85) and `fix` stops. `wiki` answers every title.
- `Fixer.Fix` states its own outcome. The new text, section by section, is
  stated by `Rewriter.RebuildSection` and the lemmas after it, and
  `Fixer.FixWritesHeadings` carries them to the whole page.

## Findings

| source | as written | input that shows it | evidently intended | confidence | as-written member | corrected member |
|---|---|---|---|---|---|---|
| edit.py:255 | `-d/--debug` is declared at edit.py:22 with `dest='loglevel'`, so `args.debug` raises `AttributeError` on every page whose text changes, before the save | any page whose new text differs in more than whitespace, e.g. `a` rewritten to `b` | show the diff when debugging, then save | high, not executed | `Fixer.DecideAsWritten` | `Fixer.Decide` |

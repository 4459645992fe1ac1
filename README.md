# Mentions and class helpers, modelled in Dafny

This project models two small pieces of a SvelteKit social app:

- **The @mention utility** (`src/lib/utils/mentions.ts`).
  - *Scan.* It finds every `@handle` in a text. A handle is one or more of `A-Z a-z 0-9 _ -`.
  - *Deduplicate.* It keeps each handle once, in first-seen order.
  - *Resolve.* It looks the handles up in the user table (`profiles.username`) and the brand table (`brand_profiles.slug`). It returns every user hit, then every brand hit.
  - *Render.* It rewrites each `@handle` of the text, in one pass, as an anchor. The link is the brand root `/<handle>` or the user profile `/u/<handle>`.
  - *Build records.* For a comment, it builds the association rows. In each row exactly one of the user id and the brand id is set.
- **The class-string helpers** (`src/lib/ui-constants.ts`).
  - `cn` drops falsy arguments and joins the rest with single spaces.
  - `getContainerClasses` and `getButtonClasses` are `cn` applied to entries of the constant tables.

Files:

- `wrappers.dfy` (`Wrappers`): the `Option` type. It stands for `null`, `undefined` and omitted arguments.
- `mention_scan.dfy` (`MentionScan`): an explicit scanner equivalent to the global pattern `/@([\w-]+)/g`.
  - `Tokenize` cuts a text into literal characters and whole matches.
  - `TokenizeUnique` proves that this is the only cut that is greedy and skips no match. So it is the leftmost-first, greedy, non-overlapping scan that `matchAll` and `replace` perform.
- `mentions.dfy` (`Mentions`):
  - deduplication;
  - the two lookups, which filter in-memory tables;
  - `parseMentions`, as an imperative method that pushes the hits of each table onto a sequence;
  - rendering;
  - the record building of `createMentions`.
- `mention_examples.dfy` (`MentionExamples`): worked examples on concrete texts and tables, built from the general lemmas.
- `ui_constants.dfy` (`UiConstants`): `cn`, the table entries the helpers read, and the two helpers.

How the JavaScript is represented:

- *Lookup tables.* A table is `Option<seq<Row>>`. `None` stands for a query whose `data` came back `null`. A lookup whose `data` is `null` contributes no hits (`if (users)`, `if (brands)`): the other namespace's hits are still returned, and resolution does not fail. The model does the same.
- *Lookup log.* `ParseMentions` also returns the lookups it issues. The early return for a text without handles therefore shows as "no lookup".
- *Arguments of `cn`.* `cn` receives strings, `false`, `null` and `undefined`. `getContainerClasses('modal')` also hands `cn` an object, because `CONTAINER_WIDTHS.modal` is a nested table. `cn` keeps the object, since it is truthy, and `join` writes it as `[object Object]`. The model keeps this as the `Table` argument.

## Model

| member | source | states |
|---|---|---|
| MentionScan.RunEnd | src/lib/utils/mentions.ts:17 | `[\w-]+` is greedy: every character up to the returned end is a handle character, and the one at the end is not (or the text ends) |
| MentionScan.Tokenize | src/lib/utils/mentions.ts:17-18 | the walk of the global pattern over the text; described by `TokenizeUnique` (it is the only greedy cut that skips no match), `TokenizeWellFormed`, `TextOfTokenize` and `HeadOfTokenize` |
| MentionScan.Matches | src/lib/utils/mentions.ts:18 | the captured names `m[1]` in text order, repeats included; described by `MatchesAreHandles`, `MatchesOccur` and `NoAtNoMatches` |
| MentionScan.HeadOfTokenize | src/lib/utils/mentions.ts:17-18 | at the start of a text the scan takes the whole `@handle` run when the pattern matches there, and otherwise a single literal character |
| MentionScan.ScanMentionFirst | src/lib/utils/mentions.ts:17-18 | a text that starts with `@`, a handle, and then no further handle character is scanned as that whole match first |
| MentionScan.ScanLiteralFirst | src/lib/utils/mentions.ts:17-18 | a text whose first character does not start a match is scanned as that character first |
| MentionScan.TextOfTokenize | src/lib/utils/mentions.ts:17-18 | spelling out the scan gives back the text: no character is lost, duplicated or reordered |
| MentionScan.TokenizeWellFormed | src/lib/utils/mentions.ts:17-18 | in every scan, each match captures a handle, no match is followed by a handle character (maximal munch), and no `@` before a handle character is left unmatched |
| MentionScan.TokenizeUnique | src/lib/utils/mentions.ts:17-18 | any cut of the text into characters and matches that is greedy and skips no match is the scan itself, so the scan is the leftmost-first non-overlapping one |
| MentionScan.MatchesAreHandles | src/lib/utils/mentions.ts:17-18 | every captured name is non-empty and consists of `A-Z a-z 0-9 _ -` only |
| MentionScan.MatchesOccur | src/lib/utils/mentions.ts:17-18 | every captured name stands in the text right after an `@` and is not followed by another handle character |
| MentionScan.NoAtNoMatches | src/lib/utils/mentions.ts:17-18 | a text without `@` scans to literal characters only and yields no name |
| Mentions.FirstIndex | src/lib/utils/mentions.ts:19 | the first position at which a name occurs |
| Mentions.Dedupe | src/lib/utils/mentions.ts:19 | the `Set` spread has no repeats and holds exactly the names of its input |
| Mentions.DedupeKeepsFirstSeenOrder | src/lib/utils/mentions.ts:19 | names come out in the order of their first occurrence, as `Set` insertion order lists them |
| Mentions.UniqueHandles | src/lib/utils/mentions.ts:19 | `uniqueUsernames`; described by `UniqueHandlesSpec` and `DedupeKeepsFirstSeenOrder` |
| Mentions.UniqueHandlesSpec | src/lib/utils/mentions.ts:17-19 | the unique handles have no repeats, are exactly the scanned names, and each is a handle that occurs in the text after an `@` |
| Mentions.Select | src/lib/utils/mentions.ts:28-31 | the `.in(column, keys)` filter returns a row exactly when it is in the table and its handle is among the keys, and never more rows than the table has |
| Mentions.SelectCounts | src/lib/utils/mentions.ts:28-31 | each matching row comes back as often as the table holds it, and no other row comes back: the result is the table's matching rows as a multiset, whatever their order |
| Mentions.PushAll | src/lib/utils/mentions.ts:34-40 | pushing the mapped rows appends one mention per row, in row order, tagged with the namespace |
| Mentions.ParseMentions | src/lib/utils/mentions.ts:12-60 | the result is the user hits of the unique handles, tagged user, then the brand hits, tagged brand. No lookup is issued when there is no handle, and otherwise exactly two batched lookups with the whole handle list |
| Mentions.Hits | src/lib/utils/mentions.ts:33 | the rows one lookup contributes: the filtered rows, or none when `data` is `null`; described by `ResolveMembership` and `NoHitFor` |
| Mentions.Tag | src/lib/utils/mentions.ts:35-39 | the `map` of rows to mentions of one namespace; `PushAll` is proved to append exactly it |
| Mentions.Resolve | src/lib/utils/mentions.ts:25-59 | the user hits tagged user, then the brand hits tagged brand; `ParseMentions` is proved to return it, and `ResolveMembership`, `ResolveUsersThenBrands` and `ResolveWithoutHandles` describe it |
| Mentions.LookupsFor | src/lib/utils/mentions.ts:21-47 | no lookup for an empty handle list, otherwise one on `profiles.username` and one on `brand_profiles.slug`, each with the whole handle list; `ParseMentions` is proved to issue exactly these |
| Mentions.NoHitFor | src/lib/utils/mentions.ts:28-33 | a table without a row for a name contributes no hit for it |
| Mentions.ResolveWithoutHandles | src/lib/utils/mentions.ts:21-23 | with no handle to look up the result is empty |
| Mentions.ResolveMembership | src/lib/utils/mentions.ts:25-59 | a mention is in the result exactly when its row is in the user table (tagged user) or in the brand table (tagged brand) and its handle was mentioned; handles found in neither table produce nothing |
| Mentions.ResolveUsersThenBrands | src/lib/utils/mentions.ts:25-59 | one mention per hit of either filter (the hits themselves are fixed by `SelectCounts`); all user hits come before all brand hits |
| Mentions.Find | src/lib/utils/mentions.ts:72 | `find` returns nothing exactly when no entry has the name, and otherwise the first entry with it |
| Mentions.FirstWithUnique | src/lib/utils/mentions.ts:72 | there is only one first entry for a name, so the choice is deterministic |
| Mentions.Href | src/lib/utils/mentions.ts:71-80 | the link is `/<name>` exactly when a mention list is given and its first entry for the name is a brand, and `/u/<name>` in every other case |
| Mentions.Anchor | src/lib/utils/mentions.ts:75 | the markup `<a href="…" class="text-primary hover:underline font-semibold">@name</a>` written for a match, with the same class at line 80; `AnchorHasMatch` shows it repeats `@name` |
| Mentions.AnchorHasMatch | src/lib/utils/mentions.ts:75 | the anchor's link text `@name` is itself a match of the pattern |
| Mentions.Render | src/lib/utils/mentions.ts:66-82 | `renderMentions`; described by `RenderFirstMatch`, `RenderWithoutMatches`, `RenderWithoutAt`, `RenderNotIdempotent` and the link lemmas below |
| Mentions.RenderWithoutMatches | src/lib/utils/mentions.ts:69 | a text in which the pattern never matches is returned unchanged |
| Mentions.RenderWithoutAt | src/lib/utils/mentions.ts:69 | a text without `@` is returned unchanged |
| Mentions.TokenizeAtMatch | src/lib/utils/mentions.ts:69 | at a match the scan of the rest of the text takes the whole greedy match |
| Mentions.RenderFirstMatch | src/lib/utils/mentions.ts:69-81 | the text before the first match is kept as is, the match becomes the anchor for its name, and the replacement resumes in the original text after the match |
| Mentions.DefaultLinkIsUserProfile | src/lib/utils/mentions.ts:79-80 | with no mention list, or no entry for the name, the link is the user profile |
| Mentions.ResolvedUserLinksToProfile | src/lib/utils/mentions.ts:71-76 | rendered with the resolved list, a mentioned handle with a user row links to `/u/<name>`, even when a brand has the same slug |
| Mentions.ResolvedBrandLinksToBrand | src/lib/utils/mentions.ts:71-76 | rendered with the resolved list, a mentioned handle with a brand row and no user row links to `/<name>` |
| Mentions.UnresolvedLinksToProfile | src/lib/utils/mentions.ts:79-80 | a handle found in neither table still links to `/u/<name>` |
| Mentions.RenderLength | src/lib/utils/mentions.ts:69-81 | rendering never shortens the text, and lengthens it when there is a match |
| Mentions.RenderNotIdempotent | src/lib/utils/mentions.ts:75 | the anchor repeats `@name`, so rendering the output of a text with a mention again changes it |
| Mentions.ToRecord | src/lib/utils/mentions.ts:94-98 | the record literal for one mention; `BuildRecords` states what it sets |
| Mentions.RecordTarget | src/lib/utils/mentions.ts:96-97 | the entity a record points at when exactly one of its ids is set |
| Mentions.BuildRecords | src/lib/utils/mentions.ts:94-98 | one record per mention, in order. Each carries the comment id and exactly one of the user id and the brand id, chosen by the type, with the mention's id |
| Mentions.CreateMentions | src/lib/utils/mentions.ts:92-98 | no write when the list is empty; otherwise one insert of one record per mention with the comment id and the mention's target |
| MentionExamples.MatchesAtFirstMatch | src/lib/utils/mentions.ts:17-18 | after a stretch without a match, the first match contributes its name ahead of the names of the rest |
| MentionExamples.MatchesAfterPlain | src/lib/utils/mentions.ts:17-18 | plain text, then `@name`, then text not continuing the handle, yields the name followed by the names of the rest |
| MentionExamples.ExtractTwoHandles | src/lib/utils/mentions.ts:17-19 | `hello @alice and @bob-2` yields `alice`, `bob-2` |
| MentionExamples.ExtractDropsRepeats | src/lib/utils/mentions.ts:19 | `@a @a @b` yields `a`, `b` |
| MentionExamples.ExtractFromPlainText | src/lib/utils/mentions.ts:21-23 | `no mentions here` yields no handle |
| MentionExamples.ResolveExample | src/lib/utils/mentions.ts:25-59 | with user `alice` and brand `acme`, resolving `alice`, `acme`, `ghost` gives the user, then the brand, and nothing for `ghost` |
| MentionExamples.RenderAfterPlain | src/lib/utils/mentions.ts:69-81 | plain text followed by one mention renders as that text followed by the anchor |
| MentionExamples.RenderBrandLink | src/lib/utils/mentions.ts:74 | `hi @acme` with a brand entry for `acme` links to `/acme` |
| MentionExamples.RenderDefaultLink | src/lib/utils/mentions.ts:80 | `hi @ghost` without a mention list links to `/u/ghost` |
| MentionExamples.HandleInBothNamespaces | src/lib/utils/mentions.ts:71-76 | a handle that is both a username and a slug resolves twice, user first; the link goes to the user profile |
| UiConstants.Cn | src/lib/ui-constants.ts:375-377 | `classes.filter(Boolean).join(' ')`; described by `CnEmpty`, `CnSingle`, `CnThree`, `CnAppend` and `CnSkipsFalsy` |
| UiConstants.CnEmpty | src/lib/ui-constants.ts:375-377 | `cn` returns `''` exactly when every argument is falsy, in particular with no arguments |
| UiConstants.CnSingle | src/lib/ui-constants.ts:376 | one argument gives its text when truthy and `''` otherwise |
| UiConstants.CnAppend | src/lib/ui-constants.ts:376 | `cn` of two argument lists is their results side by side, with exactly one space between when both are non-empty; kept arguments keep their order |
| UiConstants.CnThree | src/lib/ui-constants.ts:376 | `cn` of three arguments glues the three one-argument results in order |
| UiConstants.CnSkipsFalsy | src/lib/ui-constants.ts:376 | `''`, `false`, `null` and `undefined` leave no trace in the result |
| UiConstants.ContainerWidth | src/lib/ui-constants.ts:15-34 | the `CONTAINER_WIDTHS` entries, with `modal` as a nested table; used by `GetContainerClasses` and `ContainerClassesByVariant` |
| UiConstants.PagePadding | src/lib/ui-constants.ts:43 | `SPACING.page.padding`, `px-4 py-6 md:py-8`; used by `GetContainerClasses` |
| UiConstants.VariantClass | src/lib/ui-constants.ts:123-130 | the `BUTTON.variant` entries; used by `GetButtonClasses` |
| UiConstants.SizeClass | src/lib/ui-constants.ts:115-120 | the `BUTTON.size` entries, with `md` empty; used by `GetButtonClasses` and `DefaultButtonClasses` |
| UiConstants.GetContainerClasses | src/lib/ui-constants.ts:382-384 | the result is `container mx-auto px-4 py-6 md:py-8 ` followed by the text of the width entry |
| UiConstants.ContainerClassesByVariant | src/lib/ui-constants.ts:15-34 | for the string widths the result ends in that width (`max-w-3xl` and so on); for `modal` it ends in `[object Object]` |
| UiConstants.GetButtonClasses | src/lib/ui-constants.ts:389-394 | `btn` and the variant class, followed by a space and the size class for every size but `md`, whose empty class is dropped |
| UiConstants.DefaultButtonClasses | src/lib/ui-constants.ts:118 | with both defaults the result is `btn btn-primary` |

## Left out

- The Supabase client is left out. Each `.from().select().in()` query is a filter over an in-memory table, and the `.insert()` becomes the returned batch of `CreateMentions`.
- Query errors other than `data: null` are not modelled separately; the source reads only `data`.
- `console.error` on a failed insert is left out; it is logging only.
- `async`/`await` is left out; the source awaits the two lookups one after the other.
- `Mentions.Select`: returns the hits in table order. A database promises no order, so the other contracts about resolution state membership and the users-before-brands split, and never the order within one table.
- Strings are sequences of characters. JavaScript strings are UTF-16 code units; the pattern is ASCII-only without the `u` flag, so surrogate pairs never match it, and the model needs no encoding.
- HTML escaping is left out because the source does none: names are handle characters and the rest of the text is copied as it is.
- The body of `getContainerClasses` does not type-check, because its third argument `CONTAINER_WIDTHS[variant]` may be the `modal` table, which the parameter type of `cn` excludes. With types stripped, `getContainerClasses('modal')` yields `container mx-auto px-4 py-6 md:py-8 [object Object]`. The model shows that result and does not guess what was meant.
- Only the `CONTAINER_WIDTHS`, `SPACING.page.padding` and `BUTTON` entries the helpers read are modelled. The other constant tables of `src/lib/ui-constants.ts` carry no behaviour.
- The route handlers, diagnostic scripts and type declarations are not part of this model. They are session checks, queries, console output and types, with no logic of their own.

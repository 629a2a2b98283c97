# A verified model of the taslimxyz blog pipeline

This project models the blog content pipeline of the taslimxyz personal site in Dafny and proves properties about that model. The pipeline covers:

- **Drafts.** `scripts/new-blog-draft.ts` creates a draft and `scripts/publish-blog-drafts.ts` publishes drafts.
- **Images.** `scripts/sync-blog-images.ts` mirrors each post's images into `public/images/blog/<slug>/`.
- **Reading posts.** `src/lib/blog.ts` lists posts and looks them up by slug.
- **The RSS feed.** `src/lib/rss.ts` pre-processes MDX and escapes text for the feed. `src/app/rss.xml/route.ts` assembles the RSS 2.0 document.
- **Rendering details.**
  - `src/lib/remark-mdx-figure-priority.ts` marks the hero figure.
  - `src/middleware.ts` redirects legacy `/blog/<folder>/<slug>` URLs.
  - `src/components/mdx/tweet.tsx` and `src/components/mdx/comment.tsx` hold two small parsers.

The file system is a finite map from paths (sequences of names, relative to the project root) to entries. An entry is `File(content)` or `Directory` (module `FileTree`). The following are parameters: the YAML front-matter codec (gray-matter), the clock, the user's choices at the prompts, and the file-system calls that throw. A script's `process.exit` becomes an exit value.

Modules and files:

| file | module | models |
|---|---|---|
| `common.dfy`, `seqs.dfy`, `text.dfy` | `Common`, `Seqs`, `Text` | Option/Result, sequence lemmas, JavaScript string operations (`trim`, `split`, `join`, `replace`, ASCII `toLowerCase`) |
| `frontmatter.dfy` | `Frontmatter` | front matter as an ordered key/value record, JavaScript truthiness, the codec as parameters |
| `file_tree.dfy` | `FileTree` | `readdirSync`, `rmSync`, `mkdirSync({recursive})`, `renameSync` on the map |
| `xml_escape.dfy` | `XmlEscape` | `escapeXml`, `wrapCdata` |
| `rss_mdx.dfy` | `RssMdx` | `escapeRegex`, `extractAttribute`, `resolveUrl`, the five component rewrites, `walkTokens` |
| `feed.dfy` | `Feed` | `escapeForXml`, `wrapInCdata`, `formatRfc822`, `determineLastBuildDate`, `renderItem`, the feed document |
| `new_draft.dfy` | `NewDraft` | slug, tags, scaffold, duplicate guard |
| `publish.dfy` | `Publish` | the publish script |
| `sync_images.dfy` | `SyncImages` | the image sync script |
| `figure_priority.dfy` | `FigurePriority` | the hero-figure plugin |
| `blog.dfy` | `Blog` | `getBlogPosts`, `getPost` |
| `middleware.dfy` | `Middleware` | the legacy-URL middleware |
| `tweet.dfy`, `comment.dfy` | `Tweet`, `Comment` | `extractTweetId` and the id choice; `parseMarkdownLink` |

### Behaviour of the code worth knowing

- **Slug derivation.** A title with no kept character gives the file name `.mdx`; there is no fallback (`new-blog-draft.ts:39-45`, `NewDraft.SlugEmpty`).
- **Failed draft delete.** A failed `unlinkSync` of the draft after the rename counts as an error and leaves the new post in place (`publish-blog-drafts.ts:174,186-204`, `Publish.PublishOne`).
- **Where posts live.**
  - The draft creator and the publisher work on flat `src/content/blog/<slug>.mdx` files.
  - The reader (`blog.ts:51`) and the middleware expect `YYYY/<slug>/index.mdx`.
  - Image sync treats every top-level directory of the content root except `drafts` as a slug, including year folders.
- **Middleware guard.** The capture-group check at `middleware.ts:25-27` can never fire: the pattern only matches non-empty groups. `Middleware.Handle` therefore has no such branch.
- **Tweet in the RSS pre-processor.** A `<Tweet>` with neither `id` nor `url` stays verbatim. With both, the `url` wins.
- **Tags line in the scaffold.** The `tags: []` branch (`new-blog-draft.ts:93-95`) gives the same text as the general branch on an empty list (`NewDraft.TagsLineEmpty`).
- **Figure plugin entry check.** The flag check at the start of `visit` (`remark-mdx-figure-priority.ts:36`) never fires. Both loops break as soon as the flag is set, so `visit` is never entered with the flag raised. The model's walk has no such branch.
- **`.gitkeep` filter.** The `file !== ".gitkeep"` test (`publish-blog-drafts.ts:37`) is redundant once `.mdx` is required (`Publish.GitkeepTestRedundant`).

## Model

| member | source | states |
|---|---|---|
| XmlEscape.EscapeXmlSafe | src/lib/rss.ts:223-230 | the escaped text has no `<`, `>`, `"` or `'`, every `&` in it starts one of the five predefined entities, and decoding those entities gives back the input |
| XmlEscape.EscapeXmlIsPerCharacter | src/lib/rss.ts:223-230 | the chain of five global replacements, `&` first, is the same as escaping each character on its own (nothing is escaped twice) |
| XmlEscape.DecodeEscapeEach | src/lib/rss.ts:223-230 | decoding the per-character escape gives back the input |
| XmlEscape.EscapeEachNoMarkup | src/lib/rss.ts:223-230 | the per-character escape leaves no markup character |
| XmlEscape.WrapCdataSections | src/lib/rss.ts:232-235 | the wrapped value starts with `<![CDATA[`, ends with `]]>` and is a run of CDATA sections, none of whose bodies contains `]]>`; the bodies concatenate to the input |
| XmlEscape.WrapCdataIsSections | src/lib/rss.ts:232-235 | replacing every `]]>` by `]]]]><![CDATA[>` and wrapping yields exactly the sections of the split bodies |
| XmlEscape.WrapCdataFrame | src/lib/rss.ts:232-235 | the result opens and closes a CDATA section |
| XmlEscape.SectionsOfBodies | src/lib/rss.ts:233 | the global replacement of `]]>` followed by the closing `]]>` equals the first body, a close, and the remaining sections |
| XmlEscape.ConcatBodies | src/lib/rss.ts:232-235 | the section bodies concatenate to the original value |
| XmlEscape.BodiesAreSafe | src/lib/rss.ts:232-235 | no section body contains `]]>` |
| RssMdx.EscapeRegex | src/lib/rss.ts:8-10 | escaping never shortens the text |
| RssMdx.EscapeRegexIsLiteral | src/lib/rss.ts:8-10 | the escaped name, read as a pattern, matches exactly the original characters: every metacharacter is backslash-escaped |
| RssMdx.ExtractAttribute | src/lib/rss.ts:15-49 | it throws `Invalid attribute name` exactly when the name is outside `[a-zA-Z0-9:_.-]+`; a value is found only when the tag contains `name=` |
| RssMdx.FirstMatch | src/lib/rss.ts:35-46 | the search finds no match when none exists at any position from the start, and otherwise returns the match at some position |
| RssMdx.FirstMatchNone | src/lib/rss.ts:35-46 | when no position matches, the search finds nothing |
| RssMdx.FirstMatchAt | src/lib/rss.ts:35-46 | the search returns the leftmost match |
| RssMdx.ExtractAbsent | src/lib/rss.ts:35-48 | an attribute that does not occur gives `undefined` |
| RssMdx.ExtractAfter | src/lib/rss.ts:35-46 | the first `name=` in the tag is the one whose value is read |
| RssMdx.UnescapeEscapeQuotes | src/lib/rss.ts:42 | unescaping `\"`, `\'` and `\\` undoes escaping them |
| RssMdx.QuotedRoundTrip | src/lib/rss.ts:35-46 | a double-quoted value free of double quotes, written with its single quotes and backslashes escaped, is read back exactly (a double quote, even an escaped one, ends the value, as `[^"]*` does) |
| RssMdx.BareRoundTrip | src/lib/rss.ts:35-46 | an unquoted value without whitespace, `/` or `>` is read back verbatim |
| RssMdx.ResolveUrl | src/lib/rss.ts:57-75 | an empty input stays empty; any other input gives a trimmed absolute URL; a trimmed `http://`, `https://` or `mailto:` URL is returned as is |
| RssMdx.ResolveRelative | src/lib/rss.ts:64-74 | `/x` becomes site URL + `/x`; a relative image becomes `<site>/images/blog/<slug>/x`; a relative link becomes `<site>/blog/<slug>/x` |
| RssMdx.ResolveUrlIdempotent | src/lib/rss.ts:57-75 | resolving an already resolved URL, against any slug and either kind, changes nothing |
| RssMdx.FigureOutcome | src/lib/rss.ts:87-107 | a `<Figure>` without `src` or `alt` stays verbatim; otherwise the output holds the absolute source and the alt text, and the caption when there is one |
| RssMdx.HtmlFigureParts | src/lib/rss.ts:100 | the captioned `<figure>` markup contains the source, alt text and caption |
| RssMdx.MarkdownImageParts | src/lib/rss.ts:102 | the `![alt](src)` markup contains the alt text and the source |
| RssMdx.TweetMarkup | src/lib/rss.ts:110-116 | a tag with neither `id` nor `url` stays verbatim; otherwise the output is the tweet quote line whose link is the `url` when given, else the status URL built from the `id` |
| RssMdx.CalloutMarkup | src/lib/rss.ts:119-134 | the blockquote starts with the emoji and ends with the trimmed content |
| RssMdx.ComponentText | src/lib/rss.ts:137-158 | without attributes, Credits and Comment show the trimmed children |
| RssMdx.ContentAttributeWins | src/lib/rss.ts:140-143 | a `content` attribute is used in preference to the children |
| RssMdx.ChildrenWithoutContent | src/lib/rss.ts:140-156 | attributes without `content=` leave the trimmed children as the text |
| RssMdx.ResolvedHref | src/lib/rss.ts:183-198 | only `image` and `link` tokens have their href changed, and a changed href is empty or absolute; a token without an href keeps none |
| RssMdx.ResolvedHrefIdempotent | src/lib/rss.ts:183-198 | resolving a token's href a second time changes nothing |
| RssMdx.WalkTokens | src/lib/rss.ts:183-198 | the walk keeps the number of tokens |
| RssMdx.WalkTokensKinds | src/lib/rss.ts:183-198 | every token keeps its type |
| RssMdx.WalkTokensResolves | src/lib/rss.ts:183-198 | after the walk every image and link href in the token tree is empty or absolute |
| RssMdx.WalkTokensIdempotent | src/lib/rss.ts:183-198 | walking the tokens twice equals walking them once |
| Feed.EscapeForXml | src/app/rss.xml/route.ts:82-89 | the route's escape is the same function as `escapeXml`: no `<`, `>`, `"` or `'`, every `&` starts an entity, and decoding gives back the input |
| Feed.WrapInCdata | src/app/rss.xml/route.ts:91-94 | the route's CDATA wrapper is the same function as `wrapCdata`: sections whose bodies avoid `]]>` and concatenate to the input |
| Feed.BuildDateFromFirst | src/app/rss.xml/route.ts:57-71 | the build date depends on the first item alone: items after it never change it |
| Feed.ItemPubDate | src/app/rss.xml/route.ts:37-55 | an item's text holds `<pubDate>` with its `publishedAt` formatted |
| Feed.BuildDateIsFirstPubDate | src/app/rss.xml/route.ts:10-26 | when the newest item was never updated, the feed's `<lastBuildDate>` text is exactly the `<pubDate>` text of its first `<item>`, and that item opens the items |
| Feed.UnparsableDateShowsNow | src/app/rss.xml/route.ts:73-80 | when the newest item has no `updatedAt` and its date does not parse, its `<pubDate>` and the feed's `<lastBuildDate>` both show the current time, as an empty feed's build date does |
| Feed.Categories | src/app/rss.xml/route.ts:41-43 | no tags give no `<category>` elements |
| Feed.CategoriesRoundTrip | src/app/rss.xml/route.ts:41-43 | the category elements are read back as exactly the tags, one per tag, in order |
| Feed.RenderItem | src/app/rss.xml/route.ts:37-55 | an item is an `<item>` element |
| Feed.ItemLinkAndGuid | src/app/rss.xml/route.ts:49-50 | `<link>` and the permalink `<guid>` carry the same escaped URL, which decodes to the item's URL |
| Feed.ItemCategories | src/app/rss.xml/route.ts:41-43 | the item contains its categories, which read back as its tags (none when tags are missing) |
| Feed.ItemsXml | src/app/rss.xml/route.ts:13 | no items give no text |
| Feed.ItemsXmlAppend | src/app/rss.xml/route.ts:13 | items are emitted in input order, concatenated |
| Feed.RenderFeed | src/app/rss.xml/route.ts:15-26 | the document starts with the XML declaration and the RSS 2.0 root |
| Feed.FeedContents | src/app/rss.xml/route.ts:15-26 | the document carries the chosen `lastBuildDate` and all item elements |
| NewDraft.KeepSlugChars | scripts/new-blog-draft.ts:41 | only `a-z`, `0-9`, whitespace and `-` survive, and the result is empty exactly when no character survives |
| NewDraft.DropRun | scripts/new-blog-draft.ts:42-43 | the dropped prefix is a maximal run of the class |
| NewDraft.CollapseRuns | scripts/new-blog-draft.ts:42-43 | collapsing runs keeps emptiness and the first character's fate; every output character is the replacement or a character of the input outside the class |
| NewDraft.CollapseDashesSingle | scripts/new-blog-draft.ts:43 | after `/-+/g → "-"` no two hyphens are adjacent |
| NewDraft.SlugChars | scripts/new-blog-draft.ts:39-43 | the slug holds only `a-z`, `0-9` and `-`, and never two hyphens in a row |
| NewDraft.SlugIdempotent | scripts/new-blog-draft.ts:39-43 | deriving a slug from a slug returns it unchanged |
| NewDraft.SlugEmpty | scripts/new-blog-draft.ts:39-45 | the slug is empty exactly when the lowered title has no letter, digit, whitespace or hyphen, and then the file is `.mdx` |
| NewDraft.SlugStart | scripts/new-blog-draft.ts:39-43 | leading whitespace becomes a hyphen rather than being trimmed |
| NewDraft.SlugEnd | scripts/new-blog-draft.ts:39-43 | trailing whitespace becomes a hyphen |
| NewDraft.SlugKeepsAlnum | scripts/new-blog-draft.ts:39-43 | the letters and digits of the slug are those of the lowered title, in order |
| NewDraft.CleanTags | scripts/new-blog-draft.ts:79-80 | every kept tag is non-empty and trimmed |
| NewDraft.ParseTags | scripts/new-blog-draft.ts:77-80 | every tag is non-empty, trimmed and comma-free |
| NewDraft.ParseTagsJoin | scripts/new-blog-draft.ts:77-80 | tags that are non-empty, trimmed and comma-free, joined by commas, parse back to the same list in order |
| NewDraft.CleanOfClean | scripts/new-blog-draft.ts:79-80 | cleaning cleaned tags changes nothing |
| NewDraft.QuoteAll | scripts/new-blog-draft.ts:91 | each tag is quoted, one for one, in order |
| NewDraft.TagsLineEmpty | scripts/new-blog-draft.ts:89-95 | with no tags the line is `tags: []` |
| NewDraft.BuildScaffold | scripts/new-blog-draft.ts:83-97 | the pushed lines are the scaffold |
| NewDraft.ScaffoldShape | scripts/new-blog-draft.ts:83-99 | `---`, the verbatim quoted title, a summary line only when the summary has content, the tags line, then `---` and two empty lines |
| NewDraft.MakeDraftsDir | scripts/new-blog-draft.ts:71-74 | creating the missing drafts folder makes it a directory and only adds entries |
| NewDraft.NewDraft | scripts/new-blog-draft.ts:36-102 | exit 1 when the draft, or else the published post, exists; a drafts path that cannot be a folder crashes; in all those cases nothing is written; otherwise the draft holds the scaffold, every earlier entry is kept, and only the draft and the drafts folder's missing ancestors are added |
| NewDraft.CreatedIsListed | scripts/new-blog-draft.ts:45 | a created draft is among the files the publisher offers |
| Publish.FilterDrafts | scripts/publish-blog-drafts.ts:35-37 | exactly the `.mdx` names other than `.gitkeep` are kept, without duplicates |
| Publish.GitkeepTestRedundant | scripts/publish-blog-drafts.ts:37 | the `.gitkeep` test adds nothing to the `.mdx` test |
| Publish.DraftFiles | scripts/publish-blog-drafts.ts:35-37 | the offered drafts are exactly the `.mdx` entries of the drafts folder, each once |
| Publish.Drafts | scripts/publish-blog-drafts.ts:51-61 | one draft per name, in order, with its parsed front matter |
| Publish.CollectDrafts | scripts/publish-blog-drafts.ts:51-61 | the loop completes exactly when every draft parses, and then yields the drafts |
| Publish.Find | scripts/publish-blog-drafts.ts:96-97 | a found draft has the name; none found means no draft has it |
| Publish.FindListed | scripts/publish-blog-drafts.ts:96-97 | a selected name is found exactly when it is listed |
| Publish.Others | scripts/publish-blog-drafts.ts:156-162 | the carried-over fields are draft fields whose keys are not handled |
| Publish.Dated | scripts/publish-blog-drafts.ts:136-147 | the title and date fields use only handled keys |
| Publish.Leading | scripts/publish-blog-drafts.ts:136-153 | the leading fields use only handled keys |
| Publish.DatedShape | scripts/publish-blog-drafts.ts:136-147 | title, then `publishedAt` (kept on republish, else now), then `updatedAt = now` only on republish |
| Publish.DatedFields | scripts/publish-blog-drafts.ts:136-147 | a first publish sets `publishedAt` to now with no `updatedAt`; a republish keeps `publishedAt` and sets `updatedAt` to now |
| Publish.LeadingShape | scripts/publish-blog-drafts.ts:136-153 | then `summary`, then `tags` only when truthy |
| Publish.LeadingFields | scripts/publish-blog-drafts.ts:136-153 | the values of the five handled keys in the leading fields |
| Publish.OthersDistinct | scripts/publish-blog-drafts.ts:156-162 | the carried-over fields have distinct keys |
| Publish.HandledFromLeading | scripts/publish-blog-drafts.ts:156-162 | a handled key takes its value from the leading fields, so a draft's own `updatedAt` is never carried over |
| Publish.OrderedDataFields | scripts/publish-blog-drafts.ts:136-162 | the ordered front matter: title first, `publishedAt` second, the date rule, summary, tags when truthy, and every other key with its value unchanged |
| Publish.AssignLeading | scripts/publish-blog-drafts.ts:136-153 | the field assignments build the leading fields |
| Publish.AssignOthers | scripts/publish-blog-drafts.ts:156-162 | the loop appends the other fields after the leading ones |
| Publish.BuildOrderedData | scripts/publish-blog-drafts.ts:136-162 | the assignments build the ordered front matter |
| Publish.Cleanup | scripts/publish-blog-drafts.ts:189-198 | the temporary file is gone unless its `unlinkSync` fails; nothing else changes |
| Publish.TempNotMdx | scripts/publish-blog-drafts.ts:166 | a temporary file never collides with a published `.mdx` file |
| Publish.PathsDiffer | scripts/publish-blog-drafts.ts:116-166 | draft, target and temporary paths never collide, and distinct names have distinct paths |
| Publish.PublishOne | scripts/publish-blog-drafts.ts:95-205 | skipped for a missing title, else a missing summary, else an existing target, with nothing changed; published exactly when the writes succeed, and then the target holds the stringified draft body with the ordered front matter and the draft is gone; the draft is deleted only on a publish; a failed pass other than a failed draft delete leaves the target exactly as it was, so the rename leaves no partial post; a target that appears holds exactly that published text; a temporary file remains only when its clean-up fails; only the three paths change |
| Publish.PassKeeps | scripts/publish-blog-drafts.ts:95-205 | one pass keeps existing posts and deletes no draft without creating its post |
| Publish.GoneStep | scripts/publish-blog-drafts.ts:95-205 | one pass adds its name to the drafts that are gone exactly when it published it, and brings back no draft |
| Publish.CreatedStep | scripts/publish-blog-drafts.ts:164-174 | one pass keeps every remaining draft as it was at the start, and a post it creates holds the published text of its draft at that pass's time |
| Publish.PassStep | scripts/publish-blog-drafts.ts:95-205 | one pass of the loop, skipped or not, keeps every guarantee of the run so far: the counters, the frame, kept posts, accounted drafts and the contents of created posts |
| Publish.PublishPass | scripts/publish-blog-drafts.ts:95-205 | the loop body: an unlisted name is passed over (`continue`), a listed one goes through one publish attempt, and the run's guarantees carry over to one more name |
| Publish.PublishSelected | scripts/publish-blog-drafts.ts:92-205 | `published + errors` equals the number of selected names that are listed; `published` is the number of selected names whose draft existed before and is gone after; only the selected names' paths change; existing posts are kept; a draft is gone only when its post was created; every `.mdx` post the run creates holds the published text of its draft, stamped at one of that name's passes |
| Publish.PublishDrafts | scripts/publish-blog-drafts.ts:28-87 | exits without changes when the drafts folder is missing, holds no drafts, a draft does not parse, or nothing is selected; when every draft parses, `NothingSelected` exactly when the selection is empty; otherwise the counters cover the selection, `published` counting the selected drafts that are gone, every new post holding the published text of its draft, and existing posts are never overwritten |
| SyncImages.ExtName | scripts/sync-blog-images.ts:68 | the extension is empty or a proper suffix that starts with the last dot and holds no other dot |
| SyncImages.DotFileHasNone | scripts/sync-blog-images.ts:68 | a dot file such as `.png` has no extension |
| SyncImages.ImageIgnoresCase | scripts/sync-blog-images.ts:68-72 | names equal up to ASCII case are both images or both not |
| SyncImages.Prepared | scripts/sync-blog-images.ts:28-31 | creating the public root changes only its missing ancestors and leaves an existing one alone |
| SyncImages.RebuildSlug | scripts/sync-blog-images.ts:53-76 | the copy step fails exactly when the public root is not a directory; otherwise the slug folder is replaced by copies of exactly the post's regular image files; nothing outside the slug folder changes |
| SyncImages.SyncPosts | scripts/sync-blog-images.ts:33-79 | the slugs are exactly the directories of the content root other than `drafts`, and every slug folder is rebuilt |
| SyncImages.PruneOrphans | scripts/sync-blog-images.ts:82-96 | every public directory not named after a slug is removed |
| SyncImages.PrunedIsWant | scripts/sync-blog-images.ts:33-96 | the pass over the posts followed by the pruning pass leaves the described final tree |
| SyncImages.SyncImages | scripts/sync-blog-images.ts:23-96 | a missing content root exits with nothing changed; the run fails exactly when the content root or the public root is not a directory; a finished run leaves the described tree; paths outside the public tree never change |
| SyncImages.ContentUntouched | scripts/sync-blog-images.ts:33-76 | the content root and everything outside the public tree are only read |
| SyncImages.SlugFolderExact | scripts/sync-blog-images.ts:53-76 | each slug folder exists and holds exactly copies of the post's regular image files, with the same contents, and nothing deeper |
| SyncImages.OrphansRemoved | scripts/sync-blog-images.ts:82-96 | no directory remains for a non-slug; a non-directory entry of the public root is left alone |
| SyncImages.SyncIdempotent | scripts/sync-blog-images.ts:23-96 | a second run on the result also finishes and leaves the tree exactly as the first run left it |
| FigurePriority.MarkFigure | src/lib/remark-mdx-figure-priority.ts:41-56 | the figure ends up with a `priority` attribute; one that had it is unchanged; otherwise `{priority: true}` is appended after the existing attributes (a missing list becomes that one attribute) |
| FigurePriority.FirstIn | src/lib/remark-mdx-figure-priority.ts:35-76 | the first figure found is a flow-level `Figure` at a valid position |
| FigurePriority.FirstInIsFirst | src/lib/remark-mdx-figure-priority.ts:35-76 | no figure comes before it in depth-first, left-to-right order, and there is none at all when none is found |
| FigurePriority.MarkedNode | src/lib/remark-mdx-figure-priority.ts:63-68 | a node that is not a figure keeps everything but its children, which are walked |
| FigurePriority.Visit | src/lib/remark-mdx-figure-priority.ts:35-69 | the walk of a node reports a mark exactly when the subtree has a figure, and yields the marked subtree |
| FigurePriority.VisitChildren | src/lib/remark-mdx-figure-priority.ts:63-68 | the loop over children stops at the child holding the first figure and yields the marked children |
| FigurePriority.RemarkMdxFigurePriority | src/lib/remark-mdx-figure-priority.ts:31-77 | the root keeps its type, name and attributes and its children are replaced by their marked form |
| FigurePriority.NoFigureUnchanged | src/lib/remark-mdx-figure-priority.ts:36-76 | a tree without a flow-level figure is unchanged |
| FigurePriority.ExistingPriorityKept | src/lib/remark-mdx-figure-priority.ts:44-58 | when the first figure already has `priority`, nothing changes anywhere |
| FigurePriority.OnlyFirstFigureMarked | src/lib/remark-mdx-figure-priority.ts:33-58 | every other node keeps its type, name and attributes, so at most one attribute is added |
| FigurePriority.FirstFigureMarked | src/lib/remark-mdx-figure-priority.ts:41-58 | the first figure is replaced by its marked form |
| Blog.DirsAmong | src/lib/blog.ts:34-39 | the filter keeps exactly the directories (with four-digit names when asked), in listing order |
| Blog.YearDirs | src/lib/blog.ts:34-39 | the year folders are exactly the subdirectories named by four digits, ascending |
| Blog.SlugDirs | src/lib/blog.ts:44-48 | the slugs of a year are exactly its subdirectories, ascending |
| Blog.PostOf | src/lib/blog.ts:61-69 | the post takes the directory name as slug and the front-matter fields; missing or falsy tags become `[]` |
| Blog.SlugPostsSpec | src/lib/blog.ts:50-70 | the slug loop returns exactly when every `index.mdx` is readable; each post comes from its file, and every slug with an `index.mdx` yields a post |
| Blog.SlugPostsFound | src/lib/blog.ts:50-70 | every slug folder with `index.mdx` yields a post from that file |
| Blog.IndexFilesOf | src/lib/blog.ts:50-56 | the index files of a year's folders are exactly the `(year, slug)` pairs whose `index.mdx` exists, in folder order |
| Blog.SlugPostsOnePerFile | src/lib/blog.ts:50-70 | the slug loop pushes exactly one post per index file, in folder order, each read from its own file; a folder without `index.mdx` gives none |
| Blog.YearPostsReturns | src/lib/blog.ts:42-71 | the year loop returns exactly when every post file of those years is readable |
| Blog.YearPostsSpec | src/lib/blog.ts:42-71 | every post comes from a file of those years, and every such file yields a post |
| Blog.IndexFiles | src/lib/blog.ts:42-56 | the index files under the given years are exactly the pairs of a year, one of its folders, and an existing `index.mdx` |
| Blog.YearPostsOnePerFile | src/lib/blog.ts:42-71 | the year loop yields exactly one post per index file under those years, in walk order, each read from its own file |
| Blog.IndexFilesDistinct | src/lib/blog.ts:34-48 | since the year folders and the folders in a year are each listed once, no index file is visited twice |
| Blog.Insert | src/lib/blog.ts:73-76 | insertion adds exactly the one post |
| Blog.SortPosts | src/lib/blog.ts:73-76 | sorting permutes the posts |
| Blog.InsertMembers | src/lib/blog.ts:73-76 | insertion keeps the old posts and adds the new one |
| Blog.InsertNewestFirst | src/lib/blog.ts:73-76 | inserting a dated post into a newest-first list keeps it newest first |
| Blog.SortNewestFirst | src/lib/blog.ts:73-76 | with every date parsing, the sorted posts are newest first |
| Blog.SortSameMembers | src/lib/blog.ts:73-76 | sorting keeps exactly the same posts |
| Blog.ReadYear | src/lib/blog.ts:50-70 | the loop over slugs computes the slug listing |
| Blog.ReadYears | src/lib/blog.ts:42-71 | the loop over years computes the year listing |
| Blog.GetBlogPosts | src/lib/blog.ts:23-77 | a missing posts root gives `[]`; a posts root that is a file throws; otherwise the listing of all year folders, sorted |
| Blog.ListingReturns | src/lib/blog.ts:23-77 | the listing returns exactly when every `index.mdx` in a year folder is readable |
| Blog.ListingSourcedComplete | src/lib/blog.ts:23-77 | every post listed comes from `<year>/<slug>/index.mdx` with its slug, and every such file is listed |
| Blog.ListingOnePerFile | src/lib/blog.ts:23-77 | the sorted listing reorders a list holding exactly one post per index file under a year folder, each file counted once and each post read from its own file; its length is the number of such files |
| Blog.ListingOrdered | src/lib/blog.ts:73-76 | when every date parses, the listing is newest first |
| Blog.FirstYearWith | src/lib/blog.ts:98-100 | the search returns the first year, in listing order, holding `<slug>/index.mdx`, or none when there is none |
| Blog.GetPost | src/lib/blog.ts:83-118 | a missing posts root gives `null`; a posts root that is a file throws; otherwise the first-match lookup |
| Blog.PostInNone | src/lib/blog.ts:98-117 | the lookup gives `null` exactly when no year folder holds `<slug>/index.mdx` |
| Blog.FirstIsEarliest | src/lib/blog.ts:98-115 | the year found comes before every other year holding the slug |
| Blog.PostInEarliest | src/lib/blog.ts:92-115 | the post comes from the earliest year folder holding the slug |
| Middleware.LegacyMatch | src/middleware.ts:17-18 | a match is `/blog/<a>/<b>` or `/blog/<a>/<b>/` with non-empty slash-free segments |
| Middleware.LegacyParts | src/middleware.ts:17-18 | a path split into those parts is that legacy path |
| Middleware.LegacyMatchOf | src/middleware.ts:17-18 | every such path matches, with those segments |
| Middleware.CanonicalNotLegacy | src/middleware.ts:17-45 | `/blog/<slug>` is not intercepted |
| Middleware.Handle | src/middleware.ts:13-46 | pass-through exactly when the path does not match; a redirect exactly when the post file exists, with status 308 and only the pathname changed to `/blog/<slug>`; otherwise a rewrite to `/404` |
| Middleware.LegacyOutcome | src/middleware.ts:30-42 | a legacy path is redirected when its file exists and rewritten to `/404` when it does not |
| Middleware.RedirectSettles | src/middleware.ts:39-45 | the redirect target is passed through on the next request |
| Tweet.Segment | src/components/mdx/tweet.tsx:17 | the `[^/]+` segment is the longest slash-free prefix |
| Tweet.DigitRun | src/components/mdx/tweet.tsx:17 | the `(\d+)` capture is the longest digit prefix |
| Tweet.StatusId | src/components/mdx/tweet.tsx:17 | a captured id is non-empty and all digits |
| Tweet.TweetAt | src/components/mdx/tweet.tsx:17 | a match at a position yields a non-empty digit id |
| Tweet.FirstTweetIndex | src/components/mdx/tweet.tsx:17-19 | the search finds a matching position when one exists, and none when none does |
| Tweet.FirstTweetAt | src/components/mdx/tweet.tsx:17-19 | the search returns the leftmost matching position |
| Tweet.ExtractTweetId | src/components/mdx/tweet.tsx:14-20 | an id found is non-empty, all digits, and follows `/status/` in the URL |
| Tweet.ExtractFromStatusUrl | src/components/mdx/tweet.tsx:14-20 | a `twitter.com` or `x.com` status URL gives its id |
| Tweet.SelectTweetId | src/components/mdx/tweet.tsx:27-35 | a given `url` alone decides the id; else `id` is used as is; with neither there is no id |
| Tweet.UrlDecides | src/components/mdx/tweet.tsx:29-68 | with a `url`, the `id` is ignored, and the component renders exactly when the URL yields an id |
| Comment.ParseMarkdownLink | src/components/mdx/comment.tsx:8-26 | a parsed link has non-empty text without `]` and a non-empty URL without `)` |
| Comment.ParseSound | src/components/mdx/comment.tsx:16-22 | a parsed link renders back to exactly the input |
| Comment.ParseRender | src/components/mdx/comment.tsx:16-22 | any valid link, rendered, parses back to itself |
| Comment.ParseExactly | src/components/mdx/comment.tsx:16-26 | parsing succeeds exactly when the whole string is `[text](url)` for a valid text and URL |
| Comment.CommentView | src/components/mdx/comment.tsx:28-49 | a link is rendered exactly when the children parse, with their text and URL; otherwise the children are shown unchanged |
| FileTree.ReadDir | src/lib/blog.ts:34 | the listing holds exactly the children of the folder, ascending, each once |
| FileTree.RemoveTree | scripts/sync-blog-images.ts:54 | the recursive remove deletes exactly the path and everything under it |
| FileTree.MakeDirs | scripts/sync-blog-images.ts:30 | the recursive mkdir adds the missing ancestors as directories and changes nothing else |
| FileTree.MoveFile | scripts/publish-blog-drafts.ts:170 | the rename moves the file's contents and changes nothing else |
| Text.Trim | scripts/new-blog-draft.ts:79 | the result has no surrounding whitespace |
| Text.TrimIdempotent | scripts/new-blog-draft.ts:79 | trimming twice equals trimming once |
| Text.Split | scripts/new-blog-draft.ts:78 | the pieces hold no separator |
| Text.JoinSplit | scripts/new-blog-draft.ts:78 | joining the pieces gives back the input |
| Text.SplitJoin | scripts/new-blog-draft.ts:78 | splitting separator-free pieces joined by the separator gives back the pieces |
| Text.LowerAscii | scripts/new-blog-draft.ts:40 | lowering is character by character and keeps the length |
| Frontmatter.Assign | scripts/publish-blog-drafts.ts:143-160 | assigning a key sets its value; a new key goes last and an existing one keeps its place; other keys are unchanged |

## Left out

- gray-matter is not part of this model. Parsing and stringifying front matter are parameters (`Frontmatter.Codec`). A parse failure is the codec returning nothing, and the script throws there.
- `marked`, `sanitize-html` and the rest of `compileMdxToRssHtml` (src/lib/rss.ts:166-221) are not part of this model. `walkTokens` is modelled on a token tree.
- The global regex scan of `preProcessMdx` is left out. Each component rewrite is a function of the already matched tag text (`RssMdx.RewriteFigure`, `RewriteTweet`, `RewriteCallout`, `RewriteCredits`, `RewriteComment`).
- The clock is a parameter: `new Date().toISOString()`, `Date.now()`, `Date.parse` and `toUTCString` (`Feed.Clock`, `Publish.Attempt`).
- `getBlogFeedItems` is not part of this model. The feed takes its items as a list.
- The prompts (`enquirer`), `console` output and `process.exit` are left out. The user's answers are parameters, and the exit code becomes the exit value.
- Publishing takes, for each selected draft, which file-system call throws as a parameter (`Publish.Fault`). A failed write may leave a temporary file. The atomicity of `renameSync` and concurrent runs belong to the operating system.
- Symbolic links are not modelled. `statSync` reads the entry of the map, and file permissions are ignored.
- Text.LowerAscii: lowers ASCII letters only. JavaScript's `toLowerCase` also lowers other letters. For the image-extension test this gives the same answer: the only non-ASCII character that lowers to an ASCII letter is the Kelvin sign, which lowers to `k`, and no image extension holds a `k`. For slugs a non-ASCII capital is dropped either way, except the dotted capital I and the Kelvin sign, which JavaScript lowers to a kept letter.
- Object key order: JavaScript lists integer-like keys of an object first. The front-matter record keeps insertion order for all keys, as the script intends.
- SyncImages.SyncImages: a run that throws part-way (`Crashed`) is specified only by the frame: nothing outside the public tree changes. The partial public tree is not described.
- SyncImages.RebuildSlug: the `existsSync` test before `rmSync` is not modelled. `force: true` makes the removal of a missing folder a no-op, so the result is the same.
- FigurePriority.RemarkMdxFigurePriority: the tree is a value. The in-place push onto `attributes` and the sharing of a node between two parents are not modelled. Only a missing `children` list and an empty one are treated alike.
- RssMdx.FirstMatch: the ensures does not state that the match is the leftmost one. `RssMdx.FirstMatchAt` proves it.
- Tweet.FirstTweetIndex: the ensures does not state leftmost. `Tweet.FirstTweetAt` proves it.
- Blog.GetPost: the slug is one path segment. `path.join` (`blog.ts:99`) normalises `.`, `..`, empty segments and an embedded `/`, so a slug such as `../2024/x` may reach a file outside the year folder; the model does not normalise, and its lookup only finds `<year>/<slug>/index.mdx` with the slug taken literally.
- Middleware.Handle: the folder and the slug are single segments without `/`, but `path.join` (`middleware.ts:31`) still resolves a folder or slug of `.` or `..`; the model does not normalise, so for such a URL it tests the literal path.
- Blog.GetBlogPosts: the order of posts with equal or unparsable dates is not stated. `Array.prototype.sort` with a comparator that returns `NaN` gives an order that depends on the engine. The model sorts by insertion, and a comparison that involves an unparsable date (a `NaN` difference) counts as equal.
- Comment.ParseMarkdownLink: only a string child is modelled. `String(children)` (`comment.tsx:13`) turns any other React node into text by JavaScript's rules before matching: an element becomes `[object Object]` and an array is joined with commas. The model does not describe those texts.
- The React rendering, hooks and `IntersectionObserver` of `tweet.tsx` and `comment.tsx` are left out. Only the choice of what is rendered is modelled.

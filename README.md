# emeeuw, modelled in Dafny

emeeuw sends e-mail built from markdown templates through Mandrill. An
`Emeeuw` instance holds two things:

- a message baseline, built once from the constructor's options: the
  headers, open and click tracking, the subject, the sender and the
  recipients;
- a table of template specs, which `from(location)` fills from a file or a
  directory.

The three operations work like this:

- `from(location)` turns every `.md` file it finds into a spec. A spec
  records the file, its name, its extension, `filename` (the path with
  its first `.md` removed), the markdown text and the path of the HTML
  template, `filename + '.html'`.
- `find(name)` looks a spec up. The first time, it fetches the compiled
  template's render function and converts the markdown.
- `send(template, options)` builds the message. It fills in `text` and
  `html`, merges the options over a copy of the baseline and normalises
  `to` into an array of recipients.

markdown.js is the custom `marked` renderer. It does three things:

- it gives headings GitHub-style anchors;
- its code renderer returns the highlighted markup unchanged;
- its `highlight` hook numbers each snippet with a counter and retries a
  failed snippet once as plain text.

## Structure

| file | module | what |
|---|---|---|
| results.dfy | `Results` | `Option` and `Result` |
| jsvalues.dfy | `JsValues` | JavaScript values, truthiness, property access, the `merge` mixin |
| paths.dfy | `Paths` | `path.join`, `path.basename`, `path.extname`, `String.prototype.indexOf` and `replace` with a string pattern |
| discovery.dfy | `Discovery` | what `from` computes: the candidate list, the filter, the spec built per file, the registration |
| service.dfy | `Service` | the class `Emeeuw` (constructor, `From`, `Find`, `Send`) and the functions that specify it |
| markdown.dfy | `Markdown` | the heading id and markup, the code renderer, and the `highlight` retry with its counter (class `Snippets`) |

Most of the model is imperative classes proved against pure functions:

- `Emeeuw` holds the baseline and the template table as fields. Its
  methods are proved equal to `Discover`/`Register`, `Lookup` and
  `Compose`/`FilledOptions`.
- `from`'s listing, filter and map stages are loops (`ListCandidates`,
  `FilterMarkdown`, `PrepareSpecs`). They are proved equal to
  `Candidates`, `MarkdownOnly` and `PrepareEach`, and filtering then
  mapping is proved equal to the fused `PrepareAll`
  (`Discovery.PrepareAllIsFilterThenMap`).
- `Snippets` is the closure state of one `markdown()` call: the `id`
  counter. `Highlight` is proved equal to `HighlightRun`.

The properties are lemmas about those functions. Each function is tied to
an independent description or to an inverse:

- the candidate list matches `ListedAt`;
- the names match `NamedAsFile`/`NamedAsGroup`;
- a heading parses back into its parts;
- a decimal string reads back into its number.

### Behaviour worth knowing

The code does the following, and the model follows it:

- `from` extracts no metadata. The template path is always
  `filename + '.html'`, where `filename` is the path with its first `.md`
  removed. No template engine is chosen from the file name.
- `find` stores the render function BEFORE it converts the markdown. When
  the conversion fails, the error is reported, but the entry keeps its
  render function and no markdown. Every later `find` then succeeds
  without converting again (`Service.FailedCompileLooksCompiled`,
  `Service.FailedCompileHasNoMarkdown`).
- `find` does not coalesce concurrent compilations of the same template.
  It converts with `marked` directly (index.js:9 and :164). It does not
  use the renderer of markdown.js, so the two are modelled separately.
  `find`'s markdown step is a parameter `md`.
- A duplicate template name only produces a debug message. The later spec
  replaces the earlier one (`Discovery.RegisterLastWins`).
- `filename` is `file.replace(extension, '')`. This removes the FIRST
  ".md" of the path, which need not be the extension
  (`Paths.ReplaceHitsEarlierOccurrence`).
- When the caller gives no `html`, `send` merges the spec into the
  caller's options object. The spec's `text` then overwrites a `text` the
  caller gave (`Service.ComposeTextAndHtml`).
- A missing `to` becomes `[undefined]` (`Service.NormalizeToShape`).
- A code block with no language, or an empty one, is highlighted as
  'text'. If that attempt fails, it is tried once more as 'text',
  because the retry tests `lang !== 'text'` on the original argument
  (`Markdown.HighlightTextTwice`).

## Model

| member | source | states |
|---|---|---|
| Service.Baseline | index.js:31-40 | defines the message baseline: the HTML content-type header, `track_opens`/`track_clicks` from `open`/`click` or `true`, and `subject`, `from_email` and `to` copied from the options |
| Service.Lookup | index.js:156-173 | defines `find`: an unknown name fails; a set render function returns the entry; otherwise the render function is stored, then the markdown converted, its failure leaving the render function stored |
| Service.SpecObject | index.js:136 | defines the own properties of a spec object that `merge(options, spec)` copies |
| Service.NormalizeTo | index.js:139-140 | defines the `to` normalisation: a string becomes `{email}`, a non-array is wrapped into an array |
| Service.FilledOptions | index.js:135-137 | defines the caller's options after `send`: `text` defaulted, and without `html` the spec merged in and `html` rendered from the merged object |
| Service.Compose | index.js:107-140 | defines the message: a copy of the baseline overwritten by the filled options, `to` normalised |
| Discovery.GroupCandidates | index.js:66-71 | defines the candidates of a sub-directory: each entry joined onto it, tagged with its basename |
| Discovery.EntryCandidates | index.js:62-74 | defines what one entry of the location adds: itself when a file, its group when a directory |
| Discovery.ChildCandidates | index.js:61-75 | defines the listing of the location's entries, in order |
| Discovery.Candidates | index.js:57-75 | defines the `files` list: the location itself when a file, else its entries' candidates |
| Discovery.PrepareSpec | index.js:79-87 | defines the map step: extension, `filename` with the first occurrence of the extension removed, name, text read from `filename + '.md'` or ENOENT, and template `filename + '.html'` |
| Discovery.PrepareAll | index.js:77-88 | defines filter and map: the specs of the ".md" candidates in order, or the first read error |
| Discovery.IsMarkdown | index.js:78 | defines the filter test: `path.extname` of the candidate's file is ".md" |
| Discovery.SourcePath | index.js:84 | defines the path the text is read from: `filename + '.md'` |
| Discovery.NoSuchFile | index.js:57 | defines the ENOENT message a failing `statSync` or `readFileSync` throws |
| Discovery.MarkdownOnly | index.js:77-78 | defines the filter: the candidates whose extension is ".md", in order |
| Discovery.PrepareEach | index.js:79-88 | defines the map over the filtered list: each spec in order, or the first read error |
| Discovery.Register | index.js:88-92 | defines the add step: each spec in order stored under its name |
| Discovery.Discover | index.js:56-95 | defines what `from` registers or throws: ENOENT for a missing location, else `PrepareAll` of the candidates |
| Paths.Join | index.js:62-68 | defines `path.join` of a directory and an entry name |
| Paths.Basename | index.js:69 | defines `path.basename`: the last segment, trailing separators ignored |
| Paths.Extname | index.js:78-80 | defines `path.extname`: from the last '.' of the basename, or "" when there is none, it opens the basename, or the basename is ".." |
| Paths.BasenameWithout | index.js:83 | defines `path.basename(p, ext)`: the basename with `ext` removed unless that leaves it empty |
| Paths.IndexOf | index.js:81 | defines `String.prototype.indexOf`: the first occurrence of the pattern, or -1 |
| Paths.ReplaceFirst | index.js:81 | defines `replace` with a string pattern: only the first occurrence is replaced |
| Markdown.DropMarks | markdown.js:27 | defines the first step of the id: every '.', '\|' and '#' deleted |
| Markdown.Collapse | markdown.js:28 | defines the second step: every run of non-word characters replaced by one '-' |
| Markdown.TrimDashes | markdown.js:29 | defines the third step: the trailing run of '-' removed |
| Markdown.Lower | markdown.js:30 | defines the last step: ASCII upper-case letters lowered |
| Markdown.Slug | markdown.js:27-30 | defines the heading id: marks deleted, non-word runs made '-', trailing '-' removed, lower-cased |
| Markdown.Heading | markdown.js:32-37 | defines the heading markup: `<hD>`, the anchor with the id as `name` and `href` fragment, the text, `</hD>` and a newline |
| Markdown.LangOrText | markdown.js:60 | defines `lang \|\| 'text'` |
| Markdown.Request | markdown.js:59-67 | defines the pygmentize options: the language, `html`, and line numbers anchored `snippet-` and the snippet number, class `snippet` |
| Markdown.HighlightRun | markdown.js:58-81 | defines one `highlight` call: the counter advanced, the attempt made, and on failure a retry in 'text' unless the language was 'text' |
| Service.Emeeuw.constructor | index.js:25-44 | the message is the baseline of the options and the template table is empty |
| Service.TrackingIsPresenceBased | index.js:35-36 | tracking of opens and clicks is `true` when the option is absent and the option's value, falsy or not, when present |
| Service.Emeeuw.From | index.js:56-95 | a missing location throws; otherwise the result is the registration of the specs `Discover` describes, or the error it reports with the table unchanged; the table invariant is kept |
| Service.ListCandidates | index.js:57-75 | the loop over the directory entries produces exactly `Candidates(location, root)` |
| Service.FilterMarkdown | index.js:77-78 | the filter loop keeps exactly `MarkdownOnly(files)`: the ".md" candidates, in order |
| Service.PrepareSpecs | index.js:79-88 | the map loop returns `PrepareEach`: the spec of each filtered candidate in order, or the first read error |
| Service.PrepareCandidates | index.js:77-88 | filtering and then mapping the list returns `PrepareAll`: the specs of the ".md" candidates in order, or the first read error |
| Service.RegisterStep | index.js:88-92 | proof step of `Emeeuw.From`'s loop: registering from position j is storing `specs[j]` under its name and registering the rest |
| Service.ChildCandidatesStep | index.js:61-75 | proof step of `ListCandidates`' loop: one entry of the listing appends exactly that entry's candidates |
| Service.PrependNothing | index.js:77-88 | proof step of `PrepareSpecs`: prepending no specs changes nothing |
| Service.PrependTwice | index.js:77-88 | proof step of `PrepareSpecs`' loop: prepending one spec then a prefix is prepending the extended prefix |
| Service.Emeeuw.Find | index.js:156-173 | the result and the new table are exactly `Lookup`'s; the table invariant is kept |
| Service.LookupRenders | index.js:160-162 | a found spec has the render function of its own template, and the table invariant survives the lookup |
| Service.LookupCached | index.js:160 | in any table, an entry whose render function is set is returned as it is, and the table is unchanged, whatever the converter |
| Service.LookupUnknown | index.js:157-159 | an unknown name fails with "Unknown template: " and the name, and the table is unchanged |
| Service.LookupCompiles | index.js:162-172 | the first lookup of an unrendered entry whose conversion succeeds stores the fetched render function and the converted markdown in that entry, changes nothing else, and returns the stored entry |
| Service.LookupFrame | index.js:156-173 | only the entry looked up changes, only in `render` and `markdown`; its render function is set; a success returns the stored entry |
| Service.LookupCompilesOnce | index.js:160 | after any lookup of a known name, the next lookup returns the stored entry without converting, whatever the converter |
| Service.FailedCompileLooksCompiled | index.js:162-168 | a failed conversion is reported, yet the next lookup succeeds with the render function set and the markdown the entry had |
| Service.FailedCompileHasNoMarkdown | index.js:162-168 | in a valid table, where no entry holds markdown before its render function, the spec every later lookup returns after a failed conversion has no markdown |
| Service.Emeeuw.Send | index.js:106-146 | on a lookup error, returns it with the options untouched; otherwise the message is `Compose` of the baseline and the spec, and the caller's options are left as `FilledOptions` describes; the table changes as `Lookup` says |
| Service.NormalizeToShape | index.js:139-140 | the recipients always end up an array: a string becomes `[{email: s}]`, an array is kept, anything else is wrapped; normalising is idempotent |
| Service.ComposeTextAndHtml | index.js:135-137 | with a truthy `html` the caller's html is kept and `text` defaults to the spec's text; without one the spec's text wins and `html` is the engine's output on the caller's options, `text` defaulted, with the spec's own properties merged in |
| Service.ComposePrecedence | index.js:107-137 | for every other key, the spec's own properties win when no html was given, then the caller's options, then the baseline; no key appears from nowhere |
| Service.ComposeRecipients | index.js:107-140 | the recipients are the caller's `to` when given, else the baseline's, normalised |
| Service.ComposeStringRecipient | index.js:139-140 | a string recipient becomes `[{email: s}]` |
| Discovery.RegisterKeys | index.js:88-92 | the table after registration holds the old names plus exactly the specs' names |
| Discovery.RegisterLastWins | index.js:89-91 | the last spec carrying a name is the one stored under it |
| Discovery.RegisterKeepsOthers | index.js:88-92 | a name no spec carries keeps its old entry, or stays absent |
| Discovery.RegisterIsOverlay | index.js:88-92 | registration overlays the specs on the old table |
| Discovery.RegisterIdempotent | index.js:88-92 | registering the same specs twice gives the same table as once |
| Discovery.PrepareAllIsFilterThenMap | index.js:77-88 | mapping the filtered list is the fused filter-and-map `PrepareAll` |
| Discovery.PrepareAllKeepsMarkdown | index.js:77-88 | every spec comes from a markdown candidate and every markdown candidate yields a spec |
| Discovery.PrepareAllFails | index.js:84 | `from` throws exactly when the text of some markdown candidate cannot be read |
| Discovery.PrepareAllFresh | index.js:80-85 | every spec built is unrendered, has extension ".md", template `filename + ".html"`, and the text stored at `filename + ".md"` |
| Discovery.DirectName | index.js:83 | a file outside a sub-directory is named by its basename without ".md", which is non-empty |
| Discovery.GroupName | index.js:69-83 | a file inside a sub-directory is named after the sub-directory |
| Discovery.FilenameOfSpec | index.js:81-85 | `filename` is the path with its first ".md" removed, the template and the read path follow it, and when the only ".md" is the suffix the file read is the file itself |
| Discovery.ChildCandidatesListed | index.js:61-75 | a candidate is in the listing of the entries exactly when it is a direct file or an entry of a sub-directory tagged with that sub-directory's basename |
| Discovery.CandidatesListed | index.js:57-75 | the candidate list holds exactly what `ListedAt` describes, both directions |
| Discovery.GroupedName | index.js:65-83 | a spec built from a sub-directory entry is named after that sub-directory |
| Discovery.DiscoveredName | index.js:77-83 | the spec of any listed markdown candidate has extension ".md" and is named as a file or as a group |
| Discovery.DiscoveredNames | index.js:56-95 | every spec `from` registers has extension ".md" and is named by its basename without ".md" or by its sub-directory |
| Discovery.TwoFileCandidates | index.js:61-75 | a directory of two files lists those two files, in order |
| Discovery.PrepareFirstOnly | index.js:77-88 | a markdown candidate followed by a non-markdown one yields only the first spec |
| Discovery.OnlyMarkdownRegistered | index.js:56-95 | a directory with one markdown and one other file registers only the markdown file's basename without ".md" |
| Discovery.NamesOfOne | index.js:89-91 | proof step of `OnlyMarkdownRegistered`: the names of a single spec are its name |
| Paths.TrimTrailingSlashesShape | index.js:69 | trimming keeps a prefix that does not end in '/' and removes only '/' |
| Paths.SegmentStartShape | index.js:69 | the last segment holds no '/' and is preceded by one unless it starts the path |
| Paths.BasenameNoSlash | index.js:69-83 | a basename holds no '/' |
| Paths.LastDotShape | index.js:78 | the last dot found is a dot and none follows it |
| Paths.IndexFrom | index.js:81 | the index found is -1 or an occurrence at or after the start |
| Paths.IndexFromFirst | index.js:81 | no occurrence precedes the one found |
| Paths.BasenameOfJoin | index.js:62-69 | the basename of an entry joined onto its directory is the entry name |
| Paths.ExtnameIsMarkdown | index.js:78 | the extension is ".md" exactly when the basename is longer than ".md" and ends with it |
| Paths.ReplaceSuffixOnly | index.js:81 | removing the first ".md" of a path whose only ".md" is its suffix strips that suffix |
| Paths.ReplaceFirstAfter | index.js:81 | the first ".md" of `x + ".md" + rest` is the one after a dot-free `x` |
| Paths.PlainMarkdownPath | index.js:78 | a slash-free path longer than ".md" that ends with it has extension ".md" |
| Paths.ShiftedByMarkdown | index.js:81-84 | when `y + ".md"` equals `".md" + y`, every character of `y` is '.', 'm' or 'd' |
| Paths.MovedMarkdownDiffers | index.js:81-84 | moving ".md" in front of `y` changes the path unless `y` is made of '.', 'm' and 'd' |
| Paths.ReplaceHitsEarlierOccurrence | index.js:81-84 | for `x.md` + y + `.md` the filter keeps the file, `filename` loses the earlier ".md", and the path read is not the file itself |
| Markdown.RunLength | markdown.js:28 | the run found is non-word characters, and a word character follows it |
| Markdown.CollapseShape | markdown.js:28 | after collapsing, only word characters and single '-' remain, emptiness is kept and the first character is the original or '-' |
| Markdown.TrimDashesShape | markdown.js:29 | trimming keeps a prefix, removes only '-', and leaves no '-' at the end |
| Markdown.SlugShape | markdown.js:27-30 | every id consists of `[a-z0-9_-]`, never two '-' in a row, and no '-' at the end |
| Markdown.WordsNone | markdown.js:28 | a string without word characters contributes no words |
| Markdown.WordsConcat | markdown.js:27-30 | the word characters of a concatenation are those of its parts |
| Markdown.WordsOfDropMarks | markdown.js:27 | deleting the marks keeps every word character |
| Markdown.WordsOfCollapse | markdown.js:28 | collapsing non-word runs keeps every word character |
| Markdown.WordsOfTrimDashes | markdown.js:29 | trimming '-' keeps every word character |
| Markdown.WordsOfLower | markdown.js:30 | lower-casing lower-cases the word characters |
| Markdown.SlugKeepsWords | markdown.js:27-30 | the id keeps exactly the word characters of the text, in order, lower-cased |
| Markdown.DropMarksConcat | markdown.js:27 | deleting marks distributes over concatenation |
| Markdown.SlugIgnoresMark | markdown.js:27 | a '.', '\|' or '#' anywhere in the text does not change the id |
| Markdown.DropMarksKeeps | markdown.js:27 | a text without marks is left as it is |
| Markdown.CollapseKeeps | markdown.js:28 | a text of word characters and single '-' is left as it is |
| Markdown.SlugFixes | markdown.js:27-30 | every well-formed id is its own id |
| Markdown.SlugIdempotent | markdown.js:27-30 | taking the id of an id changes nothing |
| Markdown.SlugOfMarkBetween | markdown.js:27 | a mark between two word characters vanishes |
| Markdown.SlugOfGapBetween | markdown.js:28 | any other non-word character between two word characters becomes '-' |
| Markdown.SlugExamples | markdown.js:27-30 | "a.b" gives "ab" and "a b" gives "a-b" |
| Markdown.DecimalString | markdown.js:64 | the printed counter is a non-empty string of digits |
| Markdown.DecimalRoundTrip | markdown.js:64 | reading the printed counter back gives the counter |
| Markdown.DecimalInjective | markdown.js:64 | different counters print differently |
| Markdown.Until | markdown.js:32-37 | the index found is the first occurrence of the character, or the end |
| Markdown.UntilStops | markdown.js:34 | proof step of `HeadingRoundTrip`: scanning for a quote stops right after an id without quotes |
| Markdown.ParseDepthStep | markdown.js:33 | proof step of `HeadingRoundTrip`: the depth digits read back up to '>' |
| Markdown.ParseNameStep | markdown.js:34 | proof step of `HeadingRoundTrip`: the `name` attribute reads back as the id |
| Markdown.ParseHrefStep | markdown.js:34 | proof step of `HeadingRoundTrip`: the `href` fragment reads back as the id |
| Markdown.ParseTextStep | markdown.js:35-37 | proof step of `HeadingRoundTrip`: the text reads back up to the closing tag of the same depth and the final newline |
| Markdown.HeadingRoundTrip | markdown.js:26-38 | the heading element reads back into its depth, the id in both the `name` and the `href`, and the text |
| Markdown.RenderCode | markdown.js:19-21 | the code renderer returns the code unchanged, whatever the language and escaping |
| Markdown.HighlightAttempts | markdown.js:58-81 | one or two attempts, numbered on from the counter; the first in `lang \|\| 'text'`; a second in 'text' exactly when the first fails and the language is not 'text'; the counter advances by the attempts; the result is the last attempt's |
| Markdown.HighlightTextTwice | markdown.js:60-72 | with no or an empty language, a failing snippet is tried twice, both times as 'text' |
| Markdown.Snippets.constructor | markdown.js:48 | the counter starts at 0 with no attempts |
| Markdown.Snippets.Highlight | markdown.js:58-81 | the result, the new counter and the attempts made are those of `HighlightRun`; the counter equals the number of attempts |
| Markdown.Snippets.AnchorsDistinct | markdown.js:64 | two attempts of one rendering never have the same `lineanchors` value |

## Left out

- The file system is an abstract tree (`Node`) for `statSync`/`readdirSync` plus a map from readable paths to their text for `readFileSync`. Every non-directory entry counts as a file. Symbolic links, other stat kinds and their errors are not modelled.
- The only error messages modelled are ENOENT for `stat` and `open`. Reading a path that is a directory (EISDIR) is modelled as ENOENT.
- `path.join` is modelled for joining a listed entry name onto its directory. It does not normalise `.`, `..` or repeated separators in `location`.
- `Paths.BasenameWithout` covers `path.basename(p, ext)` only as far as `from` uses it: the suffix is ".md" and the basename is longer than ".md". Node's other corner cases are not modelled.
- JavaScript numbers are unbounded integers. `options` objects are plain maps, and non-object values where an object is expected are not modelled.
- `merge`, provided by the `fusing` mixin, is taken to be a shallow key-by-key overwrite. Its source is not part of this model.
- Spec objects are values in the table. `find` changes the stored entry, and in the source that entry is the same object that earlier callers hold. The model does not capture that aliasing.
- Calling `Emeeuw` without `new` (index.js:26) is not modelled: it is the same as the constructor. A falsy `options` argument is the empty object.
- The Mandrill client, `juice` CSS inlining and sending (index.js:116-130, 142), `temper.fetch` compilation, `marked`, `pygmentize` and `debug` logging are not modelled. A render function is an opaque tag naming its template, filled in by an `engine` parameter. Markdown conversion and pygmentize are function parameters.
- `Service.Lookup`: the template fetch `temper.fetch(spec.template)` (index.js:162) is assumed to succeed. In the source a failing fetch throws before `render` is assigned and escapes `find` and `send`, leaving the entry unrendered so that the next `find` fetches again; `Service.Emeeuw.Find`, `Service.LookupCompiles`, `Service.LookupCompilesOnce`, `Service.FailedCompileLooksCompiled` and `Service.FailedCompileHasNoMarkdown` hold only under that assumption.
- `Markdown.Snippets.Highlight`: hook calls are modelled one at a time, each with its retry before the next call. `marked` may call the hook for every code block before any pygmentize callback runs; a retry then takes the number after the last first attempt (with two blocks whose first attempt fails, the first block's retry is `snippet-3`), which the model does not capture. In either order every attempt takes a fresh counter value, so the anchors stay distinct.
- Callbacks and asynchrony are modelled as direct returns. Concurrent `find` calls (the lack of coalescing) are not modelled.
- The markdown walk that `marked` does over the content (markdown.js:83-88) is not modelled. `Snippets.Highlight` stands for each call `marked` makes to the hook.
- `Markdown.Lower`: models `toLowerCase` on ASCII only. This is exact for the id, because only ASCII word characters and '-' survive the second replacement.
- `Markdown.Snippets.Highlight`: returns the highlighted string as pygmentize delivers it. `data.toString()` is the identity there.
- The `escape` argument of the heading renderer is ignored, as in the source.

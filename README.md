# RepoBar logic, modelled in Dafny

RepoBar is a macOS menu-bar (and iOS) client for GitHub. Most of it is
SwiftUI/AppKit presentation, networking and `git` plumbing. This project
models the small, deterministic parts and proves what they promise:

- **Changelog summariser** (`ChangelogParser`): CR LF normalisation and line
  splitting; recognising `#`/`##` section headings and list items; the scan
  that turns lines into sections with entry counts; the version matcher
  (`v?` + 2 to 4 dot-separated digit runs, word-bounded); and the
  "Unreleased" / "Since vX" / "Up to date" presentation rule.
- **Owner filter** of the command-line tool (`RepoOwnerFilter`):
  `normalizeOwner`, `parse`, `applying(to:)` and `inserting(owner:)`.
- **`--only-with` selection** (`OnlyWithSelection.init?(argument:)`): its
  token loop, with every unknown token rejecting the whole argument.
- **Menu repository scope** (`MenuRepoSelection`): label, flag record and
  pinned test.
- **`Array.chunked(into:)`**, as a loop proved against a recursive chunking.
- **Contribution heatmap**: `columnCount`, `reshape` (pad, then cut into
  weeks), `bucketIndex` and the five-shade palette.
- **`FlowLayout.measure`**: greedy row wrapping of the label chips, as a loop
  proved against a step-by-step cursor function; and `sizeThatFits`.
- **Repository web URLs** (`RepoWebURLBuilder`): a URL is a host plus a list
  of path components. The builders include both component-appending loops.
- **Local branch / worktree menu rows**: `usesMiddleTruncation`, `syncLabel`
  ("↑2 ↓3") and `commitLine`.
- **Label chip colour** (`MenuLabelColor.nsColor(from:)`): strip `#`, read
  six hexadecimal digits, split into red, green and blue.
- **Repository contents**: `RepoContentType` decoding with its `unknown`
  fallback, plus `isDirectory` and `id`.
- **Menu snapshot staleness** (`MenuSnapshot.isStale`).

Shared modules:

- `Wrappers`: Swift optionals.
- `Strings`: Swift's character sets, trimming, ASCII lower-casing, the
  `split` variants, and `joined(separator:)`.
- `Decimal`: `"\(n)"` for natural numbers.
- `RepoCore`: the two records the filters read.

Swift behaviour the model fixes explicitly:

- `.whitespaces` is the Unicode space separators plus TAB.
- `.whitespacesAndNewlines` adds U+000A to U+000D, U+0085, U+2028 and U+2029.
- `split(separator:)` drops empty pieces.
- `split(separator:maxSplits: 1)` skips leading separators, then yields the
  first piece and the (possibly separator-led) rest.
- Sizes in the flow layout are exact real numbers.

Behaviour of the code that the model keeps as written:

- `normalizeOwner` of a token made only of slashes (for example `"/"`) is
  that token. `split` yields no piece, and the `?? trimmed` fallback keeps
  the slashes. A stored owner therefore contains a `/` only when it is all
  slashes (`RepoOwnerFilter.IsNormalOwner`).
- `Int(_, radix: 16)` accepts a leading `+` or `-`. So the six-character
  colour `"+12345"` reads as 0x012345, and `"-00001"` reads as -1, whose
  shifted and masked bytes are all 255 (white). See
  `LabelColor.NsColorSigned` and `LabelColor.MinusOneIsWhite`.
- `columnCount` writes `max(1, ceil(n / 7))` with a `Double` division. For
  array counts this is `(n + 6) / 7` in integers, which is what is modelled.

## Model

| member | source | states |
|---|---|---|
| ChangelogParser.IsUnreleasedIff | Sources/RepoBarCore/Support/ChangelogParser.swift:7-9 | a section is unreleased exactly when its ASCII-lower-cased title holds "unreleased" at some position |
| ChangelogParser.NormalizeLineEndings | Sources/RepoBarCore/Support/ChangelogParser.swift:24 | replacing CR LF by LF never lengthens the text |
| ChangelogParser.NormalizeAfterPlainPrefix | Sources/RepoBarCore/Support/ChangelogParser.swift:24 | a prefix without newline characters passes through the CR LF replacement unchanged |
| ChangelogParser.Lines | Sources/RepoBarCore/Support/ChangelogParser.swift:24-25 | there is at least one line, and no line holds a newline character |
| ChangelogParser.NormalizeJoin | Sources/RepoBarCore/Support/ChangelogParser.swift:24 | lines joined by CR LF normalise to the same lines joined by LF |
| ChangelogParser.NormalizeJoinLf | Sources/RepoBarCore/Support/ChangelogParser.swift:24 | text already joined by LF is left unchanged |
| ChangelogParser.LinesOfLfText | Sources/RepoBarCore/Support/ChangelogParser.swift:24-25 | splitting newline-free lines joined by LF gives those lines back, empty ones included |
| ChangelogParser.LinesOfCrLfText | Sources/RepoBarCore/Support/ChangelogParser.swift:24-25 | the same lines joined by CR LF split into the same lines |
| ChangelogParser.HashCount | Sources/RepoBarCore/Support/ChangelogParser.swift:98-99 | the count is the length of the maximal run of leading `#` |
| ChangelogParser.HeadingPartsIff | Sources/RepoBarCore/Support/ChangelogParser.swift:97-103 | a trimmed line yields (level, rest) exactly when it is one or two `#`, a space, then rest |
| ChangelogParser.HeadingTitleIff | Sources/RepoBarCore/Support/ChangelogParser.swift:95-108 | for a line of that shape: it is a heading titled t exactly when the level is 1 or 2, t is the trimmed rest, t is non-empty, and a level-1 t does not mention "changelog" |
| ChangelogParser.NotHeadingShape | Sources/RepoBarCore/Support/ChangelogParser.swift:97-102 | a line not of the `#`/`##` + space shape is never a heading |
| ChangelogParser.DeepHeadingIsNotSection | Sources/RepoBarCore/Support/ChangelogParser.swift:98-100 | a line starting with `###` is never a section heading |
| ChangelogParser.LeadingDigits | Sources/RepoBarCore/Support/ChangelogParser.swift:114 | the count is the length of the maximal run of leading digits |
| ChangelogParser.NumberedItemIsListItem | Sources/RepoBarCore/Support/ChangelogParser.swift:110-117 | every number followed by `.` and a white-space character starts a list item |
| ChangelogParser.DigitRunEnd | Sources/RepoBarCore/Support/ChangelogParser.swift:131 | the end of the maximal digit run from a position |
| ChangelogParser.DigitRunEndIs | Sources/RepoBarCore/Support/ChangelogParser.swift:131 | a digit run followed by a non-digit, or by the end, is the maximal run |
| ChangelogParser.GroupsEnd | Sources/RepoBarCore/Support/ChangelogParser.swift:131 | `(?:\.\d+){1,n}\b` from a position, greedy with backtracking: when it matches, its end lies after the position and within the text |
| ChangelogParser.GroupsEndSound | Sources/RepoBarCore/Support/ChangelogParser.swift:131 | matched groups end with a digit, on a word boundary |
| ChangelogParser.GroupsEndOfGroups | Sources/RepoBarCore/Support/ChangelogParser.swift:131 | one to n `.digits` groups laid out from a position, the last on a word boundary, are all matched (greedy) |
| ChangelogParser.MatchEnd | Sources/RepoBarCore/Support/ChangelogParser.swift:130-137 | a match starting at p ends after p and within the text |
| ChangelogParser.MatchEndSound | Sources/RepoBarCore/Support/ChangelogParser.swift:131 | a match ends with a digit, on a word boundary |
| ChangelogParser.GroupsEndIsGreedy | Sources/RepoBarCore/Support/ChangelogParser.swift:131 | `(?:\.\d+){1,n}\b` is greedy: no match exactly when no count of groups from 1 to n ends on a word boundary, otherwise the end of the largest count that does |
| ChangelogParser.MatchEndIs | Sources/RepoBarCore/Support/ChangelogParser.swift:131 | a match starts at a position exactly when the pattern's shape is there (`\b`, optional `v`/`V`, a maximal digit run, one to three groups ending on `\b`, no larger count that would), and it ends where that shape ends |
| ChangelogParser.VersionMatchFromIs | Sources/RepoBarCore/Support/ChangelogParser.swift:134 | the search from a position finds nothing exactly when no later position starts a match, and otherwise a match with none at an earlier position |
| ChangelogParser.VersionMatchFromAt | Sources/RepoBarCore/Support/ChangelogParser.swift:134 | conversely, the first position where a match starts is the one `firstMatch` reports |
| ChangelogParser.VersionMatchFromSound | Sources/RepoBarCore/Support/ChangelogParser.swift:130-137 | what the search from a position finds is the text of the leftmost match at or after it, which has the pattern's shape and ends with a digit |
| ChangelogParser.VersionMatchSound | Sources/RepoBarCore/Support/ChangelogParser.swift:130-137 | the version found in a text: nothing exactly when no position starts a match, otherwise the leftmost match, with the pattern's shape, ending with a digit |
| ChangelogParser.BracketedVersion | Sources/RepoBarCore/Support/ChangelogParser.swift:130-137 | a heading that starts with "[1.2.0]" yields "1.2.0", whatever follows it (a date, say) |
| ChangelogParser.TrailingGroupsDropped | Sources/RepoBarCore/Support/ChangelogParser.swift:131 | "1.0." yields "1.0", and "v1.2.3.4.5" yields "v1.2.3.4": a trailing `.` or a fourth group is left out |
| ChangelogParser.LayoutOfVersion | Sources/RepoBarCore/Support/ChangelogParser.swift:131 | a text made of an optional `v`, a digit run, one to three `.digits` groups and then nothing or a character that is neither a word character nor `.` is laid out as the matcher scans it |
| ChangelogParser.MatchEndOfLayout | Sources/RepoBarCore/Support/ChangelogParser.swift:131 | the match at the start of such a text ends after its last group |
| ChangelogParser.VersionMatchOfLayout | Sources/RepoBarCore/Support/ChangelogParser.swift:119-137 | such a text matches exactly that version, and its normalised version is the same piece without the `v` |
| ChangelogParser.ClassifyPrefix | Sources/RepoBarCore/Support/ChangelogParser.swift:30-33 | one classification per line of the prefix |
| ChangelogParser.Kinds | Sources/RepoBarCore/Support/ChangelogParser.swift:30-33 | one classification per line |
| ChangelogParser.LastHeading | Sources/RepoBarCore/Support/ChangelogParser.swift:33-39 | the index of the last heading line, or -1; no heading follows it |
| ChangelogParser.LastHeadingIs | Sources/RepoBarCore/Support/ChangelogParser.swift:33-39 | any index with a heading and no later heading is the last heading |
| ChangelogParser.CountItemsAppend | Sources/RepoBarCore/Support/ChangelogParser.swift:43-45 | list items of two runs of lines add up |
| ChangelogParser.ScanHeading | Sources/RepoBarCore/Support/ChangelogParser.swift:33-39 | a heading closes the open section and opens its own with count 0; the scan invariant is kept |
| ChangelogParser.ScanPlain | Sources/RepoBarCore/Support/ChangelogParser.swift:42-45 | a non-heading line counts only when a section is open and it is a list item; the scan invariant is kept |
| ChangelogParser.ScanDone | Sources/RepoBarCore/Support/ChangelogParser.swift:48-52 | closing the last open section gives exactly the sections of all lines |
| ChangelogParser.ClassifyLine | Sources/RepoBarCore/Support/ChangelogParser.swift:32-45 | a heading wins over a list item; otherwise a line is a list item exactly when its trimmed form is one |
| ChangelogParser.Parse | Sources/RepoBarCore/Support/ChangelogParser.swift:23-53 | the loop's sections are the sections of the classified lines of the normalised text |
| ChangelogParser.HeadingTitlesPlain | Sources/RepoBarCore/Support/ChangelogParser.swift:42-46 | lines after the last heading add no section title |
| ChangelogParser.SectionTitlesAreHeadings | Sources/RepoBarCore/Support/ChangelogParser.swift:30-50 | the section titles are the heading titles, one per heading, in document order |
| ChangelogParser.PreambleIgnored | Sources/RepoBarCore/Support/ChangelogParser.swift:42 | lines before the first heading, list items included, change no section |
| ChangelogParser.SumLastSection | Sources/RepoBarCore/Support/ChangelogParser.swift:43-50 | the last section counts exactly the list items after the last heading |
| ChangelogParser.SumFromHeading | Sources/RepoBarCore/Support/ChangelogParser.swift:30-50 | from a heading on, the entry counts add up to the number of list items |
| ChangelogParser.EntriesAddUp | Sources/RepoBarCore/Support/ChangelogParser.swift:30-50 | after a heading-free preamble, every list item is counted in exactly one section |
| ChangelogParser.FirstUnreleased | Sources/RepoBarCore/Support/ChangelogParser.swift:58 | the index of the first unreleased section, or the count when there is none |
| ChangelogParser.FirstMatching | Sources/RepoBarCore/Support/ChangelogParser.swift:74-76 | the index of the first section whose version equals the release version, or the count |
| ChangelogParser.Presentation | Sources/RepoBarCore/Support/ChangelogParser.swift:55-93 | nothing without sections; a result carries a badge exactly when it carries no detail text |
| ChangelogParser.PresentationUnreleased | Sources/RepoBarCore/Support/ChangelogParser.swift:56-71 | the first unreleased section decides: "Changelog • Unreleased" with its count as badge, or "Up to date" when the count is 0 |
| ChangelogParser.PresentationSince | Sources/RepoBarCore/Support/ChangelogParser.swift:73-92 | without an unreleased section, the badge is the sum of the entries before the first matching section, titled "Changelog • Since" and the trimmed tag; a sum of 0 is "Up to date" |
| ChangelogParser.PresentationWithoutUnreleased | Sources/RepoBarCore/Support/ChangelogParser.swift:73-76 | without an unreleased section there is a result exactly when there is a tag, it holds a version, and some section matches it |
| RepoOwnerFilter.OwnerPart | Sources/repobarcli/RepoOwnerFilter.swift:29 | the owner part of a non-empty trimmed token is non-empty |
| RepoOwnerFilter.NormalizeOwner | Sources/repobarcli/RepoOwnerFilter.swift:26-32 | a normalised owner is non-empty, lower-case and trimmed, and holds no `/` unless it is all slashes; a blank token gives nothing |
| RepoOwnerFilter.NormalizeOwnerAvoids | Sources/repobarcli/RepoOwnerFilter.swift:26-32 | normalising adds no character other than lower-case letters (so no `,`) |
| RepoOwnerFilter.NormalizeOwnerFixedPoint | Sources/repobarcli/RepoOwnerFilter.swift:26-32 | normalising is idempotent |
| RepoOwnerFilter.NormalizeOwnerOfNormal | Sources/repobarcli/RepoOwnerFilter.swift:26-32 | every owner of the normal form normalises to itself |
| RepoOwnerFilter.NormalizeOwnerIgnoresPadding | Sources/repobarcli/RepoOwnerFilter.swift:27 | surrounding white space and newlines do not matter |
| RepoOwnerFilter.NormalizeOwnerOfTrimmed | Sources/repobarcli/RepoOwnerFilter.swift:26-32 | normalising depends only on the trimmed token |
| RepoOwnerFilter.NormalizeOwnerOfLogin | Sources/repobarcli/RepoOwnerFilter.swift:26-32 | a slash-free login normalises to its lower-case form |
| RepoOwnerFilter.NormalizeOwnerOfPath | Sources/repobarcli/RepoOwnerFilter.swift:29-30 | an "owner/repo" token normalises to the lower-case owner alone |
| RepoOwnerFilter.Tokens | Sources/repobarcli/RepoOwnerFilter.swift:8-9 | every token is non-empty and holds no `,` |
| RepoOwnerFilter.NormalizedOwners | Sources/repobarcli/RepoOwnerFilter.swift:10 | an owner is listed exactly when some token normalises to it |
| RepoOwnerFilter.Elements | Sources/repobarcli/RepoOwnerFilter.swift:11 | the set holds exactly the list's elements and is empty exactly when the list is |
| RepoOwnerFilter.ParseNone | Sources/repobarcli/RepoOwnerFilter.swift:7-13 | there is no filter exactly when no token normalises to an owner |
| RepoOwnerFilter.NoNormalizedOwners | Sources/repobarcli/RepoOwnerFilter.swift:10 | the normalised list is empty exactly when every token normalises to nothing |
| RepoOwnerFilter.ParseOwners | Sources/repobarcli/RepoOwnerFilter.swift:7-13 | the filter's owners are exactly the normalised tokens, each normal and comma-free |
| RepoOwnerFilter.Applying | Sources/repobarcli/RepoOwnerFilter.swift:15-17 | the result is no longer than the input and holds exactly the repositories whose lower-cased owner is in the set |
| RepoOwnerFilter.ApplyingAppend | Sources/repobarcli/RepoOwnerFilter.swift:15-17 | filtering distributes over concatenation, so the kept repositories stay in input order |
| RepoOwnerFilter.ApplyingIdempotent | Sources/repobarcli/RepoOwnerFilter.swift:15-17 | filtering twice is filtering once |
| RepoOwnerFilter.Inserting | Sources/repobarcli/RepoOwnerFilter.swift:19-24 | the old owners are kept and only the normalised owner (or the lower-cased text when it does not normalise) is added |
| RepoOwnerFilter.InsertingWidens | Sources/repobarcli/RepoOwnerFilter.swift:19-24 | inserting keeps every repository the filter kept and adds those of the new owner |
| OnlyWithSelection.Tokens | Sources/repobarcli/OnlyWithSelection.swift:9-11 | one trimmed, lower-cased token per non-empty comma-separated piece |
| OnlyWithSelection.ParseOnlyWith | Sources/repobarcli/OnlyWithSelection.swift:8-32 | the parser's result is the selection of the argument's tokens |
| OnlyWithSelection.ReadTokens | Sources/repobarcli/OnlyWithSelection.swift:13-31 | the token loop returns the selection: nothing for an unknown token, otherwise the union of the flags, nothing when no flag is set |
| OnlyWithSelection.TokenKinds | Sources/repobarcli/OnlyWithSelection.swift:17-27 | "work" asks for both, "issue(s)" only for issues, "pr(s)"/"pull(s)" only for pull requests; nothing else is known |
| OnlyWithSelection.SelectionSome | Sources/repobarcli/OnlyWithSelection.swift:16-30 | there is a selection exactly when there is a token and every token is known |
| OnlyWithSelection.SelectionAsksForSomething | Sources/repobarcli/OnlyWithSelection.swift:30 | a selection always sets at least one flag |
| OnlyWithSelection.WorkAsksForBoth | Sources/repobarcli/OnlyWithSelection.swift:18-20 | with "work" among known tokens both flags are set |
| OnlyWithSelection.SelectionOfOneToken | Sources/repobarcli/OnlyWithSelection.swift:17-27 | the selection of each single token |
| OnlyWithSelection.SelectionIgnoresOrder | Sources/repobarcli/OnlyWithSelection.swift:16-29 | token lists with the same members select the same |
| OnlyWithSelection.SelectionOfConcatenation | Sources/repobarcli/OnlyWithSelection.swift:16-29 | order of two token runs and repeating a run do not matter |
| OnlyWithSelection.EmptyArgumentRejected | Sources/repobarcli/OnlyWithSelection.swift:30 | the empty argument selects nothing |
| OnlyWithSelection.BlankTokenRejected | Sources/repobarcli/OnlyWithSelection.swift:10-11 | a piece that is only white space becomes an empty, unknown token and rejects the argument |
| MenuRepoFilters.Label | Sources/RepoBar/Support/MenuRepoFilters.swift:8-14 | every label is non-empty |
| MenuRepoFilters.LabelsDistinct | Sources/RepoBar/Support/MenuRepoFilters.swift:8-14 | two scopes have the same label exactly when they are the same scope |
| MenuRepoFilters.OnlyWithWork | Sources/RepoBar/Support/MenuRepoFilters.swift:16-25 | only Work has a requirement, and it requires both issues and pull requests |
| MenuRepoFilters.PinnedScopeHasNoRequirement | Sources/RepoBar/Support/MenuRepoFilters.swift:18-29 | the pinned scope is Pinned alone and has no requirement |
| Chunked.FlattenAppend | Sources/RepoBar/Support/Array+Chunked.swift:8 | flattening distributes over concatenation |
| Chunked.ChunksStep | Sources/RepoBar/Support/Array+Chunked.swift:6-10 | one loop step: a full chunk then the rest, or the final short chunk |
| Chunked.Chunked | Sources/RepoBar/Support/Array+Chunked.swift:2-12 | a non-positive size gives the whole array as one chunk, even when empty; otherwise the loop gives the chunking |
| Chunked.ChunksPartition | Sources/RepoBar/Support/Array+Chunked.swift:4-11 | the chunks concatenate to the array; their number is the ceiling of n / size (none for the empty array); each has 1 to size elements and all but the last exactly size |
| Chunked.ChunkAt | Sources/RepoBar/Support/Array+Chunked.swift:7-8 | chunk j is the slice from j * size up to (j + 1) * size or the end |
| Heatmap.ColumnCountCovers | Sources/RepoBar/Views/HeatmapView.swift:41-44 | at least 53 columns, room for every cell, and no spare column beyond the 53 minimum |
| Heatmap.Padded | Sources/RepoBar/Views/HeatmapView.swift:63-67 | the cells stay a prefix in order; only zero-count cells dated now are added, up to columns × 7, never dropping a cell |
| Heatmap.ReshapeIsChunks | Sources/RepoBar/Views/HeatmapView.swift:68-70 | the stride-and-slice equals the chunking of the padded cells into sevens |
| Heatmap.ReshapePartition | RepoBariOS/Sources/Views/HeatmapView.swift:74-83 | the columns flatten to the padded cells; each holds 1 to 7 cells and all but the last exactly 7 |
| Heatmap.ReshapeFullGrid | Sources/RepoBar/Views/HeatmapView.swift:41-71 | with columnCount's own count the grid is exactly that many full weeks |
| Heatmap.BucketIndex | RepoBariOS/Sources/Views/HeatmapView.swift:92-99 | the bucket is between 0 and 4 |
| Heatmap.BucketIndexMonotone | RepoBariOS/Sources/Views/HeatmapView.swift:92-99 | more contributions never give a lower bucket, and only 0 gives bucket 0 |
| Heatmap.Palette | RepoBariOS/Sources/Views/HeatmapView.swift:102-123 | five shades, the first the empty one and no other empty |
| Heatmap.PaletteShade | RepoBariOS/Sources/Views/HeatmapView.swift:92-123 | every count picks a palette entry; it is the empty shade exactly for 0; higher counts are at least as opaque |
| FlowLayout.Measure | Sources/RepoBar/Views/FlowLayout.swift:38-64 | the loop computes the step-by-step placement of the subviews |
| FlowLayout.SizeThatFits | Sources/RepoBar/Views/FlowLayout.swift:12-15 | the width is within the proposal, or within 240 when there is none |
| FlowLayout.PlacementsInOrder | Sources/RepoBar/Views/FlowLayout.swift:47-60 | one placement per subview, in subview order, with its size |
| FlowLayout.PlacementsKept | Sources/RepoBar/Views/FlowLayout.swift:47-60 | the placements of a prefix of the subviews are never revised by later ones |
| FlowLayout.PenAfterLast | Sources/RepoBar/Views/FlowLayout.swift:56-57 | the pen sits after the last item and its spacing, on its row |
| FlowLayout.RowStart | Sources/RepoBar/Views/FlowLayout.swift:49-54 | the first item of the current row comes before the end of the items placed |
| FlowLayout.RowStartIsLastWrap | Sources/RepoBar/Views/FlowLayout.swift:49-54 | the current row starts at the last item that wrapped, with no wrap after it, or at the first item |
| FlowLayout.TallestIsMax | Sources/RepoBar/Views/FlowLayout.swift:58 | the row height is the largest height of the row's items, or 0 |
| FlowLayout.WidestIsMax | Sources/RepoBar/Views/FlowLayout.swift:59 | the widest x is the furthest item end, item spacing included, or 0 |
| FlowLayout.LastPlacement | Sources/RepoBar/Views/FlowLayout.swift:49-56 | each item is placed from the state left by the items before it, and wraps exactly when that state's pen makes it cross the width |
| FlowLayout.RowOfCursor | Sources/RepoBar/Views/FlowLayout.swift:47-60 | the running row height is the tallest item since the last wrap, and the running widest x is the furthest item end |
| FlowLayout.WrapRule | Sources/RepoBar/Views/FlowLayout.swift:49-57 | the first item is at the origin; a later one wraps to x = 0, below the previous row by the height of that row's tallest item plus the line spacing, exactly when the pen is past the row start and it would cross the width; otherwise it follows the previous one on its row |
| FlowLayout.CursorNonNegative | Sources/RepoBar/Views/FlowLayout.swift:58-59 | the row height and the widest x are never negative |
| FlowLayout.RowsMoveDown | Sources/RepoBar/Views/FlowLayout.swift:52-59 | with non-negative line spacing the placements' y never decreases, and every item lies within the current row's bottom and the widest x |
| FlowLayout.MeasuredFits | Sources/RepoBar/Views/FlowLayout.swift:62-63 | the reported width is the furthest item end clamped to the available width, the reported height is the last row's y plus its tallest item; so the width is within the available width and every item ends above the height |
| RepoWebUrls.AppendingNonEmpty | RepoBariOS/Sources/Support/RepoWebURLBuilder.swift:59-61 | the host is kept and only non-empty given components are appended |
| RepoWebUrls.NonEmptyKeepsAll | RepoBariOS/Sources/Support/RepoWebURLBuilder.swift:59 | components that are all non-empty are appended unchanged |
| RepoWebUrls.RepoPathUrlOfComponents | RepoBariOS/Sources/Support/RepoWebURLBuilder.swift:65-71 | the loop appends the non-empty components to the host, in order |
| RepoWebUrls.RepoUrlShape | RepoBariOS/Sources/Support/RepoWebURLBuilder.swift:6-10 | a repository URL has the path [owner, name], from a name of the form slashes, owner, `/`, name |
| RepoWebUrls.RepoUrlOfShape | RepoBariOS/Sources/Support/RepoWebURLBuilder.swift:6-10 | every such name gives that URL |
| RepoWebUrls.RepoUrlOfPair | RepoBariOS/Sources/Support/RepoWebURLBuilder.swift:6-10 | "owner/name" gives host / owner / name |
| RepoWebUrls.RepoPathUrl | RepoBariOS/Sources/Support/RepoWebURLBuilder.swift:57-63 | there is a URL exactly when there is a repository URL |
| RepoWebUrls.RepoPathUrlOfFullName | RepoBariOS/Sources/Support/RepoWebURLBuilder.swift:57-63 | the loop gives the repository URL followed by the non-empty components |
| RepoWebUrls.RepoPathUrlExtends | RepoBariOS/Sources/Support/RepoWebURLBuilder.swift:57-63 | the URL is the repository URL plus the non-empty components, with no empty component anywhere |
| RepoWebUrls.RepoPathUrlOfPathSegments | RepoBariOS/Sources/Support/RepoWebURLBuilder.swift:12-15 | a path is appended as its non-empty `/`-segments, in order |
| RepoWebUrls.PageUrls | RepoBariOS/Sources/Support/RepoWebURLBuilder.swift:17-47 | each page is the repository URL plus its fixed components (contributors: graphs, contributors), and nothing without a repository URL |
| RepoWebUrls.TreeUrls | RepoBariOS/Sources/Support/RepoWebURLBuilder.swift:49-55 | tag and branch pages are the repository URL, "tree", then the name's `/`-segments |
| RepoWebUrls.AppendingAll | RepoBariOS/Sources/Support/RepoWebURLBuilder.swift:57-63 | non-empty components are all appended |
| RepoWebUrls.SplitOfJoin | RepoBariOS/Sources/Support/RepoWebURLBuilder.swift:49-55 | a name made of non-empty slash-free segments gives those segments back |
| MenuRowViewModels.TruncationByKind | Sources/RepoBar/Views/MenuRowViewModels.swift:22-24 | middle truncation depends on the kind alone, and never applies to a branch |
| MenuRowViewModels.SyncLabelParts | Sources/RepoBar/Views/MenuRowViewModels.swift:26-33 | missing counts are 0; the label is empty exactly when neither count is positive; otherwise "↑a", "↓b" or "↑a ↓b" |
| MenuRowViewModels.SyncLabelArrows | Sources/RepoBar/Views/MenuRowViewModels.swift:30-33 | an up arrow exactly when ahead, a down arrow exactly when behind |
| MenuRowViewModels.SyncLabelInjective | Sources/RepoBar/Views/MenuRowViewModels.swift:26-33 | the label determines the positive counts it shows |
| MenuRowViewModels.CommitLine | Sources/RepoBar/Views/MenuRowViewModels.swift:36-40 | nothing exactly when the date or the author is missing; otherwise the author, " · ", then the rendered date |
| LabelColor.ParseHex | Sources/RepoBar/Views/MenuLabelChipsView.swift:60 | a number needs a non-empty text |
| LabelColor.ByteAt | Sources/RepoBar/Views/MenuLabelChipsView.swift:61-63 | a shifted and masked byte is between 0 and 255 |
| LabelColor.NsColor | Sources/RepoBar/Views/MenuLabelChipsView.swift:58-65 | a colour needs six characters once `#`s are stripped; it is fully opaque with components in 0..1 |
| LabelColor.HexColorValue | Sources/RepoBar/Views/MenuLabelChipsView.swift:60 | six hexadecimal digits of three bytes read as red × 65536 + green × 256 + blue |
| LabelColor.ParseHexColor | Sources/RepoBar/Views/MenuLabelChipsView.swift:60 | the six-digit form of a colour reads as its 24-bit value |
| LabelColor.ParseHexOfDigits | Sources/RepoBar/Views/MenuLabelChipsView.swift:60 | unsigned hexadecimal digits read as the number they denote |
| LabelColor.BytesOfColor | Sources/RepoBar/Views/MenuLabelChipsView.swift:61-63 | the shifts and masks recover red, green and blue from that value |
| LabelColor.NsColorOfHex | Sources/RepoBar/Views/MenuLabelChipsView.swift:58-65 | the hexadecimal form of any colour, with any `#`s around it, reads back as that colour, each byte over 255 |
| LabelColor.NsColorOfTrimmedHex | Sources/RepoBar/Views/MenuLabelChipsView.swift:58-65 | any text that strips to the six-digit form of a colour gives that colour |
| LabelColor.NsColorWrongLength | Sources/RepoBar/Views/MenuLabelChipsView.swift:60 | no colour unless the stripped text has six characters |
| LabelColor.NsColorNotHex | Sources/RepoBar/Views/MenuLabelChipsView.swift:60 | no colour when a character is neither a hexadecimal digit nor a leading sign |
| LabelColor.NsColorSigned | Sources/RepoBar/Views/MenuLabelChipsView.swift:60-64 | a sign and five digits also read as a colour, from the signed value's low bytes |
| LabelColor.MinusOneIsWhite | Sources/RepoBar/Views/MenuLabelChipsView.swift:61-63 | the bytes of -1 are all 255 |
| RepoContents.RawValue | Sources/RepoBarCore/Models/RepoContents.swift:45-50 | every case has a non-empty raw string |
| RepoContents.RawValueRoundTrip | Sources/RepoBarCore/Models/RepoContents.swift:45-50 | each case reads back from its raw string, and only from it |
| RepoContents.Decode | Sources/RepoBarCore/Models/RepoContents.swift:52-55 | decoding fails exactly when the value is not a string |
| RepoContents.DecodeString | Sources/RepoBarCore/Models/RepoContents.swift:52-55 | a string always decodes: its case when it names one, Unknown otherwise |
| RepoContents.IdIsPath | Sources/RepoBarCore/Models/RepoContents.swift:12 | two entries share an id exactly when they share a path |
| RepoContents.IsDirectoryOfDecoded | Sources/RepoBarCore/Models/RepoContents.swift:32 | an entry is a directory exactly when its type decoded from "dir" |
| MenuSnapshots.StaleFromInterval | Sources/RepoBar/App/MenuSnapshot.swift:8-10 | stale exactly from capture + interval on, that instant included, and stale at every later time |
| MenuSnapshots.StaleExamples | Tests/RepoBarTests/MenuSnapshotTests.swift:25-27 | 10 s after capture a 30 s snapshot is fresh; 31 s after, stale |
| Strings.Trim | Sources/repobarcli/RepoOwnerFilter.swift:27 | the result is no longer than the text and neither starts nor ends with a droppable character |
| Strings.TrimSpec | Sources/repobarcli/RepoOwnerFilter.swift:27 | the trimmed text is the infix between the two scans; everything before and after it is droppable; its ends are not |
| Strings.TrimEmpty | Sources/repobarcli/RepoOwnerFilter.swift:27-28 | trimming leaves nothing exactly when every character is droppable |
| Strings.TrimAvoids | Sources/repobarcli/RepoOwnerFilter.swift:27 | trimming adds no character |
| Strings.TrimUnchanged | Sources/repobarcli/RepoOwnerFilter.swift:27 | a text whose ends are not droppable is left unchanged |
| Strings.TrimIdempotent | Sources/repobarcli/RepoOwnerFilter.swift:27-30 | trimming twice is trimming once |
| Strings.TrimSurrounded | Sources/RepoBar/Views/MenuLabelChipsView.swift:59 | any run of a droppable character around a text is stripped exactly |
| Strings.LowerNoUpperCase | Sources/repobarcli/RepoOwnerFilter.swift:30 | lower-casing leaves no ASCII upper-case letter, and changes a text without one not at all |
| Strings.LowerAvoids | Sources/repobarcli/RepoOwnerFilter.swift:30 | lower-casing adds no character other than lower-case letters |
| Strings.ContainsIff | Sources/RepoBarCore/Support/ChangelogParser.swift:8 | the substring test holds exactly when the piece occurs at some position |
| Strings.FirstIndex | Sources/RepoBarCore/Support/ChangelogParser.swift:98 | the index of the first separator, or the length: no separator before it |
| Strings.SplitKeepingEmpty | Sources/RepoBarCore/Support/ChangelogParser.swift:25 | at least one piece, and no piece holds a separator |
| Strings.JoinSplit | Sources/RepoBarCore/Support/ChangelogParser.swift:25 | splitting loses nothing: joining the pieces by the separator gives the text back |
| Strings.Split | Sources/repobarcli/OnlyWithSelection.swift:10 | the pieces are non-empty and free of the separator |
| Strings.SplitJoin | Sources/RepoBarCore/Support/ChangelogParser.swift:25 | splitting undoes joining: separator-free pieces joined by the separator split back into exactly those pieces |
| Strings.NonEmpty | Sources/repobarcli/OnlyWithSelection.swift:10 | the kept pieces are exactly the non-empty ones |
| Strings.NonEmptyAppend | Sources/repobarcli/OnlyWithSelection.swift:10 | dropping empty pieces distributes over concatenation, so the order is kept |
| Strings.SplitOnce | Sources/repobarcli/RepoOwnerFilter.swift:29 | at most two pieces, none empty, the first free of the separator |
| Strings.SplitOnceEmpty | Sources/repobarcli/RepoOwnerFilter.swift:29 | no piece exactly when the text is separators only |
| Strings.SplitOnceAvoids | Sources/repobarcli/RepoOwnerFilter.swift:29 | the first piece holds no character the text does not |
| Strings.SplitOnceNoSeparator | Sources/repobarcli/RepoOwnerFilter.swift:29 | a non-empty text without the separator is one piece |
| Strings.SplitOnceTwoPieces | RepoBariOS/Sources/Support/RepoWebURLBuilder.swift:7-8 | two pieces are what follows the leading separators, cut at the next separator |
| Strings.SplitOnceOfShape | RepoBariOS/Sources/Support/RepoWebURLBuilder.swift:7-8 | conversely, leading separators, a separator-free head, the separator and a non-empty rest split into the head and the rest |
| Strings.SplitOnceOfPair | Sources/repobarcli/RepoOwnerFilter.swift:29 | "a/b" with a separator-free `a` and a non-empty `b` splits into `a` and `b` |
| Decimal.Show | Sources/RepoBar/Views/MenuRowViewModels.swift:31-32 | the rendering is a non-empty run of digits without a leading zero |
| Decimal.ValueShow | Sources/RepoBar/Views/MenuRowViewModels.swift:31-32 | the rendering reads back as the number |
| Decimal.ShowInjective | Sources/RepoBar/Views/MenuRowViewModels.swift:31-32 | different numbers render differently |

## Left out

- Grapheme clusters: Swift counts and splits `Character`s (so CR LF is one character and one newline); the model works on Unicode scalars. The CR LF replacement that precedes the line split removes the usual difference, but not every one: in "\r\r\n" the replacement leaves "\r\n", which Swift keeps as one character (two lines) while the model splits it twice (three lines). The extra line is always empty, so it is neither a heading nor a list item and the sections are the same.
- Case folding is ASCII only: `lowercased()` and `localizedCaseInsensitiveContains` are modelled on ASCII letters.
- The regular expressions are replaced by hand-written predicates: `^\d+\.\s` by `IsNumberedItem` and the version pattern by `VersionMatch` (ASCII digits, ASCII word characters for `\b`).
- ChangelogParser.VersionMatchOfLayout: reads the match off a layout only for a version at the very start of a text; a version elsewhere is covered by `MatchEndIs` and `VersionMatchFromAt`, which hold at every position.
- ChangelogParser.LayoutOfVersion: requires the text after the version to start with neither a word character nor `.`, so it does not cover "1.0." or "1.2.3.4.5"; those are covered by `MatchEndIs` (the greedy groups with backtracking) and shown in `TrailingGroupsDropped`.
- The concrete changelog and owner-filter test cases are not restated as lemmas; the general properties above cover the behaviour they pin down.
- `RepositoryOnlyWith`'s own definition and `Repository`'s other fields are not part of this model; only the fields the filters read are kept.
- URLs: `appendPathComponent` percent-encoding, and a `/` inside a component, are not modelled; a URL is a host and a list of components.
- `columnCount`'s `Double` division and `ceil` are modelled as exact integer ceiling division; the heatmap's `cellSide`, `contentWidth` and `centeredInset` (floating-point view geometry) are left out.
- `Date()` in `reshape` and `commitLine`, and `RelativeFormatter`, become parameters (`now`, `when`); dates are numbers of seconds.
- FlowLayout: `CGFloat` is modelled as exact real arithmetic; a subview is identified by its index, and its size is an input; `placeSubviews` (which only forwards placements to the views) is left out.
- LabelColor.NsColor: `NSColor` becomes the four real components; `Int` is unbounded, so 64-bit overflow is not modelled (six hexadecimal digits never overflow).
- RepoContents: only the `type` field's decoding is modelled; the keyed decoding of the other fields of `RepoContentItem` (including the `html_url` and `download_url` keys) is left out.
- MenuSnapshots.IsStale: `TimeInterval` is modelled as a real number of seconds.

# A verified model of the blog's content logic

The blog is a Next.js application that shows markdown posts. This project models the logic behind a handful of its views and services, and proves properties about it in Dafny:

- **Table of contents** of a post (`components/TableOfContents.tsx`).
  - The headings are found by the global `exec` loop of `/^(#{1,3})\s+(.+)$/gm`. The model follows the backtracking of JavaScript's matcher, where `\s+` may cross line breaks.
  - Each heading's text is cleaned of inline markdown by nine global `replace` calls and a `trim`.
  - Its anchor id is the raw text lower-cased, filtered to `a-z`, `0-9`, Hangul syllables, whitespace and `-`, with each whitespace run then turned into one `-`.
- **Editor** (`app/write/page.tsx`).
  - The form state and `handleChange`.
  - The request payload: tags split on commas, trimmed and filtered; the slug falling back to the hyphenated title; an empty series name dropped.
  - `handleSubmit`, which stores the post and navigates to it.
- **In-memory post store** of `services/postService.ts`: `MOCK_POSTS` with `getPosts`, `getPostBySlug` and `createPost`.
- **View and like counters** (`components/PostStats.tsx`): the counts, the liked flag and the two browser storages as string maps.
- **Search page** (`app/search/page.tsx`): `performSearch`, `handleSearch`, the effect on the `q` parameter, and which of the four result views is shown.
- **Sitemap** (`app/sitemap.ts`): the entries built from the query result.
- **Copy text of a code block** (`components/CodeBlock.tsx`):
  - `getTextFromChildren` over a tree of children;
  - the children are `Text` strings, elements with their own children, and `Other` values (numbers, booleans, `null`).
- **Post-card preview** (`components/PostCard.tsx`): the content with `#`, `*` and `` ` `` deleted.

## Modules

Each module follows one source file, except JsString, Types and Wrappers:

- `JsString` holds the JavaScript string semantics every module relies on:
  - the `\s` class and the line terminators;
  - `trim`;
  - ASCII `toLowerCase`;
  - `split` and `join` on one character.
- `Types` holds the records of `types.ts`.
- `Wrappers` holds `Option`, used for JavaScript's `null` and `undefined` and for calls that may fail.

## Form of the model

The model keeps each piece in the form its source has:

- **Pure expressions become functions.** This covers `cleanMarkdownText`, the id chain, the payload, the sitemap and the preview.
- **Loops become methods proved against a function.**
  - `TableOfContents.ExtractHeadings` is the `exec` loop, proved equal to `Headings`.
  - `CodeBlock.GetTextFromChildren` is the `forEach` loop with its recursion, proved equal to `TextOf`.
- **Objects whose state changes become classes.**
  - `PostStore` holds the mutated `MOCK_POSTS` list.
  - `WriteForm`, `PostStatsView` and `SearchContent` hold the React state of their components.
  - Each method states its new state through a function on values (`AfterView`, `Toggle`, `Start`, `Finish`, `Search`, `BuildPayload`, `NewPost`). The lemmas are about those functions.

## Semantics that differ from a naive reading

Several behaviours follow from the code as written:

- **`#` then a line break then text is a heading.** `\s+` takes the newline, so `"#\nTitle"` is a level-one heading with text `Title`. The matcher backs off when the whitespace runs to the end of the input.
- **An image with alt text loses only its link syntax.** The link rule runs first and consumes `[w](u)` inside `![w](u)`, so `![w](u)` cleans to `!w`. For an image that stands alone, with alt text without brackets, only an empty alt text, `![](u)`, reaches the image rule, because the link text `.+?` cannot be empty.
- **An image nested with a link can vanish whole.** Two nestings give the image rule a complete image after the link rule has run:
  - A linked image, the badge form `[![w](u)](v)`: the link rule takes `![w` as the link text and `u` as its URL, leaving `![w](v)`, which the image rule deletes, so it cleans to `""` (`CleanLinkedImage`).
  - A link in the alt text, `![[a](b)](c)`: the link rule rewrites it to `![a](c)`, which the image rule deletes, though its alt text `a` is not empty.
- **An empty stored view mark counts as not viewed.** A session-storage value of `""` is falsy, so the view is counted again.
- **A whitespace-only slug field is sent as it is.** Only `""` is falsy.

## Model

| member | source | states |
|---|---|---|
| JsString.Trim | components/TableOfContents.tsx:39 | `trim` drops exactly the leading and trailing `\s` characters: the result sits inside the input with only whitespace around it, and neither of its ends is whitespace |
| JsString.IsLineTerminator | components/TableOfContents.tsx:46 | definition: the line terminators LF, CR, U+2028 and U+2029, which `.` does not match and at which `^` and `$` hold under the `m` flag |
| JsString.IsWhitespace | components/TableOfContents.tsx:46 | definition: the `\s` class, which is also the set `trim` removes: TAB, VT, FF, SP, NBSP, U+1680, U+2000-U+200A, U+202F, U+205F, U+3000, U+FEFF and the line terminators |
| JsString.TrimOfTrimmed | components/TableOfContents.tsx:50 | text without whitespace at either end is its own trim |
| JsString.TrimOfWhitespace | app/search/page.tsx:29 | whitespace-only text trims to the empty string |
| JsString.TrimAfterBlank | app/write/page.tsx:39 | leading whitespace before text with non-whitespace ends is removed, and that text is the trim |
| JsString.TrimIdempotent | components/TableOfContents.tsx:50 | trimming twice is trimming once (the raw text is trimmed at line 50 and again at the end of `cleanMarkdownText`) |
| JsString.LowerChar | components/TableOfContents.tsx:56 | an ASCII capital maps to its small letter (offset 32), and every other character is kept |
| JsString.ToLower | components/TableOfContents.tsx:56 | same length, and each character is lower-cased independently |
| JsString.Count | app/write/page.tsx:38 | the number of occurrences of a character is at most the length |
| JsString.CountAppend | app/write/page.tsx:38 | occurrence counts add up over concatenation |
| JsString.IndexOf | app/write/page.tsx:38 | the index is within bounds and, when less than the length, holds the separator |
| JsString.IndexOfFirst | app/write/page.tsx:38 | no separator occurs before the index found |
| JsString.IndexOfLeast | app/write/page.tsx:38 | every occurrence of the separator is at or after the index found |
| JsString.Split | app/write/page.tsx:38 | `split` always yields at least one piece |
| JsString.SplitStep | app/write/page.tsx:38 | the first separator splits off the text before it as the first piece; the rest is split the same way |
| JsString.SplitWhole | app/write/page.tsx:38 | a string without the separator is its only piece |
| JsString.Reassemble | app/write/page.tsx:38 | proof helper: a string is the text before an index, the character there, and the text after it |
| JsString.SplitCount | app/write/page.tsx:38 | there is exactly one more piece than there are separators |
| JsString.SplitPieces | app/write/page.tsx:38 | no piece contains the separator |
| JsString.NoOccurrenceCount | app/write/page.tsx:38 | text without the character counts zero occurrences |
| JsString.JoinSplit | app/write/page.tsx:38 | joining the pieces with the separator gives back the original string |
| JsString.JoinCons | app/write/page.tsx:38 | joining a piece in front of a non-empty list puts one separator between them |
| JsString.SplitJoin | app/write/page.tsx:38 | splitting a join of separator-free pieces gives back the pieces |
| JsString.JoinAppend | app/write/page.tsx:38 | joining two non-empty lists puts one separator between their joins |
| JsString.SplitAround | app/write/page.tsx:38 | a separator in the middle splits into the pieces of the left side followed by the pieces of the right side |
| JsString.LeadingWhitespace | components/TableOfContents.tsx:58 | the prefix counted is all whitespace, and the next character (if any) is not |
| JsString.TrailingWhitespace | components/TableOfContents.tsx:39 | the suffix counted is all whitespace, and the character before it (if any) is not |
| TableOfContents.LazyUntil | components/TableOfContents.tsx:24-36 | a lazy group followed by a literal ends at an index where the literal occurs, no earlier than the non-empty minimum |
| TableOfContents.LazyUntilSpec | components/TableOfContents.tsx:24-36 | the lazy group crosses no line terminator and stops at the first admissible occurrence of the literal |
| TableOfContents.LazyUntilFirst | components/TableOfContents.tsx:24-36 | conversely, with no line break and no first closing character before an occurrence, the group ends there |
| TableOfContents.Delimited | components/TableOfContents.tsx:24-30 | a `open(.+?)close` match begins with the opening literal, has a non-empty group and is replaced by exactly that group |
| TableOfContents.LinkAt | components/TableOfContents.tsx:32 | a link match begins with `[` and spans at least the six characters of `[x](y)` |
| TableOfContents.ImageAt | components/TableOfContents.tsx:34 | an image match begins with `![`, spans at least the six characters of `![](y)`, and is replaced by nothing |
| TableOfContents.EscapeAt | components/TableOfContents.tsx:38 | an escape match is a backslash and one escapable character, replaced by that character |
| TableOfContents.BracketTail | components/TableOfContents.tsx:32-34 | the backtracking over `](` finds an occurrence of `](` followed by a non-empty URL and a final `)` |
| TableOfContents.MatchRule | components/TableOfContents.tsx:24-38 | a match of each rule starts with that rule's opening character, which is a marker character (or `!` before `[`), and ends inside the text |
| TableOfContents.CleanMarkdownText | components/TableOfContents.tsx:21-40 | the cleaned text has no whitespace at either end |
| TableOfContents.ReplaceFrom | components/TableOfContents.tsx:24-38 | definition: the scan of a `/g` replace from a position: at each position the rule's match, if any, is replaced and the scan resumes after it, otherwise the character is copied |
| TableOfContents.ReplaceAll | components/TableOfContents.tsx:24-38 | definition: a `/g` replace, the scan from position 0 |
| TableOfContents.StripInlineMarkdown | components/TableOfContents.tsx:22-38 | definition: the nine global replaces of `cleanMarkdownText`, applied in source order, before the final `trim` |
| TableOfContents.ReplaceFromUnmarked | components/TableOfContents.tsx:24-38 | a scan over text without `*`, `_`, `` ` ``, `[`, `~`, `\` replaces nothing |
| TableOfContents.ReplaceAllUnmarked | components/TableOfContents.tsx:24-38 | a global replace of any rule leaves such text unchanged |
| TableOfContents.ReplaceFromWithout | components/TableOfContents.tsx:24-38 | a scan over text without the rule's opening character replaces nothing |
| TableOfContents.ReplaceAllWithout | components/TableOfContents.tsx:24-38 | a rule leaves text without its opening character unchanged |
| TableOfContents.CleanUnmarked | components/TableOfContents.tsx:21-39 | text without `*`, `_`, `` ` ``, `[`, `~`, `\` is only trimmed |
| TableOfContents.KeepIdChars | components/TableOfContents.tsx:57 | the filter keeps only id characters and whitespace, never lengthens the text, and keeps text made only of those unchanged |
| TableOfContents.HyphenateWhitespace | components/TableOfContents.tsx:58 | the result has no whitespace, is no longer than the input, and holds only `-` and characters of the input |
| TableOfContents.HyphenateRun | components/TableOfContents.tsx:58 | a maximal whitespace run becomes exactly one `-` |
| TableOfContents.LeadingOfRun | components/TableOfContents.tsx:58 | the whitespace run at the front is the whole run and no more |
| TableOfContents.HyphenateNoWhitespace | components/TableOfContents.tsx:58 | text without whitespace is left alone |
| TableOfContents.HeadingId | components/TableOfContents.tsx:55-58 | the id has only `a-z`, `0-9`, U+AC00-U+D7A3 and `-`, no whitespace, and is no longer than the raw text |
| TableOfContents.KeepIdCharsAppend | components/TableOfContents.tsx:57 | the filter works character by character: the kept characters of each part stay, in order |
| TableOfContents.KeepIdCharsOne | components/TableOfContents.tsx:57 | a character is kept exactly when it is an id character or whitespace |
| TableOfContents.HyphenateCons | components/TableOfContents.tsx:58 | a character that is not whitespace is copied to the front of the result; with `HyphenateRun` and the empty case this fixes the whole result |
| TableOfContents.HyphenateWord | components/TableOfContents.tsx:58 | a prefix without whitespace is copied unchanged to the front of the result |
| TableOfContents.HyphenateWords | components/TableOfContents.tsx:58 | two whitespace-free words around a whitespace run become the words joined by one `-` |
| TableOfContents.ToLowerAround | components/TableOfContents.tsx:56 | lower-casing text with one character in the middle lower-cases each part separately |
| TableOfContents.ToLowerAppend | components/TableOfContents.tsx:56 | lower-casing a concatenation lower-cases each part separately |
| TableOfContents.KeptDrops | components/TableOfContents.tsx:56-57 | a character that is neither an id character nor whitespace once lower-cased leaves no trace in the filtered text |
| TableOfContents.HeadingIdDrops | components/TableOfContents.tsx:55-58 | such a character, punctuation for instance, can be deleted from the raw text without changing the id |
| TableOfContents.IdTextUnchanged | components/TableOfContents.tsx:56-57 | text of id characters and whitespace survives lower-casing and filtering unchanged |
| TableOfContents.IdWordsChars | components/TableOfContents.tsx:57 | proof helper: two words of id characters around whitespace hold only id characters and whitespace |
| TableOfContents.HeadingIdWords | components/TableOfContents.tsx:55-58 | two words of id characters around a whitespace run give the id made of the words joined by one `-` |
| TableOfContents.HashCount | components/TableOfContents.tsx:44 | `#{1,3}` takes at most three characters |
| TableOfContents.HashCountSpec | components/TableOfContents.tsx:44 | the characters taken are all `#`, and taking stops at the first other character or at three |
| TableOfContents.WhitespaceEnd | components/TableOfContents.tsx:44 | the greedy `\s+` ends inside the text |
| TableOfContents.WhitespaceEndSpec | components/TableOfContents.tsx:44 | the run is all whitespace and the character after it is not |
| TableOfContents.LineEnd | components/TableOfContents.tsx:44 | `(.+)$` ends inside the text |
| TableOfContents.LineEndSpec | components/TableOfContents.tsx:44 | `.` takes no line terminator, and the match ends at a line terminator or at the end of the input |
| TableOfContents.LastNonTerminator | components/TableOfContents.tsx:44 | the position where backtracking lets `.+` start lies in the whitespace run |
| TableOfContents.LastNonTerminatorSpec | components/TableOfContents.tsx:44 | the position is the last one in the run that `.` can match |
| TableOfContents.MatchAt | components/TableOfContents.tsx:44 | a match at a position starts there, and its text lies inside the input |
| TableOfContents.MatchAtWellFormed | components/TableOfContents.tsx:44 | every match is a line start, one to three `#`, whitespace, then text on one line running to a line terminator or the end |
| TableOfContents.FourHashesNoMatch | components/TableOfContents.tsx:44 | a line of four or more `#` never yields a heading |
| TableOfContents.MatchAtComplete | components/TableOfContents.tsx:44 | a line start with one to three `#`, whitespace and then a non-whitespace character is matched, with that many `#` as its level |
| TableOfContents.Exec | components/TableOfContents.tsx:48 | `exec` from `lastIndex` yields the first position at or after it where the pattern matches, or none when there is none |
| TableOfContents.MatchesFrom | components/TableOfContents.tsx:48-61 | every match of the loop starts at or after the search start, and its text lies inside the input |
| TableOfContents.MatchesAreMatches | components/TableOfContents.tsx:48-61 | every element of the loop's list is what the pattern yields at its start |
| TableOfContents.MatchesWellFormed | components/TableOfContents.tsx:44-50 | every match the loop finds has the shape of the pattern |
| TableOfContents.MatchesStep | components/TableOfContents.tsx:48 | one turn of the loop takes the first match and resumes at its end |
| TableOfContents.Matches | components/TableOfContents.tsx:48-61 | every match's text span lies inside the content |
| TableOfContents.MatchesAdjacent | components/TableOfContents.tsx:48 | each search resumes at or after the end of the previous match |
| TableOfContents.MatchesOrdered | components/TableOfContents.tsx:48-61 | the matches do not overlap and come in the order of the content |
| TableOfContents.MatchesComplete | components/TableOfContents.tsx:48-61 | every position where the pattern would match starts or lies inside a match the loop found |
| TableOfContents.CoversCons | components/TableOfContents.tsx:48-61 | proof helper: a position covered by the first match or by a later one is covered by the list |
| TableOfContents.MapSeq | components/TableOfContents.tsx:60 | the pushes produce one item per match |
| TableOfContents.MapSeqIndex | components/TableOfContents.tsx:60 | the `i`-th pushed item is made from the `i`-th match |
| TableOfContents.MapSeqSnoc | components/TableOfContents.tsx:60 | one more match adds exactly one item at the end |
| TableOfContents.ItemsOf | components/TableOfContents.tsx:60 | one item for each match |
| TableOfContents.ItemOf | components/TableOfContents.tsx:50-60 | definition: the loop body for one match: the raw text is group 2 trimmed, the id is `HeadingId` of it, the text is `CleanMarkdownText` of it, the level is the length of group 1 |
| TableOfContents.Headings | components/TableOfContents.tsx:43-64 | there are as many headings as matches |
| TableOfContents.HeadingAt | components/TableOfContents.tsx:48-60 | the `i`-th heading is built from the `i`-th match: the level from group 1, the id from the trimmed raw text, the text cleaned |
| TableOfContents.HeadingsUpTo | components/TableOfContents.tsx:48-61 | after `n` turns the loop holds one entry for each of the first `n` matches |
| TableOfContents.HeadingsUpToSnoc | components/TableOfContents.tsx:60 | one more turn pushes the entry for the next match at the end |
| TableOfContents.HeadingsUpToAll | components/TableOfContents.tsx:63 | after the last match the loop holds every heading |
| TableOfContents.ExecStep | components/TableOfContents.tsx:48 | the match `exec` finds from `lastIndex` is the next element of the list, and the search after it resumes at its end |
| TableOfContents.ExtractHeadings | components/TableOfContents.tsx:43-64 | the `exec` loop pushing one item per match returns exactly `Headings(content)` |
| TableOfContents.HeadingsShape | components/TableOfContents.tsx:44-58 | each heading's level is its number of leading `#` (1 to 3); its text has no whitespace at either end; its id holds only id characters |
| TableOfContents.SameTextSameId | components/TableOfContents.tsx:55-60 | equal raw heading texts give equal ids, so ids are not de-duplicated |
| TableOfContents.PlainAvoids | components/TableOfContents.tsx:24-38 | proof helper: plain text contains none of the marker characters |
| TableOfContents.NoEmphasisOrCode | components/TableOfContents.tsx:24-30 | without `*`, `_` and `` ` `` the first five rules change nothing |
| TableOfContents.SliceAvoids | components/TableOfContents.tsx:24-38 | proof helper: a character absent from a slice is absent at every index of the slice's range |
| TableOfContents.StartsWithOne | components/TableOfContents.tsx:24-38 | proof helper: a one-character literal occurs where its character does |
| TableOfContents.StartsWithTwo | components/TableOfContents.tsx:24-38 | proof helper: a two-character literal occurs where its two characters do |
| TableOfContents.BracketTailFirst | components/TableOfContents.tsx:32 | when the first `](` is followed by a URL and `)`, no backtracking happens |
| TableOfContents.LinkAtFirst | components/TableOfContents.tsx:32 | a link match is replaced by the text between `[` and `](` |
| TableOfContents.LinkRuleAt | components/TableOfContents.tsx:32 | `[text](url)` with one-line text without `]` and a one-line URL without `)` matches the link rule up to and including the first `)` after the URL, replaced by the text |
| TableOfContents.LinkRule | components/TableOfContents.tsx:32 | `[text](url)` with one-line text without `]` and a one-line URL without `)` matches the link rule as a whole, replaced by the text |
| TableOfContents.WholeMatch | components/TableOfContents.tsx:24-38 | a global replace whose first match covers the whole text yields just that match's replacement |
| TableOfContents.CleanLink | components/TableOfContents.tsx:32 | `[w](u)` cleans to `w`, for `w` plain (non-empty, without `*`, `_`, `` ` ``, `[`, `~`, `\` or a line break, and without whitespace at either end) without `]`, and `u` a non-empty one-line URL without `)`, `*`, `_` or `` ` `` |
| TableOfContents.LinkAvoids | components/TableOfContents.tsx:32 | proof helper: a character absent from the text and URL, and not link syntax, is absent from the link |
| TableOfContents.AfterLink | components/TableOfContents.tsx:32-39 | text without emphasis or code whose link rule leaves plain text cleans to that text |
| TableOfContents.DelimitedRule | components/TableOfContents.tsx:24-36 | `open(.+?)close` whose group runs on one line without the closing character matches up to the first closing literal |
| TableOfContents.CleanBold | components/TableOfContents.tsx:24 | `**w**` cleans to `w` |
| TableOfContents.AfterBold | components/TableOfContents.tsx:25-39 | when the bold rule leaves plain text, the later rules and the trim leave it unchanged |
| TableOfContents.CleanCode | components/TableOfContents.tsx:30 | `` `w` `` cleans to `w` |
| TableOfContents.CodeAvoids | components/TableOfContents.tsx:30 | proof helper: a character absent from the text, and not a backtick, is absent from the code span |
| TableOfContents.AfterCode | components/TableOfContents.tsx:24-39 | text without `*` and `_` whose code rule leaves plain text cleans to that text |
| TableOfContents.CleanImage | components/TableOfContents.tsx:32-34 | `![w](u)` cleans to `!w`, because the link rule runs before the image rule; `w` and `u` as for `CleanLink` |
| TableOfContents.LinkAfterBang | components/TableOfContents.tsx:32 | a `!` before a link is kept, and the link is replaced by its text |
| TableOfContents.ImageAvoids | components/TableOfContents.tsx:34 | proof helper: a character absent from the alt text and URL, and not image syntax, is absent from the image |
| TableOfContents.BangPlain | components/TableOfContents.tsx:34 | proof helper: `!` before plain text is plain text |
| TableOfContents.ImageRule | components/TableOfContents.tsx:34 | `![alt](url)` with one-line alt text without `]` and a one-line URL without `)` matches the image rule as a whole, replaced by nothing |
| TableOfContents.ImageWhole | components/TableOfContents.tsx:34 | the image rule deletes a whole image `![w](v)` |
| TableOfContents.LinkedImageMatch | components/TableOfContents.tsx:32 | in `[![w](u)](v)` the link rule matches at the start with the text `![w`, ending after `u)` |
| TableOfContents.ReplaceFromSuffixWithout | components/TableOfContents.tsx:24-38 | a scan over a suffix without the rule's opening character copies that suffix |
| TableOfContents.LinkTail | components/TableOfContents.tsx:32 | proof helper: the link scan copies a suffix without `[` |
| TableOfContents.ReplaceFirst | components/TableOfContents.tsx:24-38 | a global replace whose first match starts the text gives that match's replacement followed by the scan after it |
| TableOfContents.TailAvoids | components/TableOfContents.tsx:32 | proof helper: `](v)` holds no `[` when `v` holds none |
| TableOfContents.LinkedImageLink | components/TableOfContents.tsx:32 | the link rule turns the linked image `[![w](u)](v)` into the image `![w](v)` |
| TableOfContents.LinkedImageAvoids | components/TableOfContents.tsx:32-34 | proof helper: a character absent from the parts and not link or image syntax is absent from the linked image |
| TableOfContents.CleanLinkedImage | components/TableOfContents.tsx:22-39 | the linked image `[![w](u)](v)` cleans to `""`, for `w` and `u` as for `CleanLink` and `v` such a URL without `[` |
| TableOfContents.LineEndAtEnd | components/TableOfContents.tsx:44 | with no line terminator after a position, `$` matches only at the end of the input |
| TableOfContents.NewlineHeading | components/TableOfContents.tsx:44 | `\s+` crosses a line break: `#`, a newline, then a line of text is a level-one heading of that text |
| WritePage.WithField | app/write/page.tsx:27-30 | `handleChange` sets the named field to the value and keeps every other field |
| WritePage.WriteForm.constructor | app/write/page.tsx:11-25 | the form starts with all five fields empty, not loading, nothing navigated |
| WritePage.WriteForm.HandleChange | app/write/page.tsx:27-30 | the form becomes the old form with one field replaced; loading and navigation are unchanged |
| WritePage.TrimNonEmpty | app/write/page.tsx:39-40 | the map and filter yield no more tags than pieces |
| WritePage.TrimNonEmptyTags | app/write/page.tsx:39-40 | every element kept is non-empty with no whitespace at either end |
| WritePage.TrimNonEmptyAppend | app/write/page.tsx:39-40 | the map and filter work piece by piece and keep the order |
| WritePage.TrimNonEmptyOfTags | app/write/page.tsx:39-40 | pieces that are already tags pass through unchanged |
| WritePage.TrimNonEmptyBlankHead | app/write/page.tsx:40 | a piece that trims to nothing contributes no tag |
| WritePage.TrimNonEmptyOne | app/write/page.tsx:39-40 | one piece gives its trim as the tag, or no tag when it trims to `""` |
| WritePage.ParseTagsPiece | app/write/page.tsx:37-40 | text without a comma gives its trim as the only tag, or no tag when it is blank; with `ParseTagsAround` this fixes the tags of every input |
| WritePage.BlankNoComma | app/write/page.tsx:38 | proof helper: whitespace followed by comma-free text holds no comma |
| WritePage.ParseTagsBlankTag | app/write/page.tsx:37-40 | a comma-free tag after whitespace parses to that tag, trimmed |
| WritePage.ParseTagsTwo | app/write/page.tsx:37-40 | `a, b`-shaped input gives the two tags `a` and `b`: a piece with leading blanks is trimmed, not dropped |
| WritePage.ParseTags | app/write/page.tsx:37-40 | there are at most (number of commas + 1) tags |
| WritePage.ParsedTagsAreTags | app/write/page.tsx:37-40 | every parsed tag is non-empty with no whitespace at either end |
| WritePage.ParseTagsAround | app/write/page.tsx:37-40 | the tags before a comma come before the tags after it, in order |
| WritePage.ParseJoinedTags | app/write/page.tsx:37-40 | joining comma-free tags with commas and parsing again gives the tags back |
| WritePage.BlankHead | app/write/page.tsx:38 | in text made only of commas and whitespace, the piece before the first comma is whitespace |
| WritePage.BlankSuffix | app/write/page.tsx:38 | proof helper: what follows a comma in text of commas and whitespace is again commas and whitespace |
| WritePage.BlankTags | app/write/page.tsx:37-40 | text made only of commas and whitespace, including `""`, yields no tags |
| WritePage.SpacesToHyphens | app/write/page.tsx:45 | `.replace(/ /g, '-')` keeps the length |
| WritePage.SpacesToHyphensAt | app/write/page.tsx:45 | each single space becomes one `-`, and every other character is kept |
| WritePage.FallbackSlug | app/write/page.tsx:45 | the fallback is as long as the title; each space becomes `-`, and each other character is lower-cased |
| WritePage.SlugFor | app/write/page.tsx:45 | a non-empty slug field is sent verbatim; an empty one is replaced by the fallback slug of the title |
| WritePage.BlankSlugKept | app/write/page.tsx:45 | a whitespace-only slug field is sent as it is, although it trims to nothing |
| WritePage.SlugFromPlainTitle | app/write/page.tsx:45 | with an empty slug field, a title without spaces or capitals is the slug |
| WritePage.FallbackSlugHasNoSpace | app/write/page.tsx:45 | the fallback slug has no space |
| WritePage.BuildPayload | app/write/page.tsx:42-49 | the title and content are passed unchanged, and the slug and tags come from the rules above; the series name is absent exactly when the field is empty; the status is always published |
| WritePage.StoredSeries | app/write/page.tsx:46 | the stored post's series name is the field, or `null` exactly when the field is empty |
| WritePage.WriteForm.HandleSubmit | app/write/page.tsx:32-58 | the post stored is built from the payload of the form at submit time and prepended to the store; navigation goes to `/post/` plus the slug sent; loading is set and the form unchanged |
| PostService.InitialPosts | services/postService.ts:7-35 | the store starts with the three posts |
| PostService.FindBySlug | services/postService.ts:61 | `find` yields `null` exactly when no post has the slug, and otherwise the first post that has it |
| PostService.FirstMatchShifts | services/postService.ts:61 | a first match in the tail is the first match of the whole list when the head does not match |
| PostService.LookupAfterPrepend | services/postService.ts:61 | after a prepend the new post is found first when its slug matches, otherwise the old lookup stands |
| PostService.PostStore.constructor | services/postService.ts:7-35 | the store holds the three initial posts |
| PostService.PostStore.GetPosts | services/postService.ts:40-53 | `getPosts` returns a list equal to the store and leaves the store unchanged |
| PostService.PostStore.GetPostBySlug | services/postService.ts:55-66 | `getPostBySlug` returns the first stored post with the slug, or `null`, and leaves the store unchanged |
| PostService.PostStore.CreatePost | services/postService.ts:68-89 | the returned post is at index 0 and everything older follows unchanged, one element longer; its id lies in 0..999 and its fields are copied from the request, the series name becoming `null` when it is missing or empty; looking its slug up finds it even when an older post shares the slug |
| PostService.NewPost | services/postService.ts:74-82 | definition: the post literal: the given id and creation time, the request's title, content, slug and tags, and the series name replaced by `null` when it is missing or empty |
| PostStats.AfterView | components/PostStats.tsx:20-30 | views grow by exactly one iff the view is uncounted and the call succeeds, the session mark becoming `'true'`; otherwise nothing changes |
| PostStats.ShouldCountView | components/PostStats.tsx:21-24 | definition: the view is counted when the session mark is missing or is the falsy `""` |
| PostStats.ViewCountedOnce | components/PostStats.tsx:22-24 | once a view has been counted, a later visit in the same session changes nothing |
| PostStats.LoadLiked | components/PostStats.tsx:33-37 | the liked flag becomes `liked === 'true'`, and nothing else changes |
| PostStats.Toggle | components/PostStats.tsx:40-61 | on success, the server's count is taken and the flag flips; the mark is present iff the flag is set; on failure only the animation flag changes; other storage keys are untouched |
| PostStats.CallFor | components/PostStats.tsx:45 | definition: a liked post calls `decrementLikes`, any other calls `incrementLikes` |
| PostStats.ToggleKeepsConsistent | components/PostStats.tsx:45-55 | a toggle keeps the flag in agreement with the stored mark |
| PostStats.ToggleTwice | components/PostStats.tsx:45-55 | two successful toggles restore the flag and the stored mark (a non-`'true'` mark is dropped) |
| PostStats.PostStatsView.constructor | components/PostStats.tsx:14-17 | views and likes start at the initial counts, not liked, not animating |
| PostStats.PostStatsView.RecordView | components/PostStats.tsx:20-30 | `incrementViews` is called exactly when the session holds no truthy view mark, and the new state is `AfterView` of the old |
| PostStats.PostStatsView.LoadLikeState | components/PostStats.tsx:33-37 | the new state is `LoadLiked` of the old |
| PostStats.PostStatsView.ToggleLike | components/PostStats.tsx:40-61 | `decrementLikes` is called when liked and `incrementLikes` otherwise; the new state is `Toggle` of the old |
| PostStats.PostStatsView.EndAnimation | components/PostStats.tsx:59 | the timer callback clears only the animation flag |
| SearchPage.Start | app/search/page.tsx:29-36 | a blank query clears the results and the searched flag; any other query sets loading and searched |
| SearchPage.Finish | app/search/page.tsx:38-46 | the results are the call's answer, or `[]` when it throws; loading ends in both cases |
| SearchPage.ViewOf | app/search/page.tsx:93-131 | exactly one view is shown: the spinner iff loading; the list iff searched with results; no-results iff searched with none; the prompt iff not searched |
| SearchPage.SpinnerWhileSearching | app/search/page.tsx:93-97 | while a non-blank search is in flight the spinner shows |
| SearchPage.ViewAfterSearch | app/search/page.tsx:38-46 | a finished search shows its results, or no-results when there are none or the call failed |
| SearchPage.ViewAfterBlank | app/search/page.tsx:29-33 | a blank query shows the prompt, or the spinner while an earlier search is still loading |
| SearchPage.WhitespaceQueryIsBlank | app/search/page.tsx:29 | a whitespace-only query is blank |
| SearchPage.QueryParam | app/search/page.tsx:13 | the parameter's value, or `''` when it is absent |
| SearchPage.SearchContent.constructor | app/search/page.tsx:13-18 | the query field starts as the parameter, with no results, not loading, not searched |
| SearchPage.SearchContent.BeginSearch | app/search/page.tsx:28-36 | `searchPosts` is called iff the query is not blank, and the state becomes `Start` of the old |
| SearchPage.SearchContent.CompleteSearch | app/search/page.tsx:38-46 | the state becomes `Finish` of the old with the call's answer |
| SearchPage.SearchContent.PerformSearch | app/search/page.tsx:28-47 | `searchPosts` is called iff the query is not blank, and the state becomes `Search` of the old |
| SearchPage.IsBlank | app/search/page.tsx:29 | definition: a query is blank when it trims to `""` |
| SearchPage.Search | app/search/page.tsx:28-47 | definition: `performSearch` as a whole: a blank query gives `Start` alone, any other gives `Finish` after `Start` with the call's result |
| SearchPage.SearchContent.SetQuery | app/search/page.tsx:72 | the input's change sets only the query field |
| SearchPage.SearchContent.HandleSearch | app/search/page.tsx:49-54 | navigation happens only for a non-blank query, with the trimmed, non-empty query |
| SearchPage.SearchContent.OnQueryParam | app/search/page.tsx:21-26 | a non-empty parameter is copied into the field and searched; an empty one changes nothing |
| Sitemap.BaseUrl | app/sitemap.ts:5 | the environment value when set and non-empty, otherwise `https://taemni.dev` |
| Sitemap.StaticPages | app/sitemap.ts:23-48 | four entries, in the order base, `/tags`, `/series`, `/search`, with frequencies daily, weekly, weekly, monthly and the request time |
| Sitemap.PostEntry | app/sitemap.ts:15-20 | a post's url is base + `/post/` + slug, changing weekly, modified at its creation time |
| Sitemap.PostEntries | app/sitemap.ts:15 | one entry per row |
| Sitemap.PostEntryAt | app/sitemap.ts:15-20 | the `i`-th post entry belongs to the `i`-th row |
| Sitemap.PostEntriesAppend | app/sitemap.ts:15 | the mapping keeps the order of the rows |
| Sitemap.SitemapEntries | app/sitemap.ts:15-50 | the four static entries come first, followed by the post entries, an empty list standing in for a `null` result |
| Sitemap.NullQuery | app/sitemap.ts:15 | a `null` query result yields only the four static entries |
| Sitemap.PostPages | app/sitemap.ts:15-20 | entry `4 + i` is the page of the `i`-th post, changing weekly |
| CodeBlock.ConcatAppend | components/CodeBlock.tsx:16-24 | concatenation distributes over appending lists |
| CodeBlock.LeavesAppend | components/CodeBlock.tsx:17 | the leaves of two lists of children are the leaves of each, in order |
| CodeBlock.GetTextFromChildren | components/CodeBlock.tsx:15-25 | the text is the concatenation of the string leaves, left to right, depth first |
| CodeBlock.ConcatLength | components/CodeBlock.tsx:16-24 | the length of a concatenation is the sum of the lengths |
| CodeBlock.TextLength | components/CodeBlock.tsx:15-25 | the text is as long as all string leaves together |
| CodeBlock.LoneString | components/CodeBlock.tsx:18-19 | a lone string child is returned unchanged |
| CodeBlock.NothingFromOthers | components/CodeBlock.tsx:18-22 | numbers, booleans, `null` and elements without children contribute nothing |
| CodeBlock.ElementIsTransparent | components/CodeBlock.tsx:20-21 | wrapping children in an element does not change the text |
| PostCard.StripPreview | components/PostCard.tsx:41 | the preview holds no `#`, `*` or `` ` `` and is no longer than the content |
| PostCard.StripAppend | components/PostCard.tsx:41 | stripping works piece by piece, so the kept characters keep their order |
| PostCard.StripOne | components/PostCard.tsx:41 | a single character is deleted exactly when it is `#`, `*` or `` ` `` |
| PostCard.StripNothing | components/PostCard.tsx:41 | content without those three characters is returned unchanged |
| PostCard.StripIdempotent | components/PostCard.tsx:41 | stripping twice is stripping once |
| PostCard.StripLength | components/PostCard.tsx:41 | the preview is shorter by exactly the number of `#`, `*` and `` ` `` characters |

## Left out

- TableOfContents.CleanLink, TableOfContents.CleanImage, TableOfContents.CleanLinkedImage: these worked cases also keep `*`, `_` and `` ` `` out of the URLs. A URL holding them is first rewritten by the emphasis and code rules, which run before the link rule; the worked cases do not cover that input.
- JsString.ToLower: ASCII lower-casing only; JavaScript's `toLowerCase` also maps non-ASCII capitals, and changes the length of U+0130.
- TableOfContents.HeadingId: agrees with the source only on text whose capitals are ASCII, because it is built on `JsString.ToLower`.
- WritePage.FallbackSlug: agrees with the source only on titles whose capitals are ASCII, for the same reason.
- Strings are sequences of Unicode scalar values, not UTF-16 code units. Regex `.` and the length of text with characters outside the Basic Multilingual Plane are counted per character.
- The IntersectionObserver, scrolling, `activeId` and the rendering of the table of contents are browser machinery and do not compute the headings.
- WritePage.WriteForm.HandleSubmit: models only the success path. The in-memory `createPost` never throws, so the `alert` and `setLoading(false)` branch is unreachable here.
- `router.push` is a recorded target string. The search page records the trimmed query before `encodeURIComponent`.
- `Math.random` is the `RandomId` parameter (an integer in 0..999). `new Date().toISOString()` is the `createdAt` parameter.
- The simulated network delay of 500 ms and 800 ms is not modelled. Each `async` handler is one atomic step, and the model does not capture interleavings of overlapping calls.
  - The search page is the exception: `performSearch` is split at its `await` into `BeginSearch` and `CompleteSearch`, so that the spinner state can be observed.
- The 300 ms timer that ends the like animation is the separate `EndAnimation` step.
- The server calls are results passed in, because their bodies are not part of this model:
  - `incrementViews`, `incrementLikes` and `decrementLikes` are `Option<int>` inputs;
  - `searchPosts` is an `Option<seq<Post>>` input;
  - the failure of each call is `None`.
- The Supabase query of the sitemap is an input: the rows in the order returned, and `None` for `null`.
  - `new Date()` is `Now`.
  - `new Date(post.created_at)` is `Created` with the stored string.
  - Priorities are exact reals, not floating-point numbers.
- `React.Children.forEach` flattening is assumed done: the children are a flat sequence. An element whose `children` is absent, `""`, `0` or `false` is an `Element([])`.
- PostStats.AfterView: treats an empty stored mark like a missing one, because `""` is falsy. It does not distinguish other falsy values, since storage holds only strings.
- The copy-to-clipboard handler, the copied flag and the rendering of every component do not compute the modelled values.

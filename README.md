# PathLensAi: SWOT extraction, report rendering and form guards

This project models the deterministic core of PathLensAi, a career-analysis web app. A user fills in a SWOT form, or uploads a résumé. A generative model returns a free-text analysis, and the app then does four things with it:

- **SWOT extraction** (`SwotExtractor`). `extractSwotFromAnalysis` recovers the four quadrants from the analysis text. It finds each quadrant's heading with a case-insensitive regular expression. It captures the text up to the next quadrant's name or a `##` mark, strips bullets, bold and brackets, trims, and cuts to 400 characters. It falls back to a fixed sentence when nothing longer than 10 characters is left. The regular expressions are written out as functions that follow JavaScript's matching rules:
  - the leftmost heading wins, and its alternatives are tried in order;
  - `[:\s]*` is greedy;
  - on the first captured line, a stop word ends the capture anywhere; later lines are checked only at their start;
  - `^` is multiline, and `\s` includes line breaks;
  - the lazy `(.*?)` never crosses a line terminator.
- **Report rendering** (`ReportFormat`). `formatAnalysisForPDF` turns the markdown-like report into HTML. Each non-blank `##` piece becomes a section with a title (its first line) and a body. Bracketed lines become callouts, bullet and numbered lines become list items, and the rest become paragraphs. The same module models three things from the on-screen renderer `formatAnalysisContent`: its section split, its last-match-wins choice of icon and colour from the title's keywords, and its line kinds.
- **The analysis form** (`AnalysisForm`). `validateForm` requires all four quadrants to be filled in. The résumé upload panel is a class: `handleFileUpload`, `handleDrop` and `removeUploadedFile` update the attached file and the hidden file input. Uploads are limited to 5 MiB (inclusive) and to PDF, DOC, DOCX and plain-text MIME types, and the size is checked first.
- **The user menu** (`UserMenu`). The display name is the provider's name, else the e-mail address before the `@`, else "User". The avatar shows that name's first letter, upper-cased.

`JsText` holds the JavaScript string builtins the core relies on: `trim`, `split`/`join`, `includes`, `substring`, `toLowerCase`, the `\s` class and lazy pair replacement.

Where the behaviour described for the system and the code disagree, the model follows the code:
- **Cleanup is not idempotent.** `[[x]]` unwraps to `[x]`, and only a second pass gives `x` (`SwotExtractor.BracketUnwrapNotIdempotent`).
- **Fields are not independent.** One field's capture stops at another field's name, so removing a heading can lengthen a neighbouring capture.
- **Errors are handled once.** The code has a single `try` around all four extractions, not one per field. Matching never throws, so the model is total.

## Model

| member | source | states |
|---|---|---|
| `SwotExtractor.ExtractSwot` | src/pages/Analysis.tsx:212-294 | each of the four fields is extracted independently from the same text, and every field is longer than 10 and at most 400 characters |
| `SwotExtractor.FieldHeading` | src/pages/Analysis.tsx:222-224 | a field's heading is missing exactly when none of its synonyms matches case-insensitively at any position; when found it is the leftmost match, it ends where `SynonymEnd` puts the end of the alternative matched there, and it spans at least 4 characters |
| `SwotExtractor.FindHeading` | src/pages/Analysis.tsx:222-224 | unanchored search: the heading found is a synonym match whose end is the `SynonymEnd` of that alternative, no position before it matches, and no position at all matches when none is found |
| `SwotExtractor.FirstSynonymAt` | src/pages/Analysis.tsx:223 | the alternation picks an alternative that matches case-insensitively at the position, and picks none exactly when no alternative matches there |
| `SwotExtractor.SynonymEnd` | src/pages/Analysis.tsx:223 | the heading ends right after the alternative's stem, or one character later exactly when the alternative takes an optional `s` and the next character is an `s` in either case |
| `SwotExtractor.StemsAreLong` | src/pages/Analysis.tsx:223 | every heading alternative is at least 4 characters long |
| `SwotExtractor.SkipColonsAndSpaces` | src/pages/Analysis.tsx:223 | greedy `[:\s]*`: everything skipped is a colon or whitespace, and the next character is neither |
| `SwotExtractor.NextNewline` | src/pages/Analysis.tsx:223 | the end of the current line: no newline before it, and a newline at it unless the text ends |
| `SwotExtractor.FirstLineEnd` | src/pages/Analysis.tsx:223 | the first captured line stops at its newline, at the end of the text, or at the first position where a stop word starts, and at nothing earlier |
| `SwotExtractor.LaterLinesEnd` | src/pages/Analysis.tsx:223 | further lines are added while the line after each newline does not start with a stop word; the capture ends at the text's end or at a newline followed by a stop word |
| `SwotExtractor.CaptureEnd` | src/pages/Analysis.tsx:223 | the whole capture has no stop word on its first line and none at the start of a later line, and it ends at the text's end or where one of those starts |
| `SwotExtractor.FirstLineWithinLine` | src/pages/Analysis.tsx:223 | the first-line part never passes the first newline, and it stops short of it only at a stop word |
| `SwotExtractor.CaptureStart` | src/pages/Analysis.tsx:223 | the capture starts after the greedy `[:\s]*` that follows the heading: everything skipped is a colon or whitespace, and the first captured character is neither |
| `SwotExtractor.Capture` | src/pages/Analysis.tsx:223 | the capture is the text from `CaptureStart` up to `CaptureEnd` for the field's stop words, and it never opens with a colon or whitespace |
| `SwotExtractor.BulletRunEnd` | src/pages/Analysis.tsx:227 | `^\s*[-*•]\s*` at a line start: the run is the leading whitespace, one bullet mark and all whitespace after it, and it stops before a non-space character |
| `SwotExtractor.StopWordsAreOtherPrimaryNames` | src/pages/Analysis.tsx:223 | a field's stop words are exactly `##` and the primary names of the other three fields |
| `SwotExtractor.OwnAndSecondaryNamesNeverStop` | src/pages/Analysis.tsx:223 | a field's own name, and any field's secondary alternatives, never end a capture |
| `SwotExtractor.OwnNameClashes` | src/pages/Analysis.tsx:223 | a field's primary name is incompatible with each of its stop words, so the two can never start at the same position |
| `SwotExtractor.SecondaryStemClashes` | src/pages/Analysis.tsx:223 | every secondary alternative ("strong point", "limitation", "risk", …) is incompatible with every stop word |
| `SwotExtractor.ClashingStemNeverStops` | src/pages/Analysis.tsx:223 | where a heading alternative matches, no stop word that clashes with it can start |
| `SwotExtractor.StripBullets` | src/pages/Analysis.tsx:227 | removing bullets never lengthens the text (what it removes is pinned by `FirstBulletRemoved` and `StripBulletsKeepsOtherChars`) |
| `SwotExtractor.StripBulletsFrom` | src/pages/Analysis.tsx:227 | the bullet strip from a given position keeps the text no longer than what is left |
| `SwotExtractor.KeptBeforeBullet` | src/pages/Analysis.tsx:227 | a stretch with no bullet at any line start in it is copied unchanged |
| `SwotExtractor.FirstBulletRemoved` | src/pages/Analysis.tsx:227 | the text before the first bullet is kept as it is, that bullet's run is removed, and the strip resumes after it |
| `SwotExtractor.StripBulletsKeepsOtherChars` | src/pages/Analysis.tsx:227 | every character that is neither whitespace nor a bullet mark occurs as often after the strip as before |
| `SwotExtractor.NoBulletsUnchanged` | src/pages/Analysis.tsx:227 | text with no bullet at any line start is left unchanged |
| `SwotExtractor.BulletDroppedAtStart` | src/pages/Analysis.tsx:227 | a leading bullet directly before a non-space character is removed |
| `SwotExtractor.BareBulletMergesLines` | src/pages/Analysis.tsx:227 | because `\s` includes newlines, a line holding only `-` is removed together with the line break after it |
| `SwotExtractor.StripBold` | src/pages/Analysis.tsx:228 | removing `**…**` pairs never lengthens the text (what it does is pinned by `BoldUnwrapped` and `StripBoldKeepsOtherChars`) |
| `SwotExtractor.BoldUnwrapped` | src/pages/Analysis.tsx:228 | `**w**` on one line, with no `*` in `w`, becomes `w` |
| `SwotExtractor.StripBoldKeepsOtherChars` | src/pages/Analysis.tsx:228 | every character other than `*` occurs as often after removing bold as before |
| `SwotExtractor.StripBrackets` | src/pages/Analysis.tsx:229 | removing `[…]` pairs never lengthens the text (what it does is pinned by `BracketUnwrapsOnce` and `StripBracketsKeepsOtherChars`) |
| `SwotExtractor.StripBracketsKeepsOtherChars` | src/pages/Analysis.tsx:229 | every character other than `[` and `]` occurs as often after removing brackets as before |
| `SwotExtractor.BracketUnwrapsOnce` | src/pages/Analysis.tsx:229 | `[w]` on one line, with no `]` in `w`, becomes `w` |
| `SwotExtractor.BracketUnwrapNotIdempotent` | src/pages/Analysis.tsx:229 | the lazy pair leaves `[[x]]` as `[x]`, which a second pass unwraps to `x`, so the cleanup is not idempotent |
| `SwotExtractor.LeadingBoldKeepsOneAsterisk` | src/pages/Analysis.tsx:227-231 | a capture starting with `**` loses only one asterisk to the bullet strip, so the cleaned text keeps a leading `*` |
| `SwotExtractor.CleanCapture` | src/pages/Analysis.tsx:226-230 | the cleaned capture is no longer than the capture and has no whitespace at either end |
| `SwotExtractor.Candidate` | src/pages/Analysis.tsx:226-231 | a candidate value is at most 400 characters |
| `SwotExtractor.ExtractField` | src/pages/Analysis.tsx:232-234 | when the leftmost heading's cleaned capture is longer than 10 characters, the field is that capture cut to 400; in every case it is its default sentence or 11 to 400 characters starting with a non-space character |
| `SwotExtractor.ExtractedIsCutOfCleanCapture` | src/pages/Analysis.tsx:222-234 | a non-default field has a heading, and it is the first 400 characters of a cleaned capture longer than 10 characters |
| `SwotExtractor.ShortCaptureGivesDefault` | src/pages/Analysis.tsx:232-234 | a cleaned capture of 10 characters or fewer leaves the default |
| `SwotExtractor.NoHeadingGivesDefault` | src/pages/Analysis.tsx:225-235 | a field with no heading anywhere in the text keeps its default |
| `SwotExtractor.DefaultsFitBounds` | src/pages/Analysis.tsx:214-218 | every fallback sentence is longer than 10 and at most 400 characters |
| `SwotExtractor.FieldsFitBounds` | src/pages/Analysis.tsx:214-234 | every extracted field, whatever the input, is longer than 10 and at most 400 characters |
| `SwotExtractor.EmptyTextGivesDefaults` | src/pages/Analysis.tsx:212-294 | an empty analysis yields the four default sentences |
| `SwotExtractor.ShortTextGivesDefaults` | src/pages/Analysis.tsx:212-294 | an analysis of at most 14 characters cannot hold a heading and more than 10 characters of content, so it yields the four defaults |
| `SwotExtractor.StrengthsOkFallsBack` | src/pages/Analysis.tsx:222-234 | "Strengths: ok" keeps the default strengths sentence |
| `AnalysisForm.ValidateForm` | src/pages/Analysis.tsx:57-65 | the form is valid exactly when each of the four quadrants holds a non-whitespace character |
| `AnalysisForm.EmptyFormInvalid` | src/pages/Analysis.tsx:57-65 | an empty form is invalid |
| `AnalysisForm.BlankQuadrantInvalidates` | src/pages/Analysis.tsx:57-65 | blanking any one quadrant makes the form invalid whatever the others hold |
| `AnalysisForm.CheckUpload` | src/pages/Analysis.tsx:130-147 | a file is accepted exactly when it is at most 5 MiB and of an allowed type; too large exactly when over 5 MiB; otherwise refused for its type |
| `AnalysisForm.UploadAlert` | src/pages/Analysis.tsx:128-149 | no alert exactly when there is no file or the first file is accepted; the size alert for an oversized first file; the type alert for a disallowed type within the limit |
| `AnalysisForm.AfterSelection` | src/pages/Analysis.tsx:128-149 | the held file becomes the first selected file when that file is accepted, and is unchanged otherwise |
| `AnalysisForm.SizeLimitIsInclusive` | src/pages/Analysis.tsx:131 | exactly 5 MiB is accepted; one byte more is refused for its size |
| `AnalysisForm.SizeCheckedFirst` | src/pages/Analysis.tsx:131-147 | a file that is both oversized and of a disallowed type gets the size alert |
| `AnalysisForm.UploadPanel.constructor` | src/pages/Analysis.tsx:34-37 | the panel starts with no file and an empty input |
| `AnalysisForm.UploadPanel.HandleFileUpload` | src/pages/Analysis.tsx:127-150 | returns the selection's alert and holds the file `AfterSelection` gives, which is unchanged when an alert is raised; the panel only ever holds an accepted file |
| `AnalysisForm.UploadPanel.PickThroughInput` | src/pages/Analysis.tsx:487-490 | a pick through the file input leaves the browser's text for the chosen files as the input's value, and the file and alert are those of `handleFileUpload` |
| `AnalysisForm.UploadPanel.HandleDrop` | src/pages/Analysis.tsx:157-166 | a drop goes through the same checks on its first file, with the same alert and new state |
| `AnalysisForm.UploadPanel.RemoveUploadedFile` | src/pages/Analysis.tsx:169-174 | the file is detached, and the input is cleared exactly when it is mounted |
| `ReportFormat.NonBlank` | src/pages/AnalysisResults.tsx:443 | a piece is kept exactly when it is one of the input pieces and is not blank after trimming; nothing kept is blank |
| `ReportFormat.NonBlankAppend` | src/pages/AnalysisResults.tsx:443 | the filter works piece by piece: filtering a concatenation concatenates the filtered parts, so the order is kept |
| `ReportFormat.NonBlankSingle` | src/pages/AnalysisResults.tsx:443 | one piece is kept exactly when it is not blank |
| `ReportFormat.Sections` | src/pages/AnalysisResults.tsx:443 | a string is a section exactly when it is a non-blank piece of the split on `##`; no section contains `##` |
| `ReportFormat.SectionsAround` | src/pages/AnalysisResults.tsx:443 | when the first `##` follows `a`, the sections are `a` (unless it is blank) followed by the sections of the rest: one section per non-blank piece, in input order |
| `ReportFormat.SectionsWithoutMark` | src/pages/AnalysisResults.tsx:443 | a text without `##` is one section, unless it is blank |
| `ReportFormat.SectionLines` | src/pages/AnalysisResults.tsx:447 | a trimmed section splits into at least one line |
| `ReportFormat.SectionTitle` | src/pages/AnalysisResults.tsx:448 | the title is one line with no whitespace at either end |
| `ReportFormat.SectionBody` | src/pages/AnalysisResults.tsx:449 | the body has no whitespace at either end and is no longer than the joined remaining lines |
| `ReportFormat.TitleIsFirstLine` | src/pages/AnalysisResults.tsx:447-448 | the title of a non-blank section is non-empty, has no line break and has no whitespace at either end |
| `ReportFormat.TitleAndBodySplitSection` | src/pages/AnalysisResults.tsx:447-449 | the first line and the remaining lines joined by newlines make up the whole trimmed section |
| `ReportFormat.DigitRun` | src/pages/AnalysisResults.tsx:470 | `\d+`: a maximal run of digits |
| `ReportFormat.AfterNumber` | src/pages/AnalysisResults.tsx:471 | a numbered line is its digits, a `.` and what follows |
| `ReportFormat.ClassifyPdfLine` | src/pages/AnalysisResults.tsx:455-474 | a blank line renders nothing; a bracketed line is a callout of its inside; a bullet line is a list item without its marker; a numbered line is a list item without its number; anything else is a paragraph of the trimmed line |
| `ReportFormat.PdfLineHtml` | src/pages/AnalysisResults.tsx:457-474 | a line renders to nothing exactly when it is blank; a callout is its text inside the grey `div` and `p`, a list item inside `li`, a paragraph inside `p` |
| `ReportFormat.LinesHtml` | src/pages/AnalysisResults.tsx:476 | the joined lines are empty exactly when every line is blank |
| `ReportFormat.PdfBoldBecomesStrong` | src/pages/AnalysisResults.tsx:452-453 | `**w**` on one line, with no `*` in `w`, is printed as `<strong>w</strong>` |
| `ReportFormat.PdfItalicBecomesEm` | src/pages/AnalysisResults.tsx:452-453 | `*w*` on one line, with `w` non-empty and free of `*`, is printed as `<em>w</em>` |
| `ReportFormat.PdfInlineWithoutAsterisk` | src/pages/AnalysisResults.tsx:451-452 | a body with no `*` is left unchanged by the bold and italic substitution |
| `ReportFormat.PdfSectionOf` | src/pages/AnalysisResults.tsx:446-482 | a PDF section has the section's title, and one classified line per line of the substituted body |
| `ReportFormat.PdfSections` | src/pages/AnalysisResults.tsx:443-484 | one PDF section per non-blank section, in order, each with a non-empty title |
| `ReportFormat.SectionHtmlLayout` | src/pages/AnalysisResults.tsx:478-482 | a section's HTML opens with the `analysis-section` block and the title inside `<h3>`, then holds exactly the HTML of its lines in order, and closes the block |
| `ReportFormat.TitleReadBack` | src/pages/AnalysisResults.tsx:480 | a title without `<` is exactly the text between the `<h3>` and the first `</h3>` after it |
| `ReportFormat.SectionsHtml` | src/pages/AnalysisResults.tsx:485 | the joined HTML is empty exactly when there are no sections |
| `ReportFormat.FormatAnalysisForPdf` | src/pages/AnalysisResults.tsx:442-486 | the HTML is empty exactly when the report has no non-blank section, and otherwise begins with the first section's HTML |
| `ReportFormat.PdfSectionsAround` | src/pages/AnalysisResults.tsx:443-484 | when the first `##` follows `a`, the printable sections are that of `a` (unless it is blank) followed by those of the rest |
| `ReportFormat.PdfReportAround` | src/pages/AnalysisResults.tsx:442-486 | when the first `##` follows `a`, the report is the HTML of `a`'s section (unless it is blank) followed by the report of the rest |
| `ReportFormat.PdfReportWithoutMark` | src/pages/AnalysisResults.tsx:442-486 | a text without `##` renders as its one section, or as nothing when it is blank |
| `ReportFormat.BlankReportRendersNothing` | src/pages/AnalysisResults.tsx:443-485 | a blank report renders to empty HTML |
| `ReportFormat.SplitOfBlankIsBlank` | src/pages/AnalysisResults.tsx:443 | every piece of a blank text split on `##` is blank |
| `ReportFormat.SplitOfSpacesIsSpaces` | src/pages/AnalysisResults.tsx:443 | every piece of an all-whitespace text is all whitespace |
| `ReportFormat.AnyKeyword` | src/pages/AnalysisResults.tsx:99-102 | a rule with several keywords fires exactly when the lower-cased title contains one of them |
| `ReportFormat.ApplyRules` | src/pages/AnalysisResults.tsx:82-143 | when no later rule matches, the style stays; otherwise it is the style of the last matching rule |
| `ReportFormat.StyleForTitle` | src/pages/AnalysisResults.tsx:82-143 | the default style when no keyword occurs in the lower-cased title; otherwise the last matching rule wins |
| `ReportFormat.DefaultStyleIffNoRuleMatches` | src/pages/AnalysisResults.tsx:82-143 | a title keeps the default style exactly when no rule matches it, since no rule's style is the default |
| `ReportFormat.NextStepTitleIsTeal` | src/pages/AnalysisResults.tsx:135-142 | a title containing "next" or "step" is always shown with the clock icon in teal, whatever else it contains |
| `ReportFormat.LastMatch` | src/pages/AnalysisResults.tsx:82-143 | among matching rules there is a last one, after which none matches |
| `ReportFormat.ScreenInlineWithoutAsterisk` | src/pages/AnalysisResults.tsx:239-250 | a line with no `*` is shown unchanged |
| `ReportFormat.ScreenBoldBecomesStrong` | src/pages/AnalysisResults.tsx:239-250 | `**w**` on one line, with no `*` in `w`, is shown inside the semibold `strong` tag |
| `ReportFormat.ScreenItalicBecomesEm` | src/pages/AnalysisResults.tsx:239-250 | `*w*` on one line, with `w` non-empty and free of `*`, is shown inside the italic `em` tag |
| `ReportFormat.ScreenLineOf` | src/pages/AnalysisResults.tsx:154-232 | exact conditions, checked in order, for a trimmed line to be a bracketed note, a bullet, a numbered item, a header (ends in `:` and is shorter than 100) or text; the note's inside; a bullet shows the rest of the line trimmed, a numbered item its leading digits and the text after the `.` and any whitespace, and a paragraph the whole line, each through the inline substitution; a header shows the line |
| `ReportFormat.ClassifyScreenLine` | src/pages/AnalysisResults.tsx:149-151 | a blank line is dropped; any other line is classified after trimming |
| `ReportFormat.FormatText` | src/pages/AnalysisResults.tsx:145-236 | never more lines come out than go in, an all-blank body shows nothing, and every non-blank line's classification appears (order: `FormatTextAppend`) |
| `ReportFormat.FormatTextAppend` | src/pages/AnalysisResults.tsx:145-236 | the body is shown line by line: the lines of a concatenation are those of its parts, in order |
| `ReportFormat.FormatTextSingle` | src/pages/AnalysisResults.tsx:149-151 | one line shows nothing when blank, and otherwise the kind of the trimmed line |
| `ReportFormat.ScreenSectionOf` | src/pages/AnalysisResults.tsx:77-143 | a card has the section's title and the style chosen from that title, and its lines are `FormatText` of its body's lines, as the card content at line 273 renders them |
| `ReportFormat.ScreenSections` | src/pages/AnalysisResults.tsx:74-80 | one card per section, in the order of the sections, each built from its section |
| `ReportFormat.ScreenReportAround` | src/pages/AnalysisResults.tsx:74-80 | when the first `##` follows `a`, the cards are that of `a` (unless it is blank) followed by those of the rest |
| `UserMenu.EmailLocalPart` | src/components/UserMenu.tsx:18 | the part of the e-mail address before the first `@`: a prefix of the address with no `@`, followed in the address by an `@` unless it is the whole address; empty without an address |
| `UserMenu.DisplayName` | src/components/UserMenu.tsx:18 | never empty; the provider's name when it is non-empty; else `EmailLocalPart` when that is non-empty; "User" exactly in the fallback cases |
| `UserMenu.AvatarInitial` | src/components/UserMenu.tsx:19 | one character, the upper-cased first letter, for a non-empty name |
| `UserMenu.AvatarShowsOneLetter` | src/components/UserMenu.tsx:18-19 | the avatar always shows exactly one letter, the upper-cased first letter of the display name |
| `UserMenu.AnonymousUser` | src/components/UserMenu.tsx:18-19 | a user with no name and no address, or no user at all, is shown as "User" with avatar "U" |
| `JsText.Trim` | src/pages/Analysis.tsx:230 | `trim`: the result is the infix left after removing exactly the leading and trailing whitespace, and it is empty exactly when the text is all whitespace |
| `JsText.Truncate` | src/pages/Analysis.tsx:231 | `substring(0, n)`: a prefix of length `min(|s|, n)` |
| `JsText.SplitOn` | src/pages/AnalysisResults.tsx:443 | `split`: at least one piece, the first is a prefix, and no piece contains the separator |
| `JsText.SplitAtFirst` | src/pages/AnalysisResults.tsx:443 | `split` cuts at the leftmost separator: one piece, the text itself, exactly when the separator does not occur; otherwise the first piece ends at the first occurrence and the rest is the split of what follows |
| `JsText.SplitAround` | src/pages/AnalysisResults.tsx:443 | when the first separator follows `a`, the pieces are `a` and then the pieces of the rest |
| `JsText.SplitWithoutSep` | src/pages/AnalysisResults.tsx:443 | a text without the separator is one piece |
| `JsText.JoinSplit` | src/pages/AnalysisResults.tsx:449 | joining the pieces of a split with the same separator gives back the text |
| `JsText.FindFrom` | src/pages/AnalysisResults.tsx:443 | the first occurrence of a string at or after a position, and none when it does not occur |
| `JsText.Includes` | src/pages/AnalysisResults.tsx:87 | `includes` holds exactly when the string occurs somewhere |
| `JsText.LowerString` | src/pages/AnalysisResults.tsx:87 | `toLowerCase` keeps the length and lowers each character |
| `JsText.SkipSpaces` | src/pages/Analysis.tsx:227 | `\s*`: a maximal run of whitespace |
| `JsText.FoldedMatchesAgree` | src/pages/Analysis.tsx:223 | two strings that both match case-insensitively at the same position agree on their common prefix |
| `JsText.FindCloseIsFirst` | src/pages/Analysis.tsx:228 | the lazy `(.*?)` closes at the first occurrence of the closing mark on its line, and there is no close when the line holds none |
| `JsText.LineEndIsFirstTerminator` | src/pages/Analysis.tsx:228 | `.` matches up to the first line terminator and no further |
| `JsText.ReplacePairs` | src/pages/Analysis.tsx:228 | replacing pairs by their inside never lengthens the text |
| `JsText.PairStep` | src/pages/Analysis.tsx:228 | at a matched pair, the replacement emits the prefix, the inside and the suffix, then resumes after the closing mark |
| `JsText.KeptBeforePair` | src/pages/Analysis.tsx:228 | a stretch where no pair starts is copied unchanged |
| `JsText.FirstPairReplaced` | src/pages/Analysis.tsx:228 | the text before the first pair is kept and the first pair is replaced by its inside between the prefix and suffix |
| `JsText.WrappedPairReplaced` | src/pages/Analysis.tsx:228 | a pair around one line's text with no closing mark inside becomes that text between the prefix and suffix |
| `JsText.WrappedPairThenRest` | src/pages/Analysis.tsx:228 | the same, followed by a rest without an opening mark, which is kept |
| `JsText.ReplacePairsKeepsOtherChars` | src/pages/Analysis.tsx:228 | a character in none of the marks and replacements occurs as often after the replacement as before |
| `JsText.ReplacePairsWithoutOpen` | src/pages/Analysis.tsx:228 | text with no opening mark is left unchanged |
| `JsText.UpperAscii` | src/components/UserMenu.tsx:19 | `toUpperCase` of one character: never a lower-case ASCII letter, the same letter ignoring case, and changed exactly when it was a lower-case ASCII letter |
| `JsText.MapSeq` | src/pages/AnalysisResults.tsx:77 | `map`: one result per element, in order |
| `JsText.MapSeqAppend` | src/pages/AnalysisResults.tsx:77 | `map` of a concatenation is the concatenation of the maps |
| `JsText.MapJoin` | src/pages/AnalysisResults.tsx:476 | `map(f).join("")` is empty exactly when every element maps to the empty string |
| `JsText.MapJoinAppend` | src/pages/AnalysisResults.tsx:485 | `map(f).join("")` of a concatenation is the concatenation of the two joins |

## Left out

- The call to the generative model (`gemini.js`), prompt construction and the network: the extractor receives the response text as its only input.
- Reading the uploaded file (`FileReader`, `extractTextFromFile`) and the asynchronous `analyzeProfile`/`analyzeResume` flows: these are I/O, and the model covers only the checks on the file.
- Printing, `html2pdf`, sharing and JSX rendering. Styles and line kinds are modelled as values, and the HTML as strings.
- Firebase authentication, EmailJS, routing, the static pages and `server.js`: these are external services and plumbing outside the core.
- Characters outside the Basic Multilingual Plane: a Dafny `char` here stands for one UTF-16 code unit, and surrogate pairs are not modelled.
- `JsText.LowerString`: models `toLowerCase` on ASCII letters only. Non-ASCII case mappings such as the Kelvin sign are not modelled. The case-insensitive regular expressions (no `u` flag) fold only ASCII for these ASCII patterns, so matching is exact.
- `JsText.UpperAscii`: models `toUpperCase` of the avatar letter on ASCII only, for the same reason.
- `AnalysisForm.ValidateForm`: the form fields are strings, so the truthiness of `trim()` becomes "the trimmed string is non-empty".
- `AnalysisForm.UploadPanel.HandleFileUpload`: `alert` is returned as a value rather than shown.
- The `try`/`catch` around extraction and its console logging: matching and replacement cannot throw, so the model is total.
- `ReportFormat.PdfSectionOf`: the model does not prove that the bold and italic substitution keeps the number of body lines the same.
- `ReportFormat.ScreenLineOf`: `formatInlineText` (lines 239-254) is modelled as the HTML string it builds. The React element that shows the string is not modelled.
- The class-name strings derived from a card's colour (`text-…-600`, `border-l-…-500`, `bg-…-50`), the icons' JSX and the "Section n" badge: presentation only. The model keeps the chosen icon and colour family as values.
- `SwotExtractor.StripBullets`: its own contract is only a length bound. Which runs it removes and what it keeps are stated by `FirstBulletRemoved`, `KeptBeforeBullet` and `StripBulletsKeepsOtherChars`.
- `SwotExtractor.StripBulletsFrom`: the same: a length bound of its own, with the behaviour stated by the lemmas above.
- `SwotExtractor.StripBold`: its own contract is only a length bound. What replaces a pair is stated by `BoldUnwrapped`, by `JsText.FirstPairReplaced` and by `StripBoldKeepsOtherChars`.
- `SwotExtractor.StripBrackets`: its own contract is only a length bound. What replaces a pair is stated by `BracketUnwrapsOnce`, by `JsText.FirstPairReplaced` and by `StripBracketsKeepsOtherChars`.
- `JsText.ReplacePairs`: its own contract is only a length bound. The replacement itself is stated by `PairStep`, `KeptBeforePair`, `FirstPairReplaced`, `WrappedPairThenRest` and `ReplacePairsKeepsOtherChars`.
- `UserMenu.AvatarInitial`: upper-cases ASCII letters only. JavaScript's `toUpperCase` maps some characters to several (`"ß".toUpperCase()` is `"SS"`), so in the app the avatar can show two characters where the model shows one.
- `UserMenu.AvatarShowsOneLetter`: holds for the ASCII upper-casing modelled; for a name starting with a character such as `ß` the app's avatar shows more than one character.

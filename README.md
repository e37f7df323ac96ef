# XServer VPS renewal script — a Dafny model of its logic

`main.mjs` is a Puppeteer script. It logs in to the XServer VPS panel, reads the expiry date on display, runs the free-VPS renewal flow (which includes a captcha sent to an external solver), and writes a Markdown status report. Most of the script drives the browser. Three pieces of it are logic, and this project models and proves them:

- **The expiry-date extractor.** This is the callback evaluated in the page (`DateExtractor`, `extractor.dfy`). It takes every leftmost, non-overlapping match of `\d{4}[-/]\d{2}[-/]\d{2}` in the body text. It drops each match that contains today's date, written with dashes or with slashes. It then returns the first match left, or the first match of all when none is left, or `"Not Found"` when nothing matched. The page text and today's date are inputs.
- **The run state.** `renewalStatus` and `oldExpiryTime` are modelled as the fields of the class `Renewal.RenewalRun` (`renewal.dfy`). Its method `Execute` goes through the main `try` block in program order as sixteen steps: each awaited action outside the guarded extraction at main.mjs:41-71 is one step, and that extraction, with its two awaits, counts as one. Each step either completes or throws, and the outcomes are an input. The extraction is step 7 (index `CaptureIndex` = 6), and its own `catch` swallows its errors. Any other throw ends the block with status `"Failed"`.
- **The report builder.** This is the `finally` block's text (`RunReport`, `report.dfy`). It reformats the ISO timestamp, picks the status glyph and fills in the Markdown template. The "renewed" line is written only on success.

The spec functions `FinalStatus` and `FinalExpiry` give the state at report time as a function of the step outcomes. `Execute` is proved to produce exactly that state. The lemmas about these functions state what the script promises. The extractor's global search (`MatchStarts`) is proved equal to the unique leftmost non-overlapping scan (`IsLeftmostScan`). `Lines` splits a report back into lines, which gives the template a round trip.

What `main.mjs` does, and the model with it:
- The date is looked up by one whole-text scan of `document.body.innerText`. There is no table lookup, no scan of leaf nodes, no search of nested frames and no retry.
- Of the matches left after filtering, the *first* in text order is returned, not the last.
- The two `[-/]` of the regular expression are chosen independently, so `2025-06/10` is a match.
- The filter uses `includes`, so a match is dropped when it *contains* today, and the model keeps that as substring containment (`Contains`). `ExcludedIffToday` proves that for a ten-character today this is the same as equality.

## Model

| member | source | states |
|---|---|---|
| `DateExtractor.MatchStarts` | main.mjs:51-53 | every position the global search reports is at or after the cursor and starts a match of the date pattern |
| `DateExtractor.FindDates` | main.mjs:51-53 | every collected match has the date shape: digits at 0-3, 5-6, 8-9 and `-` or `/` at 4 and 7 |
| `DateExtractor.MatchStartsIsLeftmostScan` | main.mjs:51-53 | the search lists matches left to right, each the leftmost one after the end of the previous, with none left after the last |
| `DateExtractor.LeftmostScanUnique` | main.mjs:51-53 | there is only one leftmost non-overlapping scan of a text from a given cursor |
| `DateExtractor.MatchStartsCharacterized` | main.mjs:51-53 | a sequence of positions is a leftmost non-overlapping scan of the text exactly when it is what the search returns |
| `DateExtractor.Slashed` | main.mjs:60 | `today.replace(/-/g, '/')` keeps the length, turns every `-` into `/` and keeps every other character |
| `DateExtractor.Contains` | main.mjs:60 | `d.includes(t)`: a string contains itself, and only strings at least as long as `t` contain it |
| `DateExtractor.Excluded` | main.mjs:59-60 | a match equal to today, or to today with `/` for `-`, is dropped, and a dropped match is at least as long as today |
| `DateExtractor.Survivors` | main.mjs:60 | the filter keeps only matches, and none it keeps contains today in either spelling |
| `DateExtractor.SurvivorsHead` | main.mjs:60 | the first element that passes the filter is the first element of the filtered sequence |
| `DateExtractor.SurvivorsNone` | main.mjs:60 | when every match contains today, the filtered sequence is empty |
| `DateExtractor.Extract` | main.mjs:50-66 | the result is `"Not Found"` exactly when there are no matches, and otherwise it is one of the matches |
| `DateExtractor.ExtractNotFoundIff` | main.mjs:51-65 | `"Not Found"` is returned exactly when no substring of the body text matches the pattern |
| `DateExtractor.ExtractIsSubstring` | main.mjs:51-63 | any other result has the date shape and occurs in the body text at a position where the pattern matches |
| `DateExtractor.ExtractFirstSurvivor` | main.mjs:60-63 | when a match passes the filter, the result is the first such match in text order |
| `DateExtractor.ExtractAllExcluded` | main.mjs:63 | when every match contains today, the result is the first match |
| `DateExtractor.ContainsSameLength` | main.mjs:60 | for two strings of equal length, `includes` is equality |
| `DateExtractor.ExcludedIffToday` | main.mjs:59-60 | for a match as long as today, it is dropped exactly when it equals today or today with every `-` turned into `/` |
| `DateExtractor.MixedSeparatorKept` | main.mjs:51-60 | a match whose two separators differ is never dropped when today is a dash date |
| `DateExtractor.TodayThenMixedSpelling` | main.mjs:60-63 | if the matches are today's dash date and then a mixed spelling, the mixed spelling is returned |
| `DateExtractor.MixedSeparatorMatches` | main.mjs:51-53 | the search finds matches at 0 and 11 in `2025-06-10 2025-06/10` |
| `DateExtractor.MixedSeparatorDates` | main.mjs:51-53 | the matches collected from `2025-06-10 2025-06/10` are `2025-06-10` and `2025-06/10` |
| `DateExtractor.MixedSeparatorExample` | main.mjs:50-66 | on the run date 2025-06-10, the text `2025-06-10 2025-06/10` gives `2025-06/10` |
| `RunReport.ReplaceFirst` | main.mjs:93 | `replace(/T/, ' ')` keeps the length and introduces no character other than the space |
| `RunReport.ReplaceFirstAt` | main.mjs:93 | only the first `T` becomes a space and everything else is kept |
| `RunReport.ReplaceFirstAbsent` | main.mjs:93 | a string with no `T` is unchanged |
| `RunReport.FractionStart` | main.mjs:93 | the cut starts at the leftmost dot that is followed by a non-line-terminator, and there is no such dot before it |
| `RunReport.WildcardEnd` | main.mjs:93 | the greedy `.+` runs to the next line terminator or to the end |
| `RunReport.StripFraction` | main.mjs:93 | `replace(/\..+/, '')` only removes characters |
| `RunReport.FormatTimestamp` | main.mjs:93 | the report time uses only the ISO string's characters and the space |
| `RunReport.StripFractionOneLine` | main.mjs:93 | on a one-line string, everything from the first dot that has a character after it is removed |
| `RunReport.FormatIsoInstant` | main.mjs:93 | `YYYY-MM-DDTHH:mm:ss.sssZ` becomes `YYYY-MM-DD HH:mm:ss` |
| `RunReport.Glyph` | main.mjs:95 | the glyph is `✅Success` exactly when the status is `"Success"`, and `❌Failed` otherwise |
| `RunReport.ReadmeLines` | main.mjs:95-103 | the report has seven lines, the fifth shows the glyph of the status, the sixth the captured date, and the seventh is the "renewed" line exactly on success and empty otherwise |
| `RunReport.JoinLinesEnds` | main.mjs:97-103 | the joined template starts with its first line and ends with its last, each set off by a line break when there are several |
| `RunReport.ReadmeContent` | main.mjs:97-103 | the report starts with the time line, ends with the "renewed" line on success and with a line break otherwise |
| `RunReport.LinesJoinLines` | main.mjs:97-103 | splitting the template at line breaks gives back its lines |
| `RunReport.ReportRoundTrip` | main.mjs:97-103 | the report has seven lines: time, blank, heading, server, glyph, old expiry as captured, and the "renewed" line on success or an empty last line otherwise |
| `RunReport.NewExpiryLineIffSuccess` | main.mjs:103 | the "renewed" line is a line of the report exactly when the status is `"Success"` |
| `Renewal.FirstAbort` | main.mjs:26-86 | the main block stops at the first step other than the extraction that throws, and no earlier step aborts it |
| `Renewal.CaptureOnlyAtIndex` | main.mjs:41-71 | the extraction is step 7 of the main block and appears nowhere else |
| `Renewal.FinalStatus` | main.mjs:23-86 | the status at report time is `"Success"` or `"Failed"` and nothing else |
| `Renewal.FinalExpiry` | main.mjs:24-71 | the date at report time is `"Unknown"` or the extractor's result on the page text |
| `Renewal.RenewalRun.constructor` | main.mjs:23-24 | a run starts with `renewalStatus = "Failed"` and `oldExpiryTime = "Unknown"` |
| `Renewal.RenewalRun.Execute` | main.mjs:26-86 | after the `try`/`catch`, both fields equal `FinalStatus` and `FinalExpiry` of the step outcomes |
| `Renewal.RunOnce` | main.mjs:23-103 | a whole run's report is the template filled with the final status, the captured date and the timestamp |
| `Renewal.NoAbortBefore` | main.mjs:26-86 | no step before `k` aborts the block exactly when every step before `k`, except the extraction, completed |
| `Renewal.SuccessIffStepsCompleted` | main.mjs:23-86 | the status at report time is `"Success"` exactly when every step except the extraction completed |
| `Renewal.CaptureErrorKeepsStatus` | main.mjs:69-71 | an error inside the extraction never changes the status |
| `Renewal.ExpiryCaptured` | main.mjs:24-71 | the captured date is the extractor's result exactly when steps 1 to 7 completed, and otherwise stays `"Unknown"` |
| `Renewal.LaterStepKeepsExpiry` | main.mjs:73-86 | what a step after the extraction does never changes the captured date |
| `Renewal.FailureAfterCapture` | main.mjs:73-86 | a throw after a completed extraction, such as a captcha-solver failure, gives `"Failed"` and keeps the extracted date |
| `Renewal.FinalExpiryOneLine` | main.mjs:24-66 | the captured date holds no line break |
| `Renewal.RunReportShowsOutcome` | main.mjs:83-103 | in a run's report, the glyph line and the "renewed" line show success exactly when every step except the extraction completed, and the old-expiry line shows the captured date |

## Left out

- Browser control is left out because it is I/O outside the logic: launch, user agent, screencast, navigation, locators, fills, clicks, `waitForNavigation`, `$eval` and closing. Each awaited action is one `Step` whose outcome is an input.
- `waitForFunction` with its 10-second timeout is left out. Its rejection is caught on the spot, so it is part of the `CaptureExpiry` step and never aborts the run.
- `document.body.innerText` is left out because the browser computes it. It is the `bodyText` input.
- The captcha solver `fetch` is left out because it is an opaque network service. Only its failure matters here, as the `SolveChallenge` step throwing.
- Proxy handling through the WHATWG `URL` class is left out, because its behaviour lives in a library. The `page.authenticate` call is the `ProxyLogin` step. A run without a proxy counts it as completed.
- The clock is left out: `new Date()`, `getTime()` and `toISOString()`. Today's date and the shifted ISO timestamp are inputs. The shift is 8 * 60 * 60 * 1000 = 28800000 ms.
- `setTimeout` delays are left out because they only cost time. The 5-second settle delay is the `SettleDelay` step.
- `fs.writeFileSync`, the `catch` around it and all console logging are left out, because they are I/O. The model builds the report string and does not write it.
- `RunReport.FormatIsoInstant` is proved only for the `toISOString` shape of years 0 to 9999. `FormatTimestamp` itself is defined for every string.
- `RunReport.NewExpiryLineIffSuccess` and `RunReport.ReportRoundTrip` require the captured date and the timestamp to be free of line breaks. `Renewal.FinalExpiryOneLine` proves this for the captured date.
- Text is modelled as Unicode scalar values, not UTF-16 code units. The pattern matches only ASCII characters, so the matched strings are the same, but positions inside a text with astral characters differ.

# AI code reviewer: event routing and exclusion, in Dafny

This project models the entry point of a GitHub Action that reviews code
changes (`src/main.ts`). One run of `main()` works like this:

- It reads the triggering event's name and payload.
- For a `pull_request` event, it checks the pull request number and reads the pull request.
- An `opened` action fetches the whole pull request diff.
- A `synchronize` action compares only the payload's `before..after` commits.
- For a `push` event, it compares `before..after` in the pushed repository.
- In every case, it parses the diff and drops the files matched by the comma-separated `exclude` input.
- It hands the rest to the analysis under a pull-request context, or a synthetic one for a push.
- For a pull request only, it posts the returned comments as a review, and only when there are some.

The modules:

- `Wrappers`: `Option` and `Result`.
- `Text`: the JavaScript built-ins the exclude list is read with.
  - `split` with a one-character separator, with its inverse `Join`.
  - `trim`, over ECMAScript's full whitespace set.
- `Exclusion`: the exclude list and the filter over the parsed diff files.
  - `ParseExcludePatterns` is split on `,` followed by trim of every piece.
  - `Filter` keeps a file exactly when no pattern matches its target path `file.to ?? ""`.
- `Events`:
  - the payload;
  - the review context `PRDetails`, from the pull request or synthesised for a push;
  - the routing decision `Route`.
- `Review`: the driver methods `Run`, `RunPullRequest` and `RunPush`.
  - They record the outside calls a run made, with their arguments, and how the run ended.
  - A run can fail (the rejected promise reaches `core.setFailed`), stop cleanly, or complete with the analysis' comments.
  - The GitHub API, the diff parser, the glob matcher, the analysis and the review poster are not part of this source. They are parameters (the `Services` record of functions).
  - Every awaited call (the GitHub API, the analysis, the review poster) can answer with a failure. The run then ends with that call's message.
  - The diff parser and the glob matcher are total functions here.

## Model

| member | source | states |
|---|---|---|
| Text.Split | src/main.ts:94 | `split(",")` gives one piece more than the input has separators, and no piece contains the separator |
| Text.JoinSplit | src/main.ts:94 | joining the pieces of a split with the separator gives back the input, so no character is lost or reordered |
| Text.SplitJoin | src/main.ts:94 | splitting a join of separator-free pieces gives back exactly those pieces, in order |
| Text.LeadingWhitespace | src/main.ts:95 | the count of characters cut at the start: they are all whitespace, and the next character is not |
| Text.TrailingWhitespace | src/main.ts:95 | the count of characters cut at the end: they are all whitespace, and the character before them is not |
| Text.LeadingWhitespaceUnique | src/main.ts:95 | whitespace in front of a stretch that starts with a non-space is exactly what is cut at the start |
| Text.TrailingWhitespaceUnique | src/main.ts:95 | whitespace behind a stretch that ends with a non-space is exactly what is cut at the end |
| Text.Trim | src/main.ts:95 | `trim()` gives a stretch of the input with only whitespace on either side, and the result neither starts nor ends with whitespace |
| Text.TrimUnique | src/main.ts:95 | whitespace, then a trimmed middle, then whitespace trims to exactly that middle |
| Text.TrimIdempotent | src/main.ts:95 | trimming twice is the same as trimming once |
| Exclusion.ParseExcludePatterns | src/main.ts:92-95 | the exclude input gives (number of commas + 1) patterns, each comma-free and trimmed |
| Exclusion.ParseJoinedPatterns | src/main.ts:92-95 | for an input written as comma-separated pieces, pattern i is piece i trimmed, in input order |
| Exclusion.TrimStaysInside | src/main.ts:95 | trimming never adds a character, so a comma-free piece stays comma-free |
| Exclusion.AnyMatch | src/main.ts:97 | `some` is true exactly when some pattern matches the path |
| Exclusion.AnyMatchConcat | src/main.ts:97 | a path matches a concatenation of pattern lists exactly when it matches either list |
| Exclusion.Filter | src/main.ts:96-98 | the kept files are an order-preserving subsequence of the parsed files; each kept file is matched by no pattern; every unmatched file keeps all its occurrences |
| Exclusion.FilterMembership | src/main.ts:96-98 | a parsed file is kept if and only if no pattern matches `file.to ?? ""` |
| Exclusion.FilterIdempotent | src/main.ts:96-98 | filtering an already filtered list with the same patterns changes nothing |
| Exclusion.FilterNoPatterns | src/main.ts:96-98 | filtering with no patterns is the identity |
| Exclusion.FilterAppend | src/main.ts:96-98 | the filter works file by file, so it commutes with concatenation |
| Exclusion.FilterPatternsConcat | src/main.ts:96-98 | excluding by two pattern lists at once is the same as excluding by one and then by the other |
| Exclusion.ReviewableFilesExcluded | src/main.ts:91-139 | the files handed to the analysis (pull request and push alike) are a subsequence of the parsed diff, none matched by an exclude pattern, and every unmatched parsed file is among them |
| Events.PushOwner | src/main.ts:111-112 | the push owner is `owner.name` when it is a non-empty string, and `owner.login` otherwise |
| Events.PullDetails | src/main.ts:35-41 | the review context keeps the repository, owner and number, takes the pull request's title, and takes its body or "" when the body is null |
| Events.PushDetails | src/main.ts:141-147 | the synthetic push context has pull number 0, an empty description, and the title "Push analysis: " followed by the head commit |
| Events.Route | src/main.ts:21-154 | a `pull_request` event without a number, or with number 0, is fatal whatever its action, because the number is checked before the action. Otherwise `opened` gives the whole-diff step, `synchronize` the compare of exactly the payload's `before..after`, and any other action is unsupported and keeps the action. `push` runs the push branch (the payload's repository, the owner rule, `before..after`) exactly when the repository and owner are present, and fails otherwise. Any other event is unsupported. Each case holds in both directions |
| Review.RunPullRequest | src/main.ts:62-108 | the pull request is read first. `opened` fetches the whole diff by its number, and `synchronize` compares exactly `before..after`. An unsupported action stops after the read and calls nothing else. The run fails with a call's message exactly when that call threw, and it was the last call made. The empty diff, and only the empty diff, stops the run before analysis. Any other diff is analysed with the filtered files and the pull request's details. Comments go to that pull request exactly when the analysis returned some. A run whose calls all succeeded completes with the analysis' comments |
| Review.RunPush | src/main.ts:109-151 | the push branch compares `before..after` in the payload's repository. It fails exactly when a call threw, with that call's message. The empty diff, and only the empty diff, stops it. Any other diff is analysed with the filtered files and the synthetic context, and then the run completes with the comments. No pull request is read and nothing is posted |
| Review.Run | src/main.ts:54-159 | over the event name: a missing or zero number fails before any call, even for an unsupported action. The two fatal payload errors happen in exactly their cases. `opened` fetches the whole diff and never compares; `synchronize` compares `before..after` and never fetches the whole diff. Other actions and other events stop with no analysis and no comments, and a push never posts. Every run keeps the rules of `WellFormedRun`: each call follows a successful one, failure happens exactly at the call that threw, a non-empty diff is analysed, and a run whose calls succeed completes |

## Left out

- Network and process I/O are not modelled: the GitHub client calls, reading the event file, `JSON.parse`, `process.env` and `core.getInput`. The client calls are parameters that return a `Result`. The event name, the parsed payload, the repository from `github.context.repo` and the `exclude` input are arguments of `Run`.
- Console output is not modelled. This covers the messages about an unsupported action or event, the "No diff found" messages, and the push branch's printout of its comments. The model records the stop reason or the comments instead.
- `core.setFailed` is not modelled as a call. An error that reaches it is the `Failed` outcome.
- Asynchrony is not modelled. The awaited calls are taken in program order, which is the only order the code allows.
- The diff parser and `minimatch` are taken as never throwing. A throwing `parseDiff` (src/main.ts:91 and :132), which would end the run through `core.setFailed`, is not modelled.
- The diff parser, `minimatch`, `analyzeCode` (src/ai.ts) and `createReviewComment` (src/review.ts) are not part of this model. They are function parameters. No glob semantics are assumed, so the properties hold for any matcher.
- A `synchronize` or push payload without `before` or `after` is not modelled: those fields are plain strings here.
- A pull number that is `NaN` or not an integer is not modelled. The model has only present integers, where 0 fails the check like a missing number.
- Events.Route: a push payload without `repository` or `repository.owner` throws a JavaScript TypeError, and the model reports it as `MalformedPushPayload` without that error's text.
- Exclusion.ParseExcludePatterns: the code keeps empty patterns, because `"".split(",")` is `[""]` and an empty piece stays empty after trimming, so the list is never empty. The model follows the code and passes every pattern, empty ones included, to the matcher; it does not ignore them.
- Events.PushDetails: the push description is always "", as the code writes it, never the commit message.
- scripts/sendReviewEmail.js, the e-mail notification, is not part of this model.

# sonar-bitbucket: issue publishing for pull requests, modelled in Dafny

The plugin runs after a SonarQube analysis and publishes its new issues on a
Bitbucket pull request. This model covers the plugin's own logic:

- **Patch position index** (`patch_index.dfy`, module `PatchIndex`). It walks
  each file's unified-diff patch line by line, recognising the hunk headers
  `@@ -l[,s] +l[,s] @@`. It builds a map from each new-file line shown by the
  patch to the 0-based index of that line in the patch. A malformed header
  aborts the whole index.
- **Existing review comments** (`review_comments.dfy`, module
  `ReviewComments`). These are the acting user's comments: inline ones are
  indexed by (path, anchor line), where the last one wins, and all of them are
  marked for deletion by id.
- **The facade** (`facade.dfy`, module `Facade`). This is the
  `PullRequestFacade` class. It holds the position index and the comment
  store, and it performs `hasFile`, `hasFileLine` and
  `createOrUpdateReviewComment`. It records the calls it receives
  (comment updates, deletion of outdated comments, the global comment,
  approve and unapprove), so the job's ordering can be stated.
- **Global report** (`global_report.dfy`, module `Report`). This is the
  `GlobalReport` class. It has per-severity counters in an array, a listing
  capped at `MAX_GLOBAL_ISSUES` (10) of issues not placed on the diff, the
  markdown summary, the status and the status description.
- **The post job** (`post_job.dfy`, module `PostJob`). This is
  `PullRequestIssuePostJob`:
  - it routes each new issue inline or to the report;
  - it concatenates the inline bodies per (file, line);
  - it updates the review comments;
  - it then deletes the outdated comments, posts the global comment and
    approves or unapproves the pull request.
- **Configuration** (`configuration.dfy`, module `Configuration`). This covers
  Bitbucket git URL recognition, the repository fallback chain, the
  owner/name split, `isEnabled` and the CI settings with their defaults.
- **Input file cache** (`input_file_cache.dfy`, module `Cache`). This is a
  table from component key to input file, where the last put wins.

Helper modules: `Wrappers` (Option and Result), `Text` (digits, the
White_Space property, decimal rendering), `Sonar` (severities, input files
and issues) and `Markdown` (the `MarkDownUtils` renderings, passed in as
functions).

Each class that the source updates in place is a Dafny `class` whose methods
are proved against a function of its state:

- `GlobalReport.Valid()` ties the fields to `Run` of the recorded
  `process` calls.
- `InputFileCache.Valid()` ties the map to `Table` of the recorded puts.
- The facade's `Existing()` is the `Store` value that `Load` computes.

The lemmas about these functions state what the source promises.

Where the tests and the main source disagree, the model follows the main
source:

- `BitBucketPluginConfigurationTest` expects `repository()` to return
  `owner/repo`, but the code returns the second `/`-separated part
  (`Configuration.ExampleScmLink` proves the code's answer).
- `GlobalReportTest` expects other "Note:" wording and a trailing newline
  after the "Watch the comments" line.
- `PullRequestIssuePostJobTest` drives a newer job API (`execute(context)`,
  with files reached through `issue.inputComponent()` and `hasFile` and
  `hasFileLine` mocked). The model follows `PullRequestIssuePostJob.java`, which
  looks files up in the input file cache, so the test's files appear as cache puts.
- The job calls a two-argument `GlobalReport` constructor, `isApproved`,
  `getWebUrl`, `approvePullRequest` and `unapprovePullRequest`. None of these
  exists in `GlobalReport.java` or `PullRequestFacade.java`, so they are parameters or recorded calls here.

## Model

| member | source | states |
|---|---|---|
| PatchIndex.Wrap32 | src/main/java/com/wirelust/sonar/plugins/bitbucket/PullRequestFacade.java:254 | `currentLine++` stays in Java's int range and is the identity on values already in range |
| PatchIndex.ParseHunkHeader | src/main/java/com/wirelust/sonar/plugins/bitbucket/PullRequestFacade.java:244-245 | a recognised header is well formed (single White_Space gaps, numerals, optional counts, no line terminator in the trailer) and formats back to the very line |
| PatchIndex.ParseFormat | src/main/java/com/wirelust/sonar/plugins/bitbucket/PullRequestFacade.java:244-245 | every well-formed header is recognised, with the same parts: the recogniser accepts exactly the header grammar |
| PatchIndex.Classify | src/main/java/com/wirelust/sonar/plugins/bitbucket/PullRequestFacade.java:242-258 | a classified line is a hunk header exactly when it starts with `@` (its start within Java's int range) and visible exactly when it starts with `+` or a space; a failure names that line's index |
| PatchIndex.ProcessPatch | src/main/java/com/wirelust/sonar/plugins/bitbucket/PullRequestFacade.java:238-261 | the loop with its two counters puts exactly the walk's entries over the given map, or fails with the walk's error |
| PatchIndex.WalkFailure | src/main/java/com/wirelust/sonar/plugins/bitbucket/PullRequestFacade.java:242-248 | the walk fails exactly when some `@` line is not a header (or its start overflows an int), and reports the first such line |
| PatchIndex.MalformedHeaderFails | src/main/java/com/wirelust/sonar/plugins/bitbucket/PullRequestFacade.java:242-247 | any `@` line that is not a well-formed header aborts the patch |
| PatchIndex.PatchPositions | src/main/java/com/wirelust/sonar/plugins/bitbucket/PullRequestFacade.java:248-254 | the mapped line numbers are exactly those of the `+`/space lines, each mapped to the index of the last patch line numbered so |
| PatchIndex.PositionsDistinct | src/main/java/com/wirelust/sonar/plugins/bitbucket/PullRequestFacade.java:240-259 | every recorded position is the 0-based index of a `+`/space line, and no two line numbers share a position |
| PatchIndex.SkippedLinesKeepCounter | src/main/java/com/wirelust/sonar/plugins/bitbucket/PullRequestFacade.java:249-258 | `-` lines, `\` lines and other lines leave the new-file line counter unchanged |
| PatchIndex.HunkNumbering | src/main/java/com/wirelust/sonar/plugins/bitbucket/PullRequestFacade.java:248-254 | the first `+`/space line after a header announcing start c is numbered c |
| PatchIndex.NextVisibleNumbering | src/main/java/com/wirelust/sonar/plugins/bitbucket/PullRequestFacade.java:251-254 | each later `+`/space line of a hunk is numbered one more than the previous one: c, c+1, c+2, ... |
| PatchIndex.ExampleHeader | src/main/java/com/wirelust/sonar/plugins/bitbucket/PullRequestFacade.java:244-248 | `@@ -10,3 +10,4 @@` is a hunk starting at new-file line 10 |
| PatchIndex.ExampleReplay | src/main/java/com/wirelust/sonar/plugins/bitbucket/PullRequestFacade.java:238-261 | a hunk at 10 with one context line, one deletion and three more visible lines maps lines 10 to 13 to positions 1, 3, 4 and 5 |
| PatchIndex.MapPatchPositionsToLines | src/main/java/com/wirelust/sonar/plugins/bitbucket/PullRequestFacade.java:223-235 | the loop over the pull request's files builds exactly the file-by-file index, and stops at the first failing patch |
| PatchIndex.PositionIndexKeys | src/main/java/com/wirelust/sonar/plugins/bitbucket/PullRequestFacade.java:225-227 | the index has a key for exactly the files of the pull request |
| PatchIndex.PositionIndexLastWins | src/main/java/com/wirelust/sonar/plugins/bitbucket/PullRequestFacade.java:225-233 | a file name's entry is the positions of its last patch in the list |
| PatchIndex.PositionIndexFailure | src/main/java/com/wirelust/sonar/plugins/bitbucket/PullRequestFacade.java:232 | the index fails exactly when some file's patch fails |
| PatchIndex.NoPatchNoLines | src/main/java/com/wirelust/sonar/plugins/bitbucket/PullRequestFacade.java:226-231 | a file without a patch is still a key, with an empty line map |
| ReviewComments.LoadToDelete | src/main/java/com/wirelust/sonar/plugins/bitbucket/PullRequestFacade.java:198-211 | loading marks for deletion exactly the ids of the acting user's comments, inline or not, each mapped to the last such comment, and keeps earlier marks |
| ReviewComments.LoadPaths | src/main/java/com/wirelust/sonar/plugins/bitbucket/PullRequestFacade.java:203-209 | a path is indexed exactly when some own comment is anchored on it |
| ReviewComments.LoadAnchors | src/main/java/com/wirelust/sonar/plugins/bitbucket/PullRequestFacade.java:203-214 | (path, `inline.to`) is indexed exactly when some own comment is anchored there; non-inline comments are never indexed |
| ReviewComments.LoadLastAt | src/main/java/com/wirelust/sonar/plugins/bitbucket/PullRequestFacade.java:212-214 | the comment indexed at (path, line) is the last own comment anchored there |
| ReviewComments.LoadOnlyOwn | src/main/java/com/wirelust/sonar/plugins/bitbucket/PullRequestFacade.java:198-202 | loading the whole list equals loading only the acting user's comments: other users' comments have no effect |
| ReviewComments.LoadHoldsOwnComments | src/main/java/com/wirelust/sonar/plugins/bitbucket/PullRequestFacade.java:198-214 | every comment in either map is one of the fetched comments of the acting user |
| Facade.PullRequestFacade.LoadExistingReviewComments | src/main/java/com/wirelust/sonar/plugins/bitbucket/PullRequestFacade.java:193-216 | the loop leaves the two maps equal to `Load` of the fetched comments and changes nothing else |
| Facade.PullRequestFacade.AddExistingReviewComment | src/main/java/com/wirelust/sonar/plugins/bitbucket/PullRequestFacade.java:203-214 | one own comment is marked for deletion and, with a path, indexed at its anchor |
| Facade.IndexMembership | src/main/java/com/wirelust/sonar/plugins/bitbucket/PullRequestFacade.java:270-279 | over the built index, `hasFile` holds for every file of the pull request and `hasFileLine` exactly for the lines its patch shows (none without a patch) |
| Facade.PullRequestFacade.CreateOrUpdateReviewCommentAsWritten | src/main/java/com/wirelust/sonar/plugins/bitbucket/PullRequestFacade.java:281-298 | as written: looks up the patch position of the line; a found comment leaves the deletion map and gets `body` as markup only when its markup is non-null and differs; otherwise neither map changes |
| Facade.AsWrittenFindsByPosition | src/main/java/com/wirelust/sonar/plugins/bitbucket/PullRequestFacade.java:283-286 | as written, the lookup only finds a comment whose anchor equals the line's patch position |
| Facade.AsWrittenMissesOwnComment | src/main/java/com/wirelust/sonar/plugins/bitbucket/PullRequestFacade.java:283-286 | an own comment at line 10 of a file whose patch shows line 10 at position 1 is missed by the lookup as written and found by the lookup by line |
| Facade.PullRequestFacade.CreateOrUpdateReviewComment | src/main/java/com/wirelust/sonar/plugins/bitbucket/PullRequestFacade.java:281-298 | the same update, looking up the comment at the line itself; nothing else in the store changes |
| Facade.LookupByLineFindsLastOwn | src/main/java/com/wirelust/sonar/plugins/bitbucket/PullRequestFacade.java:285-286 | the lookup by line finds the last own comment anchored at that line |
| Facade.LookupByLineMissesOthers | src/main/java/com/wirelust/sonar/plugins/bitbucket/PullRequestFacade.java:198-202 | where the acting user has no comment, the lookup by line finds nothing, whatever other users wrote |
| Facade.PullRequestFacade.DeleteOutdatedComments | src/main/java/com/wirelust/sonar/plugins/bitbucket/PullRequestFacade.java:305-314 | the comments still marked are the ones to delete; the store is unchanged |
| Facade.PullRequestFacade.AddGlobalComment | src/main/java/com/wirelust/sonar/plugins/bitbucket/PullRequestFacade.java:329-336 | records the global comment; the store is unchanged |
| Facade.PullRequestFacade.ApprovePullRequest | src/main/java/com/wirelust/sonar/plugins/bitbucket/PullRequestIssuePostJob.java:80-81 | records the approval; the store and index are unchanged |
| Facade.PullRequestFacade.UnapprovePullRequest | src/main/java/com/wirelust/sonar/plugins/bitbucket/PullRequestIssuePostJob.java:82-83 | records the withdrawal of the approval; the store and index are unchanged |
| Report.Incremented | src/main/java/com/wirelust/sonar/plugins/bitbucket/GlobalReport.java:38-40 | increment adds one to the counter of exactly that severity and leaves the other four unchanged |
| Report.Step | src/main/java/com/wirelust/sonar/plugins/bitbucket/GlobalReport.java:126-139 | process never lowers a counter, adds one not-reported issue exactly when `reportedOnDiff` is false, only appends to the listing and keeps the listing bounds |
| Report.Run | src/main/java/com/wirelust/sonar/plugins/bitbucket/GlobalReport.java:131-137 | after any calls, at most 10 issues are listed, and no more are listed than were not reported |
| Report.RunCounts | src/main/java/com/wirelust/sonar/plugins/bitbucket/GlobalReport.java:126-127 | each counter is the number of processed issues of its severity |
| Report.RunNotReportedCount | src/main/java/com/wirelust/sonar/plugins/bitbucket/GlobalReport.java:128-129 | `notReportedIssueCount` is the number of calls with `reportedOnDiff` false |
| Report.RunListing | src/main/java/com/wirelust/sonar/plugins/bitbucket/GlobalReport.java:131-137 | the listing is the entries of the first 10 not-reported issues in call order, and the displayed count is min(10, not reported) |
| Report.RunTotal | src/main/java/com/wirelust/sonar/plugins/bitbucket/GlobalReport.java:141-143 | the counters add up to the number of process calls |
| Report.RunHasNewIssue | src/main/java/com/wirelust/sonar/plugins/bitbucket/GlobalReport.java:141-143 | the sum of the counters is positive exactly when process was called |
| Report.RunStatus | src/main/java/com/wirelust/sonar/plugins/bitbucket/GlobalReport.java:67-69 | the status is ERROR exactly when a blocker or critical issue was processed |
| Report.MarkdownHeader | src/main/java/com/wirelust/sonar/plugins/bitbucket/GlobalReport.java:75-88 | "no issues." with a zero total; otherwise "N issue" or "N issues" for N > 1, then one bullet per non-zero severity from BLOCKER to INFO, at least one |
| Report.MarkdownBulletsNonZero | src/main/java/com/wirelust/sonar/plugins/bitbucket/GlobalReport.java:119-124 | the per-severity bullets are those of the severities with a non-zero count, in order |
| Report.MarkdownOfRun | src/main/java/com/wirelust/sonar/plugins/bitbucket/GlobalReport.java:42-59 | the markdown is the summary, the "Watch the comments" line exactly when an issue was processed, and the note, listing and "... N more" line |
| Report.AsWrittenReportsZeroMore | src/main/java/com/wirelust/sonar/plugins/bitbucket/GlobalReport.java:52-56 | as written, exactly 10 issues off the diff end the markdown with "* ... 0 more" |
| Report.FullListingEndsMarkdown | src/main/java/com/wirelust/sonar/plugins/bitbucket/GlobalReport.java:48-57 | with the corrected guard, exactly 10 issues off the diff end the markdown with the full listing |
| Report.ExampleSeventeenMajor | src/test/java/com/wirelust/sonar/plugins/bitbucket/GlobalReportTest.java:92-128 | 17 major issues off the diff: "17 issues", a single major bullet, the first 10 entries in call order, then "* ... 7 more" |
| Report.ExampleOneOfEach | src/test/java/com/wirelust/sonar/plugins/bitbucket/GlobalReportTest.java:68-89 | one inline issue of each severity: "5 issues", five bullets from blocker to info, the watch line and no listing |
| Report.StatusDescriptionCases | src/main/java/com/wirelust/sonar/plugins/bitbucket/GlobalReport.java:90-117 | "no issues" with a zero total; " no critical nor blocker" without either; otherwise critical then blocker, the first after " with " and the second after " and " |
| Report.GlobalReport.Increment | src/main/java/com/wirelust/sonar/plugins/bitbucket/GlobalReport.java:38-40 | the counter array becomes `Incremented` of the old one |
| Report.GlobalReport.Process | src/main/java/com/wirelust/sonar/plugins/bitbucket/GlobalReport.java:126-139 | the fields stay equal to the replay of all calls, this one appended |
| Report.GlobalReport.NotReported | src/main/java/com/wirelust/sonar/plugins/bitbucket/GlobalReport.java:128-138 | one more not-reported issue; it is listed, and the displayed count goes up, only while fewer than 10 are listed |
| Report.GlobalReport.NewIssues | src/main/java/com/wirelust/sonar/plugins/bitbucket/GlobalReport.java:71-73 | the number of processed issues of that severity |
| Report.GlobalReport.HasNewIssue | src/main/java/com/wirelust/sonar/plugins/bitbucket/GlobalReport.java:141-143 | true exactly when process was called at all |
| Report.GlobalReport.GetStatus | src/main/java/com/wirelust/sonar/plugins/bitbucket/GlobalReport.java:67-69 | ERROR exactly when a processed issue is a blocker or critical |
| Report.GlobalReport.FormatForMarkdown | src/main/java/com/wirelust/sonar/plugins/bitbucket/GlobalReport.java:42-59 | (corrected, Findings row 2) the summary, the watch line exactly when an issue was processed, and the listing of the first 10 issues off the diff, followed by the count of the rest only when more than 10 were off the diff |
| Report.GlobalReport.GetStatusDescription | src/main/java/com/wirelust/sonar/plugins/bitbucket/GlobalReport.java:61-65 | the status description of the counters, whose total is the number of processed issues |
| Cache.LastPut | src/main/java/com/wirelust/sonar/plugins/bitbucket/InputFileCache.java:43-46 | absent exactly when the key was never put; otherwise the value of the last put under that key |
| Cache.TableLastPut | src/main/java/com/wirelust/sonar/plugins/bitbucket/InputFileCache.java:39-46 | the table answers every key with its last put, and has no entry for a key never put |
| Cache.InputFileCache.Put | src/main/java/com/wirelust/sonar/plugins/bitbucket/InputFileCache.java:39-41 | the key now maps to the file, and every other key keeps its entry |
| Cache.InputFileCache.ByKey | src/main/java/com/wirelust/sonar/plugins/bitbucket/InputFileCache.java:43-46 | the file of the last put under the key, or null when none was |
| Configuration.GetString | src/main/java/com/wirelust/sonar/plugins/bitbucket/BitBucketPluginConfiguration.java:54 | a value exactly for a present key, the key's value |
| Configuration.LastSshSplit | src/main/java/com/wirelust/sonar/plugins/bitbucket/BitBucketPluginConfiguration.java:42 | the greedy leading `.*` of the SSH pattern: the rightmost split point at which the pattern matches, or none |
| Configuration.ParseGitUrl | src/main/java/com/wirelust/sonar/plugins/bitbucket/BitBucketPluginConfiguration.java:98-108 | a capture contains '/' and is exactly what precedes the closing ".git" |
| Configuration.ParseGitUrlNone | src/main/java/com/wirelust/sonar/plugins/bitbucket/BitBucketPluginConfiguration.java:98-108 | null exactly when neither the SSH nor the HTTP(S) pattern matches |
| Configuration.ParseGitUrlNeedsSuffix | src/main/java/com/wirelust/sonar/plugins/bitbucket/BitBucketPluginConfiguration.java:42-43 | a text not ending in ".git" is not a git URL |
| Configuration.SshCapture | src/main/java/com/wirelust/sonar/plugins/bitbucket/BitBucketPluginConfiguration.java:42 | `…@bitbucket.com:X.git` with X holding a '/' and no '@' captures X |
| Configuration.HttpCapture | src/main/java/com/wirelust/sonar/plugins/bitbucket/BitBucketPluginConfiguration.java:43 | `http(s)://bitbucket.com/X.git` with X holding a '/' captures X |
| Configuration.RepositoryRaw | src/main/java/com/wirelust/sonar/plugins/bitbucket/BitBucketPluginConfiguration.java:51-69 | with the repository setting the result is present, verbatim when unparseable; without it, present exactly when a source link parses |
| Configuration.RepositoryRawPriority | src/main/java/com/wirelust/sonar/plugins/bitbucket/BitBucketPluginConfiguration.java:51-69 | the repository setting wins over the developer link, which wins over the plain link |
| Configuration.UnparseableLinks | src/main/java/com/wirelust/sonar/plugins/bitbucket/BitBucketPluginConfiguration.java:60-67 | links that are not Bitbucket git URLs give no raw name, no repository and no owner |
| Configuration.Pieces | src/main/java/com/wirelust/sonar/plugins/bitbucket/BitBucketPluginConfiguration.java:75 | the parts between separators: at least one, none containing the separator |
| Configuration.JoinPieces | src/main/java/com/wirelust/sonar/plugins/bitbucket/BitBucketPluginConfiguration.java:75 | joining the parts with the separator gives the text back |
| Configuration.DropTrailingEmpty | src/main/java/com/wirelust/sonar/plugins/bitbucket/BitBucketPluginConfiguration.java:75 | `split` drops exactly the trailing empty parts |
| Configuration.RepositoryOwnerSpec | src/main/java/com/wirelust/sonar/plugins/bitbucket/BitBucketPluginConfiguration.java:84-95 | the owner is the text before the first '/'; null without a raw name, without '/', or when every part is empty |
| Configuration.RepositorySpec | src/main/java/com/wirelust/sonar/plugins/bitbucket/BitBucketPluginConfiguration.java:71-82 | the repository is the text between the first and second '/'; null without a raw name, without '/', or with fewer than two parts |
| Configuration.OwnerAndName | src/main/java/com/wirelust/sonar/plugins/bitbucket/BitBucketPluginConfiguration.java:71-95 | a raw "owner/name" splits into that owner and that name |
| Configuration.ExampleScmLink | src/test/java/com/wirelust/sonar/plugins/bitbucket/BitBucketPluginConfigurationTest.java:49-50 | the SSH link of the test gives owner "SonarCommunity" and repository "bitbucket-integration" |
| Configuration.ExampleVerbatimSetting | src/test/java/com/wirelust/sonar/plugins/bitbucket/BitBucketPluginConfigurationTest.java:59-60 | a repository setting that is no git URL is split as it stands |
| Configuration.IsEnabled | src/main/java/com/wirelust/sonar/plugins/bitbucket/BitBucketPluginConfiguration.java:139-141 | enabled exactly when the pull-request setting is present |
| Configuration.ValueOrDefault | src/main/java/com/wirelust/sonar/plugins/bitbucket/BitBucketPluginConfiguration.java:152-158 | the configured value when present and non-empty, else the default |
| Configuration.CiSettings | src/main/java/com/wirelust/sonar/plugins/bitbucket/BitBucketPluginConfiguration.java:152-174 | ciKey, ciName and ciURL each give the configured value unless it is null or empty, and then their default |
| Configuration.CiNameSharesKeyDefault | src/main/java/com/wirelust/sonar/plugins/bitbucket/BitBucketPluginConfiguration.java:160-166 | unconfigured, ciName falls back to the same default key name as ciKey |
| PostJob.RouteCases | src/main/java/com/wirelust/sonar/plugins/bitbucket/PullRequestIssuePostJob.java:99-128 | an issue is skipped exactly when it is not new or its known file is not in the pull request; it goes inline exactly when its file is known, its line is present and `hasFileLine` holds |
| PostJob.Append | src/main/java/com/wirelust/sonar/plugins/bitbucket/PullRequestIssuePostJob.java:118-125 | the body at (file, line), empty when new, is extended by the text |
| PostJob.MarkupAfterUntouched | src/main/java/com/wirelust/sonar/plugins/bitbucket/PullRequestFacade.java:285-294 | a comment that no review-comment call finds keeps its markup |
| PostJob.MarkupAfterNull | src/main/java/com/wirelust/sonar/plugins/bitbucket/PullRequestFacade.java:289 | a comment with a null markup keeps it null through any review-comment calls |
| PostJob.MarkupAfterSome | src/main/java/com/wirelust/sonar/plugins/bitbucket/PullRequestFacade.java:289-292 | a non-null markup stays non-null through any review-comment calls |
| PostJob.MarkupAfterLast | src/main/java/com/wirelust/sonar/plugins/bitbucket/PullRequestFacade.java:289-292 | a comment with a non-null markup ends with the body of the last call that finds it |
| PostJob.MarkupAfterAppend | src/main/java/com/wirelust/sonar/plugins/bitbucket/PullRequestFacade.java:289-292 | review-comment calls for one sequence of locations and then for another leave the same markup as the calls for the two concatenated |
| PostJob.AppendElsewhere | src/main/java/com/wirelust/sonar/plugins/bitbucket/PullRequestIssuePostJob.java:118-125 | appending at one location leaves every other location unchanged |
| PostJob.Kept | src/main/java/com/wirelust/sonar/plugins/bitbucket/PullRequestIssuePostJob.java:99-111 | no issue it keeps is one the job skips |
| PostJob.ReportedIsKept | src/main/java/com/wirelust/sonar/plugins/bitbucket/PullRequestIssuePostJob.java:113-130 | `report.process` is called once per kept issue, in order, with `reportedInline` true exactly for inline ones |
| PostJob.PendingIsBodies | src/main/java/com/wirelust/sonar/plugins/bitbucket/PullRequestIssuePostJob.java:118-125 | a (file, line) has a body exactly when an issue was routed there, and the body is those issues' renderings, each followed by "\n", in order |
| PostJob.PendingInPullRequest | src/main/java/com/wirelust/sonar/plugins/bitbucket/PullRequestIssuePostJob.java:107-111 | every file with a body is in the pull request |
| PostJob.ReportTotal | src/main/java/com/wirelust/sonar/plugins/bitbucket/PullRequestIssuePostJob.java:97-131 | the report counts exactly the kept issues |
| PostJob.ExamplePuts | src/test/java/com/wirelust/sonar/plugins/bitbucket/PullRequestIssuePostJobTest.java:72-80 | the test's two `DefaultInputFile`s, rendered as cache puts under their component keys, answer those keys; the directory and project keys have no file |
| PostJob.ExampleSevenIssues | src/test/java/com/wirelust/sonar/plugins/bitbucket/PullRequestIssuePostJobTest.java:70-95 | of the test's seven issues, the not-new one and the one on a file outside the pull request are skipped, one goes inline, and the report counts 5 |
| PostJob.PullRequestIssuePostJob.ProcessIssues | src/main/java/com/wirelust/sonar/plugins/bitbucket/PullRequestIssuePostJob.java:92-134 | the loop returns the bodies `PendingOf` the issues and feeds the report exactly the calls `ReportedOf` them |
| PostJob.PullRequestIssuePostJob.ProcessIssue | src/main/java/com/wirelust/sonar/plugins/bitbucket/PullRequestIssuePostJob.java:98-131 | one issue: skipped, or appended inline and reported, or only reported, as `RouteOf` says |
| PostJob.PullRequestIssuePostJob.AddInline | src/main/java/com/wirelust/sonar/plugins/bitbucket/PullRequestIssuePostJob.java:118-125 | the nested map update appends the rendering and "\n" at (file, line) |
| PostJob.PullRequestIssuePostJob.UpdateReviewComments | src/main/java/com/wirelust/sonar/plugins/bitbucket/PullRequestIssuePostJob.java:136-143 | (corrected, Findings row 1) one `createOrUpdateReviewComment` per (file, line) key, with that key's body, in some enumeration of the keys; exactly the comments found by line at those keys leave the deletion map; every indexed comment's markup is `MarkupAfter` the calls in that order, so comments no key finds keep theirs |
| PostJob.PullRequestIssuePostJob.UpdateFileComments | src/main/java/com/wirelust/sonar/plugins/bitbucket/PullRequestIssuePostJob.java:138-141 | the same for the lines of one file, calls, deletions and markups included |
| PostJob.PullRequestIssuePostJob.UpdateLineComment | src/main/java/com/wirelust/sonar/plugins/bitbucket/PullRequestIssuePostJob.java:139-140 | (corrected, Findings row 1) one call for one key; the comment found by line there, if any, leaves the deletion map and takes `body` as markup when its markup is non-null and differs; every other comment keeps its markup |
| PostJob.PullRequestIssuePostJob.ExecuteOn | src/main/java/com/wirelust/sonar/plugins/bitbucket/PullRequestIssuePostJob.java:63-85 | (corrected, Findings rows 1 and 2) the report has processed exactly the kept issues; the facade receives, in order: the comment updates, deleteOutdatedComments, one global comment (the markdown when an issue was reported, else "SonarQube reported no issues"), then approve exactly when `isApproved` holds of the final report's fields and the threshold, else unapprove; every indexed comment's markup is `MarkupAfter` the comment updates |
| PostJob.PullRequestIssuePostJob.SummaryText | src/main/java/com/wirelust/sonar/plugins/bitbucket/PullRequestIssuePostJob.java:74-78 | (corrected, Findings row 2) the report's markdown when an issue was processed, else "SonarQube reported no issues" |
| PostJob.PullRequestIssuePostJob.PostSummary | src/main/java/com/wirelust/sonar/plugins/bitbucket/PullRequestIssuePostJob.java:71-84 | deleteOutdatedComments, the global comment of the report, then approve exactly when `isApproved` holds of the report's fields and the threshold, else unapprove, in that order |

## Findings

| source | as written | input that shows it | evidently intended | confidence | as-written member | corrected member |
|---|---|---|---|---|---|---|
| src/main/java/com/wirelust/sonar/plugins/bitbucket/PullRequestFacade.java:283-286 | existing comments are indexed by their anchor line in the new file (line 213), but looked up under the patch position of the issue's line | an own comment at line 10 of a.go, whose patch shows line 10 at position 1: the lookup searches anchor 1 and misses it, so the comment stays marked for deletion | look the comment up under the line itself, as it was indexed | medium, not executed | Facade.AsWrittenMissesOwnComment | Facade.LookupByLineFindsLastOwn |
| src/main/java/com/wirelust/sonar/plugins/bitbucket/GlobalReport.java:52-56 | the "more" line is added when at least `MAX_GLOBAL_ISSUES` issues were not reported | exactly 10 issues off the diff: all 10 are listed and "* ... 0 more" follows | add the line only when issues were left out (more than 10) | medium, not executed | Report.AsWrittenReportsZeroMore | Report.FullListingEndsMarkdown |

The rest of the model uses the corrected members:
`PullRequestIssuePostJob` calls `CreateOrUpdateReviewComment`, and
`FormatForMarkdown` is `Formatted`.

## Left out

- HTTP, authentication and JSON: `init`, the API clients, the fetch of the
  comment listing and the Jackson and RestEasy setup are left out. The fetched
  comments and the pull request's files are inputs (`seq<Comment>`,
  `seq<PrFile>`). The source reads a single `CommentList` and iterates its
  `getValues()` (PullRequestFacade.java:194-198), with no paging, so comments
  past the first page are never loaded; the model's comment sequence stands
  for that one page.
- The source never builds the position index: the assignment
  `patchPositionMappingByFile = mapPatchPositionsToLines(pullRequest)` in
  `init` is commented out (PullRequestFacade.java:122-126), so the field stays
  null and `hasFile`, `hasFileLine` and `createOrUpdateReviewComment` would
  throw a NullPointerException on the first new issue with a known file.
  `mapPatchPositionsToLines` also takes a GitHub pull request (lines
  223-225). The `PullRequestFacade` constructor takes the index that
  `MapPatchPositionsToLines` builds, that is, the model supplies what the
  commented-out call would compute; the null field and its exception are not
  modelled.
- Line splitting of the patch text is left out. A patch is given as its
  sequence of lines.
- `getPath` (the host's `PathResolver`) is left out. An input file carries its
  path relative to the Git root. `findGitBaseDir` touches the file system and
  is left out.
- `MarkDownUtils` is not part of this model. Its renderings are functions
  that the caller supplies.
- `isApproved(threshold)`, `getWebUrl`, `approvePullRequest` and
  `unapprovePullRequest` do not exist in `GlobalReport.java` or
  `PullRequestFacade.java`. `isApproved` is a function parameter of `ExecuteOn`, applied to the
  final report's fields and the threshold setting (`config.issueThreshold()`,
  passed in). `getWebUrl` is a function parameter, and approve and unapprove
  are recorded calls. What `isApproved` decides for a given threshold is
  therefore not modelled; that the decision is taken on the final report is.
- The TODO stubs `deleteOutdatedComments`, `addGlobalComment`,
  `removePreviousGlobalComments`, `createOrUpdateSonarQubeStatus` and
  `getGithubUrl` do nothing in the source. The first two only record that
  they were called. The others are not modelled.
- Creating a new review comment is a TODO in the source. When no comment
  exists at the key, the model changes nothing.
- PatchIndex.ProcessPatch: returns the extended map instead of putting into
  the caller's map in place. On failure the caller's map is discarded, so the
  partial entries Java leaves behind are not modelled.
- PostJob.PullRequestIssuePostJob.UpdateReviewComments: HashMap iteration
  order is not modelled. The calls are proved for some enumeration of the
  keys, each key once.
- The global report counts issues with unbounded integers. Java's `int`
  counters would wrap only after 2^31 issues. The patch line counter does
  model the 32-bit wrap (`Wrap32`), and a header whose start does not fit an
  int fails, as `Integer.parseInt` does.
- `IssueComparator` and the sorting of issues are not part of this model.
  The job iterates the issues in the order given.
- `pullRequestNumber`, `reportNotInDiff`, `login`, `password`, `endpoint`,
  `issueThreshold` and the other plain setting getters only read one setting and are left out.
- The plugin lifecycle (`BitBucketPlugin`, `PullRequestProjectBuilder`,
  `InputFileCacheSensor`) and `V2DAO` are host or transport glue and are left
  out.

# PaddleLens core, modelled in Dafny

PaddleLens collects GitHub data about the PaddlePaddle organisation and derives contributor and governance statistics from it. This project models the logic at the centre of that pipeline and proves properties of the model:

- **Identity clustering** (`Affiliation`, backend/utils/dvpr_affliation.py). Commits are grouped by normalised e-mail. Groups that share a normalised name of two or more words are then bridged. The surviving groups are merged pass by pass until no two share an e-mail. Finally, the names of every cluster without an organisation e-mail are listed as community developers.
- **Incremental store** (`Store`, `Commits`, `ModuleCounts`, `Batches`, backend/update_data.py):
  - the repository, PR and issue lists are merged into the stored ones, keyed by full name or number, with the stored classification label kept;
  - new commits are appended by `sha`;
  - each module's share of the changes is counted;
  - the synchronisation range is cut into week-long batches, and the checkpoint moves after each batch that succeeds.
- **Paginated GraphQL fetches** (`Pagination`, `PrFetch`, `IssueFetch`, `OrgFetch`, backend/get_data/). Each `while has_next` loop sends requests with a cursor and waits out an exhausted rate limit. It stops on `errors` and on missing data, each loop in its own way, and turns nodes into records. After the loop, enrichment tasks fill in per-record detail.
- **Git history extraction** (`GitHistory`, governance/git_history_extractor.py):
  - `git log` output is parsed into commit entries;
  - keyword-matching blocks are filtered;
  - renames are chased through file histories.
- **Governance analysis** (`Rules`, `Governance`, backend/collaboration/governance_analyzer.py):
  - the rules in force on an analysis day, as a tree in category order;
  - the PR and issue response times in the windows around that day;
  - the newcomer statistics of the half-open windows before and after it.

Shared modules:

- `Text` models the Python string operations the code relies on, over ASCII whitespace and ASCII letters: `strip`, `lower`, `split`, `join`, `in` and string comparison.
- `Dicts` models insertion-ordered Python dicts.
- `Records` holds the record shapes.

Each Python function that builds lists and dicts step by step becomes a Dafny `method` with the same loop. The method is proved against a specification function, and the properties are proved about that function as lemmas. `GovernanceAnalyzer` carries state between its calls, so it is a class.

Several things outside the model are parameters rather than code:

- network replies are a sequence of responses;
- "now" and the per-response clock readings are a sequence of integers;
- the classifiers (`get_pr_type`, `get_commit_type`, `get_domain`, `get_repo_readme`) are functions passed in, each of which may fail;
- `git log` output is a function from a path to its text, or to a failure.

## Model

| member | source | states |
|---|---|---|
| Store.CarryAllKeys | backend/update_data.py:33-36 | carrying stored domains changes neither the set of keys nor their insertion order |
| Store.CarryAllEntry | backend/update_data.py:33-36 | each listed record ends with the `domain` of the last stored repository of the same full name, and is untouched when there is none |
| Store.FillAllKeys | backend/update_data.py:38-42 | filling missing domains keeps the keys and their order |
| Store.FillAllEntry | backend/update_data.py:38-42 | over keys listed once, exactly the visited records are filled, each only when its domain is missing or empty |
| Store.MergedDictShape | backend/update_data.py:29-42 | the `repos_now` dict keeps the keys of the listing, in order of first listing, and stays well formed |
| Store.MergedDictEntry | backend/update_data.py:31-42 | each name holds its last listed record, with the stored domain carried over and computed only when still not truthy |
| Store.MergedRepos | backend/update_data.py:43 | the written list has one record per distinct listed name |
| Store.MergedRepoAt | backend/update_data.py:31-43 | the record at position i is the last listed record of the i-th distinct name, carried and filled |
| Store.MergedReposKeys | backend/update_data.py:31-43 | the written names are the listed names once each, in order of first listing |
| Store.MergedReposMeaning | backend/update_data.py:29-43 | names once each in order of first listing; every record is the last listed one with its domain carried from the store or computed |
| Store.UpdateRepos | backend/update_data.py:22-45 | the method's result is the merged list, with the order and per-record meaning above |
| Store.Untagged | backend/update_data.py:58-64 | a split never grows, and its items carry no `type` |
| Store.UntaggedMember | backend/update_data.py:58-64 | an item is in the split of tag t exactly when an incoming item tagged t has the same other fields |
| Store.SplitComplete | backend/update_data.py:58-64 | when every item is an issue or a pull request, the two splits together lose no item |
| Store.SplitByType | backend/update_data.py:58-64 | the loop yields the "Issue" split and the "PullRequest" split, in order, with `type` popped |
| Store.ReplaceAllKeys | backend/update_data.py:76-85 | replacing stored PRs changes neither keys nor order |
| Store.ReplaceAllEntry | backend/update_data.py:76-85 | a stored number holds its last incoming record, which takes the stored `type` or "others" |
| Store.UnstoredStored | backend/update_data.py:76-80 | `new_items` holds no number that is already stored |
| Store.UnstoredLast | backend/update_data.py:76-80 | for a number not stored, `new_items` ends with the same record as the whole batch |
| Store.UnstoredKeys | backend/update_data.py:76-80 | `new_items` contributes the same new numbers, in the same order, as the whole batch |
| Store.MergedPrDictShape | backend/update_data.py:71-102 | stored numbers keep their order and new numbers follow in order of first occurrence |
| Store.MergedPrEntry | backend/update_data.py:76-102 | each entry is keyed by its number and is the stored PR, the updated PR with the old `type`, or the new PR with its classified `type` |
| Store.MergedPrsMeaning | backend/update_data.py:67-104 | the written PR list has that order, and every record follows the three cases of the entry rule |
| Store.ReplaceStored | backend/update_data.py:76-85 | the first PR loop computes the stored dict with every stored number replaced, and `new_items` as the incoming PRs whose number is not stored, in order |
| Store.InsertClassified | backend/update_data.py:87-102 | the second PR loop inserts every new PR with the `type` the classifier gives, `"others"` when it fails |
| Store.MergePrs | backend/update_data.py:67-106 | the method's result is the merged PR list, with the order and per-record meaning above |
| Store.UpsertIsRekey | backend/update_data.py:117-123 | both branches of the issue loop do the same thing, so the merge is a re-keying of stored followed by incoming issues |
| Store.IssueEntry | backend/update_data.py:117-123 | each entry is keyed by its number, and is the last incoming issue of that number, else the stored one |
| Store.IssueDictShape | backend/update_data.py:110-125 | stored numbers first in their order, then new numbers in order of first occurrence |
| Store.MergedIssuesMeaning | backend/update_data.py:109-125 | the written issue list has that order, and an incoming issue always wins over the stored one |
| Store.MergeIssues | backend/update_data.py:109-127 | the method's result is the merged issue list, with the order and meaning above |
| Commits.Labelled | backend/update_data.py:147-156 | the classification task changes only `why_what_label`: it sets the label when the classifier returns one and leaves the commit as fetched when it fails |
| Commits.Unseen | backend/update_data.py:159-160 | the filter keeps exactly the batch commits whose `sha` is not stored |
| Commits.UnseenAppend | backend/update_data.py:160 | the filter keeps batch order |
| Commits.UnseenNone | backend/update_data.py:159-160 | a batch whose every `sha` is stored adds nothing |
| Commits.MergedMeaning | backend/update_data.py:158-161 | the stored commits stay a prefix in order; a commit is added exactly when it comes in with a `sha` not stored before |
| Commits.MergeIdempotent | backend/update_data.py:158-161 | merging the same batch twice gives the same store as merging it once |
| Commits.DuplicatesInBatchKept | backend/update_data.py:159-161 | a `sha` repeated inside one batch is kept as often as it occurs, since only stored `sha`s are filtered |
| Commits.LabelAll | backend/update_data.py:147-156 | every fetched commit is labelled, position by position |
| Commits.UnseenLabelled | backend/update_data.py:147-160 | labelling then filtering by stored `sha` gives the same list as filtering then labelling, so labelling does not change which commits are new |
| Commits.MergeCommits | backend/update_data.py:136-161 | the stored list grows by exactly the new labelled commits, with the stored prefix unchanged |
| ModuleCounts.ModuleKeyDeep | backend/update_data.py:181-184 | a path of three or more segments belongs to the module of its first two directories |
| ModuleCounts.ModuleKeyTwo | backend/update_data.py:181-186 | a path of two segments belongs to its first segment |
| ModuleCounts.ModuleKeyTop | backend/update_data.py:181-186 | a top-level file is its own module |
| ModuleCounts.PathsTouches | backend/update_data.py:177-187 | each commit adds exactly the touches of its own files |
| ModuleCounts.TouchesPositive | backend/update_data.py:177-187 | a module has a positive touch count exactly when some changed path belongs to it |
| ModuleCounts.TallyCounts | backend/update_data.py:176-187 | the counter holds a module exactly when some path belongs to it, and then holds the number of such paths |
| ModuleCounts.CountFiles | backend/update_data.py:179-187 | the inner loop extends the tally by one commit's files |
| ModuleCounts.CountModules | backend/update_data.py:176-187 | the `modules` dict holds exactly the touched modules, each with the number of changed paths in it |
| Batches.Windows | backend/update_data.py:208-212 | one window per value of `range(0, days, 7)` |
| Batches.WindowsShape | backend/update_data.py:205-212 | no windows for an empty or reversed range; otherwise they start at `since`, each ends where the next begins, the last ends at `until`, and each is non-empty and at most seven days long |
| Batches.WindowsCover | backend/update_data.py:208-210 | every day of the range lies in exactly one window, the one numbered (day - since) / 7 |
| Batches.CheckpointSucceeded | backend/update_data.py:215-233 | the checkpoint moves only to the end of a window whose steps all returned |
| Batches.CheckpointNoneSucceeded | backend/update_data.py:215-233 | when every batch fails, the checkpoint stays at `since` |
| Batches.LastSucceeds | backend/update_data.py:208-229 | when the last batch succeeds the checkpoint reaches `until`, even if an earlier batch failed and is never retried |
| Batches.UpdateAll | backend/update_data.py:196-233 | every window is attempted in order whatever happened before it, and the checkpoint is that of the windows that succeeded |
| Store.PrMergeIdempotent | backend/update_data.py:58-106 | re-merging the stored PRs (numbers listed once, each carrying a `type`) after the split pops `type` gives back the stored list, field for field |
| Store.IssueMergeIdempotent | backend/update_data.py:109-127 | merging the stored issues (numbers listed once) into themselves gives back the stored list |
| Affiliation.Union2 | backend/utils/dvpr_affliation.py:58-60 | merging a group into another unites its names and e-mails and adds its commit count |
| Affiliation.Identities | backend/utils/dvpr_affliation.py:17-23 | one normalised identity, or none, per commit |
| Affiliation.IdentityNormal | backend/utils/dvpr_affliation.py:3-23 | a commit yields an identity exactly when both author and e-mail are truthy, and both parts are then in normal form (stripped and lower-cased) |
| Affiliation.NoneIgnored | backend/utils/dvpr_affliation.py:20-21 | a skipped commit changes no count, e-mail set or name set |
| Affiliation.UncountedCommitIgnored | backend/utils/dvpr_affliation.py:20-21 | a commit without author or e-mail leaves every statistic of phase 1 as if it were absent |
| Affiliation.FoldKnown | backend/utils/dvpr_affliation.py:25-29 | an identity whose e-mail already owns a group adds its name and one commit to that group and keeps the fold invariant |
| Affiliation.FoldKnownEntry | backend/utils/dvpr_affliation.py:25-29 | the same step, described for one e-mail of the index |
| Affiliation.FoldNew | backend/utils/dvpr_affliation.py:30-37 | an identity with an unseen e-mail opens a new group with one commit, indexed under that e-mail |
| Affiliation.FoldNewEntry | backend/utils/dvpr_affliation.py:30-37 | the same step, described for one e-mail of the index |
| Affiliation.FoldSkip | backend/utils/dvpr_affliation.py:20-21 | a skipped commit keeps the fold invariant |
| Affiliation.GroupByEmail | backend/utils/dvpr_affliation.py:14-37 | phase 1 indexes exactly the e-mails seen, counts every valid commit once, loses no name or e-mail, and leaves no e-mail in two groups |
| Affiliation.FoldedOwned | backend/utils/dvpr_affliation.py:25-37 | after the fold every group is owned by some e-mail, and the groups share no e-mail |
| Affiliation.IndexRealNames | backend/utils/dvpr_affliation.py:40-45 | `name_to_indices` holds exactly the two-segment names, each with the indices of all groups that carry it |
| Affiliation.IndexGroup | backend/utils/dvpr_affliation.py:41-45 | adding group i extends the index by the qualifying names of that group only |
| Affiliation.HoldersSnoc | backend/utils/dvpr_affliation.py:41-45 | the holders of a name grow by i exactly when group i carries the name |
| Affiliation.PartnersViaAdd | backend/utils/dvpr_affliation.py:50-54 | the partners through a set of names grow by the holders of each added name |
| Affiliation.CollectPartners | backend/utils/dvpr_affliation.py:50-54 | `to_merge` holds exactly the other groups that share a two-segment name with group i |
| Affiliation.Survivors | backend/utils/dvpr_affliation.py:63 | the unmerged groups are at most as many as all groups |
| Affiliation.AbsorbPreserves | backend/utils/dvpr_affliation.py:55-61 | absorbing one group into another keeps the commit total, the name and e-mail sets of the live groups, and their disjointness |
| Affiliation.SurvivorsAgree | backend/utils/dvpr_affliation.py:63 | the surviving list has the counts, names, e-mails and disjointness of the live groups |
| Affiliation.AbsorbPartners | backend/utils/dvpr_affliation.py:55-61 | absorbing `to_merge` changes only group i and marks exactly the absorbed groups as merged |
| Affiliation.BridgeByName | backend/utils/dvpr_affliation.py:40-63 | phase 2 keeps commit total, names and e-mails, keeps disjointness, and a merged group's names and e-mails live on in a survivor; two groups sharing a real name are never both left untouched |
| Affiliation.PassJoin | backend/utils/dvpr_affliation.py:73-88 | a group with an indexed e-mail joins that e-mail's new group and all its e-mails are indexed there |
| Affiliation.PassOpen | backend/utils/dvpr_affliation.py:77-88 | a group with no indexed e-mail opens a new group of its own |
| Affiliation.MergePass | backend/utils/dvpr_affliation.py:68-91 | one pass keeps counts, names and e-mails, never grows the list, and leaves it as it is exactly when no two groups share an e-mail |
| Affiliation.MergeUntilStable | backend/utils/dvpr_affliation.py:66-91 | the while-changed loop ends with e-mail-disjoint groups, the same commit total, names and e-mails, and returns disjoint input unchanged |
| Affiliation.CommunityNameSetMember | backend/utils/dvpr_affliation.py:94-99 | a name is a community name exactly when a group without an organisation e-mail carries it |
| Affiliation.AppendNames | backend/utils/dvpr_affliation.py:98-99 | `extend` keeps the names so far as a prefix and adds each new name once |
| Affiliation.CommunityNames | backend/utils/dvpr_affliation.py:94-100 | the returned names are exactly those of community groups, one entry per name per group |
| Affiliation.CommunityDevelopers | backend/utils/dvpr_affliation.py:12-100 | the clusters are e-mail-disjoint, count every valid commit, keep every name and e-mail, and the community list holds exactly the names of non-organisation clusters |
| PrFetch.LocateStrict | backend/get_data/get_repo_prs.py:334-341 | the comments loop raises on a missing `data` key, ends on a null pull request, and otherwise reaches the connection |
| PrFetch.LocateLenient | backend/get_data/get_repo_prs.py:445-453 | the chained `.get` reads treat absent keys as empty and end the loop; only a null `data` or `repository` raises |
| PrFetch.LoginOf | backend/get_data/get_repo_prs.py:345-346 | a missing or null author gives no login |
| PrFetch.CommentPairs | backend/get_data/get_repo_prs.py:343-349 | the pairs never outnumber the nodes, and each pair has a truthy `createdAt` |
| PrFetch.CommentPairsAppend | backend/get_data/get_repo_prs.py:344-349 | the node loop keeps node order |
| PrFetch.CommentPairsKeepAll | backend/get_data/get_repo_prs.py:344-349 | when every node has a `createdAt`, every node gives its own pair, position by position |
| PrFetch.FileRecord | backend/get_data/get_repo_prs.py:459-465 | a file record copies path, additions and deletions, lower-cases the change type, and has `changes` equal to additions plus deletions |
| PrFetch.FileRecords | backend/get_data/get_repo_prs.py:455-466 | the records of a page never outnumber the edges and all keep the `changes` sum and lower-case status |
| PrFetch.FileRecordsAppend | backend/get_data/get_repo_prs.py:455-466 | the edge loop keeps edge order |
| PrFetch.FileRecordsCount | backend/get_data/get_repo_prs.py:456-458 | only edges without a node are skipped |
| PrFetch.ReviewerOf | backend/get_data/get_repo_prs.py:577 | a null author raises, an absent one gives no login |
| PrFetch.ReviewOf | backend/get_data/get_repo_prs.py:576-579 | one review comment gives exactly one pair with its own `createdAt`, and raises exactly when its author is null |
| PrFetch.ReviewPairs | backend/get_data/get_repo_prs.py:576-579 | a thread's comments raise exactly when some comment's author is null |
| PrFetch.ReviewPairsKeepAll | backend/get_data/get_repo_prs.py:576-579 | with no `createdAt` filter, every review comment gives its pair, in order |
| PrFetch.ThreadPairs | backend/get_data/get_repo_prs.py:574-575 | a null comment list raises, an absent one reads as empty |
| PrFetch.ThreadsPairs | backend/get_data/get_repo_prs.py:572-579 | the page's thread loop succeeds exactly when every thread does |
| PrFetch.ThreadsPairsAppend | backend/get_data/get_repo_prs.py:573-579 | flattening two runs of threads is flattening each, in order |
| PrFetch.ShaOf | backend/get_data/get_repo_prs.py:684-686 | a null `commit` raises; otherwise at most one oid is kept, and only a non-empty one |
| PrFetch.Shas | backend/get_data/get_repo_prs.py:682-686 | a page of commit nodes raises exactly when some node's `commit` is null |
| PrFetch.ShasKept | backend/get_data/get_repo_prs.py:682-686 | the kept oids are non-empty and never more than the nodes |
| PrFetch.ShasAppend | backend/get_data/get_repo_prs.py:683-686 | the node loop keeps node order |
| PrFetch.ErrorsPolicy | backend/get_data/get_repo_prs.py:330-332 | an `errors` payload ends the comments loop keeping what it has, while the files, reviews and commits loops discard everything (lines 441-443, 559-561, 669-671) |
| PrFetch.MissingData | backend/get_data/get_repo_prs.py:334 | a reply without `data` makes the comments loop raise, while the files loop (line 445) stops quietly |
| PrFetch.RateLimitRetries | backend/get_data/get_repo_prs.py:316-328 | an exhausted rate limit retries after the reset time plus five seconds, never a negative wait |
| PrFetch.NullPullRequestEnds | backend/get_data/get_repo_prs.py:334-337 | a null pull request ends the comments loop, and the files loop (lines 445-448), quietly |
| PrFetch.CommentsPage | backend/get_data/get_repo_prs.py:339-353 | an accepted comments page contributes exactly the pairs of its nodes, none when `nodes` is missing, and a `pageInfo` without `hasNextPage` ends the loop |
| PrFetch.FilesPageInfoRequired | backend/get_data/get_repo_prs.py:468 | a files object without `pageInfo` raises KeyError |
| PrFetch.ReviewsPage | backend/get_data/get_repo_prs.py:568-583 | a review page is accepted exactly when none of its threads, comment lists or comment authors is null, and then contributes their pairs in order |
| PrFetch.GetPrComments | backend/get_data/get_repo_prs.py:251-355 | the loop never discards; its result is the items of the accepted pages up to the stop, and each comment has a `createdAt` |
| PrFetch.CommentsCreated | backend/get_data/get_repo_prs.py:343-349 | every comment collected across pages has a truthy `createdAt` |
| PrFetch.GetPrFiles | backend/get_data/get_repo_prs.py:357-472 | an `errors` reply gives an empty list; otherwise the result is the records of the accepted pages up to the stop |
| PrFetch.GetPrReviews | backend/get_data/get_repo_prs.py:474-585 | as for files, over review-comment pairs |
| PrFetch.GetPrCommits | backend/get_data/get_repo_prs.py:587-692 | as for files, over commit oids |
| PrFetch.Present | backend/get_data/get_repo_prs.py:200 | keeps exactly the non-null logins and never more entries than authors |
| PrFetch.PresentAppend | backend/get_data/get_repo_prs.py:200 | the filter works node by node, so the kept logins stay in node order |
| PrFetch.PresentCount | backend/get_data/get_repo_prs.py:200 | each login is kept as often as an author with it occurs, so duplicates stay |
| PrFetch.PrRecordOf | backend/get_data/get_repo_prs.py:185-205 | the record keeps the commit oids; `comment_by` is the ordered list of non-null comment logins, duplicates included; `review_by` holds exactly the non-null review-comment logins |
| PrFetch.PrInfoAsWritten | backend/get_data/get_repo_prs.py:175-214 | a non-200 status gives the request-failure record, and no path returns the handler's error record, because the handler itself raises |
| PrFetch.PrInfo | backend/get_data/get_repo_prs.py:175-214 | with the handler fixed: never raises, returns the PR record exactly for a 200 reply whose `data`, `repository` and `pullRequest` are present, and otherwise an error record for `pr_num` |
| PrFetch.PrInfoHandlerRaises | backend/get_data/get_repo_prs.py:208-214 | an error-only reply makes the as-written function raise where the fixed one returns its error record; otherwise they agree |
| IssueFetch.Candidates | backend/get_data/get_repo_issues.py:199-202 | the candidate numbers are exactly 1 to `latest` without the PR numbers, strictly increasing |
| IssueFetch.IssueCandidates | backend/get_data/get_repo_issues.py:194-202 | with no listed issue `issue_num_now` stays 0 and there are no candidates; otherwise as above for the newest listed number |
| IssueFetch.LocateIssue | backend/get_data/get_repo_issues.py:302-309 | the guarded lookup never raises: a lookup that would raise ends the loop, and otherwise it finds what the chained `.get` reads find |
| IssueFetch.IssueCommentsRaise | backend/get_data/get_repo_issues.py:284-324 | the issue-comments loop raises exactly on a null `data`, ends on a null `repository`, and never discards what it has |
| IssueFetch.GetIssueComments | backend/get_data/get_repo_issues.py:218-326 | the result is the pairs of the accepted pages up to the stop, each with a truthy `createdAt` |
| IssueFetch.ClosedBy | backend/get_data/get_repo_issues.py:446 | `closed_by` is None without a closing event and the first event's actor login otherwise; a null actor raises |
| IssueFetch.IssueRecord | backend/get_data/get_repo_issues.py:445-461 | an issue node gives its record exactly when `closed_by` can be read; the record is tagged "Issue" and carries number, repo, user, closer and labels |
| IssueFetch.PullRecord | backend/get_data/get_repo_issues.py:462-479 | a PR record is tagged "PullRequest"; absent `merged` reads False, absent counts 0, and a missing or null `mergedBy` gives None |
| IssueFetch.SearchRecord | backend/get_data/get_repo_issues.py:444-483 | a PR node adds its record, an issue node its record or raises, and any other typename adds nothing |
| IssueFetch.SearchRecords | backend/get_data/get_repo_issues.py:444-484 | a page of nodes raises exactly when some node does |
| IssueFetch.SearchParts | backend/get_data/get_repo_issues.py:444-484 | the per-node results, position by position |
| IssueFetch.Kept | backend/get_data/get_repo_issues.py:480-481 | only issue and PR nodes are kept |
| IssueFetch.SearchRecordsKept | backend/get_data/get_repo_issues.py:444-484 | every kept node gives exactly one record, in order, with the node's number and a tag naming its typename |
| IssueFetch.LocateSearch | backend/get_data/get_repo_issues.py:440-441 | the search object is found exactly when `data` and `search` are present; otherwise subscripting `pageInfo` raises |
| IssueFetch.SearchPolicy | backend/get_data/get_repo_issues.py:436-441 | the search never waits on the rate limit and never discards: `errors` ends it keeping what it has, a null `data` raises |
| IssueFetch.SearchPage | backend/get_data/get_repo_issues.py:440-487 | an accepted page gives the records of its nodes and moves the cursor to `endCursor` while `hasNextPage` is true |
| IssueFetch.Enrich | backend/get_data/get_repo_issues.py:492-499 | an issue gets `comment_by`; a PR gets `commits`, `files`, `comment_by` and `review_by` in that order, each only when it and every earlier fetch succeeded; nothing else changes |
| IssueFetch.EnrichAll | backend/get_data/get_repo_issues.py:501-511 | each task writes only its own record, and a failed task does not stop the others |
| IssueFetch.UpdateRepoIssues | backend/get_data/get_repo_issues.py:328-512 | the search loop never discards; when it finishes every record it found is enriched, otherwise the records collected so far are the result |
| Pagination.Max0 | backend/get_data/get_repo_prs.py:325 | `max(x, 0)`: never negative, and either zero or x |
| Pagination.RateGate | backend/get_data/get_repo_prs.py:316-328 | a null `data` raises; an exhausted limit with a reset time holds for a non-negative wait that ends five seconds after the reset |
| Pagination.ReadSlot | backend/get_data/get_repo_prs.py:339-353 | reading a present member gives its value; what reading an absent or null one does depends on the access style (subscript, `.get`, `.get` with default, `or {}`) |
| Pagination.NodeList | backend/get_data/get_repo_prs.py:343 | a node list is read, or the read raised |
| Pagination.NextPage | backend/get_data/get_repo_prs.py:351-353 | `has_next` is true only when `hasNextPage` is true, the cursor is the page's `endCursor`, and `.get` reads never raise |
| Pagination.Connection | backend/get_data/get_repo_prs.py:339-341 | `if not conn: break` continues exactly on a present, non-empty connection object |
| Pagination.PageStep | backend/get_data/get_repo_prs.py:316-353 | the loop body checks the rate gate first, then `errors`, then the connection; a page is accepted only when all three pass |
| Pagination.Steps | backend/get_data/get_repo_prs.py:301-314 | one step per response: a transport failure sleeps two seconds and retries, a reply goes through the loop body |
| Pagination.Concat | backend/get_data/get_repo_prs.py:573-579 | concatenating per-node results succeeds exactly when each node does |
| Pagination.ConcatAppend | backend/get_data/get_repo_prs.py:573-579 | concatenation keeps order |
| Pagination.PrefixStep | backend/get_data/get_repo_prs.py:301-353 | one more step adds its own items to the output and its own sleep to the sleeps |
| Pagination.Sent | backend/get_data/get_repo_prs.py:301-353 | one cursor per request sent |
| Pagination.SentAt | backend/get_data/get_repo_prs.py:301-353 | the j-th request carries the cursor the earlier steps left |
| Pagination.SentChain | backend/get_data/get_repo_prs.py:297-353 | the first request has no cursor; a retry re-sends the same cursor and an accepted page moves it to that page's `endCursor` |
| Pagination.Paginate | backend/get_data/get_repo_prs.py:299-355 | the `while has_next` loop sends requests until the first step that ends it, with the cursor chaining above; it returns the collected items (none when discarded) and the sleeps taken, and says whether it finished, raised, was discarded or ran out of responses |
| Pagination.RunShape | backend/get_data/get_repo_prs.py:301-353 | the requests end at the first step that ends the loop, and only the last of them may end it |
| Pagination.RequestLoop | backend/get_data/get_repo_prs.py:299-355 | the loop, on the steps the responses make: it sends exactly the requests up to the first step that ends it, with the cursors, items, sleeps and outcome those steps give |
| Pagination.CollectedAppend | backend/get_data/get_repo_prs.py:344-349 | the output of consecutive runs of steps is the concatenation of their outputs |
| Pagination.WaitsAppend | backend/get_data/get_repo_prs.py:311-314 | the sleeps of consecutive runs of steps concatenate |
| Pagination.RetryCollectsNothing | backend/get_data/get_repo_prs.py:311-328 | a retried request adds nothing to the output, so no page is skipped or collected twice, and adds exactly its own sleep |
| Pagination.CollectedPages | backend/get_data/get_repo_prs.py:344-349 | the output is the concatenation of the accepted pages' items |
| OrgFetch.RepoRecord | backend/get_data/get_org_repos.py:167-180 | the record copies name, language and topics of its node and has no `watchers_count` or `domain` yet |
| OrgFetch.RepoRecords | backend/get_data/get_org_repos.py:158-184 | the records never outnumber the nodes; none is private and none was created after the `until` bound |
| OrgFetch.RepoRecordsAppend | backend/get_data/get_org_repos.py:158-184 | the node loop keeps node order |
| OrgFetch.RepoRecordsMember | backend/get_data/get_org_repos.py:158-166 | a node's record is emitted exactly when the node is public and not created after the bound |
| OrgFetch.RepoRecordsNoUnlisted | backend/get_data/get_org_repos.py:158-166 | a skipped node gives no record |
| OrgFetch.LocateOrg | backend/get_data/get_org_repos.py:150-156 | a missing `data` or an absent, null or empty `organization` ends the loop; an absent `repositories` raises |
| OrgFetch.OrgPolicy | backend/get_data/get_org_repos.py:132-153 | the org loop keeps its partial listing on `errors`, retries on an exhausted rate limit, stops on a missing organization, and never discards |
| OrgFetch.OrgPage | backend/get_data/get_org_repos.py:155-186 | a page with all members present is accepted with the listed repositories of its nodes and the page's cursor |
| OrgFetch.WatchersFrom | backend/get_data/get_org_repos.py:190-200 | `watchers_count` is `subscribers_count` on success, 0 when absent, None when null, and 0 on any failure |
| OrgFetch.FillWatchers | backend/get_data/get_org_repos.py:202-211 | each detail task sets only its own record's `watchers_count`, to what `WatchersFrom` gives |
| OrgFetch.GetOrgRepos | backend/get_data/get_org_repos.py:55-213 | the listing loop never discards and never lists a private repository; when it finishes every listed record gets its watcher count |
| OrgFetch.ListedPublic | backend/get_data/get_org_repos.py:158-161 | no private repository is collected across pages |
| GitHistory.RenamedFromFirst | governance/git_history_extractor.py:17-23 | `find_renamed_from` returns the old path of the first line that records a rename of `path`, and None exactly when no line does |
| GitHistory.RenameLine | governance/git_history_extractor.py:18-22 | a line `R<score>\t<source>\t<path>` with tab-free parts and no trailing blank names `source` |
| GitHistory.RenameSourceOf | governance/git_history_extractor.py:19-22 | a stripped `R` line with a tab that splits into three parts, the third being `path`, names its second part |
| GitHistory.RenameLineStripped | governance/git_history_extractor.py:20 | stripping leaves a rename line that has no surrounding blanks as it is |
| GitHistory.RenameLineParts | governance/git_history_extractor.py:20 | splitting on tabs separates the score and the source from the rest |
| GitHistory.RunFromAppend | governance/git_history_extractor.py:40-59 | the line loop over two runs of lines is the loop over the second run from the state the first one left, and stops once `line.split()[1]` raises |
| GitHistory.ExtractGitHistory | governance/git_history_extractor.py:25-66 | the imperative line loop and its final flush compute the history the loop-step function describes, or the git-failure result |
| GitHistory.KindsDisjoint | governance/git_history_extractor.py:41-59 | the line kinds tested by the branches exclude one another |
| GitHistory.HasDiffSnoc | governance/git_history_extractor.py:56-57 | a body has reached its diff exactly when an earlier line or the new one is a `diff --git` header |
| GitHistory.BodyStep | governance/git_history_extractor.py:49-59 | a line that is not a `commit ` line stays inside the open entry |
| GitHistory.BodyRun | governance/git_history_extractor.py:49-59 | inside a section the loop collects exactly the section's fields: last author, last date, last message before the diff, and the lines after the first diff header except `Author: `, `Date: ` and further `diff --git` lines, which earlier branches take |
| GitHistory.Entries | governance/git_history_extractor.py:40-64 | one reported entry per section, in order |
| GitHistory.EntriesSnoc | governance/git_history_extractor.py:40-64 | the entries of a further section follow the earlier ones |
| GitHistory.FirstHeader | governance/git_history_extractor.py:41-48 | the first `commit ` line opens an entry with the second token as its `commit` |
| GitHistory.NextHeader | governance/git_history_extractor.py:41-48 | a later `commit ` line reports the open entry with its joined diff and opens the next, resetting the diff state |
| GitHistory.NextHeaderClose | governance/git_history_extractor.py:62-64 | the final flush reports the last open entry |
| GitHistory.SectionsRun | governance/git_history_extractor.py:40-59 | after a log of well-formed sections the last section is open and every earlier one has been reported |
| GitHistory.ParseSections | governance/git_history_extractor.py:34-66 | a log of well-formed sections parses into one entry per section, in order, with each section's fields |
| GitHistory.FlattenSnoc | governance/git_history_extractor.py:40-41 | a further section adds its header and body at the end of the log |
| GitHistory.FlattenExtendLast | governance/git_history_extractor.py:40-41 | a further line of the last section is a further line of the log |
| GitHistory.SectionsFlatten | governance/git_history_extractor.py:40-41 | a log that starts with a `commit ` line is the concatenation of its sections |
| GitHistory.SectionsHeaders | governance/git_history_extractor.py:41 | every section starts with a `commit ` line of the log |
| GitHistory.SectionsBodies | governance/git_history_extractor.py:41 | no `commit ` line lies inside a section body |
| GitHistory.SectionsCount | governance/git_history_extractor.py:41 | there is one section per `commit ` line |
| GitHistory.ParseLog | governance/git_history_extractor.py:34-66 | a log that starts with a `commit ` line, every one of which has a second token, parses into one entry per `commit ` line, in order, each with its section's fields |
| GitHistory.MatchedAppend | governance/git_history_extractor.py:86-91 | blocks are judged one at a time and kept in order |
| GitHistory.MatchedOne | governance/git_history_extractor.py:88-91 | a block adds its stripped text exactly once when it holds some keyword, and nothing otherwise |
| GitHistory.MatchedNoKeywords | governance/git_history_extractor.py:87-91 | an empty keyword list keeps nothing |
| GitHistory.ExtractCommitsWithKeyword | governance/git_history_extractor.py:79-91 | the loop's `matched` is the filter over the blocks of the content cut at 80 `=` characters |
| GitHistory.TrailDistinct | governance/git_history_extractor.py:104-120 | the chase visits no path twice |
| GitHistory.TrailLinks | governance/git_history_extractor.py:104-120 | the chase starts at `start_path`, and each later path is the old path of the one before |
| GitHistory.TrailBound | governance/git_history_extractor.py:108-120 | the chase visits at most one path more than there are rename logs, so it terminates |
| GitHistory.GatheredOrder | governance/git_history_extractor.py:112-114 | histories of later-visited, older paths come before those of earlier-visited ones |
| GitHistory.TrailContinue | governance/git_history_extractor.py:116-118 | a path with a non-empty old path leads on to it |
| GitHistory.TrailStop | governance/git_history_extractor.py:116-120 | a path without one ends the chase |
| GitHistory.TrailPrefix | governance/git_history_extractor.py:108-110 | the paths visited so far are a prefix of the whole chase |
| GitHistory.GatheredSnoc | governance/git_history_extractor.py:112-114 | a raising parse makes the whole result raise, a failed `git` call or an empty history adds nothing, and a history is prepended |
| GitHistory.FullHistory | governance/git_history_extractor.py:98-122 | the loop's `all_history` is the joined history of the chase, or a raise when some parse raises |
| GitHistory.GatheredNone | governance/git_history_extractor.py:112-114 | once a parse raises the whole chase raises |
| Rules.GeneralCodesAlike | backend/collaboration/governance_analyzer.py:83-93 | a missing, null or empty detailed code behaves exactly like `_general` for the path, the `new_rule` line and the leaf |
| Rules.NewRuleLineCode | backend/collaboration/governance_analyzer.py:88-91 | a `new_rule` line starts with category and rule type, and carries the ` - <code>` segment exactly when the code is not `_general` |
| Rules.Dated | backend/collaboration/governance_analyzer.py:59-64 | the kept rules are exactly those whose day is not after the input date, in file order |
| Rules.DatedSnoc | backend/collaboration/governance_analyzer.py:60-64 | the filter judges one rule at a time |
| Rules.InsertNewest | backend/collaboration/governance_analyzer.py:65 | an insertion step of the sort adds the rule and loses none |
| Rules.Newest | backend/collaboration/governance_analyzer.py:65 | the sort is a permutation of its input |
| Rules.NotOlderTransitive | backend/collaboration/governance_analyzer.py:65 | string order on `time` is transitive, so "not older" chains |
| Rules.LexLessAsymmetric | backend/collaboration/governance_analyzer.py:65 | string order on `time` is asymmetric |
| Rules.InsertNewestSorted | backend/collaboration/governance_analyzer.py:65 | an insertion keeps a list newest first |
| Rules.NewestSorted | backend/collaboration/governance_analyzer.py:65 | the sorted list is newest first |
| Rules.InsertNewestStable | backend/collaboration/governance_analyzer.py:65 | an insertion puts a rule before the earlier-inserted rules of the same time |
| Rules.NewestStable | backend/collaboration/governance_analyzer.py:65 | the sort is stable: rules of the same time keep their file order |
| Rules.NewRules | backend/collaboration/governance_analyzer.py:79-91 | there are never more `new_rule` lines than rules |
| Rules.NewRulesSnoc | backend/collaboration/governance_analyzer.py:87-91 | a rule adds its line exactly when its date part is the input date |
| Rules.NewRulesMeaning | backend/collaboration/governance_analyzer.py:79-91 | a line is announced exactly when some rule published on the input date has it as its `new_rule` line |
| Rules.GroupedSnoc | backend/collaboration/governance_analyzer.py:93 | each rule appends its leaf to the list at its category, type and code |
| Rules.GroupedLeaves | backend/collaboration/governance_analyzer.py:77-93 | each leaf list holds the leaves of exactly the rules with that path, in order |
| Rules.GroupedKeys | backend/collaboration/governance_analyzer.py:77-93 | the paths of the tree are those of the rules, each once, in order of first occurrence |
| Rules.GroupedValid | backend/collaboration/governance_analyzer.py:77-93 | the tree is a well-formed ordered dict |
| Rules.Rank | backend/collaboration/governance_analyzer.py:95-105 | a known category ranks 0 to 7, any other 99 |
| Rules.InsertByRank | backend/collaboration/governance_analyzer.py:105 | an insertion step of the category sort adds the category and loses none |
| Rules.ByRank | backend/collaboration/governance_analyzer.py:105 | the category sort is a permutation of the categories |
| Rules.InsertByRankOrdered | backend/collaboration/governance_analyzer.py:105 | an insertion keeps a list ordered by rank |
| Rules.ByRankOrdered | backend/collaboration/governance_analyzer.py:105 | the sorted categories are ordered by rank |
| Rules.RankFirst | backend/collaboration/governance_analyzer.py:95-105 | a category of smaller rank always comes first |
| Rules.RankedFirst | backend/collaboration/governance_analyzer.py:105 | in any rank-ordered list a smaller rank comes first |
| Rules.InsertByRankStable | backend/collaboration/governance_analyzer.py:105 | an insertion puts a category before the categories already inserted with the same rank |
| Rules.ByRankStable | backend/collaboration/governance_analyzer.py:105 | the category sort is stable: categories of equal rank, the unknown ones of rank 99 among them, keep their order of first use |
| Rules.KnownFirst | backend/collaboration/governance_analyzer.py:95-105 | every category of the fixed order comes before every unknown one |
| Rules.CategoriesSnoc | backend/collaboration/governance_analyzer.py:93 | a category joins the tree's first level when first used |
| Rules.KeptMeaning | backend/collaboration/governance_analyzer.py:59-65 | the rules worked on are exactly those dated on or before the input date, each as often as in the file, newest first |
| Governance.FirstAnswerAt | backend/collaboration/governance_analyzer.py:163-169 | the reply loop stops at the first reply that counts and takes its time |
| Governance.FirstAnswerNone | backend/collaboration/governance_analyzer.py:163-169 | when no reply counts, no time is found |
| Governance.ReviewOverrides | backend/collaboration/governance_analyzer.py:159-178 | a review that counts overrides an earlier-found comment even when the review came later |
| Governance.BotCaseIgnored | backend/collaboration/governance_analyzer.py:166 | a Paddle bot is recognised whatever the case of its name, and its reply never counts |
| Governance.ResponseSlotMeaning | backend/collaboration/governance_analyzer.py:148-188 | both response windows are closed at both ends; the shared analysis day goes to the recent window, and other days fall outside |
| Governance.PrResponses | backend/collaboration/governance_analyzer.py:151-188 | a window's response list has at most one entry per PR |
| Governance.PrCloses | backend/collaboration/governance_analyzer.py:151-188 | a window's closing list has at most one entry per PR |
| Governance.IssueResponses | backend/collaboration/governance_analyzer.py:191-213 | a window's issue list has at most one entry per issue |
| Governance.PrSamples | backend/collaboration/governance_analyzer.py:180-188 | a closed PR adds its response and closing times to the lists of its own window and to no other |
| Governance.PrStep | backend/collaboration/governance_analyzer.py:151-188 | the PR loop handles one PR at a time |
| Governance.IssueStep | backend/collaboration/governance_analyzer.py:191-213 | the issue loop handles one issue at a time |
| Governance.PrListsParallel | backend/collaboration/governance_analyzer.py:183-188 | each PR adds to both lists of its window or to neither, so they have the same length |
| Governance.OpenPrIgnored | backend/collaboration/governance_analyzer.py:152-153 | an open PR is left out of every list |
| Governance.SkippedIssueIgnored | backend/collaboration/governance_analyzer.py:192-193 | an issue with an error, or still open, is left out |
| Governance.InputDayIsRecent | backend/collaboration/governance_analyzer.py:183-186 | a closed PR created on the analysis day counts in the recent window only |
| Governance.FirstResponse | backend/collaboration/governance_analyzer.py:163-169 | the reply loop gives the time of the first reply that counts, else its fallback |
| Governance.Earliest | backend/collaboration/governance_analyzer.py:274-279 | every PR's author, None included, has an entry, so the lookup at line 300 never fails |
| Governance.EarliestAuthors | backend/collaboration/governance_analyzer.py:274-279 | an author, including the missing author, is in `author_first_pr_time` exactly when some PR has that author |
| Governance.EarliestIsLower | backend/collaboration/governance_analyzer.py:274-279 | the time kept for an author is no later than any of the author's PRs |
| Governance.EarliestIsAttained | backend/collaboration/governance_analyzer.py:274-279 | the time kept is the creation time of one of the author's PRs |
| Governance.FirstPrTimes | backend/collaboration/governance_analyzer.py:274-279 | the loop computes each author's earliest PR time |
| Governance.ActivityHalfMeaning | backend/collaboration/governance_analyzer.py:302-307 | the activity windows are half-open, do not overlap, and the analysis day belongs to the later one |
| Governance.TallyConsistent | backend/collaboration/governance_analyzer.py:308-318 | counting one PR keeps community newcomers among newcomers, and merged newcomer PRs no more than newcomer PRs, no more than all PRs |
| Governance.ActivityConsistent | backend/collaboration/governance_analyzer.py:295-318 | after the loop both windows keep those relations |
| Governance.ActivityTotals | backend/collaboration/governance_analyzer.py:302-308 | every PR created in a window counts towards its total, whoever wrote it |
| Governance.ActivityDefined | backend/collaboration/governance_analyzer.py:310-318 | when every PR has an author the loop cannot fail |
| Governance.ActivitySnoc | backend/collaboration/governance_analyzer.py:295-318 | the statistics loop handles one PR at a time |
| Governance.ActivityFailed | backend/collaboration/governance_analyzer.py:317 | once the loop has raised, the whole analysis raises |
| Governance.ReportOf | backend/collaboration/governance_analyzer.py:320-328 | the summary of a window has no more community newcomers than newcomers, and no more newcomers than newcomer PRs, which are no more than all PRs |
| Governance.TreeStep | backend/collaboration/governance_analyzer.py:79-93 | one rule extends the announcement lines, its leaf list and the categories of the tree |
| Governance.PrFirstResponse | backend/collaboration/governance_analyzer.py:159-178 | the two reply loops of one PR give the first response as specified: a counting review, else a counting comment, else the closing time |
| Governance.PrDurations | backend/collaboration/governance_analyzer.py:151-188 | the PR loop builds exactly the four duration lists of the two windows |
| Governance.IssueDurations | backend/collaboration/governance_analyzer.py:191-213 | the issue loop builds exactly the two issue lists |
| Governance.KeepDated | backend/collaboration/governance_analyzer.py:59-64 | the loop keeps exactly the rules dated on or before the analysis day, in file order |
| Governance.GovernanceAnalyzer.constructor | backend/collaboration/governance_analyzer.py:27-45 | the analysis day is the given date, else the stored update day; the windows reach ninety days to each side; `new_rule` starts empty |
| Governance.GovernanceAnalyzer.GetGovernanceRules | backend/collaboration/governance_analyzer.py:48-109 | the tree built from the kept rules, newest first; the lines of the rules published on the day are appended to `new_rule` |
| Governance.GovernanceAnalyzer.AnalyzeResponseTime | backend/collaboration/governance_analyzer.py:112-213 | the duration lists of the recent and the later window |
| Governance.GovernanceAnalyzer.AnalyzeCommunityDeveloperActivity | backend/collaboration/governance_analyzer.py:241-318 | the clusters of the commits are e-mail-disjoint and keep every valid commit, name and e-mail; the community list holds exactly the names of the clusters without an organisation e-mail; the first PR time of each author; and the window statistics over that community list, None when the loop raises |
| Governance.GovernanceAnalyzer.AnalyzeGovernance | backend/collaboration/governance_analyzer.py:345-364 | the analysis combines the rule tree, the new rules and the response times with the newcomer statistics of the PRs over a community list of the commits as above, whose counters are consistent |
| Dicts.Keyed | backend/update_data.py:31 | `{key(x): x for x in xs}` is a well-formed dict whose keys sit where they first occur and which holds the last element with each key |
| Dicts.LastWith | backend/update_data.py:31 | the element a dict keeps under a key exists exactly when some element has that key, and is one of the elements with that key |
| Dicts.FreshKeysDistinct | backend/update_data.py:117-123 | the keys a run of insertions adds are listed once each |
| Dicts.PutAllKeys | backend/update_data.py:117-123 | after a run of `d[key(x)] = f(x)` the old keys keep their order and the new keys follow in order of first occurrence |
| Dicts.PutAllEntries | backend/update_data.py:117-123 | after the run each key holds the image of its last element, or its old value when no element has that key |
| Text.NormalizeIdempotent | backend/utils/dvpr_affliation.py:3-7 | normalising twice with `strip().lower()` is normalising once |
| Text.StripLowerCommute | backend/utils/dvpr_affliation.py:3-7 | `strip()` and `lower()` may be applied in either order |
| Text.StripIdempotent | backend/utils/dvpr_affliation.py:3-7 | stripping twice is stripping once |
| Text.WordsAreWords | backend/utils/dvpr_affliation.py:10 | every word of `split()` is non-empty and holds no whitespace |
| Text.JoinSplit | backend/update_data.py:180-184 | splitting a path on `/` and joining the pieces with `/` gives the path back |
| Text.JoinSplitSep | governance/git_history_extractor.py:84 | cutting the content at the 80-`=` separator and joining with it again gives the content back, so no text is lost between blocks |
| Text.LexLessTotal | backend/get_data/get_org_repos.py:163-165 | string comparison orders any two different strings |
| Text.LexLessTransitive | backend/get_data/get_org_repos.py:163-165 | string comparison is transitive |
| Text.LexLessIrreflexive | backend/get_data/get_org_repos.py:163-165 | no string is less than itself |

## Left out

- File reading and writing, JSON loading and dumping, and directory listing are not modelled. Stored lists are inputs and written lists are results. The analyses that return zeros or empty results when a data file is missing are not modelled either.
- HTTP and sessions are not modelled: the `Retry` adapter's 502/503/504 backoff, bearer headers and timeouts. Each reply is an element of an input sequence: a status and a JSON value, or a transport failure. A transport failure costs a two-second sleep and a retry.
- The GraphQL query strings and the REST paths are not modelled. Only the shape of the replies they produce is modelled.
- Real sleeping and the wall clock are not modelled. A wait is recorded as its length in seconds. The model proves when the loop waits and for how long, not that it blocks.
- `ThreadPoolExecutor` and `as_completed` are not modelled. Enrichment, watcher counts, commit labelling and PR classification are a sequential fold over the tasks in submission order. For enrichment, watcher counts and commit labelling the order does not matter, because each task writes only its own record.
- Store.InsertClassified, Store.MergePrs, Store.MergedPrDictShape, Store.MergedPrsMeaning: the classified new PRs are written into the shared `existing_prs` dict in completion order (backend/update_data.py:94-102). Completion order therefore decides the order of the new numbers in the written list, and which of two incoming PRs with the same new number wins. The model fixes submission order, where the program does not.
- Floating point is not modelled:
  - the log and max normalisation of module weights (backend/update_data.py:189-191);
  - hour conversions, `median_or_zero` and ratio rounding in the governance analysis.
  
  Durations stay integer seconds, and the counts the ratios are made of are modelled.
- ISO date parsing and formatting are not modelled. Timestamps are integers. A day is a number paired with its `%Y-%m-%d` text, and `datetime.date()` of a timestamp is integer division by 86400.
- Case folding is ASCII only. `lower()` on non-ASCII letters is not modelled.
- Text.Strip, Text.Words: whitespace is ASCII only. Python's `strip()` and `split()` also treat U+0085, U+00A0, U+3000 and the other Unicode spaces as whitespace. A name or e-mail padded with them normalises differently in the program than in the model (backend/utils/dvpr_affliation.py:3-10, backend/collaboration/governance_analyzer.py:317).
- Store.CarryAll, Store.UpdateRepos: backend/update_data.py:35 reads `repo["domain"]` with a subscript. A stored repository without a `domain` key that is listed again therefore raises KeyError. The model reads a missing key like a null one and carries None. This error path is not modelled.
- PrFetch.PrInfo, PrFetch.PrInfoAsWritten, PrFetch.PrRecordOf: the PR object is taken as already read. A null `comments`, `commits` or `reviewThreads`, or a null `commit` inside it, makes the comprehensions at backend/get_data/get_repo_prs.py:199-204 raise into the handler. That cannot be expressed in the model. So the model's claim that a 200 reply with `data`, `repository` and `pullRequest` present gives the PR record holds only for a PR object whose nested lists are all present.
- Commits.Labelled: the classifier is applied to the message, with an empty string when the message is missing or null. The program passes None for a null message. A classifier result is taken as a label, and a failure leaves the commit unchanged; a classifier that returns None is read as a failure.
- `get_pr_type`, `get_commit_type`, `get_domain`, `get_repo_readme` and `get_user_info` are not part of this model. They are parameters that may return nothing.
- The subprocess call to `git` is not modelled. A log is a function from a path to its output, or to a failure. A failed call is the `GitFailed` result.
- `print_history`, tqdm progress bars, logging and `print` are output only.
- The stored checkpoint file (backend/utils/manage_data_update_time.py) and the module weight file (backend/utils/get_module_weights.py) are not modelled. The checkpoint is the value the batch loop computes.
- backend/main.py is not part of this model: it holds the web routes and the dispatch over numpy, pandas and plotly types.
- backend/collarboration/governance_analyzer.py, beyond where it reads from, is not part of this model. governance/rules_to_json.py is a spreadsheet conversion and is not modelled either.
- The PyGithub paths `fetch_pr_info`, `fetch_issue_info`, `get_repo_prs`, `get_repo_prs_n` and `get_org_repos` are not modelled. Nor is `utils.request_github`: they wrap a library these sources do not contain.
- `rules_res` (backend/collaboration/governance_analyzer.py:67-75) and `structured_rule_dict` (line 108) are not modelled. Neither value is used, so they change no result.
- Pagination.Paginate: a loop that has used up the modelled responses ends as `Unfinished`. The real loop would go on sending requests.
- Affiliation.Survivors: states only that the survivors never outnumber the groups. What they hold is stated by Affiliation.SurvivorsAgree.
- Affiliation.BridgeByName: a group that has already been absorbed is skipped as a bridge, so name bridging in backend/utils/dvpr_affliation.py:47-61 is not transitive. The contract states the two directions that hold. It does not claim connected components.
- Affiliation.IndexGroup: "has at least two words" is passed in as a predicate that agrees with `HasTwoSegments`. This keeps whitespace splitting out of the loop proofs.
- Governance.BotCaseIgnored: states the case rule for any author whose lower-cased name contains `paddle-bot`, rather than listing spellings.
- Governance.ReviewOverrides: shows the override on one concrete PR. The general rule is Governance.PrFirstResponse.
- Rules.Grouped: the nested `defaultdict` tree is a single ordered dict keyed by (category, rule type, detailed code). Its first level is the category list in first-use order, which is then sorted.
- GitHistory.TrailBound: bounds the rename chase by the number of paths with a rename log, rather than by the file system.

The code differs from the design description in several places. The model follows the code:

- The files, reviews and commits loops return an empty list on an `errors` reply, discarding the pages they already have. Only the comment loops keep a partial result.
- Several loops raise instead of treating a missing field as the end of data:
  - a null `data` in a loop that checks the rate limit;
  - a missing `pageInfo` under `files`;
  - a null review-comment author;
  - a null actor of the first closing event.
- Name bridging is a single sweep that skips already-merged groups, not a connected-components computation.
- An incoming PR takes the stored `type`, or `"others"` when the stored PR has none. Issues carry no `type` and are overwritten whole.
- `total_merged_prs` is never incremented, so it stays 0.
- The response-time windows are closed at both ends. The newcomer windows are half-open.

## Findings

| source | as written | input that shows it | evidently intended | confidence | as-written member | corrected member |
|---|---|---|---|---|---|---|
| backend/get_data/get_repo_prs.py:208-214 | the exception handler of `fetch_pr_info_graphql` builds its error record from `pr.number` and `pr.base.repo.full_name`, but `pr` is unbound when `data` is missing, or a dict without attributes, so the handler itself raises | a status-200 reply `{"errors": [...]}` with no `data`; the query at lines 126-148 uses the undeclared variables `$commitsCursor`, `$commentsCursor` and `$reviewsCursor`, so GitHub answers every request this way | return the error record for `pr_num` | not executed | PrFetch.PrInfoAsWritten (with PrFetch.PrInfoHandlerRaises) | PrFetch.PrInfo |

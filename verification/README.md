# git-metrics in Dafny

This project models the commit-aggregation core of git-metrics, a tool that
reads a Git repository and reports, per author, branch and environment, how
many commits were made and how many files and lines they changed. Branches
named `main` or `master` (in any case) are the production environment
("PRD"); every other branch is homologation ("HML").

The Git side is input data. A reference (`GitSource.Ref`) carries:

- its name;
- the commits its traversal yields (`RawCommit`: sha, author name and email, timestamp, UTC offset, message, and per-file insertions and deletions);
- whether the traversal raised part-way.

Timestamps are integer seconds. A day is the floor of the wall-clock seconds
divided by 86400, and a month is found by placing the day in its era of
400 Gregorian years and its March-based year of that era (`Calendar`).

The modules follow the repository:

- `Environment`: `EnvironmentType.from_branch` and `__str__`, and the inline copies of the same rule in three other files.
- `Entities`: the frozen `Author` and `Commit` records.
  - Their equality and hashing are keyed on the email and the hash.
  - `total_lines` is derived.
  - Dafny datatypes are immutable, so "frozen" holds by construction.
- `GitSource`: references, library commits, the "origin/" filter, the 8-character short hash, and per-file statistics.
- `Records`: the record lists that `analyze_commits` (git_metrics.py) and `RepositoryMetricsQuery.execute` collect branch by branch. It also applies the grouping engine of `Aggregation` to records: `count`, `sum`, `first` and `nunique` per key.
- `Aggregation`: the grouping engine.
  - A `groupby().agg()` is a fold that updates the row of a key or appends one.
  - A second `groupby` regroups a grouped table by a coarser key.
  - `sort_values` is a stable sort by rank.
- `Identity`: `get_most_recent_name_for_email` and the loop that renames every record after it.
- `GitMetrics`: `GitAnalyzer.analyze_commits` and its seven tables.
- `RepositoryMetrics`: `RepositoryMetricsQuery.execute` and its four summary lists.
- `Repository`: the `GitRepository` of src/infrastructure/repositories.
  - `get_commits` filters by author and date window, skips branches that fail, and builds `Commit`s.
  - It keeps the per-email Author cache.
  - It also models `get_branches`, `get_authors` and `get_recent_author`.
- `CommitStatistics`: `CommitStatisticsQuery.execute` and its daily, monthly and branch tables.
- `Infrastructure`: the older `GitRepository` of src/infrastructure. It covers:
  - the cached author list;
  - author variations, matched by case-insensitive substring;
  - the per-author commit lists, counts, lines and file-extension counts.
- `ExcelReport`: `GenerateExcelReportCommand`.
  - It models the report file name, the refusal of an empty report, and `_add_section`'s cell layout and returned row.
  - It models the stacking of the four summary sections and `_get_environment_summary`.
- `Charts`: from the chart script, `formatAuthorName` and `filterDataByAuthor`.

Two behaviours differ between files, and the model keeps both:

- Author filtering:
  - With no author filter, `analyze_commits` keeps every commit (`Records.FilterOfEmails`).
  - `RepositoryMetricsQuery.execute` tests `any` over the selected authors, so an empty selection keeps nothing (`Records.FilterOfAuthorEmails`, `RepositoryMetrics.NoAuthorsNoMetrics`).
- Author names:
  - The repository's Author cache keeps the first-seen name for an email (`Repository.CacheFirstSeen`).
  - The name resolver keeps the name of the latest record (`Identity.ResolutionSpec`).

## Model

| member | source | states |
|---|---|---|
| Environment.ToString | src/domain/enums/environment_type.py:25-26 | PRODUCTION renders as "PRD" and HOMOLOGATION as "HML", each string naming exactly one value |
| Environment.ProductionIffMainOrMaster | src/domain/enums/environment_type.py:11-23 | from_branch is PRODUCTION exactly when the name equals "main" or "master" ignoring case, and HOMOLOGATION exactly otherwise: every name gets one of the two |
| Environment.CaseInsensitive | src/domain/enums/environment_type.py:21 | a branch name and its lower-cased form are classified alike |
| Environment.Examples | src/domain/enums/environment_type.py:21-23 | "Main", "MASTER" and "main" are PRODUCTION; "main2", "feature/main" and "develop" are HOMOLOGATION, since only the two exact names match |
| Environment.ClassifyAgreesWithEnum | git_metrics.py:39-43 | the string rule written out inline (also at src/application/queries/repository_metrics.py:44 and src/infrastructure/git_repository.py:96-104) gives `str(from_branch(name))`, always "PRD" or "HML" |
| Entities.NewAuthor | src/domain/entities/author.py:14-16 | an Author built from a name and an email keeps both, and `total_commits` is None |
| Entities.AuthorEqualityIgnoresOtherFields | src/domain/entities/author.py:18-21 | two Authors are equal exactly when their emails are: a different name or `total_commits` does not matter |
| Entities.AuthorHashAgreesWithEquality | src/domain/entities/author.py:18-24 | equal Authors hash alike, and Author equality is reflexive, symmetric and transitive |
| Entities.TotalLinesIsChurn | src/domain/entities/commit.py:33-36 | `total_lines` is insertions plus deletions, and is zero only when both are |
| Entities.CommitIdentityIsHash | src/domain/entities/commit.py:38-44 | the same commit seen on another branch or in another environment compares equal, and equal commits hash alike |
| GitSource.ShortHash | git_metrics.py:88 | the short hash is a prefix of the sha of at most 8 characters, exactly 8 when the sha is that long |
| GitSource.LocalRefs | src/infrastructure/repositories/git_repository.py:86-87 | a reference is kept exactly when its name does not start with "origin/" |
| GitSource.BranchNames | git_metrics.py:35-37 | the branch list names exactly the references not starting with "origin/", one name per kept reference, in the order of the references |
| GitSource.LocalRefsConcat | src/infrastructure/git_repository.py:94 | the "origin/" filter keeps the order of the references: filtering a concatenation filters each part |
| GitSource.FileLinesTotal | src/infrastructure/git_repository.py:138-139 | summing each file's `lines` gives the commit's insertions plus deletions |
| Calendar.DayBounds | git_metrics.py:109 | a time lies within its day: day * 86400 <= t < (day + 1) * 86400 |
| Calendar.DayMonotone | src/application/queries/repository_metrics.py:117 | a later time never has an earlier day, so day order is time order |
| Calendar.NewYearExample | git_metrics.py:120 | 2024-01-05 00:00 UTC is day 19727 and lies in January 2024 |
| Calendar.LeapDayExample | src/application/queries/repository_metrics.py:138 | day 19782 (2024-02-29) lies in February 2024 |
| Calendar.BeforeEpochExample | git_metrics.py:109 | one second before the epoch is day -1, in December 1969 |
| Calendar.YearLength | git_metrics.py:120 | a year of the era, counted from March, has 366 days exactly when the year of the February that ends it is divisible by 4 and not by 100 unless by 400, and 365 otherwise |
| Calendar.LeapEvery400 | git_metrics.py:120 | the Gregorian leap rule repeats every 400 years, so a year of an era has the leap status of the calendar year it stands for |
| Calendar.YearOfEraUnique | git_metrics.py:120 | the year search finds the one year of the 400-year era whose days hold the given day |
| Calendar.MonthStep | src/application/queries/repository_metrics.py:138 | the day after any day lies in the same month or in the next one, never further and never earlier |
| Calendar.MonthMonotone | src/application/queries/repository_metrics.py:138 | for every pair of day numbers, the later day never lies in an earlier month |
| Calendar.MonthOfTimeMonotone | git_metrics.py:120 | a later time never lies in an earlier month, so month order agrees with time order |
| Records.RecordOf | git_metrics.py:78-89 | a record carries the commit's stats, `total_linhas` = insertions + deletions, the 8-character short hash, and "PRD" exactly for main/master in any case |
| Records.FilterOfEmails | git_metrics.py:72-73 | an email is kept exactly when the list is empty (or missing) or holds it |
| Records.FilterOfAuthorEmails | src/application/queries/repository_metrics.py:47-48 | an email is kept exactly when some selected author has it |
| Records.CollectRecords | git_metrics.py:66-94 | the loop yields the records of the kept commits, local branch after local branch, each in traversal order |
| Records.AppendBranch | git_metrics.py:69-91 | one branch's pass appends exactly the records of its kept commits, in traversal order, after the records already collected |
| Records.LogRecordsKept | git_metrics.py:70-92 | every record of a branch belongs to a kept email, names that branch, and has `total_linhas` = insertions + deletions; a branch gives at most one record per commit |
| Records.KeepAllKeepsEvery | git_metrics.py:72-73 | with no email filter every commit of a traversal gives a record |
| Records.NothingListedNoRecords | src/application/queries/repository_metrics.py:47-48 | a traversal yields no record when no email is listed |
| Records.NoAuthorsNoRecords | src/application/queries/repository_metrics.py:42-70 | an empty author selection yields no records from any branch |
| Records.CollectedConcat | git_metrics.py:67-94 | branches are processed independently: the records of two lists of branches are the records of each, concatenated |
| Records.FailedBranchSkipped | git_metrics.py:93-94 | a branch whose traversal raises contributes the records it yielded, and the branches after it still contribute theirs |
| Records.CollectedKept | git_metrics.py:67-92 | every collected record has a kept email, consistent line counts and a listed branch |
| Records.LogRecordsMembers | git_metrics.py:69-91 | a branch yields the record of a commit exactly when the commit is in its traversal and the filter keeps its author |
| Records.CollectedMembers | git_metrics.py:66-91 | the collection holds the record of a commit on a reference exactly when the commit is in that reference's traversal and the filter keeps its author |
| Records.GroupSpec | git_metrics.py:109-117 | a grouped table has one row per key of the records, no key twice; each row counts and sums exactly the records with its key and holds their distinct branches |
| Records.GroupIsGrouping | git_metrics.py:153-162 | grouping the records satisfies the reference definition of a grouped table |
| Records.SortedGrouping | git_metrics.py:140 | sorting a grouped table leaves a grouping of the same records with the same sums |
| Records.GroupSum | git_metrics.py:131-139 | the rows of a grouped table add up to the records' totals: each record is counted in exactly one row |
| Records.GroupNames | git_metrics.py:110 | `nome_autor: first`: a row's name is the name of the first record with its key |
| Records.RegroupSpec | src/application/queries/repository_metrics.py:116-133 | grouping per (day, environment) and then per day equals grouping the records per day directly: same keys, totals and branches |
| Aggregation.FoldKeys | git_metrics.py:109 | the fold has distinct keys, exactly the keys of its items |
| Aggregation.AccumulateUpdates | git_metrics.py:109-116 | one fold step merges the item into the row of its key, or appends a row when the key is new |
| Aggregation.FoldTotals | git_metrics.py:111-115 | each row's measures are the sums over the items with its key |
| Aggregation.FoldBranches | git_metrics.py:171 | each row's branches are the union of the branches of the items with its key (`nunique`) |
| Aggregation.FoldNames | git_metrics.py:110 | each row carries the name of the first item with its key |
| Aggregation.FoldSum | git_metrics.py:109-117 | the rows together hold exactly the measures of all items |
| Aggregation.FoldRelabelSum | src/application/queries/repository_metrics.py:127-133 | regrouping the fold by a projection of the key sums each coarse key like grouping the items by it directly |
| Aggregation.RegroupSum | src/application/queries/repository_metrics.py:148-154 | regrouping a table keeps the sum of its rows |
| Aggregation.SortBy | git_metrics.py:151 | the sort returns a permutation of the rows, ordered by rank |
| Aggregation.SortBySum | git_metrics.py:140 | sorting keeps the sum of the rows |
| Aggregation.PermutationKeepsRows | src/application/queries/repository_metrics.py:135 | a reordered table has the same rows and keys, still distinct |
| Identity.MostRecentNames | git_metrics.py:45-59 | the returned map has exactly the records' emails as keys, and maps each to the name of its latest record (the first such record on equal dates, as the comparison is strict) |
| Identity.StepResolves | src/application/queries/repository_metrics.py:17-25 | one iteration of the loop keeps the invariant: the map holds exactly the emails seen so far, each with the first of its latest records |
| Identity.ResolutionSpec | src/application/queries/repository_metrics.py:12-26 | after the loop, each email holds the name and date of the first record among those with its greatest date |
| Identity.NameMapSpec | git_metrics.py:55-59 | the name map covers exactly the records' emails and gives each the name of its latest record |
| Identity.LatestUnique | git_metrics.py:55 | an email has at most one latest record in the sense above |
| Identity.LatestExists | git_metrics.py:50-57 | every email of the records has a latest record |
| Identity.RenameInPlace | git_metrics.py:103-104 | the rename loop replaces each record's name by the one the map gives for its email, in place |
| Identity.ResolvedSpec | git_metrics.py:99-104 | after renaming, every record carries the name of its email's latest record, records with the same email carry the same name, and no other field changes |
| Identity.ResolvedKeepsEmails | src/application/queries/repository_metrics.py:84-85 | renaming changes no email |
| Identity.ResolvedTotal | src/application/queries/repository_metrics.py:84-85 | renaming changes no measure |
| Identity.GroupedNamesResolved | git_metrics.py:99-117 | in a table grouped after renaming by a key holding the email, each row's name is that of the email's latest record |
| Identity.ResolvedSum | git_metrics.py:106-162 | grouping the renamed records loses and duplicates no record |
| GitMetrics.AnalyzeCommits | git_metrics.py:61-197 | `analyze_commits` returns the seven tables of the records the email filter admits on local branches, renamed |
| GitMetrics.CollectedSpec | git_metrics.py:67-89 | every analysed record has an admitted email, comes from a branch not starting with "origin/", and has consistent line counts; conversely every commit of an admitted email in a local branch's traversal gives its record |
| GitMetrics.AnalysisEmpty | git_metrics.py:96-97 | with no collected records all seven tables are empty |
| GitMetrics.AnalysisGroupings | git_metrics.py:108-191 | each of the seven tables is the grouping of the renamed records by its key: `total_commits` counts, each measure sums, and `total_branches` is the set of distinct branches |
| GitMetrics.AnalysisSums | git_metrics.py:131-162 | in every table `total_commits` adds up to the number of records and each measure to its total |
| GitMetrics.AnalysisOrder | git_metrics.py:140-151 | `daily_totals` runs from the newest day to the oldest, and `monthly_totals` from the newest month |
| GitMetrics.AnalysisNames | git_metrics.py:99-104 | in the four tables with an author, a row's name is that of the latest record of its email |
| RepositoryMetrics.AuthorFilter | src/application/queries/repository_metrics.py:47 | a commit's email is kept exactly when some selected author has it |
| RepositoryMetrics.Execute | src/application/queries/repository_metrics.py:28-163 | `execute` returns the four lists for the records of the selected authors on local branches, renamed |
| RepositoryMetrics.NoAuthorsNoMetrics | src/application/queries/repository_metrics.py:72-78 | an empty author selection yields the four empty lists |
| RepositoryMetrics.CollectedBySelected | src/application/queries/repository_metrics.py:42-67 | every kept record belongs to a selected author, and every commit of a selected author in a local branch's traversal gives its record |
| RepositoryMetrics.MetricsGroupings | src/application/queries/repository_metrics.py:90-156 | `resumo_autor_ambiente` and `resumo_ambiente` group the renamed records; `totais_diarios` and `totais_mensais` are the groupings per day and per month with both environments folded together |
| RepositoryMetrics.MetricsSums | src/application/queries/repository_metrics.py:104-154 | in each list `commits` adds up to the number of records and every measure to its total |
| RepositoryMetrics.MetricsOrder | src/application/queries/repository_metrics.py:135-156 | `totais_diarios` and `totais_mensais` run from the newest period to the oldest |
| RepositoryMetrics.OneRowPerAuthorEnvironment | src/application/queries/repository_metrics.py:91-101 | grouping by the resolved name as well as the email splits nothing: no two rows share an (email, environment) pair |
| Repository.CacheOnlyGrows | src/infrastructure/repositories/git_repository.py:123-129 | the Author cache gains the emails it sees and never replaces a stored Author |
| Repository.CacheFirstSeen | src/infrastructure/repositories/git_repository.py:124-128 | an email is stored with the name of the first commit that carries it |
| Repository.FilterOf | src/infrastructure/repositories/git_repository.py:48 | no email filter exactly when authors is None or empty; otherwise the filter holds exactly the authors' emails |
| Repository.LogSightingsSpec | src/infrastructure/repositories/git_repository.py:53-63 | a commit of a traversal is taken exactly when its email passes and its date lies in the inclusive window |
| Repository.SightingsSpec | src/infrastructure/repositories/git_repository.py:47-77 | a commit on a branch is returned exactly when the branch is local, the email passes and the date is within [since, until]; a failing branch keeps what it yielded and hides no other branch |
| Repository.SightingsConcat | src/infrastructure/repositories/git_repository.py:50-70 | the result lists branch after branch, each in traversal order |
| Repository.CreateCommitSpec | src/infrastructure/repositories/git_repository.py:131-157 | `_create_commit` keeps the sha's first 8 characters, "PRD" exactly for main/master, the message with only the white space around it removed (see Strings.Strip), and the commit's stats |
| Strings.Strip | src/infrastructure/repositories/git_repository.py:156 | `str.strip()` gives a piece of the message that neither starts nor ends with white space |
| Strings.StripRemovesOnlySpace | src/infrastructure/repositories/git_repository.py:156 | the stripped message is a slice of the message with only white space before and after it |
| Strings.StripUnique | src/infrastructure/repositories/git_repository.py:156 | any slice of the text with only white space around it and none at its own ends is the stripped text, so the contract of Strip determines it |
| Repository.FirstSeenEmailsSpec | src/infrastructure/repositories/git_repository.py:96-101 | the first-seen email list holds every email of the history once and nothing else |
| Repository.GitRepository.constructor | src/infrastructure/repositories/git_repository.py:19-30 | a new repository starts with an empty Author cache |
| Repository.GitRepository.GetBranches | src/infrastructure/repositories/git_repository.py:79-87 | one name per local reference, in the order of the references, and exactly the names of references not starting with "origin/" |
| Repository.GitRepository.GetOrCreateAuthor | src/infrastructure/repositories/git_repository.py:113-129 | returns the Author cached for the email, creating it from this commit only on first sight; the cache only grows |
| Repository.GitRepository.GetCommits | src/infrastructure/repositories/git_repository.py:32-77 | one Commit per admitted commit of each local branch, in order, each with its email's cached Author; the cache has seen exactly those commits |
| Repository.GitRepository.GetAuthors | src/infrastructure/repositories/git_repository.py:89-101 | one cached Author per distinct email of the history, in first-seen order |
| Repository.GitRepository.GetRecentAuthor | src/infrastructure/repositories/git_repository.py:103-111 | the cached Author of the head commit's email |
| CommitStatistics.Execute | src/application/queries/get_commit_statistics_query.py:21-91 | the query passes authors, since and until to `get_commits` unchanged and returns the three groupings of what it got |
| CommitStatistics.CommitRecordsSpec | src/application/queries/get_commit_statistics_query.py:38-49 | one row per commit, in order, each with `total_linhas` = the commit's `total_lines` |
| CommitStatistics.StatisticsGroupings | src/application/queries/get_commit_statistics_query.py:54-89 | daily, monthly and branch tables are the groupings of the commits by (day, email, branch, environment), (month, email, branch, environment) and (branch, environment, email) |
| CommitStatistics.StatisticsSums | src/application/queries/get_commit_statistics_query.py:81-89 | in each table `total_commits` adds up to the number of commits returned, and every measure to its total |
| CommitStatistics.StatisticsNames | src/application/queries/get_commit_statistics_query.py:57-63 | `nome_autor: first` names each row after the cached Author of its email |
| Infrastructure.GitRepository.constructor | src/infrastructure/git_repository.py:11-20 | a new repository has no cached author list |
| Infrastructure.GitRepository.GetAllAuthors | src/infrastructure/git_repository.py:22-34 | lists every distinct (name, email) pair of the history once; computed on the first call, later calls return the same list |
| Infrastructure.GitRepository.FindAuthorVariations | src/infrastructure/git_repository.py:36-73 | the listed pairs whose email or name contains the author's, ignoring case; without repeats, and exactly the matching pairs of the history; an author list already cached stays as it was |
| Infrastructure.VariationsMembers | src/infrastructure/git_repository.py:50-71 | a pair is reported exactly when it is listed and matches by email or by name |
| Infrastructure.VariationsOrdered | src/infrastructure/git_repository.py:50-73 | the variations keep the order of `get_all_authors()`: a subsequence |
| Infrastructure.VariationsDistinct | src/infrastructure/git_repository.py:46-73 | a list without repeats gives variations without repeats |
| Infrastructure.EmptyAuthorMatchesNothing | src/infrastructure/git_repository.py:47-48 | an author with empty name and email matches nothing |
| Infrastructure.ExactMatch | src/infrastructure/git_repository.py:54-62 | an exact match, ignoring case, is one of the substring matches |
| Infrastructure.GitRepository.GetAllBranches | src/infrastructure/git_repository.py:89-94 | the names of the references not starting with "origin/", in order |
| Infrastructure.GitRepository.GetCommitsByAuthor | src/infrastructure/git_repository.py:75-87 | the author's commits, local branch after local branch; a failing branch keeps what it yielded |
| Infrastructure.ByAuthorMembers | src/infrastructure/git_repository.py:80-84 | a commit is returned exactly when it has the author's email and lies on one of the branches |
| Infrastructure.ByAuthorConcat | src/infrastructure/git_repository.py:80-87 | branches contribute independently, in order |
| Infrastructure.GitRepository.GetCommitCountByAuthor | src/infrastructure/git_repository.py:114-124 | the count is the number of (local branch, commit) pairs with the email, so a commit on two branches counts twice |
| Infrastructure.ByAuthorCount | src/infrastructure/git_repository.py:124 | the commit list's length is that number of pairs |
| Infrastructure.GitRepository.GetLinesChangedByAuthor | src/infrastructure/git_repository.py:126-140 | the sum of the per-file line counts of the author's commits |
| Infrastructure.LinesAreChurn | src/infrastructure/git_repository.py:136-140 | that sum is the author's inserted plus deleted lines |
| Infrastructure.GitRepository.GetFileTypesByAuthor | src/infrastructure/git_repository.py:142-157 | the extension counts of the file paths of the author's commits |
| Infrastructure.ExtensionSpec | src/infrastructure/git_repository.py:155 | a file's key is the text after its last '.', holding no '.', or "other" when the name has no '.' |
| Infrastructure.TallyOfCounts | src/infrastructure/git_repository.py:152-157 | each key counts exactly the paths with that key, and only keys of some path appear |
| Infrastructure.FileTypesSum | src/infrastructure/git_repository.py:153-156 | the counts add up to the number of (commit, file) pairs |
| ExcelReport.KeepNameCharsSpec | src/application/commands/generate_excel_report_command.py:39 | the cleaned text holds only alphanumerics and '_', each name character of the name as many times as the name has it, and no other character |
| ExcelReport.KeepNameCharsConcat | src/application/commands/generate_excel_report_command.py:39 | cleaning goes character by character in order: the cleaned text of a concatenation is the concatenation of the cleaned parts |
| ExcelReport.KeepNameCharsKeepsClean | src/application/commands/generate_excel_report_command.py:39 | a text of alphanumerics and '_' only is kept whole |
| ExcelReport.NameFragmentSpec | src/application/commands/generate_excel_report_command.py:37-41 | with one author the fragment holds only lower-case letters, digits and '_' taken from the lower-cased name; otherwise it is "multiple_authors" |
| ExcelReport.NameFragmentOfCleanName | src/application/commands/generate_excel_report_command.py:37-39 | a clean lower-case name is its own fragment |
| ExcelReport.ReportFileNameParts | src/application/commands/generate_excel_report_command.py:43 | the file name is "relatorio_git_", the timestamp, '_', the fragment and ".xlsx", each recoverable at its place |
| ExcelReport.Execute | src/application/commands/generate_excel_report_command.py:22-56 | with no daily rows: an error and no directory or file change; otherwise the directory exists and the report is written to `output_dir / filename` and that path returned |
| ExcelReport.NoCommitsNoReport | src/application/commands/generate_excel_report_command.py:30-33 | the report is refused exactly when the query found no commit |
| ExcelReport.OutputDir.constructor | src/application/commands/generate_excel_report_command.py:44 | an output directory as found, with no report written yet |
| ExcelReport.OutputDir.Mkdir | src/application/commands/generate_excel_report_command.py:47 | after `mkdir(exist_ok=True)` the directory exists and its files are unchanged |
| ExcelReport.OutputDir.Write | src/application/commands/generate_excel_report_command.py:50-54 | writing the workbook adds its file |
| ExcelReport.WriteRowSpec | src/application/commands/generate_excel_report_command.py:161-162 | value i of a row lands in column i + 1 of its sheet row, and no other row changes |
| ExcelReport.WriteRowsSpec | src/application/commands/generate_excel_report_command.py:159-165 | row i lands on sheet row first + i, and nothing outside the block changes |
| ExcelReport.SectionSpec | src/application/commands/generate_excel_report_command.py:150-165 | the title stands in column A of the start row, the header on the next row, data row i on row start + 2 + i, and nothing outside the section changes |
| ExcelReport.Sheet.constructor | src/application/commands/generate_excel_report_command.py:64 | a new sheet has no cells and no merged ranges |
| ExcelReport.Sheet.AddSection | src/application/commands/generate_excel_report_command.py:147-167 | merges A:H of the start row, writes the section, and returns start + 1 + the number of data rows, the row of the last data line |
| ExcelReport.CreateSummarySheet | src/application/commands/generate_excel_report_command.py:58-102 | the summary sheet holds the four sections, each started two rows below the previous one's returned row, and gains exactly the four title merges A:H of the section start rows, in order |
| ExcelReport.SummaryLayout | src/application/commands/generate_excel_report_command.py:76-102 | on the finished sheet no section overwrites another: each title and each data row stands at its computed row |
| ExcelReport.EnvironmentSummaryFromBranchRows | src/application/commands/generate_excel_report_command.py:169-178 | each environment row sums the measures, `total_commits` included, of the branch rows of that environment |
| ExcelReport.EnvironmentSummarySpec | src/application/commands/generate_excel_report_command.py:169-178 | for the branch table of some commits: one row per environment, counting its commits, with `total_branches` its distinct branches |
| Charts.Trim | src/web/static/js/charts.js:177 | `trim()` gives a piece of the string with no white space at either end |
| Charts.TrimRemovesOnlySpace | src/web/static/js/charts.js:177 | everything `trim()` removes before and after the piece it keeps is white space |
| Charts.Prefix | src/web/static/js/charts.js:179 | `substring(0, end)` is a prefix whose length is the end clamped to the string |
| Charts.SplitJoin | src/web/static/js/charts.js:170 | joining the pieces of `split(' ')` with a space gives the name back |
| Charts.SplitPiecesFree | src/web/static/js/charts.js:170 | no piece of `split(' ')` holds a space |
| Charts.SplitAtSeparator | src/web/static/js/charts.js:169-170 | a name with a space splits into at least two pieces, so first and last name exist |
| Charts.Fit | src/web/static/js/charts.js:178-180 | a text that fits is kept, a longer one becomes its first `maxLength - 3` characters and "...", and never exceeds `maxLength` (for `maxLength >= 3`) |
| Charts.FormatAuthorName | src/web/static/js/charts.js:164-185 | '' for an empty name, a name that fits unchanged, and never longer than `maxLength` when `maxLength >= 3` |
| Charts.SingleWordTruncated | src/web/static/js/charts.js:184 | a long name without spaces becomes its first `maxLength - 3` characters and "...", exactly `maxLength` long |
| Charts.LongNameAbbreviated | src/web/static/js/charts.js:169-181 | a long name of three or more single-spaced words becomes its laid-out abbreviation (see Charts.AbbreviationLayout), kept whole when it fits in maxLength and otherwise cut to maxLength - 3 characters followed by "..." |
| Charts.AbbreviationLayout | src/web/static/js/charts.js:171-177 | the abbreviation of three or more single-spaced words starts with the first word and ends with the last; between them stand a space, then the initial and '.' of each middle word at every third position with a space after each pair: |first| + |last| + 3 * (words - 2) + 1 characters |
| Charts.SpelledLayout | src/web/static/js/charts.js:173-177 | before trimming, the template text is the first word, a space, each middle word's initial, '.' and a space, then the last word |
| Charts.AbbreviationShape | src/web/static/js/charts.js:171-177 | for single-spaced words (three or more), the abbreviation is first word, the joined middle initials and last word, three characters per middle word |
| Charts.JoinedInitials | src/web/static/js/charts.js:173-175 | the joined initials of non-empty words put word i's first letter at 3i, a '.' after it and a space between two |
| Charts.TwoWordNameDoubleSpaced | src/web/static/js/charts.js:177 | as written, a long two-word name that is cut comes out with two spaces between the words |
| Charts.DoubleSpaceShowsUndefined | src/web/static/js/charts.js:173-175 | as written, two spaces before a middle word give the middle initial "undefined." |
| Charts.FormatAuthorNameIntended | src/web/static/js/charts.js:164-185 | the corrected formatting keeps the three guarantees of the original |
| Charts.IntendedInitials | src/web/static/js/charts.js:173-174 | in the corrected abbreviation every middle piece is the real initial of its word |
| Charts.IntendedNoDoubleSpace | src/web/static/js/charts.js:177 | the corrected abbreviation never shows two spaces in a row |
| Charts.AuthorRowsMembers | src/web/static/js/charts.js:196-198 | a row is kept exactly when its `nome_autor` is the author |
| Charts.AuthorRowsConcat | src/web/static/js/charts.js:221-223 | the author filter keeps the original order |
| Charts.FirstRow | src/web/static/js/charts.js:203-205 | `find` returns the first row of the author in the environment, or nothing when there is none |
| Charts.EnvironmentView | src/web/static/js/charts.js:202-215 | one output row per environment row, in order, holding the author's figures for that environment |
| Charts.EnvironmentViewMetrics | src/web/static/js/charts.js:209-213 | an environment with one row of the author shows that row's figures |
| Charts.EnvironmentViewAbsent | src/web/static/js/charts.js:209-213 | an environment without a row of the author shows zeros |
| Charts.BelowTotal | src/web/static/js/charts.js:294 | two different keys are ordered one way or the other |
| Charts.SortRows | src/web/static/js/charts.js:258 | the sort returns the same rows, ascending by key |
| Charts.RollupUnique | src/web/static/js/charts.js:227-294 | the reference definition of the rollup pins the table down: two tables meeting it are equal |
| Charts.TallyRow | src/web/static/js/charts.js:229-248 | one `forEach` step keeps the running sums equal to the sums over the rows seen |
| Charts.KeepPositive | src/web/static/js/charts.js:250-257 | keeps exactly the keys with some measure above zero, with their sums |
| Charts.Rollup | src/web/static/js/charts.js:227-258 | one row per key of the author's rows whose sums are not all zero, holding those sums, strictly ascending by key |
| Charts.FilterDataByAuthor | src/web/static/js/charts.js:187-304 | without an author the data is returned; otherwise the table named by the chart type is replaced by the author's view and every other table is left alone |

## Left out

- Git access (`Repo`, `iter_commits`, `references`, `head.commit`, `commit.stats`) is input data: a reference's log is what its traversal yields, and a failed traversal keeps what it yielded before raising.
- Time zones: timestamps are UTC seconds with the commit's offset kept alongside; the pandas conversion to UTC and the day/month rendering as "YYYY-MM-DD" / "YYYY-MM" strings are modelled as integer day and month numbers, which sort the same way.
- Row order of pandas `groupby` (sorted by key) is not modelled: a grouped table lists its keys in first-seen order, and the contracts say nothing about that order except where `sort_values` fixes it. Rows with equal period keep their relative order (a stable sort); pandas' default sort is not stable.
- `str.lower()` and `str.isalnum()` are modelled on ASCII letters and digits only; `str.strip()` on ASCII white space.
- `branch_commits` in `analyze_commits` and `execute` is filled but never read, so it is not modelled.
- `get_recent_developer` (git_metrics.py:30-33 and src/infrastructure/git_repository.py:106-112) only reads the head commit's author; it is not modelled.
- The Excel workbook: cell styling, colours, fonts, column widths, the statistics and info sheets, and the file's content. The output directory records only that it exists and which files were written.
- `ExcelReport.Execute` receives the query's daily table and the timestamp as parameters instead of calling the query and the clock.
- The `try`/`except` around a branch is modelled by a failed traversal; console warnings are not modelled.
- Charts: `!data` and a null name are not modelled. Neither is the `try`/`catch` that returns the data unchanged, nor the DOM and Chart.js drawing.
- Charts: `new Date(...)` in the month key depends on the browser's time zone, so it is the `monthOf` parameter.
- Charts: the daily sort by `new Date(a.data) - new Date(b.data)` is modelled as key order on the date strings, which agrees for "YYYY-MM-DD" dates. `localeCompare` is modelled as code-point order.
- Charts: the rows of `resumo_autor_ambiente` built at src/application/queries/repository_metrics.py:91-101 have no `data` field, but the daily and monthly cases read `item.data`. The model gives each row a date and does not model the undefined value the page would read.
- Charts: the `total_branches` field that the environment case drops is not modelled.
- Charts: JavaScript strings are sequences of UTF-16 code units; the model uses one character per code unit.
- CommitStatistics.RecordOfCommit: keys each commit on its own wall-clock reading (UTC seconds plus its offset), as `.dt.date` and `.dt.to_period('M')` do when every commit in the frame has the same offset. When the commits carry different offsets, pandas keeps the `data` column as objects, not datetimes, and `.dt` raises at src/application/queries/get_commit_statistics_query.py:57; that error is not modelled.
- The date window is inclusive: a commit is dropped only when its date is before `since` or after `until` (src/infrastructure/repositories/git_repository.py:60-63); comparing the commit's time with the bounds is modelled on UTC seconds.

## Findings

| source | as written | input that shows it | evidently intended | confidence | as-written member | corrected member |
|---|---|---|---|---|---|---|
| src/web/static/js/charts.js:177 | a two-word name has no middle parts, so the template puts two spaces between first and last name | "Ana Bartholomew" with maxLength 10 gives "Ana  Ba..." | first and last name separated by one space | not executed | Charts.TwoWordNameDoubleSpaced | Charts.IntendedNoDoubleSpace |
| src/web/static/js/charts.js:173-175 | an empty part between two spaces has no `part[0]`, and `undefined + '.'` is shown as the initial | "Ab  Cd Ef" with maxLength 8 gives "Ab undefined. C. Ef", cut to "Ab un..." | empty parts skipped, so only real initials appear | not executed | Charts.DoubleSpaceShowsUndefined | Charts.IntendedInitials |

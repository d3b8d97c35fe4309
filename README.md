# CloudOpsLab repository auditors, modelled in Dafny

CloudOpsLab ships a family of small scripts that walk a folder of git
repositories. For each repository they do some of the following:

- judge its README, scripts, layout and commit messages;
- apply small fixes, such as README stubs, placeholder lines, header comments, closing quotes or removed `TODO` words;
- report scores, grades and suggestions.

This project models the rule logic of eleven of those scripts, one Dafny module per script.

| module | script |
|---|---|
| `CloudPortfolioScanner` | `automation/cloud_portfolio_scanner.py` |
| `RepoSecurityScan` | `scripts/portfolio_ops/portfolio_ops_05_repo_security_scan.py` |
| `CloudServiceEntryScan` | `scripts/cloud_ops/cloudops_16_cloud_service_entry_scan.py` |
| `RepoAutofixer` | `scripts/repo_autofixer.py` |
| `CommitAutofixer` | `automation/commit_autofixer.py` |
| `UltimateRepoValidator` | `scripts/ultimate_repo_validator.py` |
| `PortfolioBooster` | `optional/portfolio_booster.py` |
| `RepoScanner` | `troubleshooting/repo_scanner.py` |
| `ScanPortfolio` | `troubleshooting/scan_portfolio.py` |
| `RepoStringFixer` | `automation/repo_string_fixer.py` |
| `CommitMessageAnalyzer` | `troubleshooting/commit_message_analyzer.py` |

Four helper modules sit underneath:

- `Wrappers` holds `Option`.
- `Seqs` holds `Filter`, `Map` and `CountIf`, with their lemmas.
- `Text` holds the Python string operations the scripts use. These are `in`, `lower`, `strip`, `rstrip`, `split`, `join`, `count`, `endswith` and the `\b…\b` word test.
- `Ratios` holds integer percentages.

## How the model is organised

The filesystem is an input value (module `Fs`):

- A repository is a `Repo`. It has a name and its `README.md`, which is `None` when there is none. It also has every file under it and the sets of its top-level file and folder names.
- A file is a `File`. It has its path, its base name and its text, which is `None` when the file cannot be read.
- The folder that holds the repositories is a sequence of `Entry` values, either a directory or a plain file.

Writes are modelled as the new value of the repository, README or file list. Console output is not modelled.

Each loop of a script is a `method` with the loop and its invariants. Its `ensures` ties the result to a specification function that recurses on the last element. The properties the scripts promise, or that their design implies, are lemmas about those functions:

- the scores stay in range;
- a second run of a fixer changes nothing;
- a suggestion is listed exactly when its threshold is crossed;
- found and missing sections partition the list;
- the messages carry the right counts.

The commit-message analyzer is the one class of the core. It is modelled as the class `CommitMessageAnalyzer.Analyzer`. Its settings are fields fixed by its constructor.

## Model

In the source column, file paths are relative to the repository root.

| member | source | states |
|---|---|---|
| CloudPortfolioScanner.DetectRepoType | automation/cloud_portfolio_scanner.py:45-50 | a name ending in `.github.io` is the portfolio site; otherwise a name equal to `charles-bucher` ignoring case is the profile repository; every other name is a cloud project |
| CloudPortfolioScanner.Percent | automation/cloud_portfolio_scanner.py:61 | `n` of `d` as a percentage lies in [0, 100] when `n <= d`, is 100 exactly when `n == d` and 0 exactly when `n == 0` |
| CloudPortfolioScanner.CollectFound | automation/cloud_portfolio_scanner.py:56-59 | the loop keeps exactly the required sections that have a `#` heading, in configured order |
| CloudPortfolioScanner.CollectMissing | automation/cloud_portfolio_scanner.py:62 | the comprehension keeps exactly the sections without a heading, in configured order |
| CloudPortfolioScanner.ScoreReadme | automation/cloud_portfolio_scanner.py:52-63 | returns the README score and the missing sections; an empty README scores 0 with every section missing |
| CloudPortfolioScanner.FoundMissingPartition | automation/cloud_portfolio_scanner.py:56-62 | found and missing sections split the required list: their sizes add up to it and each section is in exactly one |
| CloudPortfolioScanner.ScoreExtremes | automation/cloud_portfolio_scanner.py:61-62 | the README score lies in [0, 100], is 100 exactly when nothing is missing and 0 exactly when everything is |
| CloudPortfolioScanner.ReadmeScoreExtremes | automation/cloud_portfolio_scanner.py:23-31 | the same three facts for the seven configured sections |
| CloudPortfolioScanner.EmptyReadmeMissesAll | automation/cloud_portfolio_scanner.py:53-54 | the early return for an empty README agrees with the general rule, since empty text has no heading |
| CloudPortfolioScanner.HeadingFound | automation/cloud_portfolio_scanner.py:58 | a run of `#`, optional whitespace and the section title in any letter case, anywhere in the text, is recognised as the section's heading |
| CloudPortfolioScanner.KeywordsIn | automation/cloud_portfolio_scanner.py:68 | the keywords found are a subset of the AWS keyword set |
| CloudPortfolioScanner.CloudRelevance | automation/cloud_portfolio_scanner.py:65-69 | the cloud relevance lies in [0, 100] and is 0 for an empty README |
| CloudPortfolioScanner.CloudRelevanceMonotone | automation/cloud_portfolio_scanner.py:65-69 | appending text to the README never lowers its cloud relevance |
| CloudPortfolioScanner.KeywordsGrow | automation/cloud_portfolio_scanner.py:68 | a keyword found in a text is still found once more text follows it |
| CloudPortfolioScanner.CloudRelevanceRepetition | automation/cloud_portfolio_scanner.py:66-68 | only distinct keywords count: the text repeated after a space scores the same as the text |
| CloudPortfolioScanner.ScoreDocumentation | automation/cloud_portfolio_scanner.py:71-86 | the share of scripts holding `"""` or `#`, as a percentage in [0, 100]; 0 when there is no script |
| CloudPortfolioScanner.DocScoreInRange | automation/cloud_portfolio_scanner.py:71-86 | the documentation score lies in [0, 100] |
| CloudPortfolioScanner.AutoFixEmptyFiles | automation/cloud_portfolio_scanner.py:88-98 | every empty script, and nothing else, gets the placeholder line; the names of the filled scripts come back in walk order |
| CloudPortfolioScanner.AutoFixIdempotent | automation/cloud_portfolio_scanner.py:88-98 | after the fix no empty script is left, so a second run changes nothing |
| CloudPortfolioScanner.Total | automation/cloud_portfolio_scanner.py:132-137 | the 0.4/0.3/0.3 total lies in [0, 100] and is 100 exactly when all three scores are |
| CloudPortfolioScanner.BuildSuggestions | automation/cloud_portfolio_scanner.py:139-147 | one entry per missing section in order, the cloud hint when the cloud score is under 50, the documentation hint when the documentation score is under 50, then one entry per filled file; the length is the sum of these |
| CloudPortfolioScanner.CloudHintIff | automation/cloud_portfolio_scanner.py:142-143 | the cloud hint is listed exactly when the cloud score is under 50 |
| CloudPortfolioScanner.ScanRepo | automation/cloud_portfolio_scanner.py:118-156 | the recorded result of one repository and the repository after its empty scripts are filled; the total lies in [0, 100] |
| CloudPortfolioScanner.ScanRoot | automation/cloud_portfolio_scanner.py:112-156 | the skipped count is the number of ignored or hidden names; the scanned count is the number of other directories; the report has one entry per scanned name; each directory is fixed |
| CloudPortfolioScanner.ResultsTotalsInRange | automation/cloud_portfolio_scanner.py:149-156 | every total in the report lies in [0, 100] |
| CloudPortfolioScanner.ResultsKeys | automation/cloud_portfolio_scanner.py:112-122 | the report's keys are exactly the names of the scanned directories |
| CloudPortfolioScanner.ScannedSkippedDisjoint | automation/cloud_portfolio_scanner.py:113-122 | scanned and skipped together never exceed the folder's entries |
| RepoSecurityScan.TenOffPer | scripts/portfolio_ops/portfolio_ops_05_repo_security_scan.py:64 | ten points off per missing item, never below 0; 100 exactly when nothing is missing |
| RepoSecurityScan.ReadmeScanOf | scripts/portfolio_ops/portfolio_ops_05_repo_security_scan.py:42-65 | without a README: score 0, the single entry `Missing README.md` and no write; otherwise the missing sections are those whose name does not occur ignoring case; the README is written exactly when one is missing; the score lies in [0, 100] |
| RepoSecurityScan.ScanReadme | scripts/portfolio_ops/portfolio_ops_05_repo_security_scan.py:42-65 | the loop computes what `ReadmeScanOf` says |
| RepoSecurityScan.PatchKeeps | scripts/portfolio_ops/portfolio_ops_05_repo_security_scan.py:55-62 | every stubbed section and every section the text already had occurs in the patched README |
| RepoSecurityScan.PatchedReadmeComplete | scripts/portfolio_ops/portfolio_ops_05_repo_security_scan.py:42-65 | a second scan of the patched README finds nothing missing, scores 100 and writes nothing |
| RepoSecurityScan.ReadmeScoreBounds | scripts/portfolio_ops/portfolio_ops_05_repo_security_scan.py:15-23 | with the seven configured sections an existing README scores at least 30, and 100 exactly when nothing is missing |
| RepoSecurityScan.CloudScoreOf | scripts/portfolio_ops/portfolio_ops_05_repo_security_scan.py:77-78 | the cloud score lies in [0, 100] |
| RepoSecurityScan.ScanCloudRelevance | scripts/portfolio_ops/portfolio_ops_05_repo_security_scan.py:67-82 | the text of every file is lower-cased and concatenated in walk order; the score is the keywords found as a share of the list; the tip is given under 70 |
| RepoSecurityScan.CorpusAppend | scripts/portfolio_ops/portfolio_ops_05_repo_security_scan.py:72-75 | the text gathered from two runs of files is the two texts one after the other |
| RepoSecurityScan.CloudScoreMonotone | scripts/portfolio_ops/portfolio_ops_05_repo_security_scan.py:67-82 | more files never lower the cloud score |
| RepoSecurityScan.CloudScoreTens | scripts/portfolio_ops/portfolio_ops_05_repo_security_scan.py:25-28 | with the ten configured keywords each keyword found is worth exactly ten points |
| RepoSecurityScan.DocsScoreOf | scripts/portfolio_ops/portfolio_ops_05_repo_security_scan.py:105 | the documentation score lies in [0, 100] |
| RepoSecurityScan.AddHeaders | scripts/portfolio_ops/portfolio_ops_05_repo_security_scan.py:96-103 | counts the scripts holding `"""` or `#`, puts the header docstring in front of every other script, and notes each header in walk order |
| RepoSecurityScan.ScanDocs | scripts/portfolio_ops/portfolio_ops_05_repo_security_scan.py:84-109 | without a script: score 0 and `No code files found`; otherwise the share of commented scripts, the tip under 70, then the header notes |
| RepoSecurityScan.HeadersComplete | scripts/portfolio_ops/portfolio_ops_05_repo_security_scan.py:96-105 | after the headers every script is commented, so a second scan scores 100 whenever there is a script and adds no header |
| RepoSecurityScan.ScanStructure | scripts/portfolio_ops/portfolio_ops_05_repo_security_scan.py:111-129 | the expected entries that do not exist, in order, ten points off each, and one suggestion naming them all |
| RepoSecurityScan.StructureScoreBounds | scripts/portfolio_ops/portfolio_ops_05_repo_security_scan.py:116-123 | with the three expected entries the layout score is at least 70, and 100 exactly when all exist |
| RepoSecurityScan.Total | scripts/portfolio_ops/portfolio_ops_05_repo_security_scan.py:143-149 | the weighted total with the README bonus lies in [5, 100] and is 100 exactly when all four scores are |
| RepoSecurityScan.AuditOf | scripts/portfolio_ops/portfolio_ops_05_repo_security_scan.py:131-162 | the audit's total lies in [5, 100] and is 100 exactly when all four scores are |
| RepoSecurityScan.PatchReadme | scripts/portfolio_ops/portfolio_ops_05_repo_security_scan.py:138 | the first scan of the audit and the repository after its README write |
| RepoSecurityScan.AuditRepo | scripts/portfolio_ops/portfolio_ops_05_repo_security_scan.py:131-162 | the four scans in order, each seeing what the previous one wrote; the total lies in [5, 100] |
| RepoSecurityScan.AuditSettles | scripts/portfolio_ops/portfolio_ops_05_repo_security_scan.py:138-141 | a second audit of an audited repository finds no README section missing and no script without a comment |
| RepoSecurityScan.AuditsCounted | scripts/portfolio_ops/portfolio_ops_05_repo_security_scan.py:180-182 | one audit per directory whose name does not start with a dot |
| RepoSecurityScan.AuditFolder | scripts/portfolio_ops/portfolio_ops_05_repo_security_scan.py:171-184 | every visible directory is audited in listing order, one audit each |
| CloudServiceEntryScan.FileHits | scripts/cloud_ops/cloudops_16_cloud_service_entry_scan.py:42 | a file adds at most one hit per keyword, and nothing unless its extension is listed and it can be read |
| CloudServiceEntryScan.FileMarkers | scripts/cloud_ops/cloudops_16_cloud_service_entry_scan.py:44-45 | a file that is not counted adds no comment marker |
| CloudServiceEntryScan.CountFiles | scripts/cloud_ops/cloudops_16_cloud_service_entry_scan.py:35-47 | the walk sums the keyword hits and the comment markers of the counted files |
| CloudServiceEntryScan.TotalsAdd | scripts/cloud_ops/cloudops_16_cloud_service_entry_scan.py:35-47 | hits and markers add up across two runs of files |
| CloudServiceEntryScan.TotalHitsBound | scripts/cloud_ops/cloudops_16_cloud_service_entry_scan.py:42 | the hits never exceed one per keyword and file |
| CloudServiceEntryScan.RepeatInFileSameHits | scripts/cloud_ops/cloudops_16_cloud_service_entry_scan.py:42 | a file's text repeated after a space gives the same hits as the text |
| CloudServiceEntryScan.SectionsFound | scripts/cloud_ops/cloudops_16_cloud_service_entry_scan.py:50-57 | at most one per listed section, and none without a README |
| CloudServiceEntryScan.CountSections | scripts/cloud_ops/cloudops_16_cloud_service_entry_scan.py:50-57 | the loop counts the listed sections present in the lower-cased README |
| CloudServiceEntryScan.CloudScore | scripts/cloud_ops/cloudops_16_cloud_service_entry_scan.py:60 | five points per hit lie in [0, 100] and reach 100 exactly from 20 hits |
| CloudServiceEntryScan.ReadmeScore | scripts/cloud_ops/cloudops_16_cloud_service_entry_scan.py:61 | the README score is one of 0, 25, 50, 75 or 100, and 100 exactly when all four sections are found |
| CloudServiceEntryScan.DocScore | scripts/cloud_ops/cloudops_16_cloud_service_entry_scan.py:62 | a tenth of a point per marker lies in [0, 100] and reaches 100 exactly from 1000 markers |
| CloudServiceEntryScan.Total | scripts/cloud_ops/cloudops_16_cloud_service_entry_scan.py:19-23 | the 0.4/0.3/0.3 total lies in [0, 100] and is 100 exactly when all three scores are |
| CloudServiceEntryScan.Suggestions | scripts/cloud_ops/cloudops_16_cloud_service_entry_scan.py:71-78 | each hint is listed exactly when its score is under its threshold (70, 75, 50) |
| CloudServiceEntryScan.BuildSuggestions | scripts/cloud_ops/cloudops_16_cloud_service_entry_scan.py:71-78 | the hints are added in the order cloud, README, documentation |
| CloudServiceEntryScan.ScanOf | scripts/cloud_ops/cloudops_16_cloud_service_entry_scan.py:24-87 | every score and the total lie in [0, 100]; the README score is a multiple of 25; it is 0 without a README |
| CloudServiceEntryScan.ScanRepo | scripts/cloud_ops/cloudops_16_cloud_service_entry_scan.py:24-87 | the walk, the README check, the scores, the total and the suggestions of one repository |
| CloudServiceEntryScan.ScoresMonotone | scripts/cloud_ops/cloudops_16_cloud_service_entry_scan.py:35-62 | more files never lower the cloud or documentation score |
| CloudServiceEntryScan.Scans | scripts/cloud_ops/cloudops_16_cloud_service_entry_scan.py:88-98 | at most one scan per folder entry |
| CloudServiceEntryScan.ScansCounted | scripts/cloud_ops/cloudops_16_cloud_service_entry_scan.py:96-97 | exactly one scan per directory |
| CloudServiceEntryScan.ScanAllRepos | scripts/cloud_ops/cloudops_16_cloud_service_entry_scan.py:88-98 | one scan per directory of the folder, in listing order |
| RepoAutofixer.Created | scripts/repo_autofixer.py:55-69 | only names of the list that did not exist are created, at most one per name |
| RepoAutofixer.Ensured | scripts/repo_autofixer.py:55-69 | what existed before still exists |
| RepoAutofixer.EnsuredHas | scripts/repo_autofixer.py:55-69 | every listed name exists after the loop |
| RepoAutofixer.EnsuredIff | scripts/repo_autofixer.py:55-69 | a name exists after the loop exactly when it existed before or is listed |
| RepoAutofixer.CreatedNone | scripts/repo_autofixer.py:55-69 | with every name present nothing is created |
| RepoAutofixer.Report | scripts/repo_autofixer.py:58 | one `Missing required <kind>: <name>` message per created name, in order |
| RepoAutofixer.EnsureAll | scripts/repo_autofixer.py:55-69 | one loop of `check_structure`: report and create each missing name in list order |
| RepoAutofixer.EnsureSettles | scripts/repo_autofixer.py:50-71 | once the loop ran every name exists, so a second run creates nothing |
| RepoAutofixer.CreatedIff | scripts/repo_autofixer.py:57 | a listed name is created exactly when it did not exist |
| RepoAutofixer.CheckStructure | scripts/repo_autofixer.py:50-71 | the missing files, then the missing folders, are reported, and the layout gains them |
| RepoAutofixer.Patched | scripts/repo_autofixer.py:88-92 | the patched README starts with the text it was given |
| RepoAutofixer.MissingSections | scripts/repo_autofixer.py:88-92 | at most one report per listed section |
| RepoAutofixer.CheckReadme | scripts/repo_autofixer.py:73-99 | the missing sections in order, and the README afterwards: given a title line when absent and written back only when something was missing |
| RepoAutofixer.PatchedHasAll | scripts/repo_autofixer.py:88-92 | every listed section occurs in the patched README |
| RepoAutofixer.MissingIffChanged | scripts/repo_autofixer.py:88-97 | nothing is missing exactly when the text is left as it was |
| RepoAutofixer.NothingToPatch | scripts/repo_autofixer.py:88-92 | with every section present nothing is missing or appended |
| RepoAutofixer.ReadmeSettles | scripts/repo_autofixer.py:73-99 | a second run on the patched README reports nothing and writes nothing, unless the first run left an empty README: when README.md is absent and the `# <name>` title alone already holds every section, the source touches an empty file and the next run patches it, a case the lemma's precondition sets apart |
| RepoAutofixer.SensitivePaths | scripts/repo_autofixer.py:115-121 | at most one entry per file |
| RepoAutofixer.FirstMatch | scripts/repo_autofixer.py:118-121 | the inner loop stops at the first pattern the name contains, or runs through when none does |
| RepoAutofixer.ScanSecrets | scripts/repo_autofixer.py:101-123 | the path of each file whose lower-cased name contains a sensitive pattern, once, in walk order |
| RepoAutofixer.LicenseNotSensitive | scripts/repo_autofixer.py:104-113 | the `LICENSE` file the fixer creates is never flagged |
| RepoAutofixer.ReadmeNotSensitive | scripts/repo_autofixer.py:104-113 | the `README.md` the fixer writes is never flagged |
| RepoAutofixer.Hireability | scripts/repo_autofixer.py:125-138 | the score lies in [0, 100] and is 100 exactly when there is no lint line and no issue of any kind |
| RepoAutofixer.CalculateHireability | scripts/repo_autofixer.py:125-138 | the step-by-step deductions compute `Hireability` |
| RepoAutofixer.HireabilityMonotone | scripts/repo_autofixer.py:130-136 | more issues of any kind never raise the score |
| RepoAutofixer.LintCapped | scripts/repo_autofixer.py:132 | lint alone never takes more than 30 points |
| RepoAutofixer.BandOf | scripts/repo_autofixer.py:202-209 | the four bands split the scores at 90, 70 and 50 |
| RepoAutofixer.ProcessRepo | scripts/repo_autofixer.py:140-211 | hidden and tool folders are skipped and left alone; any other repository gets its layout fixed, its README patched, the sensitive names listed, a score and a band |
| RepoAutofixer.ScanSelection | scripts/repo_autofixer.py:225-231 | at most one repository per entry |
| RepoAutofixer.SelectRepos | scripts/repo_autofixer.py:222-231 | counts the directories and hands over each one that holds `.git` or is among the first ten |
| RepoAutofixer.FirstDirectoriesScanned | scripts/repo_autofixer.py:225-229 | at least as many repositories are processed as the smaller of the number of directories and the limit of ten |
| RepoAutofixer.ScanSelectionIff | scripts/repo_autofixer.py:225-229 | a directory is processed exactly when it holds `.git` or is among the first ten directories of the listing, itself counted |
| CommitAutofixer.CollectAbsent | automation/commit_autofixer.py:13-18 | one loop of `check_structure`: the listed names that are absent, in order |
| CommitAutofixer.CheckStructure | automation/commit_autofixer.py:11-19 | missing files first, then missing folders, a file counting only as a file and a folder only as a folder |
| CommitAutofixer.StructureIff | automation/commit_autofixer.py:11-19 | a name is reported exactly when it is required and absent |
| CommitAutofixer.ReadmeCheck | automation/commit_autofixer.py:21-31 | the presence flag says whether README.md exists; without it every section is missing; otherwise at most the listed ones are |
| CommitAutofixer.CheckReadme | automation/commit_autofixer.py:21-31 | the loop computes `ReadmeCheck` |
| CommitAutofixer.PlaceholdersContain | automation/commit_autofixer.py:67-68 | every section handed to the update occurs in what it appends |
| CommitAutofixer.UpdatedReadme | automation/commit_autofixer.py:61-68 | the README keeps its text, or starts with the title line when it was absent, and the blocks are appended after it |
| CommitAutofixer.UpdateReadme | automation/commit_autofixer.py:61-68 | the appending loop computes `UpdatedReadme` |
| CommitAutofixer.UpdateSettles | automation/commit_autofixer.py:94-100 | after the update a second check finds the README with every section |
| CommitAutofixer.FlaggedPaths | automation/commit_autofixer.py:33-45 | at most one entry per file |
| CommitAutofixer.AnyOf | automation/commit_autofixer.py:37-43 | an `or` chain holds exactly when one of its tests holds |
| CommitAutofixer.ScanSecrets | automation/commit_autofixer.py:33-45 | nothing when a file with a listed ending cannot be opened, since the error is not caught; otherwise the path of each file with a listed ending whose text contains `SECRET`, `KEY` or `TOKEN`, in walk order |
| CommitAutofixer.ReadmeNotScanned | automation/commit_autofixer.py:37-38 | README.md is never flagged and never stops the scan, whatever its text |
| CommitAutofixer.Score | automation/commit_autofixer.py:113-122 | the score lies in [35, 100]; it is 100 exactly when there is no problem and 35 exactly when there are problems of all four kinds |
| CommitAutofixer.ScoreMonotone | automation/commit_autofixer.py:114-122 | a problem of one more kind never raises the score |
| CommitAutofixer.FixReadme | automation/commit_autofixer.py:94-100 | the README is checked and updated only when a section is missing, after which it has every section |
| CommitAutofixer.ComputeScore | automation/commit_autofixer.py:113-122 | the deductions one after the other compute `Score` |
| CommitAutofixer.ProcessRepo | automation/commit_autofixer.py:71-124 | the README is patched first and afterwards has every section; the lint flag, the structure, README and secret findings and the score follow, except that a file with a listed ending that cannot be opened ends the run before the score, exactly then |
| UltimateRepoValidator.PlaceholderIssues | scripts/ultimate_repo_validator.py:41-51 | at most one issue per pattern |
| UltimateRepoValidator.CheckPlaceholders | scripts/ultimate_repo_validator.py:41-51 | the loop lists one issue per pattern that matches, in pattern order |
| UltimateRepoValidator.PlaceholderIff | scripts/ultimate_repo_validator.py:48-50 | an issue names a pattern exactly when its word occurs as a whole word |
| UltimateRepoValidator.IssueNamesWord | scripts/ultimate_repo_validator.py:50 | different patterns give different issue texts |
| UltimateRepoValidator.IssueSource | scripts/ultimate_repo_validator.py:48-50 | every issue listed comes from one of the patterns |
| UltimateRepoValidator.CodeIssues | scripts/ultimate_repo_validator.py:63-75 | the empty issue exactly when the stripped text is empty, the tab issue exactly when the text holds a tab, no more than these two |
| UltimateRepoValidator.BothCodeIssues | scripts/ultimate_repo_validator.py:71-74 | a file holding only a tab gets both issues, in that order |
| UltimateRepoValidator.UnreadableIsEmpty | scripts/ultimate_repo_validator.py:35-40 | a code file that cannot be read is reported as empty, and only as empty |
| UltimateRepoValidator.ReportOf | scripts/ultimate_repo_validator.py:76-108 | README.md's path is listed as missing exactly when it is absent; otherwise the missing sections are those that do not occur in it |
| UltimateRepoValidator.CheckReadme | scripts/ultimate_repo_validator.py:52-62 | the sections that do not occur in the README, in list order |
| UltimateRepoValidator.WalkRepo | scripts/ultimate_repo_validator.py:96-106 | the placeholder and code issues of every file that is not hidden, in walk order, each naming the file by its path under the repository path |
| UltimateRepoValidator.ValidateRepo | scripts/ultimate_repo_validator.py:76-108 | the README check, then the walk, compute `ReportOf` |
| UltimateRepoValidator.PlaceholderBound | scripts/ultimate_repo_validator.py:96-103 | at most one placeholder issue per pattern and file |
| UltimateRepoValidator.HiddenIgnored | scripts/ultimate_repo_validator.py:100-101 | a hidden file adds no issue |
| UltimateRepoValidator.CleanNeedsReadme | scripts/ultimate_repo_validator.py:88-93 | a report with no issue at all needs a README holding every section |
| PortfolioBooster.UpdatedReadme | optional/portfolio_booster.py:26-43 | an existing README keeps its text at the front |
| PortfolioBooster.UpdateReadme | optional/portfolio_booster.py:26-43 | start from a title line when there is no README, then append the block of each key that does not occur in the text so far |
| PortfolioBooster.BlockHasKey | optional/portfolio_booster.py:8-21 | every section text contains its own key |
| PortfolioBooster.UpdateComplete | optional/portfolio_booster.py:36-40 | after one pass every key occurs in the README |
| PortfolioBooster.UpdateIdempotent | optional/portfolio_booster.py:36-43 | a second pass leaves the README as the first one wrote it |
| PortfolioBooster.RemoveWordFrom | optional/portfolio_booster.py:53 | removing whole-word matches never makes the text longer |
| PortfolioBooster.RemoveNothing | optional/portfolio_booster.py:53 | without a whole-word match the text is kept as it is |
| PortfolioBooster.RemoveShortens | optional/portfolio_booster.py:53 | a whole-word match makes the text shorter |
| PortfolioBooster.RemoveChangesIff | optional/portfolio_booster.py:53-54 | the text changes, and so is written back, exactly when it holds a whole-word match |
| PortfolioBooster.RemovedLeavesNoWord | optional/portfolio_booster.py:53 | for a word made of word characters, the removal leaves no whole-word match behind, because the characters around a removed match are not word characters |
| PortfolioBooster.TodoGone | optional/portfolio_booster.py:53 | after the substitution no whole-word `TODO` is left |
| PortfolioBooster.RemoveTodoIdempotent | optional/portfolio_booster.py:53-54 | so a second substitution changes nothing |
| PortfolioBooster.Walked | optional/portfolio_booster.py:46-52 | a fixing walk keeps the number of files |
| PortfolioBooster.Rewritten | optional/portfolio_booster.py:54-57 | at most one rewritten path per file |
| PortfolioBooster.RemoveTodos | optional/portfolio_booster.py:45-57 | each script before the first one that cannot be opened loses its whole-word `TODO`s and is rewritten only when its text changed; opening that script raises, leaving it and the rest as they were, and the failure is reported exactly when such a script exists |
| PortfolioBooster.TodoRewrittenIff | optional/portfolio_booster.py:48-54 | a file is rewritten exactly when it is a readable script holding a whole-word `TODO` |
| PortfolioBooster.TodosGone | optional/portfolio_booster.py:45-57 | after a walk that met no unopenable script no script holds a whole-word `TODO`, and a second walk changes nothing |
| PortfolioBooster.DocHeader | optional/portfolio_booster.py:60-61 | the header starts with `# ` |
| PortfolioBooster.AddDocHeaders | optional/portfolio_booster.py:59-73 | each script before the first one that cannot be opened gets the header in front, and is rewritten, when it does not start with `# `; opening that script raises, and the failure is reported exactly when such a script exists |
| PortfolioBooster.HeaderRewrittenIff | optional/portfolio_booster.py:64-72 | a file is rewritten exactly when it is a readable script that does not start with `# ` |
| PortfolioBooster.HeaderIdempotent | optional/portfolio_booster.py:60-72 | the header starts with `# `, so adding headers twice is adding them once |
| PortfolioBooster.HeadersGoThrough | optional/portfolio_booster.py:45-73 | removing TODO words keeps every script readable, so after a TODO walk that met no unopenable script the header walk meets none either and applies the header fix to every file |
| PortfolioBooster.BoostRepo | optional/portfolio_booster.py:98-102 | README update, then TODO removal, then headers, in that order; an unopenable script stops the repository after the README update and the TODO removal it reached |
| PortfolioBooster.Boosted | optional/portfolio_booster.py:98-102 | the README becomes the updated one and no file is added or dropped |
| PortfolioBooster.BoostFailsIff | optional/portfolio_booster.py:45-73 | a repository stops the run exactly when one of its scripts cannot be opened; otherwise every script starts with a `# ` comment afterwards |
| PortfolioBooster.Quota | optional/portfolio_booster.py:76-77 | `min(10 - n, 3)` names are considered, none from ten repositories on, and never more than reach ten |
| PortfolioBooster.PlaceholderRepo | optional/portfolio_booster.py:79-86 | a new placeholder repository holds only its README.md, with the title line and every section text |
| PortfolioBooster.CreatePlaceholderRepos | optional/portfolio_booster.py:75-87 | the first `Quota` names, skipping those that already exist, each become a placeholder repository |
| PortfolioBooster.PlaceholderCount | optional/portfolio_booster.py:75-87 | at most three are created, none from ten repositories on, each a listed name that did not exist |
| PortfolioBooster.PlaceholdersFill | optional/portfolio_booster.py:76-77 | under ten repositories the quota reaches ten or uses up the list |
| PortfolioBooster.Sweep | optional/portfolio_booster.py:96-102 | the loop over the repositories touches at most one result per repository, and all of them when it does not stop |
| PortfolioBooster.SweepStops | optional/portfolio_booster.py:96-102 | once a repository has stopped the run, the later ones are never visited |
| PortfolioBooster.SweepFailsIff | optional/portfolio_booster.py:96-102 | the run stops exactly when some repository stops it; otherwise each result is that repository boosted |
| PortfolioBooster.BoostedAllFailsIff | optional/portfolio_booster.py:89-105 | the booster stops exactly when some repository holds a script that cannot be opened; otherwise every script of every repository starts with a `# ` comment |
| PortfolioBooster.BoostPortfolio | optional/portfolio_booster.py:96-105 | the repositories are boosted in listing order until the run stops, and the placeholders are created only when it did not |
| RepoScanner.ScoreOf | troubleshooting/repo_scanner.py:20-35 | the score lies in [50, 100] and is 100 exactly when every bonus is earned |
| RepoScanner.GradeOf | troubleshooting/repo_scanner.py:37-44 | the grades split the scores at 95, 85 and 70 |
| RepoScanner.ScoreRepo | troubleshooting/repo_scanner.py:20-46 | the bonuses one after the other, the cap and the grade compute `ScoreOf` and `GradeOf` |
| RepoScanner.GradeAIff | troubleshooting/repo_scanner.py:21-44 | the bonuses add up to exactly 100, so the cap never bites and an A needs every bonus |
| RepoScanner.ScoreMonotone | troubleshooting/repo_scanner.py:21-35 | gaining a bonus never lowers the score |
| RepoScanner.TerraformRequired | troubleshooting/repo_scanner.py:58 | a repository missing from the table is taken to need Terraform |
| RepoScanner.Detect | troubleshooting/repo_scanner.py:63-71 | the scripts are counted and a `.tf` file is noticed anywhere in the walk |
| RepoScanner.Issues | troubleshooting/repo_scanner.py:73-79 | no issue exactly when README, `.gitignore` and the Terraform rule are all satisfied; at most three |
| RepoScanner.ResultOf | troubleshooting/repo_scanner.py:55-99 | a repository graded A has no issue |
| RepoScanner.ScanRepo | troubleshooting/repo_scanner.py:58-99 | the checks of one repository compute `ResultOf` |
| RepoScanner.Results | troubleshooting/repo_scanner.py:51-56 | one result per git repository of the folder |
| RepoScanner.ScanFolder | troubleshooting/repo_scanner.py:51-99 | the loop skips everything but git repositories and scans each of those |
| ScanPortfolio.ReadLinesConcat | troubleshooting/scan_portfolio.py:44 | the lines joined give the text back |
| ScanPortfolio.ReadLinesShape | troubleshooting/scan_portfolio.py:44 | each line is non-empty and holds a newline only as its last character; every line but the last ends with one |
| ScanPortfolio.Reported | troubleshooting/scan_portfolio.py:49-54 | an entry names its file and line number; `Matches` passes the file's path under the repository name, as `relpath` against the folder of repositories gives it |
| ScanPortfolio.LineMatches | troubleshooting/scan_portfolio.py:47-48 | at most one entry per pattern |
| ScanPortfolio.LineMatchesCopies | troubleshooting/scan_portfolio.py:47-54 | a line gives exactly as many entries as there are patterns that match it, and every one is the same record |
| ScanPortfolio.FileMatchesLines | troubleshooting/scan_portfolio.py:46-54 | every entry names the file and a line number between 1 and the number of lines |
| ScanPortfolio.FileMatchesBound | troubleshooting/scan_portfolio.py:46-54 | at most one entry per line and pattern |
| ScanPortfolio.NoPatternNoMatch | troubleshooting/scan_portfolio.py:47-48 | a line matching no pattern contributes nothing |
| ScanPortfolio.MatchLine | troubleshooting/scan_portfolio.py:47-54 | the pattern loop of one line |
| ScanPortfolio.MatchFile | troubleshooting/scan_portfolio.py:46-54 | the loop over the numbered lines of one file |
| ScanPortfolio.AnyReadmeIff | troubleshooting/scan_portfolio.py:38-39 | the README flag is raised exactly when some file name starts with `readme` ignoring case |
| ScanPortfolio.Beefiness | troubleshooting/scan_portfolio.py:59 | the score lies in [0, 100] and is 100 exactly when `20 * files + lines >= 10000` |
| ScanPortfolio.BeefinessExact | troubleshooting/scan_portfolio.py:59 | the integer form equals `min(100, int(files / 5 + lines / 100))` on exact numbers |
| ScanPortfolio.BeefinessMonotone | troubleshooting/scan_portfolio.py:59 | more files or more lines never lower the score |
| ScanPortfolio.InfoOf | troubleshooting/scan_portfolio.py:27-67 | every file counts; the README flag holds exactly when some file is a README |
| ScanPortfolio.ScanFile | troubleshooting/scan_portfolio.py:41-56 | a readable file adds its lines and their entries; an unreadable one adds nothing |
| ScanPortfolio.ScanRepo | troubleshooting/scan_portfolio.py:27-67 | the walk computes `InfoOf` |
| ScanPortfolio.ScanAll | troubleshooting/scan_portfolio.py:85-92 | one report per directory of the folder, in listing order |
| RepoStringFixer.Unescaped | automation/repo_string_fixer.py:106-107 | the count of unescaped quotes never exceeds the length and is 0 without the quote |
| RepoStringFixer.UnescapedOther | automation/repo_string_fixer.py:106-107 | appending another character leaves the count alone |
| RepoStringFixer.UnescapedSame | automation/repo_string_fixer.py:106-107 | appending the quote adds one unless the text ends in a backslash |
| RepoStringFixer.Closing | automation/repo_string_fixer.py:114-117 | the single quote is appended exactly when its count is odd, the double quote otherwise |
| RepoStringFixer.FixLine | automation/repo_string_fixer.py:103-124 | a line changes exactly when it is unbalanced, not a comment and holds `=`; it then becomes its right-stripped form plus the closing quote; no newline is introduced |
| RepoStringFixer.ClosingCount | automation/repo_string_fixer.py:110-117 | the appended quote had an odd count, and it goes up by one unless a backslash escapes it |
| RepoStringFixer.FixCloses | automation/repo_string_fixer.py:110-117 | without a trailing backslash the appended quote's count becomes even |
| RepoStringFixer.FixEscaped | automation/repo_string_fixer.py:110-117 | after a trailing backslash the appended quote is escaped and its count stays odd |
| RepoStringFixer.FixBothOdd | automation/repo_string_fixer.py:114-117 | a line odd in both quotes gets the single quote and keeps an odd double-quote count |
| RepoStringFixer.EscapedExample | automation/repo_string_fixer.py:106-117 | `a='\` is altered to `a='\'`, which is still unterminated |
| RepoStringFixer.FixOne | automation/repo_string_fixer.py:98-124 | the loop body computes `FixLine` and raises the change flag exactly when the line is altered |
| RepoStringFixer.FixedLines | automation/repo_string_fixer.py:98-124 | one output line per input line |
| RepoStringFixer.LineChanges | automation/repo_string_fixer.py:119-122 | at most one change per line |
| RepoStringFixer.FixedLinesAt | automation/repo_string_fixer.py:98-124 | line `k` of the output is line `k` fixed |
| RepoStringFixer.NothingAltered | automation/repo_string_fixer.py:98-124 | with no line altered every line is kept |
| RepoStringFixer.ChangesCounted | automation/repo_string_fixer.py:119-122 | the count is the number of altered lines |
| RepoStringFixer.OutcomeOf | automation/repo_string_fixer.py:94-144 | the file is written back, and `True` returned, exactly when the smart-quote pass or a line changed something; the count never exceeds the number of lines |
| RepoStringFixer.FixAll | automation/repo_string_fixer.py:94-124 | the line loop gives the fixed lines, the count of altered lines and the change flag |
| RepoStringFixer.FixStrings | automation/repo_string_fixer.py:94-144 | the line loop and the decision to write compute `OutcomeOf` |
| RepoStringFixer.LinesPreserved | automation/repo_string_fixer.py:127-131 | the text written back has as many lines as the file had, and line `k` of it is line `k` fixed |
| RepoStringFixer.NoLineFixed | automation/repo_string_fixer.py:127-131 | a file written only because of the smart-quote pass keeps its lines as they were |
| CommitMessageAnalyzer.ScopeRun | troubleshooting/commit_message_analyzer.py:68 | the run of `[\w\-]` characters at the start of a text stops at the first other character |
| CommitMessageAnalyzer.ScopeRunStops | troubleshooting/commit_message_analyzer.py:68 | a scope followed by a non-scope character is read as exactly that scope |
| CommitMessageAnalyzer.TailMatchesParts | troubleshooting/commit_message_analyzer.py:68 | an optional valid scope and a description make a tail that matches |
| CommitMessageAnalyzer.TailParts | troubleshooting/commit_message_analyzer.py:68 | every matching tail splits into an optional valid scope and a description |
| CommitMessageAnalyzer.HeaderConventional | troubleshooting/commit_message_analyzer.py:64-69 | every header built from a known type, a valid scope and a description matches |
| CommitMessageAnalyzer.ConventionalHeader | troubleshooting/commit_message_analyzer.py:64-69 | every subject that matches is such a header |
| CommitMessageAnalyzer.Subject | troubleshooting/commit_message_analyzer.py:41-47 | the subject is the text before the first newline |
| CommitMessageAnalyzer.Body | troubleshooting/commit_message_analyzer.py:42 | subject, newline and body give the message back |
| CommitMessageAnalyzer.SubjectFirstPiece | troubleshooting/commit_message_analyzer.py:42 | splitting once and splitting everywhere agree on the first piece |
| CommitMessageAnalyzer.SuggestFix | troubleshooting/commit_message_analyzer.py:71-83 | the suggestion is `chore: ` followed by the first line of the stripped message, capitalized |
| CommitMessageAnalyzer.SuggestionConventional | troubleshooting/commit_message_analyzer.py:77-83 | the suggestion for a message that is not blank passes the format check |
| CommitMessageAnalyzer.BlankSuggestion | troubleshooting/commit_message_analyzer.py:77-83 | a blank message gets the bare `chore: `, which the format check rejects |
| CommitMessageAnalyzer.IssuesMeaning | troubleshooting/commit_message_analyzer.py:35-52 | each issue is listed exactly when its check fails, in the order the checks run |
| CommitMessageAnalyzer.ReportMeaning | troubleshooting/commit_message_analyzer.py:23-58 | the report is valid exactly when no issue is listed; each issue is listed exactly when its check fails, in order; a suggestion is given exactly when auto-fix is on and the message is invalid |
| CommitMessageAnalyzer.OneLineValid | troubleshooting/commit_message_analyzer.py:35-52 | a one-line message of at most 72 characters is valid exactly when its header matches |
| CommitMessageAnalyzer.SplitSubject | troubleshooting/commit_message_analyzer.py:41-47 | the subject, and whether a body follows it without a blank line |
| CommitMessageAnalyzer.Analyzer.constructor | troubleshooting/commit_message_analyzer.py:9-17 | the settings are stored and the eleven conventional types are allowed |
| CommitMessageAnalyzer.Analyzer.Analyze | troubleshooting/commit_message_analyzer.py:23-58 | the checks in order, each adding its issue and clearing the valid flag, then the suggestion, compute `ReportOf` |
| Fs.Overwrite | scripts/portfolio_ops/portfolio_ops_05_repo_security_scan.py:60-62 | writing README.md changes that file's text and no other file |
| Fs.Suffix | scripts/portfolio_ops/portfolio_ops_05_repo_security_scan.py:89 | a file's suffix is empty, or a dot-led ending of the name with no other dot that is shorter than the name |

## Left out

- Console output, JSON report files and colour codes are not modelled. Each script's printed summary follows directly from the values the model computes.
- The walks see a repository as its list of files in walk order. The order `os.walk` and `rglob` produce is taken as given, and the sorting of the listing in `troubleshooting/repo_scanner.py` is not modelled.
- Directories that `rglob("*")` yields are not modelled. In `portfolio_ops_05_repo_security_scan.py` a directory named like a script would count as an uncommented script.
- A file that cannot be read is `None`. Where a script catches the error, it reads the file as empty text or skips it, and the model does the same. Where it does not, the run ends at that file: `CommitAutofixer.ScanSecrets`, `PortfolioBooster.RemoveTodos`, `PortfolioBooster.AddDocHeaders` and the loops above them model that end.
- A README is either present with its text or absent. Four reads of README.md catch no error: `automation/commit_autofixer.py` line 26, `scripts/repo_autofixer.py` line 84, `optional/portfolio_booster.py` line 33, which also decodes strict UTF-8, and `cloudops_16_cloud_service_entry_scan.py` line 52. A README that exists but cannot be opened or decoded would end those runs. The model has no such README, so that end is not modelled.
- Fs.WithReadme: writing a README where none existed sets the repository's README but does not add a file to its file list or its name to its top-level files.
- Running `autopep8` and `flake8` is left out. The lint output enters as a number of lines in `RepoAutofixer` and as whether anything was printed in `CommitAutofixer`.
- Floating point is not modelled. Percentages and weighted totals are exact reals or integer divisions.
- CloudPortfolioScanner.BuildSuggestions: `round(x, 1)` is left out. `automation/cloud_portfolio_scanner.py` rounds the three component scores (lines 61, 69 and 86) before the `< 50` tests of lines 142-145 and before the total, and `cloudops_16_cloud_service_entry_scan.py` returns rounded scores (lines 82-85). The rounding can change a hint. With 1999 documented scripts out of 4001, the score is 49.96: the source rounds it to 50.0 and gives no documentation hint, while the model lists one.
- Lower-casing, capitalizing and the `\w` class are modelled for ASCII letters only. Whitespace is Python's `str.isspace` set.
- ScanPortfolio: the five placeholder regular expressions of `troubleshooting/scan_portfolio.py` are taken as abstract line tests (`string -> bool`). Their matching is not modelled.
- RepoStringFixer.OutcomeOf: the replacement pairs of the smart-quote table (lines 80-91) are not modelled. The pass enters as the flag it sets.
- RepoStringFixer: the backup copy, its removal and the restore after a failed write are left out. So are the per-repository driver and `main`.
- Writes that fail are not modelled: every write succeeds.
- String literals that the source breaks across two lines are read with a single space at the break, as in the section texts of `optional/portfolio_booster.py` (lines 9-20) and its header template (lines 60-61).
- CommitMessageAnalyzer.Analyzer: `github_username` is stored but never used, so it has no effect in the model. The constructor takes both settings explicitly; the source's defaults, `"buche"` and `auto_fix=False` (line 9), are not modelled.
- CommitMessageAnalyzer: the type names go into the pattern without escaping. The eleven configured types have no special characters, so the types are matched as plain text.
- CommitMessageAnalyzer: the `input()` entry point is left out.
- The `main` of `scripts/ultimate_repo_validator.py` starts on the comment line 112, so it is commented out as written; only `validate_repo` and its checks are modelled.
- The highest-scoring summary of `automation/cloud_portfolio_scanner.py` (lines 182-185) is not modelled; the report it reads from is.
- The removal of the analyzer cache file in `optional/portfolio_booster.py` `main` is left out.
- CloudPortfolioScanner.AutoFixEmptyFiles: the source tests `os.path.getsize(...) == 0`, and the model tests for readable empty text. A zero-byte file that cannot be read is filled by the source but not by the model. A non-empty file whose bytes all vanish under `errors="ignore"` is filled by the model but not by the source.
- Paths that the scripts only print are kept relative to the repository: the files the booster rewrites and the files the secret scans flag. Paths that go into a report are written under the repository's path or name, as the source writes them.
- The driver loop of `automation/commit_autofixer.py` (lines 127-131) is left out; `ProcessRepo` models one repository.

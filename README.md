# Email cleaning and name inference for scraped author lists

This project models the core of an email cleaner for spreadsheets of
academic authors. Each input row holds an author's Name, a Citations count,
a comma-separated list of harvested emails (All Emails) and a subset of them
marked as matching the author's name (Similar Emails). The core turns these
rows into three output tables:

- All_Clean_Emails: every structurally valid email.
- Similar_Name_Emails: the valid emails also listed as similar.
- AI_Processed_Emails: the valid emails handed to a name extractor.

Each table is deduplicated by Email and sorted by Citations, highest first.

The Dafny modules follow the program's pieces:

| module | file | what it models |
|---|---|---|
| `Text` | text.dfy | the string primitives the Python code uses (`\w`, `\s`, `isdigit`, `lower`, `capitalize`, `split`, `join`, `strip`, `startswith`, `endswith`, `in`) |
| `Wrappers` | wrappers.dfy | `Option`, for missing spreadsheet cells |
| `EmailRegex` | email_regex.dfy | `EMAIL_REGEX` with `re.match` (main.py:20, backup.py:210) |
| `Names` | names.dfy | `clean_name` and `is_missing_name` of main.py and backup.py, and the guarded `is_missing_name` of test_similar_logic.py |
| `Country` | country.dfy | `get_country` over the 15-entry table (main.py, backup.py) and the 67-entry table (simple_test.py) |
| `NameExtractor` | extractor.dfy | `extract_name_from_email` (main.py:61-127) |
| `JunkFilter` | junk.dfy | `is_junk_email` (simple_test.py:2-37) and its test emails |
| `Similarity` | similarity.dfy | `is_name_similar_to_email` and the sort-then-dedup-by-Name check of test_similar_logic.py |
| `Tables` | tables.dfy | `drop_duplicates`, `sort_values(ascending=False)` and backup.py's `mask(duplicated())` |
| `Pipeline` | pipeline.dfy | the row-building loop, dedup and sort of main.py's `process_excel` |
| `BackupPipeline` | backup_pipeline.dfy | the live `process_excel` of backup.py, with the language model as an oracle |

The code shapes carry over as follows:

- Loops that append to lists, and their bodies, are methods; the loops are
  `for` loops. Each method is proved equal to a recursive specification
  function: `ExtractNameFromEmail`, `CountMatches`, `EmailRows`,
  `ValidEmailRows`, `AuthorRows`, `ProcessExcel` and the `Backup*` methods.
- Pure expressions are functions and predicates.
- `get_country`'s early-return scan is `FirstMatch`. It is proved to return
  the longest matching key, which is what `GetCountry` returns.

The row-building of both versions of `process_excel` is written once, as
`EmailSheets` in `Pipeline` and `BackupEmailSheets` in `BackupPipeline`. It is
parameterised by a `Classifiers` pair (a country lookup and a name
extractor). main.py plugs in `GetCountry(MainTable, _)` and `ExtractName`.
backup.py plugs in the same country lookup and the filtered oracle
`LlmExtractName`. After the Email dedup and before the sort, backup.py also
blanks, in the All_Clean_Emails table, every Name that an earlier row of
that table already shows (backup.py:339-345); this is
`Tables.MaskRepeatedNames`.

### Where the doc comments and tests disagree with the code (the model follows the code)

- main.py never calls a junk filter. Its valid emails are the non-empty
  entries that match `EMAIL_REGEX`. test_filters.py:1 imports `is_junk_email`
  from main.py, but main.py does not define it. The filter is modelled on its
  own, from simple_test.py.
- Duplicates are dropped before the sort, so the surviving row of an Email is
  the first one appended, not the highest-cited one.
  `Tables.DuplicateKeepsFirstAppended` shows this on two rows.
- The doc comment of `extract_name_from_email` (main.py:78-79) promises
  "Binyuan" for `binyuan.hby` and "Lu Qin" for `lu.qin`. The code returns
  "Binyuan Hby" and "", because a 3-letter piece survives and a 2-letter piece
  does not. No single length threshold gives both documented answers.
- test_similar_logic.py:36 expects `soegaard@di.ku.dk` to be similar to
  "Anders Søgaard". The code says no: neither "anders" nor "søgaard" occurs in
  "soegaard". `Similarity.SimilarityTestData` states the code's answer.

## Model

| member | source | states |
|---|---|---|
| `EmailRegex.MatchesIffShape` | main.py:20 | the regex accepts exactly the strings `L "@" X "." Y` (L and X non-empty runs of `[\w.-]`, Y a non-empty run of `\w`), optionally followed by one newline, which Python's `$` lets through; both directions |
| `EmailRegex.TrailingNewlineAccepted` | main.py:20 | a string of the pattern's shape followed by "\n" is still accepted |
| `EmailRegex.MatchedSplitsInTwo` | main.py:165-172 | an accepted email holds exactly one '@', so `split("@")` gives two pieces and the email is piece 0, '@', piece 1 |
| `EmailRegex.MatchedLocalHasNoSpace` | main.py:20 | the text before the '@' of an accepted email holds no space |
| `Names.CleanName` | main.py:26-31 | an absent cell gives ""; the result holds none of U+00A0, U+200B, U+200C, U+200D, U+FEFF, U+2028, U+2029, and its only whitespace is the plain space |
| `Names.MissingIgnoresSpacing` | main.py:33-35 | the missing-name test gives the same answer on a name and on its whitespace-collapsed form |
| `Names.EmptyCleanNameIsMissing` | main.py:26-35 | a cell that cleans to "" (including an absent one) counts as a missing name |
| `Names.BackupCleanName` | backup.py:216-219 | an absent cell gives ""; otherwise the stripped text, with no whitespace at either end |
| `Names.BackupMissingImpliesMissing` | backup.py:221-222 | every name backup.py reads as missing (seven sentinels after strip and lower) is also missing for main.py |
| `Names.NotApplicableOnlyMissingInMain` | backup.py:221-222 | the converse fails: "n/a" is missing for main.py and a real name for backup.py |
| `Names.MissingSurvivesCleaning` | main.py:26-35 | a name `is_missing_name` reads as missing is still missing after `clean_name`: the markers hold no invisible character for cleaning to delete |
| `Names.ZeroWidthSpaceMissingOnlyAfterCleaning` | test_similar_logic.py:4-7 | the converse fails: a lone U+200B is a name to test_similar_logic.py's `is_missing_name`, but main.py's `clean_name` deletes it and the empty result is missing |
| `Country.LongestKeySuffix` | main.py:56-58 | the result is a key of the table that ends the domain, and no longer matching key exists; None only when no key ends the domain |
| `Country.GetCountry` | main.py:37-59 | "Other/Global" when no key ends the lower-cased domain; when some key does, the country of a matching key that no other matching key is longer than |
| `Country.FirstMatch` | main.py:56-58 | the first-hit scan returns a key that ends the domain, and returns none exactly when no key does |
| `Country.SortedScanFindsLongest` | main.py:56-58 | scanning the keys longest first and stopping at the first hit finds the longest matching key, whatever order keys of equal length take |
| `Country.ScanAgrees` | main.py:37-59 | the source's scan over `sorted(tld_map, key=len, reverse=True)` gives the same country as the longest-suffix lookup |
| `Country.MainTableCoherent` | main.py:39-55 | in the 15-entry table every key's last label is a key with the same country |
| `Country.AnyMatchingKeyAgrees` | main.py:56-58 | in a coherent table, any key that ends the domain gives the country the lookup returns, so iteration order cannot change the answer |
| `Country.ExtendedTableCoherent` | simple_test.py:42-94 | the 67-entry table is coherent too |
| `Country.ExtendedTableExamples` | simple_test.py:130-134 | test.pk, test.br, test.ru, test.ac.uk and test.edu.au map to Pakistan, Brazil, Russia, United Kingdom and Australia; test.unknown maps to Other/Global |
| `NameExtractor.ExtractNameFromEmail` | main.py:95-124 | the loop that appends to `valid_parts` returns exactly the specified name |
| `NameExtractor.ValidPartsKept` | main.py:102-118 | every surviving token is a kept piece (non-empty, no digit, longer than 2, not a stop word), capitalised |
| `NameExtractor.ValidPartsComplete` | main.py:102-118 | every kept piece survives, capitalised |
| `NameExtractor.ValidPartsAppend` | main.py:101-118 | the surviving tokens keep their original order: the filter distributes over concatenation |
| `NameExtractor.EmptyIffFewParts` | main.py:120-124 | the extractor returns "" exactly when fewer than 2 tokens survive |
| `NameExtractor.NameSplitsIntoParts` | main.py:124 | when the local part holds no space (true of every regex-valid email, the only kind main.py:200 passes), a non-empty result splits back at its spaces into exactly the surviving tokens |
| `NameExtractor.ValidEmailNameSplits` | main.py:124 | for an email that matches `EMAIL_REGEX` and yields a name, the name splits back at its spaces into exactly the surviving tokens |
| `NameExtractor.NoDigitInName` | main.py:107-111 | an extracted name holds no digit |
| `NameExtractor.LongParts` | main.py:113-114 | each surviving token has at least 3 characters |
| `NameExtractor.ExtractIgnoresDomain` | main.py:96 | only the text before the first '@' is read |
| `NameExtractor.NoReplyNeverAPart` | main.py:88-99 | no piece can equal the stop word "no-reply", because '-' is a separator |
| `NameExtractor.DocExamples` | main.py:76-85 | the doc-comment emails as the code answers them: "Mohammad Ghadri", "Sana Syed", "Binyuan Hby", and "" for lu.qin, cchen151, 21831010, jcb, guohao and errolf |
| `JunkFilter.BlockWordIsJunk` | simple_test.py:13-23 | any of the 25 block words inside the lower-cased local part makes the email junk |
| `JunkFilter.NotJunkIsClean` | simple_test.py:7-37 | an email that is not junk is non-empty, has a local part of at most 50 characters, and contains no block word, no "name" label and no webmail prefix; so the filter is the OR of its rules |
| `JunkFilter.WebmailIsJunk` | simple_test.py:30-31 | a local part starting, after lower-casing, with gmail.com, yahoo.com or hotmail.com is junk, whatever the domain |
| `JunkFilter.JunkIgnoresDomain` | simple_test.py:10 | only the text before the first '@' is read |
| `JunkFilter.JunkIgnoresCase` | simple_test.py:10 | lower-casing the email does not change the verdict |
| `JunkFilter.BadEmailsAreJunk` | simple_test.py:101-111 | all nine `bad_emails` are junk |
| `JunkFilter.ReportIsAllowed` | verify_report_filter.py:18-21 | `report@google.com` is not junk, though the script expects it filtered |
| `JunkFilter.GoodEmailsAreNotJunk` | test_filters.py:16-21 | j.doe@univ.edu, jane.smith@company.com, info@startup.io and researcher@lab.ac.uk are not junk |
| `Similarity.CountMatches` | test_similar_logic.py:26-31 | the counting loop returns the number of tokens found in the local part, and that number is at least 1 exactly when some token occurs there |
| `Similarity.IsNameSimilarToEmail` | test_similar_logic.py:13-31 | True exactly when the name is not missing, the email is non-empty, and some retained token is a substring of the lower-cased local part |
| `Similarity.MatchCountPositive` | test_similar_logic.py:26-31 | a positive count and "some token occurs" are equivalent |
| `Similarity.TokenShape` | test_similar_logic.py:16-19 | every retained token is longer than 2 and made of lower-case word characters |
| `Similarity.NoTokensNeverSimilar` | test_similar_logic.py:23-24 | a name with no retained token is similar to no email |
| `Similarity.SimilarIgnoresDomain` | test_similar_logic.py:21 | the domain has no effect |
| `Similarity.SimilarIgnoresEmailCase` | test_similar_logic.py:21 | the email's case has no effect |
| `Similarity.SimilarityTestData` | test_similar_logic.py:36-42 | the seven test cases as the code decides them; soegaard@di.ku.dk is not similar to "Anders Søgaard", against the script's expectation |
| `Similarity.DedupKeepsHighestCitations` | test_similar_logic.py:52-62 | whatever order the sort leaves equal names in, dropping duplicate Names keeps soegaard@ku.dk (13) over anders@ku.dk (10), and keeps z.feng@surrey.ac.uk |
| `Tables.DropDuplicates` | main.py:213-215 | no more rows than the input; the same set of keys; pairwise distinct keys; every row an input row |
| `Tables.DropDuplicatesKeepsOrder` | main.py:213-215 | two rows that each come first for their key survive in their input order |
| `Tables.SortDesc` | main.py:217-219 | Citations non-increasing and a permutation of the input |
| `Tables.DropDuplicatesIdempotent` | main.py:213-215 | dropping duplicates twice is dropping them once |
| `Tables.SortedDedupKeepsMax` | test_similar_logic.py:61-62 | after a descending sort, the row dropping duplicates keeps for a key has the highest score among that key's rows |
| `Tables.DedupThenSortShape` | main.py:213-219 | a finished table is sorted, has one row per key, has the same keys as the appended rows, holds only first-appended rows of their key, and holds every one of them |
| `Tables.DuplicateKeepsFirstAppended` | main.py:213-219 | of two rows with one Email, the first appended survives even when the later one has more Citations |
| `Tables.MaskAt` | backup.py:343 | a row keeps its Name when no earlier row has it, and otherwise only its Name is blanked |
| `Tables.MaskedPresentNamesDistinct` | backup.py:343 | after masking, no present Name appears on two rows |
| `Tables.MaskKeepsOtherColumns` | backup.py:343 | masking changes only the Name column |
| `Pipeline.ParseEmailsShape` | main.py:156-158 | a missing cell gives no entries; a present one gives, for each comma-separated piece, that piece stripped; the pieces joined with "," give the cell back; no entry holds a comma or starts or ends with whitespace |
| `Pipeline.ValidEmailsFilter` | main.py:165 | `valid_emails` keeps exactly the non-empty, regex-matching entries |
| `Pipeline.ValidEmailsAppend` | main.py:165 | the filter distributes over concatenation and keeps a single entry exactly when it is usable, so kept entries keep their order and their repeats |
| `Pipeline.DomainOfMatched` | main.py:172 | the Domain of a valid email is the whole text after its only '@' |
| `Pipeline.EmailRows` | main.py:172-208 | the loop body appends exactly the specified rows for one valid email |
| `Pipeline.ValidEmailRows` | main.py:170-208 | the loop over an author's valid emails appends exactly the specified rows |
| `Pipeline.AuthorRows` | main.py:151-208 | one input row contributes exactly the specified rows |
| `Pipeline.ProcessExcel` | main.py:145-219 | the three tables are the deduplicated, sorted appended rows; each is sorted by Citations, highest first, with one row per Email |
| `Pipeline.EmailSheetsAll` | main.py:175-186 | one All_Clean_Emails row per valid email, in order; its Name is the author's name when the email equals the first valid email (so repeats of it too), and "None" otherwise |
| `Pipeline.EmailSheetsSimilar` | main.py:174-196 | a Similar_Name_Emails row, named after the author, exactly for the valid emails listed as similar (case-sensitive) |
| `Pipeline.EmailSheetsExtracted` | main.py:198-208 | an AI_Processed_Emails row exactly for the valid emails seen while the name is missing or that differ from the first; its Name is the extractor's answer |
| `Pipeline.FirstEmailKeepsName` | main.py:167-208 | for one author, the Sheet 1 Name of the k-th valid email is the name or "None", and that email gets an extraction row exactly when the name is missing or it is extra |
| `Pipeline.AuthorRowsWellFormed` | main.py:170-186 | every All_Clean_Emails row holds a valid email of the author, the Domain after its '@', that Domain's country and the author's Citations |
| `Pipeline.MissingNameTwoEmails` | main.py:170-208 | an author with a missing name and two distinct emails, neither listed as similar,: both go to extraction, and the second shows "None" in All_Clean_Emails |
| `Pipeline.FinishedTable` | main.py:213-219 | the finished All_Clean_Emails table is sorted with one row per Email; each row is the first appended for its Email; every appended Email is present |
| `BackupPipeline.LlmExtractName` | backup.py:248-261 | the result is "" or the stripped oracle answer, at most 40 characters and digit-free; such an answer is always returned; a failed call gives "" |
| `BackupPipeline.BackupEmailRows` | backup.py:296-335 | the loop body appends nothing for an entry failing the filter, and otherwise the specified rows |
| `BackupPipeline.BackupEmailLoop` | backup.py:296-335 | the loop over an author's entries appends exactly the specified rows |
| `BackupPipeline.BackupAuthorRows` | backup.py:285-335 | one input row contributes exactly the specified rows |
| `BackupPipeline.BackupProcessExcel` | backup.py:279-347 | the tables are the appended rows deduplicated, masked and sorted; each is sorted with one row per Email, and All_Clean_Emails never shows a present Name twice |
| `BackupPipeline.BackupEmailSheetsAll` | backup.py:296-312 | one All_Clean_Emails row per stripped, non-empty, regex-valid entry, in order, always named after the author |
| `BackupPipeline.BackupEmailSheetsSimilar` | backup.py:303-322 | a Similar_Name_Emails row exactly for the valid entries listed as similar |
| `BackupPipeline.BackupEmailSheetsExtracted` | backup.py:324-335 | AI_Processed_Emails rows, one per valid entry, exactly when the name is missing, named by the extractor; none otherwise |
| `BackupPipeline.BackupExtractedNames` | backup.py:324-335 | every AI_Processed_Emails Name is "" or a stripped oracle answer of at most 40 characters with no digit |
| `BackupPipeline.BackupAllMatchesMainEmails` | backup.py:296-312 | backup.py's loop with `continue` and main.py's pre-filtered list give All_Clean_Emails rows for the same emails in the same order |
| `BackupPipeline.MaskedTableShape` | backup.py:339-345 | the finished All_Clean_Emails table is sorted, has one row per Email with every appended Email present, and shows no present Name twice |
| `BackupPipeline.MaskedTableKeepsFirstNames` | backup.py:343 | a row whose Name is the first of its kind after dedup is still in the finished table, unmasked |

## Left out

- HTTP and file handling is not modelled: the FastAPI app and route,
  `UploadFile`, uuid temp paths, writing the upload, `pd.read_excel`,
  `ExcelWriter` and `FileResponse`, `load_dotenv` and the `GEMINI_API_KEY`
  check. These are I/O (main.py:1-18, main.py:133-147, main.py:221-230,
  backup.py:161-190, backup.py:267-277, backup.py:349-358). Input rows are
  given as a sequence of `Pipeline.Record`; the three tables are returned as
  sequences of `Tables.Row`.
- The Gemini client and the prompt (backup.py:185-208, backup.py:250-251) are
  a network call. The model's answer is a parameter `oracle: string ->
  Option<string>`, with `None` for a call that raised. Only the post-filter
  around it is modelled. Being a function, the oracle gives one answer per
  email, where the real model may answer differently each time an email
  comes up. It stands for the answer given the first time: `drop_duplicates`
  keeps the first row of each email, so the finished tables depend only on
  that answer.
- The commented-out first version at backup.py:1-160 is dead code.
- static/script.js is browser UI.
- The `print` calls of the test scripts and of `llm_extract_name` are not
  modelled. Their data are used as test vectors only.
- verify_report_filter.py expects `report@google.com` to be filtered, but
  `is_junk_email` does not flag it: "report" is not a block word
  (simple_test.py:13-20). `JunkFilter.ReportIsAllowed` states the code's
  answer.
- The `except` branch of `extract_name_from_email` (main.py:126-127) cannot be
  reached: the function only ever receives a string.
- Unicode is modelled on ASCII, with two approximations:
  - `\w` is ASCII letters, digits and `_`, plus every non-ASCII character
    that is not whitespace. So "ø" is a word character, as in Python, but so
    are non-ASCII symbols Python would not count.
  - `isdigit` is ASCII digits only, and `lower`, `upper` and `capitalize`
    change ASCII letters only.
  
  Whitespace is Python's `str.isspace` set, listed in full.
- Citations is an integer. Missing or float Citations (pandas `NaN`) are not
  modelled.
- `Tables.SortDesc` is one order `sort_values` may produce. pandas' default
  quicksort is not stable, so the order of rows with equal Citations is not
  modelled. Every property about the sorted tables uses only "sorted and a
  permutation".
- `Pipeline.DomainOf` returns "" for a text with no '@', where Python would
  raise `IndexError`. It is only called on regex-valid emails, which always
  hold one '@'.
- Spreadsheet cells are text or missing. A non-text cell (a number in the
  Name column, say) is read by `str(value)` in the source. The model takes
  that text as given.

# JXKH performance-evaluation portal — a Dafny model

The JXKH portal lets evaluators sign in with single-use login codes. They score
the key work indicators ("zdgz") of the departments their role may score. They
also rate the satisfaction ("myd") of the departments their role may rate.
Administrators manage the following:

- roles, department descriptions and the indicator list, which is imported from a spreadsheet;
- evidence files;
- which departments each role may score and with what weight;
- the batch of login codes;
- the weighted score summaries and their two spreadsheet exports.

This project models the core of that portal:

- the data-access class of `database.py`;
- the code generator of `login_code.py`;
- the decision logic of the routes in `jxkh.py`.

Each table is a sequence of row values held in a field of a `Database` object. Each
statement the portal issues is a method that states the new contents of the
tables it changes. What those contents mean is proved as lemmas about
specification functions.

Modules:

| file | module | what it holds |
|---|---|---|
| wrappers.dfy | Wrappers | `Option`, `Result` |
| ordering.dfy | Ordering | code-point string order, `NULL`-first order, an insertion sort, first-appearance `Distinct` |
| text.dfy | Text | `clean_text` and Python's `str.strip` |
| validators.dfy | Validators | `allowed_file`, the evidence path, the role-name check, the description length, the 60 % excellence rule |
| schema.dfy | Schema | one datatype per table row; score upsert, `set_used`, account lookup, permission rows |
| permissions.dfy | Permissions | the two permission-save payloads (`save_myd_permissions`, `save_role_zdgz_permissions`, `update_role_zdgz_weights`) |
| code_stats.dfy | CodeStats | the per-role counts of `get_login_code_stats_by_role` |
| summary.dfy | Summary | the two score summaries and the two pivot exports |
| importer.dfy | Importer | the row loop of the indicator import |
| database.dfy | Storage | class `Database`: the tables, their keys as the invariant `Valid()`, one method per statement |
| login_codes.dfy | LoginCodes | `generate_random_code`, `generate_login_codes_by_role` |
| user_routes.dfy | UserRoutes | `login`, `index`, `save_score` |
| admin_routes.dfy | AdminRoutes | `add_role`, `delete_role`, `update_dept_desc`, `import_zdgz`, `upload_zdgz_evidence`, `save_zdgz_permission`, `admin_login_codes` |

Randomness, the request, the session and the spreadsheet cells are
parameters:

- A login code is built from caller-supplied draws: the index of each character drawn, and each shuffle step. Every property of a generated code holds for every outcome of the draws.
- Form values arrive already converted. `None` stands for a value on which `int()` or `float()` raises.

Behaviour of the code worth knowing, modelled as written:

- `update_dept_desc` accepts 300 to 1500 characters. Its message and its docstring say 300 to 1000.
- Both exports fail on an empty summary, because the code selects columns that the empty frame lacks.
- The import stores the first row of a department with its A cell as read, unstripped. Later rows that carry the department get the stripped value. `Importer.CarriedDepartmentIsStripped` exhibits this.
- The import's `length < 1` test can never fire. An empty completion text is accepted (`Importer.WorkDescRejectedIff`).
- Nothing enforces unique accounts in `login_no`. Two generated codes may coincide. `UserRoutes.LoginDecisionMeaning` states the login rules both with and without uniqueness.
- `save_score` treats an unparsable indicator score as 0 in its check. Its save loops then raise on that same value. The upserts already made stay committed, and the code is not marked used (`UserRoutes.SaveScore`).
- `admin_login_codes` clears all scores and all codes before it reads the per-role counts. A count that does not parse therefore leaves both tables empty (`AdminRoutes.AdminLoginCodes`).
- `save_zdgz_permission` saves the permission rows and commits them before it updates the weights. An item with a weight the column refuses therefore leaves the new permission rows in place and an error reported (`Permissions.ZdgzSavesDiverge`). A `departments` value that is a single string is iterated one character at a time, so each character becomes a department row.
- `delete_role` deletes the role's satisfaction permissions and the role itself. It leaves its indicator permissions and its scores behind. `add_role`, `delete_role`, `update_dept_desc`, `import_zdgz` and `save_zdgz_permission` carry no `admin_required` check, and the model gives them none.

## Model

| member | source | states |
|---|---|---|
| Text.CleanText | database.py:52-81 | the loop of single-character deletions followed by the newline, strip and blank-line steps computes `Clean`: "" for a missing or empty value, otherwise the invisible characters removed, CR/CRLF turned into LF, outer whitespace stripped and runs of 3+ LF collapsed |
| Text.CleanIdempotent | database.py:52-81 | cleaning an already cleaned text changes nothing |
| Text.CleanDropsInvisible | database.py:62-73 | a cleaned text contains none of the six invisible characters and no carriage return |
| Text.CleanIsTidy | database.py:75-79 | a cleaned text has no leading or trailing whitespace and no three consecutive line feeds |
| Text.Strip | jxkh.py:102 | `str.strip()`: the result has no whitespace at either end, uses only characters of the input, and is the input itself when the input has none |
| Text.CollapseNewlines | database.py:79 | no run of three line feeds remains, the first and last characters are kept, and nothing new is introduced |
| Text.CollapseIsSubstitution | database.py:79 | `re.sub(r'\n{3,}', '\n\n', s)`: the collapse equals `SubstituteRuns`, which copies every other character and replaces each maximal run of three or more line feeds by exactly two, leaving shorter runs as they are |
| Text.CollapseKeepsText | database.py:79 | the collapse changes line feeds only: the characters other than line feeds are kept, in order |
| Text.CollapseNoTriple | database.py:79 | text without a run of three line feeds is returned unchanged |
| Validators.AllowedFileIff | jxkh.py:22-32 | a file name is allowed exactly when it has a dot after which no further dot occurs and whose remainder, lower-cased, is pdf, zip, xls or xlsx |
| Validators.SafeName | jxkh.py:572 | every path-unsafe character of the indicator name becomes `_` and nothing else changes |
| Validators.EvidencePathShape | jxkh.py:582-590 | the stored evidence path is `uploads/zdgz/<id>/` followed by one file name that contains no `/` or `\`, whatever the indicator name |
| Validators.CheckExcellenceIff | jxkh.py:150-162 | a submission is refused exactly when 5 × (scores ≥ 120) > 3 × (number of scores), with the limit ⌊0.6 n⌋ and the count reported; no scores means no refusal |
| Schema.Upsert | database.py:580-599 | after the upsert the key holds the new score in exactly one row, keys stay unique, and the rows of every other key are unchanged |
| Schema.UpsertOther | database.py:580-620 | an upsert leaves the score of every other key as it was |
| Schema.MarkUsed | database.py:101-112 | every row with the account becomes used; every other row and the row order are unchanged |
| Schema.FindLogin | database.py:85-99 | the row returned has the account; no row is returned only when no row has it |
| Schema.KeepOtherRoles | jxkh.py:345-349 | the rows kept are exactly those of other roles |
| Schema.LastDeptWeight | database.py:308-335 | a weight is reported only if a row (role, dept, weight) exists; none only when no row has the pair |
| Schema.LastDeptWeightUnique | database.py:308-335 | with one row per pair, the reported weight is the weight of that pair's row |
| Schema.DepartmentsOf | database.py:474-492 | a department is in a role's list exactly when a permission row (role, department) exists |
| Permissions.ParseMydItem | database.py:355-358 | an item converts exactly when role and department ids parse and the weight parses or is absent (default 1.0) |
| Permissions.GroupMydErr | database.py:352-359 | the satisfaction payload fails exactly when some item does not convert, and the failure names the first such item |
| Permissions.GroupMydMeaning | database.py:354-359 | the grouping lists each payload role once, each department once per role, and the weight of the last item for each (role, department) |
| Permissions.ReplaceDeptPermsMeaning | database.py:337-381 | after the save, a payload role has a row (role, dept, w) exactly when the payload's last item for the pair gives w; other roles keep exactly their rows; no pair occurs twice |
| Permissions.ApplyZdgzItemsFails | database.py:512-547 | the indicator-permission save fails exactly when some item lacks a usable role id or has a `departments` value the loop cannot iterate |
| Permissions.DeptNames | database.py:530-541 | the departments loop visits the listed names, one one-character name per character of a string, and raises on a value it cannot iterate |
| Permissions.ApplyZdgzItemsErrPersists | database.py:512-547 | once an item fails, the later items change nothing |
| Permissions.ApplyZdgzItemsMeaning | database.py:512-547 | after the save, a role named by an item has exactly the department list of the last item naming it; every other role keeps its list |
| Permissions.ApplyZdgzWeightsMeaning | database.py:549-576 | the weight update keeps ids, names and order, gives each named role the weight of the last item naming it and leaves the others unchanged |
| Permissions.ApplyZdgzWeightsFails | database.py:549-576 | the weight update fails exactly when some item lacks a usable role id or has a weight the column refuses |
| Permissions.ZdgzSavesDiverge | jxkh.py:633-637 | the permission save succeeds while the weight update fails exactly when every item has a role id and iterable departments and some item has a weight the column refuses |
| CodeStats.UnusedCountMatches | database.py:624-691 | a role's used and unused codes add up to its total, so `total - used` is its number of unused codes |
| CodeStats.AccountsOfSorted | database.py:624-691 | rows sorted by role and account yield each role's accounts in ascending order |
| CodeStats.AccountsOfPermutation | database.py:624-691 | reordering the query rows only reorders each role's collected accounts |
| CodeStats.UnusedCodesMeaning | database.py:624-691 | the unused-code list of an existing role holds that role's unused accounts, one per row, in ascending order |
| Summary.ZdgzSummaryRowIff | database.py:734-767 | a summary row for (indicator, role) exists exactly when an evaluator of the role scored the indicator; it carries the average and the average times the role weight; rows come in department, indicator, role order |
| Summary.MydSummaryRowIff | database.py:769-800 | a summary row for (department, role) exists exactly when the role scored the department and a permission row exists; it carries that row's weight; rows come in department, role order |
| Summary.Pivot | database.py:818-833 | the pivot loop builds the records `PivotRecords` describes |
| Summary.PivotRecordsMeaning | database.py:818-871 | one record per key, in order of first appearance; each record has exactly the role columns; a cell is empty exactly when no row sets it, otherwise it holds the last row's value |
| Summary.RoleColumns | database.py:813-816 | the role columns are distinct and ascending, one per role name in the summary |
| Summary.ExportZdgzScoreExcel | database.py:804-840 | an empty summary is an error; otherwise the three descriptive columns and the sorted role columns, one record per (department, indicator) |
| Summary.ExportMydScoreExcel | database.py:842-876 | an empty summary is an error; otherwise the department column and the sorted role columns, one record per department name |
| Importer.ReadSheet | jxkh.py:462-506 | the row loop as written computes `ParseSheet`: its result, its rejection row and length, and `NoData` for an empty result |
| Importer.ReadRow | jxkh.py:481-483 | the cleaning of one row: the name cleaned or missing, the description cleaned or the default text, the completion text cleaned |
| Importer.ParseSheetMeaning | jxkh.py:462-506 | an accepted sheet yields one row per sheet row before the end row, each with its own or the carried department; a completion text over 1000 characters rejects the import, naming its sheet row; no row read is `NoData` |
| Importer.ParseFromErr | jxkh.py:485-491 | a rejection names the first row whose cleaned completion text is over 1000 characters, and every earlier row was read without complaint |
| Importer.WorkDescRejectedIff | jxkh.py:486-488 | a completion text is refused exactly when, cleaned, it is over 1000 characters; the `< 1` test never fires |
| Importer.CarriedDepartmentIsStripped | jxkh.py:466-470 | a department cell " 办公室" over a blank cell stores " 办公室" on the first row and "办公室" on the second |
| Storage.IndicatorById | database.py:415-431 | the indicator returned has the id; none only when no indicator has it |
| Storage.Database.FindUser | database.py:85-99 | returns the row of the account, or none when no row has it |
| Storage.Database.SetUsed | database.py:101-112 | the login-code table becomes `MarkUsed` of the old one |
| Storage.Database.LoginRec | database.py:131-143 | appends one login record |
| Storage.Database.CreateLoginCode | database.py:169-185 | appends one unused login-code row |
| Storage.Database.ClearAllScores | database.py:187-195 | both score tables become empty, keys stay valid |
| Storage.Database.ClearLoginCodes | database.py:197-204 | the login-code table becomes empty |
| Storage.Database.CreateRole | database.py:287-304 | a taken name changes nothing; otherwise a role with the next id and weight 0 is appended; keys and names stay unique |
| Storage.Database.GetMydPermissions | database.py:308-335 | the nested map gives (role, dept) the weight w exactly when a row (role, dept, w) exists, and has an entry for exactly the roles with rows |
| Storage.Database.SaveMydPermissions | database.py:337-381 | a malformed payload changes nothing and names its first bad item; otherwise each named role's rows are replaced as `ReplaceDeptPerms` describes |
| Storage.Database.GetRoleZdgzPermissions | database.py:474-492 | each role's list is its departments in table order, and only roles with rows appear |
| Storage.Database.SaveRoleZdgzPermissions | database.py:512-547 | succeeds exactly when `ApplyZdgzItems` does and then stores its rows; a missing role id or departments the loop cannot iterate, met after the delete, restores the table |
| Storage.Database.InsertZdgzRows | database.py:537-541 | the inner insert loop appends one (role, department) row per listed department, in list order, and changes nothing else |
| Storage.Database.UpdateRoleZdgzWeights | database.py:549-576 | succeeds exactly when `ApplyZdgzWeights` does and then stores its roles; on failure every weight is restored |
| Storage.Database.SaveZdgzScore | database.py:580-599 | the indicator scores become the upsert of the key (code, role, indicator) |
| Storage.Database.SaveMydScore | database.py:601-620 | the satisfaction scores become the upsert of the key (code, role, department) |
| Storage.Database.UpdateZdgzEvidence | database.py:433-448 | sets the evidence path of the indicator with the id and changes nothing else |
| Storage.Database.ReplaceIndicators | jxkh.py:510-534 | the indicator table becomes the parsed rows, in order, under consecutive fresh ids; returns their number |
| Storage.Database.GetLoginCodeStatsByRole | database.py:624-691 | total count; used count, or none for an empty table; one entry per role, in ascending role id order, with its total, used and unused counts and its unused accounts in ascending order |
| Storage.RoleEntriesMeaning | database.py:672-685 | every role's statistics entry agrees with `RoleStatsFor` |
| LoginCodes.LettersDigitsAlnum | login_code.py:11 | the drawing alphabet has 62 characters, exactly the ASCII letters and digits |
| LoginCodes.AlphabetsDisjoint | login_code.py:11-12 | no special character is a letter or digit |
| LoginCodes.Shuffle | login_code.py:18 | the shuffle permutes the characters and keeps exactly one special character among letters and digits |
| LoginCodes.GenerateRandomCode | login_code.py:9-19 | the code has the requested length (1 below 1), is a permutation of the drawn characters, and has exactly one special character, all others letters or digits |
| LoginCodes.GenerateLoginCodesByRole | login_code.py:22-37 | the table afterwards holds exactly this run's rows: their number is the sum of the shares, row `k` belongs to the `k`-th role of the insertion order and its account and password are the shuffles of draws `2k` and `2k + 1`; each role gets as many rows as its count, none below 1; every row is unused with a 10-character account and password of that shape |
| LoginCodes.InsertShare | login_code.py:33-37 | one role's inner loop appends its share of rows, each of that role and made from its own pair of draws, keeps the earlier rows and raises only that role's count |
| LoginCodes.PrefixStep | login_code.py:33 | one more map entry extends the total, the insertion order and its role's count by its share |
| LoginCodes.RoleOrderCounts | login_code.py:33-37 | each role appears in the insertion order exactly as often as the batch gives it rows |
| LoginCodes.CountForMeaning | login_code.py:33-37 | with distinct roles, a role of the map gets exactly its count and a role outside it none |
| UserRoutes.LoginDecisionMeaning | jxkh.py:106-120 | an unknown account is refused whatever the password; a login succeeds only on an unused row with the account and password; with unique accounts, success and "already used" are exactly the state of the account's row |
| UserRoutes.Login | jxkh.py:101-120 | the outcome is `LoginDecision` on the stripped code; success sets both session keys and appends a login record; every other outcome changes nothing |
| UserRoutes.IndicatorLeTotalPreorder | database.py:385-404 | `ORDER BY department, id` with NULL first is a total preorder |
| UserRoutes.DepartmentLeTotalPreorder | database.py:227-241 | `ORDER BY dept_type, id` with NULL first is a total preorder |
| UserRoutes.Enabled | database.py:227-241 | keeps exactly the enabled departments |
| UserRoutes.AllowedDeptsMeaning | jxkh.py:63-71 | a department name is listed exactly when it is allowed and some indicator carries it |
| UserRoutes.ItemsOfMeaning | jxkh.py:67-71 | a department's group holds exactly its indicators |
| UserRoutes.GroupIndicators | jxkh.py:66-71 | the grouping has the allowed departments as keys in first-appearance order, each holding its indicators in list order |
| UserRoutes.Permitted | jxkh.py:79-82 | keeps exactly the departments whose id is allowed |
| UserRoutes.MydAllowedKeys | jxkh.py:76-77 | the inner map's keys for a role are exactly the departments it has permission rows for |
| UserRoutes.Index | jxkh.py:44-89 | no login code means the redirect; otherwise the allowed indicators grouped by department in query order, and the enabled departments the role may rate |
| UserRoutes.ExcellenceInput | jxkh.py:140-148 | collects every indicator score in form order, an unparsable one as 0 |
| UserRoutes.Saves | jxkh.py:164-189 | each save loop keeps the score keys unique |
| UserRoutes.SavesMeaning | jxkh.py:164-189 | a save loop fails exactly when a field of its kind does not parse; when it runs through, each item holds its last field's score, other items keep theirs, and other codes and roles are untouched |
| UserRoutes.SavesStop | jxkh.py:164-189 | after a failing field, the later fields change nothing |
| UserRoutes.SaveLoop | jxkh.py:164-189 | one save loop changes its own table as `Saves` describes and leaves the other table alone |
| UserRoutes.SaveScore | jxkh.py:124-195 | not signed in and refused submissions change nothing; otherwise the indicator loop, then the satisfaction loop only if the first completed; the code is marked used and the session cleared exactly when both completed |
| AdminRoutes.AddRole | jxkh.py:315-333 | a non-ideograph name is refused, a taken name is refused, otherwise the role is appended with the next id and weight 0 |
| AdminRoutes.RemoveRole | jxkh.py:357-361 | keeps exactly the roles with another id |
| AdminRoutes.RemoveRoleValid | jxkh.py:357-361 | deleting a role keeps the ids ascending and the names unique |
| AdminRoutes.DeleteRole | jxkh.py:337-364 | an unparsable id changes nothing; otherwise the role's satisfaction permissions and the role are deleted and the keys stay valid |
| AdminRoutes.DeleteRoleRemovesAll | jxkh.py:337-364 | afterwards no role and no satisfaction permission carries the id, and every other role and permission remains |
| AdminRoutes.SetWorkDesc | jxkh.py:397-403 | sets the description of the department with the id and changes nothing else |
| AdminRoutes.SetWorkDescLimits | jxkh.py:391-403 | storing a text that passed the check keeps every stored description empty or 300 to 1500 characters |
| AdminRoutes.UpdateDeptDesc | jxkh.py:382-405 | refused exactly when the stripped text is neither empty nor 300 to 1500 characters, changing nothing; otherwise the stripped text is stored for the department with the id |
| AdminRoutes.ImportZdgz | jxkh.py:437-539 | no file does nothing; a rejected sheet changes nothing and reports why; otherwise the indicators are replaced by the read rows in order and their number is returned |
| AdminRoutes.UploadEvidence | jxkh.py:544-595 | non-admin, incomplete, unsupported type, unknown indicator and nameless indicator are answered in that order with nothing changed, each outcome exactly when its condition holds; an admin's complete upload of an allowed type for a named indicator always stores the evidence path for that indicator |
| AdminRoutes.SaveZdgzPermission | jxkh.py:622-641 | a non-list body changes nothing; the permission rows are saved, then the weights; when the first step succeeds and the second fails (reachable, by `Permissions.ZdgzSavesDiverge`) the new permission rows stay committed and the weights are unchanged |
| AdminRoutes.ReadCounts | jxkh.py:664-668 | the count loop computes `CountMap` |
| AdminRoutes.CountMapMeaning | jxkh.py:664-668 | the count map gives each existing role its positive requested count and every other role none |
| AdminRoutes.AdminLoginCodes | jxkh.py:647-682 | the outcome is `CodesNotAdmin` exactly for non-admins, who change nothing; otherwise both score tables and the codes are cleared, an unparsable count stops there (`CodesFailed` exactly then), and else the codes are issued and the table holds exactly the new rows: row `k` is of the `k`-th role in id order and made from draws `2k` and `2k + 1`, and each role gets exactly its requested number of unused, well-shaped codes |

## Left out

- I/O is not modelled: the MySQL connection, Flask rendering and redirects, the session cookie and the file system. Saving and deleting uploaded files, and writing the spreadsheets, are left out. The model keeps the table contents, the outcome of each route and the session keys.
- Randomness: `secrets.choice` and `random.shuffle` are parameters. Uniformity and unpredictability are not stated.
- Spreadsheet loading (`load_workbook`, `sheet.max_row`) is left out. The import takes the A-D cells of rows 2 onwards as strings. Numeric cells and `str(value)` of non-strings are not modelled.
- Form parsing is abstracted. A field's id and value arrive as results of `int()` and `float()`. Which strings these accept is not modelled, and neither is the `str.replace` on the field name.
- `zdgz_id` in `upload_zdgz_evidence` is taken as a canonical decimal number. A non-canonical string such as "007" would match the row and produce a different path; that case is not modelled. `dept_id` in `update_dept_desc` is likewise an optional integer.
- Database failures are not modelled: connection loss, and constraint violations other than the role-name index and a `zdgz_weight` value the column refuses. Which values MySQL refuses (it depends on the server's SQL mode) is not modelled; `WeightInvalid` stands for any of them. The partial commits modelled are those the code makes before the Python exception.
- Floating point: scores and weights are `real`. `ROUND(..., 2)` of the summaries, and IEEE rounding in `AVG` and in the weight products, are left out. `int(n * 0.6)` is modelled as ⌊3n/5⌋.
- The `departments` field of an indicator permission item is a list of strings, a single string, or a value that cannot be iterated. A list holding non-strings, or a dictionary (iterated over its keys), is not modelled.
- Collation: MySQL string ordering is modelled as code-point order. String equality is exact as well, both in lookups (`WHERE account = %s`, database.py:97 and database.py:110) and in the unique keys that `ON DUPLICATE KEY UPDATE` relies on: a binary collation is assumed. The table definitions are not part of the source. Under a case-insensitive collation, an account typed in another letter case would log in, and `UserRoutes.Login` does not capture that.
- `export_login_codes` (login_code.py:40-68) is not modelled; the route's final spreadsheet is not part of the model.
- Routes outside the core are not modelled: the login, logout and administrator-login pages, department add/delete, the administration pages, `save_myd_permission` (which only calls the modelled method), evidence download and the score pages. The helpers `get_branch`, `get_user_by_login_code`, `get_zdgz_evidence_path`, `get_zdgz_departments`, `clear_zdgz`, `get_all_zdgz_scores` and `get_all_myd_scores` are not modelled either.
- UserRoutes.Login: only the POST path is modelled; a GET renders the page.
- AdminRoutes.AdminLoginCodes: only the POST path is modelled; a GET renders the page.

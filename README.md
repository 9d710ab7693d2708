# Check Point rule-hit CSV reporter, modelled in Dafny

Two Python scripts log in to a Check Point management server and write one CSV report per access-policy layer. Each row of a report describes one rule: its layer, its number, its name, its hit count, when it was last hit and how many days ago that was, whether it is enabled, when it was last modified and by whom. The multi-domain script adds the rule's uid as a tenth column. The core of both scripts is the same rule-base flattener, and this project models it:

- **Paging.** A layer's `show-access-rulebase` pages are fetched 50 entries at a time until `to == total`.
- **Walking entries.** Each page's entries are walked depth first. Sections are walked in place. Every rule appends one row.
- **Inline layers.** A rule that references an inline layer is followed by all rows of that layer, numbered under the rule's number (`5.1`, `5.2`, ...).
- **Dates.** Timestamps are converted by taking the first `YYYY-MM-DD` in them. The day difference is computed from a run date.
- **The report.** The accumulator is reset to the header for each layer. The file name is built from the (optional) domain, the layer name and the timestamp read when that file is written.

The policy menu and the domain menu are also modelled: what they list, and what a menu number selects.

Files, in dependency order:

- `base.dfy`: errors, `Option` and `Result`, and the decimal text of integers (`str`). It also has `str.replace` for a single character.
- `dates.dfy`: calendar dates, the day difference, `re.search` for the date pattern, `strptime` validity, and `str(date)`.
- `flatten.dfy`: the flattener as pure functions over a server. The server is a function from page requests to pages. These functions are the specification of the traversal.
- `flatten_facts.dfy`: what the flattener guarantees.
  - Order and concatenation.
  - Row count.
  - Inline numbering.
  - Paging covers the whole rule-base.
  - Layer names in the rows.
  - The page requests sent.
  - File names.
- `row_facts.dfy`: what each cell of a row means. It also works two rule-bases through by hand.
- `menus.dfy`: building the policy and domain menus (imperative loops), and the dispatch of a menu number.
- `reporter.dfy`: the traversal as the scripts run it. A `HitCountReporter` object's `rows` field is the global accumulator `all_rules_object`. Its methods append to it in place, and each is proved to append exactly the rows the functions of `flatten.dfy` describe.

**Both scripts.** One model covers both scripts; a `Schema` value (`Legacy` or `MultiDomain`) selects the column set. The table below cites the multi-domain script. The legacy script has the same code at these lines:

| | legacy | multi-domain |
|---|---|---|
| header | 21 | 25 |
| menu dispatch | 64-105 | 153-194 |
| layer list | 107-132 | 196-221 |
| date conversion | 163-165 | 262-264 |
| `loop_policy_rulebase` | 167-204 | 266-303 |
| `loop_rules` | 206-256 | 305-348 |
| `get_inline_layer_info` | 259-287 | 351-379 |
| file name | 293 | 385-388 |

The legacy row has no RULE_UID cell (line 254 against line 346), and its file name never has a domain prefix.

**Quirks of the scripts the model keeps:**

- **Sections lose the parent number.** A section is walked with an empty parent rule number (line 314), not with its parent's number. Inside an inline layer, the rules of a section are therefore numbered `1`, `2`, ... rather than `5.1`, `5.2`, .... `RowFacts.SectionInInlineLayerLosesParent` shows this on a concrete rule-base.
- **The layer name is resolved per page.** Each page's name is read again (lines 283 and 298); it is not read once per layer.

## Model

| member | source | states |
|---|---|---|
| Base.IntToString | hit_count_reporting/chkp_hit_count_to_csv_reporting_MDS_v2.py:323 | `str` of an integer is non-empty, has no '.', and starts with '-' exactly for a negative number |
| Base.NatToStringValue | hit_count_reporting/chkp_hit_count_to_csv_reporting_MDS_v2.py:340 | the decimal text of a number reads back as that number |
| Base.IntToStringInjective | hit_count_reporting/chkp_hit_count_to_csv_reporting_MDS_v2.py:340-342 | distinct integers have distinct texts |
| Base.ReplaceChar | hit_count_reporting/chkp_hit_count_to_csv_reporting_MDS_v2.py:317 | `replace` of one character: same length, every `from` becomes `to`, every other character stays |
| Base.ReplaceCharRemoves | hit_count_reporting/chkp_hit_count_to_csv_reporting_MDS_v2.py:172 | after replacing, no `from` is left; the text is unchanged exactly when it had none |
| Dates.FindDatePattern | hit_count_reporting/chkp_hit_count_to_csv_reporting_MDS_v2.py:263 | `re.search`: the match found is the leftmost one at or after the start, and no match means none anywhere after it |
| Dates.ConvertDatestring | hit_count_reporting/chkp_hit_count_to_csv_reporting_MDS_v2.py:262-264 | "not found" exactly when no position matches `\d{4}-\d{2}-\d{2}`; success exactly when the leftmost match is a calendar date, and the result is that date; any other failure is an invalid calendar date |
| Dates.FormatDate | hit_count_reporting/chkp_hit_count_to_csv_reporting_MDS_v2.py:346 | `str(date)` is ten characters matching the date pattern |
| Dates.OrdinalMonotone | hit_count_reporting/chkp_hit_count_to_csv_reporting_MDS_v2.py:323 | an earlier date has a smaller day number |
| Dates.DaysSinceSign | hit_count_reporting/chkp_hit_count_to_csv_reporting_MDS_v2.py:323 | `(today - d).days` is 0 exactly on the same day, positive exactly for an earlier date, negative exactly for a later one |
| Dates.OrdinalNextDay | hit_count_reporting/chkp_hit_count_to_csv_reporting_MDS_v2.py:323 | day numbers count days: the calendar day after a date is later and has the next day number, across month and year ends and leap days |
| Dates.DaysSinceNextDay | hit_count_reporting/chkp_hit_count_to_csv_reporting_MDS_v2.py:323 | `(today - d).days` drops by exactly one for the day after d |
| Dates.ConvertFormatted | hit_count_reporting/chkp_hit_count_to_csv_reporting_MDS_v2.py:322 | a timestamp that starts with the ISO text of a date converts to that date |
| Dates.FormatConverted | hit_count_reporting/chkp_hit_count_to_csv_reporting_MDS_v2.py:321-322 | printing a converted date gives back exactly the text of the leftmost match |
| Flatten.Header | hit_count_reporting/chkp_hit_count_to_csv_reporting_MDS_v2.py:25 | the header has 10 columns in the multi-domain script and 9 in the legacy one (line 21 there) |
| Flatten.RuleName | hit_count_reporting/chkp_hit_count_to_csv_reporting_MDS_v2.py:316-319 | RULE_NAME never holds a newline; an unnamed rule gets the placeholder; otherwise it has the name's length and agrees with it wherever the name had no newline |
| Flatten.RuleNumber | hit_count_reporting/chkp_hit_count_to_csv_reporting_MDS_v2.py:339-342 | RULE_NUMBER is `str` of the rule's number at the top level, and the parent number, a dot and `str` of the rule's number under a parent; it is never empty and holds a dot exactly when there is a parent |
| Flatten.LastHitCells | hit_count_reporting/chkp_hit_count_to_csv_reporting_MDS_v2.py:321-328 | the last-hit cells are built exactly when there is no last hit or its timestamp converts; both cells are their placeholders exactly when there is no last hit |
| Flatten.ResolveName | hit_count_reporting/chkp_hit_count_to_csv_reporting_MDS_v2.py:308-309 | the layer name is the caller's when given, else the page's own `name`; it fails (KeyError) exactly when both are missing |
| Flatten.Cells | hit_count_reporting/chkp_hit_count_to_csv_reporting_MDS_v2.py:346 | a row, once built, has one cell per column |
| Flatten.RuleRow | hit_count_reporting/chkp_hit_count_to_csv_reporting_MDS_v2.py:346 | a rule's row, once built, is as wide as the header |
| Flatten.EntriesRows | hit_count_reporting/chkp_hit_count_to_csv_reporting_MDS_v2.py:311-348 | every row of a walk of entries, inline layers included, is as wide as the header |
| Flatten.EntryRows | hit_count_reporting/chkp_hit_count_to_csv_reporting_MDS_v2.py:312-315 | every row of one entry, a section or a rule, is as wide as the header |
| Flatten.RuleRows | hit_count_reporting/chkp_hit_count_to_csv_reporting_MDS_v2.py:346-348 | every row a rule contributes, its own and its inline layer's, is as wide as the header |
| Flatten.InlineRows | hit_count_reporting/chkp_hit_count_to_csv_reporting_MDS_v2.py:351-376 | every row of an inline layer is as wide as the header |
| Flatten.PagesFrom | hit_count_reporting/chkp_hit_count_to_csv_reporting_MDS_v2.py:283-298 | every row of a page and of the pages fetched after it is as wide as the header |
| Flatten.NextPages | hit_count_reporting/chkp_hit_count_to_csv_reporting_MDS_v2.py:285-298 | every row of the later pages is as wide as the header |
| Flatten.FileName | hit_count_reporting/chkp_hit_count_to_csv_reporting_MDS_v2.py:385-388 | the file name starts with the domain and "_" (multi-domain only) and then the layer name, ends with the timestamp and ".csv", and has the 18 characters of "_hit_count_report_" between them |
| Flatten.LayerReport | hit_count_reporting/chkp_hit_count_to_csv_reporting_MDS_v2.py:266-303 | no report (message only) exactly when the first page fails; an abort also writes no file; a written report is named after the layer, starts with the header and nothing carried over, and every row is as wide as the header |
| Flatten.Columns | hit_count_reporting/chkp_hit_count_to_csv_reporting_MDS_v2.py:346 | one column per header cell |
| FlattenFacts.CellsSuccess | hit_count_reporting/chkp_hit_count_to_csv_reporting_MDS_v2.py:346 | a row is built exactly when every cell is, and then holds one cell per column in column order |
| FlattenFacts.CellsFirstFailure | hit_count_reporting/chkp_hit_count_to_csv_reporting_MDS_v2.py:321-344 | a row that cannot be built fails with the error of its first failing cell |
| FlattenFacts.EntriesRowsAppend | hit_count_reporting/chkp_hit_count_to_csv_reporting_MDS_v2.py:311 | walking `a + b` gives the rows of `a` then those of `b`, and the first error wins |
| FlattenFacts.InlineRowsFollowRule | hit_count_reporting/chkp_hit_count_to_csv_reporting_MDS_v2.py:346-348 | in any list of entries, a rule with an inline layer contributes its row and then all rows of that layer, numbered under the rule, before the entries that follow it |
| FlattenFacts.EntriesRowsExtend | hit_count_reporting/chkp_hit_count_to_csv_reporting_MDS_v2.py:311 | one more pass of the loop appends exactly that entry's rows |
| FlattenFacts.EntriesRowsFailsAt | hit_count_reporting/chkp_hit_count_to_csv_reporting_MDS_v2.py:311-348 | an exception at entry i ends the walk of the whole list with that error |
| FlattenFacts.RowCountIsLeafCount | hit_count_reporting/chkp_hit_count_to_csv_reporting_MDS_v2.py:311-346 | with no inline layers, there is one row per rule, at any depth of sections, and none per section |
| FlattenFacts.FileNameInjective | hit_count_reporting/chkp_hit_count_to_csv_reporting_MDS_v2.py:385-388 | with the same domain and timestamp, distinct sanitized layer names give distinct file names |
| FlattenFacts.RuleRowNumberCell | hit_count_reporting/chkp_hit_count_to_csv_reporting_MDS_v2.py:346 | the first cell of a rule's row is the layer name it was walked under and the second is its number |
| FlattenFacts.NumberUnderParent | hit_count_reporting/chkp_hit_count_to_csv_reporting_MDS_v2.py:339-340 | a number built under a parent starts with the parent and a dot |
| FlattenFacts.RuleNumberInjective | hit_count_reporting/chkp_hit_count_to_csv_reporting_MDS_v2.py:339-342 | under one parent number, distinct rule numbers give distinct RULE_NUMBER texts |
| FlattenFacts.InlineRowsNumbered | hit_count_reporting/chkp_hit_count_to_csv_reporting_MDS_v2.py:361 | when the inline layers reached hold no sections (the top-level layer may), every row of an inline layer is numbered under the referencing rule's number |
| FlattenFacts.PagesFromNumbered | hit_count_reporting/chkp_hit_count_to_csv_reporting_MDS_v2.py:361-376 | the same for every page of the inline layer |
| FlattenFacts.NextPagesNumbered | hit_count_reporting/chkp_hit_count_to_csv_reporting_MDS_v2.py:363-376 | the same for the pages after the first |
| FlattenFacts.EntriesRowsNumbered | hit_count_reporting/chkp_hit_count_to_csv_reporting_MDS_v2.py:339-348 | under a parent, every row of a walk without sections is numbered under that parent, through nested section-free inline layers too |
| FlattenFacts.InlineRowsNumberedUnder | hit_count_reporting/chkp_hit_count_to_csv_reporting_MDS_v2.py:347-348 | rows numbered under a rule's number are numbered under that rule's own parent too |
| FlattenFacts.RuleRowsNumbered | hit_count_reporting/chkp_hit_count_to_csv_reporting_MDS_v2.py:339-348 | every row a rule contributes under a parent is numbered under that parent |
| FlattenFacts.Window | hit_count_reporting/chkp_hit_count_to_csv_reporting_MDS_v2.py:285-290 | a served window of 50 entries is the last page exactly when it reaches the end of the rule-base |
| FlattenFacts.PagesFromWindow | hit_count_reporting/chkp_hit_count_to_csv_reporting_MDS_v2.py:285-298 | paging from window k gives the rows of the rule-base from entry k * 50 on |
| FlattenFacts.PagingCoversRulebase | hit_count_reporting/chkp_hit_count_to_csv_reporting_MDS_v2.py:351-376 | an inline layer served in pages of 50 gives exactly the rows of its whole rule-base, in order |
| FlattenFacts.PagingCoversLayer | hit_count_reporting/chkp_hit_count_to_csv_reporting_MDS_v2.py:266-300 | a top-level layer served in pages of 50 gives the header, then the rows of its whole rule-base, or the first error |
| FlattenFacts.PagingRequests | hit_count_reporting/chkp_hit_count_to_csv_reporting_MDS_v2.py:277-298 | the requests sent for a layer are offsets 0, 50, 100, ... in order, and as many as it takes to reach the last entry and no more (one for an empty rule-base) |
| FlattenFacts.InlineRowsLabelled | hit_count_reporting/chkp_hit_count_to_csv_reporting_MDS_v2.py:351-376 | when the inline layers reached hold no sections, every row of an inline layer is labelled with the name of a page of one of those layers; the referencing layer's name is not passed down |
| FlattenFacts.PagesFromLabelled | hit_count_reporting/chkp_hit_count_to_csv_reporting_MDS_v2.py:361-376 | the same for every page of such a layer |
| FlattenFacts.NextPagesLabelled | hit_count_reporting/chkp_hit_count_to_csv_reporting_MDS_v2.py:363-376 | the same for the pages after the first |
| FlattenFacts.EntriesRowsLabelled | hit_count_reporting/chkp_hit_count_to_csv_reporting_MDS_v2.py:308-348 | every row of a section-free walk carries the page's name or, in nested inline layers, their own pages' names |
| FlattenFacts.RuleRowsLabelled | hit_count_reporting/chkp_hit_count_to_csv_reporting_MDS_v2.py:346-348 | a rule's own row carries the walk's layer name and its inline rows their own layers' names |
| FlattenFacts.InlineLayerLabelled | hit_count_reporting/chkp_hit_count_to_csv_reporting_MDS_v2.py:351-376 | an inline layer with no sections and no further inline references labels every one of its rows with its own name |
| RowFacts.LastHitMeaning | hit_count_reporting/chkp_hit_count_to_csv_reporting_MDS_v2.py:321-323 | DATE_LAST_HIT is the matched date text and `str` of the converted date; DAYS_SINCE_LAST_HIT is `str` of the whole days from that date to the run date, so "0" exactly for the run date and negative exactly for a later date |
| RowFacts.RuleRowIsDirect | hit_count_reporting/chkp_hit_count_to_csv_reporting_MDS_v2.py:321-346 | building the row column by column equals building it as the code does: both conversions first, last hit before modification time, then all cells at once |
| RowFacts.RuleRowLastHitFails | hit_count_reporting/chkp_hit_count_to_csv_reporting_MDS_v2.py:321-322 | an invalid last-hit timestamp fails the rule with its own error, whatever the modification time |
| RowFacts.RuleRowModifiedFails | hit_count_reporting/chkp_hit_count_to_csv_reporting_MDS_v2.py:344 | with a valid last hit, an invalid modification time fails the rule with its error |
| RowFacts.RuleRowValue | hit_count_reporting/chkp_hit_count_to_csv_reporting_MDS_v2.py:346 | the row's cells, one by one: layer, number, cleaned name, hits, the two last-hit cells, enabled flag, modification date, modifier, and the uid in the multi-domain script |
| RowFacts.RuleRowWhole | hit_count_reporting/chkp_hit_count_to_csv_reporting_MDS_v2.py:346 | the same row as one list |
| RowFacts.RuleRowDefined | hit_count_reporting/chkp_hit_count_to_csv_reporting_MDS_v2.py:321-344 | a rule yields a row exactly when its modification time, and its last hit if present, hold valid dates |
| RowFacts.RuleRowCells | hit_count_reporting/chkp_hit_count_to_csv_reporting_MDS_v2.py:316-346 | the row's cells with their meaning: no newline in the name, placeholders exactly when never hit, "True" exactly for an enabled rule |
| RowFacts.SinglePlainRule | hit_count_reporting/chkp_hit_count_to_csv_reporting_MDS_v2.py:311-346 | a rule without an inline layer, alone in a list, gives its own row and nothing else |
| RowFacts.LastPage | hit_count_reporting/chkp_hit_count_to_csv_reporting_MDS_v2.py:289-290 | a last page gives the rows of its own entries, labelled with its name |
| RowFacts.AllowHttpRow | hit_count_reporting/chkp_hit_count_to_csv_reporting_MDS_v2.py:346 | a concrete rule gives the expected cells, its last hit five days before the run |
| RowFacts.NetworkReport | hit_count_reporting/chkp_hit_count_to_csv_reporting_MDS_v2.py:266-300 | a one-rule layer gives the header and that row, in a file named after the layer |
| RowFacts.InlineSectionRows | hit_count_reporting/chkp_hit_count_to_csv_reporting_MDS_v2.py:361 | an inline layer holding one section gives the section's rule numbered on its own |
| RowFacts.SectionInInlineLayerLosesParent | hit_count_reporting/chkp_hit_count_to_csv_reporting_MDS_v2.py:312-314 | a rule reached through rule 5 but inside a section of the inline layer is numbered "1", not "5.1", and carries the inline layer's name |
| Menus.ListedItemsAppend | hit_count_reporting/chkp_hit_count_to_csv_reporting_MDS_v2.py:206-213 | filtering the layers keeps the server's order |
| Menus.ListedItemsMembers | hit_count_reporting/chkp_hit_count_to_csv_reporting_MDS_v2.py:207-213 | an item is on the menu exactly when it comes from a layer that is neither shared nor inline |
| Menus.ListedItems | hit_count_reporting/chkp_hit_count_to_csv_reporting_MDS_v2.py:206-213 | the listed items are at most one per layer and none when no layer is listed |
| Menus.ListedItemsAll | hit_count_reporting/chkp_hit_count_to_csv_reporting_MDS_v2.py:206-213 | when every layer is listed, the menu has one item per layer, each the item of the layer at the same position |
| Menus.GetNonSharedAccessLayerNames | hit_count_reporting/chkp_hit_count_to_csv_reporting_MDS_v2.py:196-221 | the menu is "Collect All Policies", the listed layers in order, then "Exit"; a failed listing ends the script |
| Menus.GetDomainNames | hit_count_reporting/chkp_hit_count_to_csv_reporting_MDS_v2.py:125-142 | the domain menu is the domains in server order followed by "Exit"; a failed listing ends the script |
| Menus.PyIndex | hit_count_reporting/chkp_hit_count_to_csv_reporting_MDS_v2.py:163 | Python list indexing: a position for -n <= i < n (negative counts from the end), IndexError otherwise |
| Menus.Sanitize | hit_count_reporting/chkp_hit_count_to_csv_reporting_MDS_v2.py:172 | the sanitized name has no space and the same length |
| Menus.AllJobs | hit_count_reporting/chkp_hit_count_to_csv_reporting_MDS_v2.py:168-174 | the collect-all loop reports on at most one layer per menu item, each under a name without spaces |
| Menus.PolicyChoice | hit_count_reporting/chkp_hit_count_to_csv_reporting_MDS_v2.py:160-194 | a policy number is invalid (IndexError) exactly outside Python's index range of the menu; a run reports on at most as many layers as the menu has items, all with space-free names |
| Menus.DomainChoiceOf | hit_count_reporting/chkp_hit_count_to_csv_reporting_MDS_v2.py:97-123 | a domain number selects nothing (IndexError) exactly outside Python's index range; an entered domain has a space-free name |
| Menus.AllJobsOfPlainItems | hit_count_reporting/chkp_hit_count_to_csv_reporting_MDS_v2.py:168-174 | the collect-all loop reports on every ordinary item once, in menu order |
| Menus.AllJobsAppend | hit_count_reporting/chkp_hit_count_to_csv_reporting_MDS_v2.py:168 | the collect-all loop over two parts is the loop over each part in turn |
| Menus.PolicyMenuDispatch | hit_count_reporting/chkp_hit_count_to_csv_reporting_MDS_v2.py:160-194 | on the menu built from any listing: -1 and the last number exit, 0 collects every listed layer in order, a negative number counts from the end, k reports on the k-th listed layer, and any other number is invalid; a listed layer named "Exit" exits and one named "Collect All Policies" collects, as the name tests at lines 164-168 do |
| Menus.DomainMenuDispatch | hit_count_reporting/chkp_hit_count_to_csv_reporting_MDS_v2.py:97-123 | on the domain menu built from any listing, -1 and the last number log out, a negative number counts from the end, a domain's number enters that domain under its sanitized name (a domain named "Exit" logs out), and a number outside Python's index range selects nothing |
| Reporter.SanitizedNamesCollide | hit_count_reporting/chkp_hit_count_to_csv_reporting_MDS_v2.py:386-388 | two layers whose names differ only in a space against an underscore get the same file name when written with the same timestamp |
| Reporter.HitCountReporter.constructor | hit_count_reporting/chkp_hit_count_to_csv_reporting_MDS_v2.py:34 | the accumulator starts empty |
| Reporter.HitCountReporter.LoopRules | hit_count_reporting/chkp_hit_count_to_csv_reporting_MDS_v2.py:305-348 | `loop_rules` ends normally exactly when the specified walk succeeds, and then it has appended exactly the specified rows; otherwise it stops with the same error |
| Reporter.HitCountReporter.LoopEntry | hit_count_reporting/chkp_hit_count_to_csv_reporting_MDS_v2.py:312-315 | one pass of the loop appends exactly the entry's rows: a section's through recursion, a rule's through its branch |
| Reporter.HitCountReporter.EmitRule | hit_count_reporting/chkp_hit_count_to_csv_reporting_MDS_v2.py:315-348 | the rule branch appends the rule's row and then its inline layer's rows, or stops with the error of its row |
| Reporter.HitCountReporter.FollowInline | hit_count_reporting/chkp_hit_count_to_csv_reporting_MDS_v2.py:347-348 | an inline reference appends exactly the inline layer's rows; no reference appends nothing |
| Reporter.HitCountReporter.GetInlineLayerInfo | hit_count_reporting/chkp_hit_count_to_csv_reporting_MDS_v2.py:351-379 | `get_inline_layer_info` appends exactly the inline layer's rows, or nothing when its first page fails |
| Reporter.HitCountReporter.LoopPages | hit_count_reporting/chkp_hit_count_to_csv_reporting_MDS_v2.py:283-298 | the paging loop appends the rows of each page in order until `to == total`, or stops with the first error |
| Reporter.HitCountReporter.LoopPolicyRulebase | hit_count_reporting/chkp_hit_count_to_csv_reporting_MDS_v2.py:266-303 | the outcome is the specified report; the accumulator holds exactly the written rows, or only the header when the first page fails |
| Reporter.HitCountReporter.ReportNext | hit_count_reporting/chkp_hit_count_to_csv_reporting_MDS_v2.py:168-176 | one pass of the jobs loop: the next job's outcome is the report on its layer named with its own timestamp, and the accumulator holds its rows when written |
| Reporter.HitCountReporter.ProcessJobs | hit_count_reporting/chkp_hit_count_to_csv_reporting_MDS_v2.py:168-176 | each selected layer is reported on in order: outcome k is the report on job k's layer named with the timestamp read for it, only the last outcome may be aborted, an exception ends the loop at that layer, and the accumulator holds the last written report's rows |

## Left out

- **Transport and sessions.** HTTPS, `api_call`, `login`, `logout` and `check_if_mds` are not modelled. The server is a function from page request to page (or to a non-success status). Whether the run is multi-domain is the `domain` argument of the file name.
- **Prompting.** `input`, `getpass`, the re-prompt loops `user_selected_policy_number`, `user_selected_domain_number` and `check_user_input`, and the console output are not modelled. A menu choice is modelled from an already-parsed number.
- **Effects of a choice.** Logging in to the chosen domain and showing the menus again after a choice are not modelled.
- **Writing the file.** `csv.writer`, the removal of an existing file and the working directory are not modelled. The report is its file name and its rows, each cell the `str()` text of its value; CSV quoting is not modelled.
- **Clock inputs.** `date.today()` and the `strftime` timestamps in the file names are inputs, not computed: `today` for the run, and one timestamp per layer (`stamps[k]` for job k), since `print_rules` reads the clock for each layer it writes.
- **`sys.exit` after a failed listing.** It is the error `ListingFailed`.
- **Date parsing details.** Non-ASCII digits (which `\d` and `strptime` accept) are not recognised. A date with a year outside 1-9999 is invalid, as in `datetime`.
- **Malformed responses.** A response missing `rulebase`, `rule-number`, `hits`, `meta-info`, `total` or `to` is outside the model. These are fields of the entry and page datatypes. Only the absent `name` of a rule-base is modelled (`MissingName`).
- **A failed later page.** Its error body is read as a page and fails on its missing `name`; the model reports this as `PageFailed`.
- **Fuel.** The traversal carries a `fuel` bound on the depth of inline layers and on the number of pages per rule-base. Rule-bases deeper or longer than the fuel end with `OutOfFuel`, where the scripts would go on (or, on a cyclic inline reference, recurse until Python raises `RecursionError`).
- **Collect-all exceptions.** Within the "Collect All Policies" loop, an exception raised by one layer ends the loop. `ProcessJobs` models the loop ending and not what follows. Only `DateInvalid` (the `ValueError` of `strptime`) is caught by the `except ValueError` at line 185, which shows the menu again. The others end the script: `DateNotFound` is an `AttributeError` (`.group()` on the `None` of `re.search`, line 263), and `MissingName` and `PageFailed` are `KeyError`s.
- Reporter.HitCountReporter.LoopRules: when it stops with an error, the rows it appended before the exception are not specified; the same holds for the four methods below.
- Reporter.HitCountReporter.LoopEntry: the rows appended before an exception are not specified.
- Reporter.HitCountReporter.EmitRule: the rows appended before an exception are not specified.
- Reporter.HitCountReporter.FollowInline: the rows appended before an exception are not specified.
- Reporter.HitCountReporter.GetInlineLayerInfo: the rows appended before an exception are not specified.
- Reporter.HitCountReporter.LoopPages: the rows appended before an exception are not specified.
- Reporter.HitCountReporter.LoopPolicyRulebase: after an aborted traversal the accumulator is not specified; no file is written then.
- Reporter.HitCountReporter.ProcessJobs: the accumulator is specified only when the last outcome is a written report.

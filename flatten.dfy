/**
  The rule-base flattener of both hit-count scripts, as pure functions.

  A server answers `show-access-rulebase` page requests; the flattener walks
  the pages of a layer in order, walks each page's entries depth first
  (sections recurse in place, rules emit one CSV row each), and follows every
  rule that references an inline layer into that layer's own pages, whose rows
  follow the rule's row. These functions are the specification the imperative
  traversal in module Reporter is proved against.
 */
module Flatten {
  import opened Base
  import opened Dates

  /** `chkp_hit_count_to_csv_reporting.py` writes 9 columns, the multi-domain script adds RULE_UID. */
  datatype Schema = Legacy | MultiDomain

  /** A CSV row: the `str()` text of each value (CSV quoting is not modelled). */
  type Row = seq<string>

  /** `csv_header` of either script. */
  function Header(schema: Schema): (h: Row)
    ensures |h| == (if schema == Legacy then 9 else 10)
  {
    ["LAYER_NAME", "RULE_NUMBER", "RULE_NAME", "HIT_COUNT", "DATE_LAST_HIT",
     "DAYS_SINCE_LAST_HIT", "RULE_ENABLED", "MODIFIED_DATE", "MODIFIED_BY"]
    + (if schema == MultiDomain then ["RULE_UID"] else [])
  }

  const LastHitEmpty: string := "No last hit to show date for"
  const LastDeltaEmpty: string := "No last hit to compare"
  const EmptyRuleName: string := "Empty Rule Name"

  /** The page size of every `show-access-rulebase` request. */
  const PageLimit: nat := 50

  /**
    One element of a `rulebase` array. An `access-section` carries its own
    `rulebase`; anything else is a rule. Timestamps are the raw `iso-8601`
    strings; `name` and `last-date` may be absent.
   */
  datatype Entry =
    | Section(name: Option<string>, rulebase: seq<Entry>)
    | Rule(number: int, name: Option<string>, hits: int, lastDate: Option<string>,
           enabled: bool, modifyTime: string, modifier: string, uid: string,
           inlineLayer: Option<string>)

  /** A successful `show-access-rulebase` answer. */
  datatype Page = Page(name: Option<string>, rulebase: seq<Entry>, total: int, to: int)

  /** The parameters of one `show-access-rulebase` call that vary: session, layer, offset, limit. */
  datatype Request = Request(sid: string, uid: string, offset: nat, limit: nat)

  /** The management server: the page a request returns, or None for a non-200 status. */
  type Server = Request -> Option<Page>

  /** What the traversal reads from the script's globals: schema, `todays_date`, the server. */
  datatype Env = Env(schema: Schema, today: CalendarDate, server: Server)

  /** The k-th request for a rule-base: `limit` 50, `offset` k * 50. */
  function PageRequest(sid: string, uid: string, k: nat): (q: Request)
    ensures q.limit == PageLimit && q.offset == k * PageLimit && q.uid == uid && q.sid == sid
  {
    Request(sid, uid, k * PageLimit, PageLimit)
  }

  /** Running two steps one after the other: the first failure wins, otherwise rows concatenate. */
  function Concat(a: Result<seq<Row>>, b: Result<seq<Row>>): Result<seq<Row>>
  {
    match a
    case Failure(e) => Failure(e)
    case Success(x) =>
      match b
      case Failure(e) => Failure(e)
      case Success(y) => Success(x + y)
  }

  /**
    The RULE_NAME cell: newlines become spaces, so the cell holds no newline
    and differs from the name only where the name had one; an absent name
    becomes the placeholder.
   */
  function RuleName(name: Option<string>): (r: string)
    ensures '\n' !in r
    ensures name.None? ==> r == EmptyRuleName
    ensures name.Some? ==> |r| == |name.value|
                           && forall i :: 0 <= i < |name.value| && name.value[i] != '\n' ==> r[i] == name.value[i]
  {
    match name
    case None =>
      assert '\n' !in EmptyRuleName;
      EmptyRuleName
    case Some(n) =>
      ReplaceCharRemoves(n, '\n', ' ');
      ReplaceChar(n, '\n', ' ')
  }

  /**
    The RULE_NUMBER cell: the rule's own number, under its parent's number
    when there is one. A top-level number has no dot; a nested one starts
    with the parent's number and a dot.
   */
  function RuleNumber(parent: string, number: int): (r: string)
    ensures r != ""
    ensures '.' in r <==> parent != ""
    ensures parent != "" ==> |r| > |parent| + 1 && r[..|parent| + 1] == parent + "."
    ensures parent == "" ==> r == IntToString(number)
    ensures parent != "" ==> r[|parent| + 1..] == IntToString(number)
  {
    if parent == "" then IntToString(number) else parent + "." + IntToString(number)
  }

  function BoolCell(b: bool): string { if b then "True" else "False" }

  /**
    DATE_LAST_HIT and DAYS_SINCE_LAST_HIT: the date and the days since it, or
    both placeholders exactly when the rule was never hit. They fail exactly
    when the last-hit timestamp holds no valid date.
   */
  function LastHitCells(today: CalendarDate, lastDate: Option<string>): (r: Result<(string, string)>)
    ensures r.Success? <==> lastDate.None? || ConvertDatestring(lastDate.value).Success?
    ensures r.Success? ==> (lastDate.None? <==> r.value.0 == LastHitEmpty)
    ensures r.Success? ==> (lastDate.None? <==> r.value.1 == LastDeltaEmpty)
  {
    match lastDate
    case None => Success((LastHitEmpty, LastDeltaEmpty))
    case Some(stamp) =>
      var d :- ConvertDatestring(stamp);
      var delta := IntToString(DaysSince(today, d));
      assert |LastHitEmpty| != 10;
      assert LastDeltaEmpty[0] == 'N' && (delta[0] == '-' || IsDigit(delta[0]));
      Success((FormatDate(d), delta))
  }

  /** The report's columns, in header order. */
  datatype Column =
    | LayerName | RuleNumberCol | RuleNameCol | HitCount | DateLastHit | DaysSinceLastHit
    | RuleEnabled | ModifiedDate | ModifiedBy | RuleUid

  /** The columns of either script: the multi-domain one adds RULE_UID. */
  function Columns(schema: Schema): (cs: seq<Column>)
    ensures |cs| == |Header(schema)|
  {
    [LayerName, RuleNumberCol, RuleNameCol, HitCount, DateLastHit, DaysSinceLastHit, RuleEnabled, ModifiedDate, ModifiedBy]
    + (if schema == MultiDomain then [RuleUid] else [])
  }

  /** One cell of a rule's row; the date cells fail when their timestamp has no valid date. */
  function Cell(c: Column, today: CalendarDate, layer: string, number: string, r: Entry): Result<string>
    requires r.Rule?
  {
    match c
    case LayerName => Success(layer)
    case RuleNumberCol => Success(number)
    case RuleNameCol => Success(RuleName(r.name))
    case HitCount => Success(IntToString(r.hits))
    case DateLastHit =>
      var last :- LastHitCells(today, r.lastDate);
      Success(last.0)
    case DaysSinceLastHit =>
      var last :- LastHitCells(today, r.lastDate);
      Success(last.1)
    case RuleEnabled => Success(BoolCell(r.enabled))
    case ModifiedDate =>
      var modified :- ConvertDatestring(r.modifyTime);
      Success(FormatDate(modified))
    case ModifiedBy => Success(r.modifier)
    case RuleUid => Success(r.uid)
  }

  /** Every row has `width` cells. */
  predicate AllWidth(rows: seq<Row>, width: nat)
  {
    forall i :: 0 <= i < |rows| ==> |rows[i]| == width
  }

  /** The cells of the given columns, left to right; the first failing cell's error wins. */
  function Cells(cols: seq<Column>, today: CalendarDate, layer: string, number: string, r: Entry): (row: Result<Row>)
    requires r.Rule?
    ensures row.Success? ==> |row.value| == |cols|
  {
    if cols == [] then Success([])
    else
      var cell :- Cell(cols[0], today, layer, number, r);
      var rest :- Cells(cols[1..], today, layer, number, r);
      Success([cell] + rest)
  }

  /** The row one rule emits, in header order; fails when one of its timestamps has no valid date. */
  function RuleRow(schema: Schema, today: CalendarDate, layer: string, number: string, r: Entry): (row: Result<Row>)
    requires r.Rule?
    ensures row.Success? ==> |row.value| == |Header(schema)|
  {
    Cells(Columns(schema), today, layer, number, r)
  }

  /**
    `if not policy_name: policy_name = data['name']`: the layer name a call of
    `loop_rules` labels its rows with.
   */
  function ResolveName(policyName: string, dataName: Option<string>): (r: Result<string>)
    ensures r.Failure? <==> policyName == "" && dataName.None?
    ensures r.Failure? ==> r.error == MissingName
    ensures r.Success? && policyName != "" ==> r.value == policyName
    ensures r.Success? && policyName == "" ==> dataName == Some(r.value)
  {
    if policyName != "" then Success(policyName)
    else
      match dataName
      case None => Failure(MissingName)
      case Some(n) => Success(n)
  }

  /**
    `loop_rules` over a list of entries: depth-first, in document order,
    each entry contributing `EntryRows`.
   */
  function EntriesRows(env: Env, sid: string, es: seq<Entry>, parent: string, layer: string, fuel: nat)
    : (rs: Result<seq<Row>>)
    ensures rs.Success? ==> AllWidth(rs.value, |Header(env.schema)|)
    decreases fuel, 1, es, 1
  {
    if es == [] then Success([])
    else Concat(EntryRows(env, sid, es[0], parent, layer, fuel), EntriesRows(env, sid, es[1..], parent, layer, fuel))
  }

  /**
    One pass of that loop. A section adds no row and recurses with an empty
    parent number, labelled with its own name only when the layer has none;
    a rule contributes `RuleRows`.
   */
  function EntryRows(env: Env, sid: string, e: Entry, parent: string, layer: string, fuel: nat)
    : (rs: Result<seq<Row>>)
    ensures rs.Success? ==> AllWidth(rs.value, |Header(env.schema)|)
    decreases fuel, 1, e, 0
  {
    if e.Section? then
      var name :- ResolveName(layer, e.name);
      EntriesRows(env, sid, e.rulebase, "", name, fuel)
    else RuleRows(env, sid, e, parent, layer, fuel)
  }

  /**
    One rule: its own row, then, if it references an inline layer, all rows of
    that layer numbered under this rule's number. Following an inline layer
    costs one unit of fuel.
   */
  function RuleRows(env: Env, sid: string, r: Entry, parent: string, layer: string, fuel: nat)
    : (rs: Result<seq<Row>>)
    requires r.Rule?
    ensures rs.Success? ==> AllWidth(rs.value, |Header(env.schema)|)
    decreases fuel, 0
  {
    var number := RuleNumber(parent, r.number);
    var row :- RuleRow(env.schema, env.today, layer, number, r);
    match r.inlineLayer
    case None => Success([row])
    case Some(uid) =>
      if fuel == 0 then Failure(OutOfFuel)
      else Concat(Success([row]), InlineRows(env, sid, uid, number, fuel - 1))
  }

  /**
    `get_inline_layer_info`: every page of inline layer `uid`, numbered under
    `parent`. A non-200 first page contributes no rows and the caller goes on.
   */
  function InlineRows(env: Env, sid: string, uid: string, parent: string, fuel: nat): (rs: Result<seq<Row>>)
    ensures rs.Success? ==> AllWidth(rs.value, |Header(env.schema)|)
    decreases fuel, 3
  {
    match env.server(PageRequest(sid, uid, 0))
    case None => Success([])
    case Some(page) => PagesFrom(env, sid, uid, parent, 0, page, fuel)
  }

  /**
    The rows of page `k` of a rule-base (already fetched) and of every page
    the paging loop fetches after it. Each page is labelled with its own name.
   */
  function PagesFrom(env: Env, sid: string, uid: string, parent: string, k: nat, page: Page, fuel: nat)
    : (rs: Result<seq<Row>>)
    requires k <= fuel
    ensures rs.Success? ==> AllWidth(rs.value, |Header(env.schema)|)
    decreases fuel, 2, fuel - k, 1
  {
    var name :- ResolveName("", page.name);
    Concat(EntriesRows(env, sid, page.rulebase, parent, name, fuel),
           NextPages(env, sid, uid, parent, k, page, fuel))
  }

  /**
    The paging loop after page `k`: stop when `to == total`; otherwise request
    page k + 1, whose status the scripts do not check, so a failed later page
    aborts. At most `fuel` pages are fetched.
   */
  function NextPages(env: Env, sid: string, uid: string, parent: string, k: nat, page: Page, fuel: nat)
    : (rs: Result<seq<Row>>)
    requires k <= fuel
    ensures rs.Success? ==> AllWidth(rs.value, |Header(env.schema)|)
    decreases fuel, 2, fuel - k, 0
  {
    if page.to == page.total then Success([])
    else if k + 1 >= fuel then Failure(OutOfFuel)
    else
      match env.server(PageRequest(sid, uid, k + 1))
      case None => Failure(PageFailed((k + 1) * PageLimit))
      case Some(next) => PagesFrom(env, sid, uid, parent, k + 1, next, fuel)
  }

  /** `print_rules`' file name: optional domain prefix, layer name, fixed suffix, timestamp read when the file is written. */
  function FileName(domain: Option<string>, policyName: string, stamp: string): (r: string)
    ensures var pre := if domain.Some? then domain.value + "_" else "";
      && |r| == |pre| + |policyName| + |stamp| + 22
      && r[..|pre|] == pre && r[|pre|..|pre| + |policyName|] == policyName
      && r[|pre| + |policyName|..|r| - |stamp| - 4] == "_hit_count_report_"
      && r[|r| - |stamp| - 4..] == stamp + ".csv"
  {
    match domain
    case None => policyName + "_hit_count_report_" + stamp + ".csv"
    case Some(d) => d + "_" + policyName + "_hit_count_report_" + stamp + ".csv"
  }

  /** What processing one top-level layer leaves behind. */
  datatype LayerOutcome =
    | NoReport                                 // the first page failed: message printed, no CSV
    | Report(fileName: string, rows: seq<Row>) // the CSV written, header first
    | Aborted(error: Error)                    // an exception ended the traversal: no CSV

  /**
    `loop_policy_rulebase` then `print_rules`: the accumulator starts again
    from the header, the layer's pages are flattened with no parent number,
    and the file is named after the menu's (sanitized) layer name.
   */
  function LayerReport(env: Env, sid: string, uid: string, policyName: string,
                       domain: Option<string>, stamp: string, fuel: nat): (out: LayerOutcome)
    ensures out.NoReport? <==> env.server(PageRequest(sid, uid, 0)).None?
    ensures out.Report? ==>
      && out.fileName == FileName(domain, policyName, stamp)
      && |out.rows| >= 1 && out.rows[0] == Header(env.schema)
      && AllWidth(out.rows, |Header(env.schema)|)
  {
    match env.server(PageRequest(sid, uid, 0))
    case None => NoReport
    case Some(page) =>
      match PagesFrom(env, sid, uid, "", 0, page, fuel)
      case Failure(e) => Aborted(e)
      case Success(rows) => Report(FileName(domain, policyName, stamp), [Header(env.schema)] + rows)
  }
}

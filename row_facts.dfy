/**
  What the cells of a rule's row mean, and two rule-bases worked through by
  hand: one rule in a layer, and a section inside an inline layer.
 */
module RowFacts {
  import opened Base
  import opened Dates
  import opened Flatten
  import opened FlattenFacts

  /**
    DATE_LAST_HIT is the first YYYY-MM-DD text of the last-hit timestamp,
    verbatim, and is `str` of the converted date; DAYS_SINCE_LAST_HIT is the
    text of the whole days from the last hit to the run date: "0" exactly
    when the last hit was on the run date and negative exactly when it lies
    after the run date.
   */
  lemma LastHitMeaning(today: CalendarDate, stamp: string)
    requires LastHitCells(today, Some(stamp)).Success?
    ensures FindDatePattern(stamp, 0).Some?
    ensures var cells := LastHitCells(today, Some(stamp)).value;
      var i := FindDatePattern(stamp, 0).value;
      var d := ConvertDatestring(stamp).value;
      && cells.0 == stamp[i..i + 10]
      && cells.0 == FormatDate(d)
      && cells.1 == IntToString(DaysSince(today, d))
      && (cells.1 == "0" <==> d == today)
      && (cells.1[0] == '-' <==> Before(today, d))
  {
    var d := ConvertDatestring(stamp).value;
    FormatConverted(stamp);
    DaysSinceSign(today, d);
    var delta := LastHitCells(today, Some(stamp)).value.1;
    assert delta == IntToString(DaysSince(today, d));
    if delta == "0" {
      assert IntToString(0) == "0";
      IntToStringInjective(DaysSince(today, d), 0);
    }
  }

  /**
    The row as the scripts build it: both date conversions first, the last
    hit before the modification time, then every cell in one list.
   */
  function DirectRow(schema: Schema, today: CalendarDate, layer: string, number: string, r: Entry): Result<Row>
    requires r.Rule?
  {
    var last :- LastHitCells(today, r.lastDate);
    var modified :- ConvertDatestring(r.modifyTime);
    var cells := [layer, number, RuleName(r.name), IntToString(r.hits), last.0, last.1,
                  BoolCell(r.enabled), FormatDate(modified), r.modifier];
    Success(cells + if schema == MultiDomain then [r.uid] else [])
  }

  /**
    Building the row column by column gives the same row, or the same error,
    as building it in one go: an invalid last hit is reported before an
    invalid modification time.
   */
  lemma RuleRowIsDirect(schema: Schema, today: CalendarDate, layer: string, number: string, r: Entry)
    requires r.Rule?
    ensures RuleRow(schema, today, layer, number, r) == DirectRow(schema, today, layer, number, r)
  {
    if LastHitCells(today, r.lastDate).Failure? {
      RuleRowLastHitFails(schema, today, layer, number, r);
    } else if ConvertDatestring(r.modifyTime).Failure? {
      RuleRowModifiedFails(schema, today, layer, number, r);
    } else {
      RuleRowDefined(schema, today, layer, number, r);
      RuleRowWhole(schema, today, layer, number, r);
    }
  }

  /** An invalid last hit fails the row with its own error, whatever the modification time. */
  lemma RuleRowLastHitFails(schema: Schema, today: CalendarDate, layer: string, number: string, r: Entry)
    requires r.Rule? && LastHitCells(today, r.lastDate).Failure?
    ensures RuleRow(schema, today, layer, number, r) == Failure(LastHitCells(today, r.lastDate).error)
  {
    var cols := Columns(schema);
    forall j | 0 <= j < 4 ensures Cell(cols[j], today, layer, number, r).Success? {
      CellDefined(cols[j], today, layer, number, r);
    }
    assert cols[4] == DateLastHit;
    CellsFirstFailure(cols, today, layer, number, r, 4);
  }

  /** With a valid last hit, an invalid modification time fails the row with its error. */
  lemma RuleRowModifiedFails(schema: Schema, today: CalendarDate, layer: string, number: string, r: Entry)
    requires r.Rule? && LastHitCells(today, r.lastDate).Success? && ConvertDatestring(r.modifyTime).Failure?
    ensures RuleRow(schema, today, layer, number, r) == Failure(ConvertDatestring(r.modifyTime).error)
  {
    var cols := Columns(schema);
    forall j | 0 <= j < 7 ensures Cell(cols[j], today, layer, number, r).Success? {
      CellDefined(cols[j], today, layer, number, r);
    }
    assert cols[7] == ModifiedDate;
    CellsFirstFailure(cols, today, layer, number, r, 7);
  }

  /** Whether one cell can be built: only the date cells can fail, each on its own timestamp. */
  lemma CellDefined(c: Column, today: CalendarDate, layer: string, number: string, r: Entry)
    requires r.Rule?
    ensures Cell(c, today, layer, number, r).Success?
            <==> (c == DateLastHit || c == DaysSinceLastHit ==> LastHitCells(today, r.lastDate).Success?)
                 && (c == ModifiedDate ==> ConvertDatestring(r.modifyTime).Success?)
  {
  }

  /** The cells of a built row that do not depend on a timestamp. */
  lemma RuleRowPlainCells(schema: Schema, today: CalendarDate, layer: string, number: string, r: Entry)
    requires r.Rule? && RuleRow(schema, today, layer, number, r).Success?
    ensures |RuleRow(schema, today, layer, number, r).value| == |Header(schema)|
    ensures var row := RuleRow(schema, today, layer, number, r).value;
      && row[0] == layer && row[1] == number && row[2] == RuleName(r.name) && row[3] == IntToString(r.hits)
      && row[6] == BoolCell(r.enabled) && row[8] == r.modifier && (schema == MultiDomain ==> row[9] == r.uid)
  {
    CellsSuccess(Columns(schema), today, layer, number, r);
  }

  /** The date cells of a built row, which exist only when both conversions succeed. */
  lemma RuleRowDateCells(schema: Schema, today: CalendarDate, layer: string, number: string, r: Entry)
    requires r.Rule? && RuleRow(schema, today, layer, number, r).Success?
    ensures |RuleRow(schema, today, layer, number, r).value| == |Header(schema)|
    ensures LastHitCells(today, r.lastDate).Success? && ConvertDatestring(r.modifyTime).Success?
    ensures var row := RuleRow(schema, today, layer, number, r).value;
      && row[4] == LastHitCells(today, r.lastDate).value.0 && row[5] == LastHitCells(today, r.lastDate).value.1
      && row[7] == FormatDate(ConvertDatestring(r.modifyTime).value)
  {
    var cols := Columns(schema);
    CellsSuccess(cols, today, layer, number, r);
    assert cols[4] == DateLastHit && cols[5] == DaysSinceLastHit && cols[7] == ModifiedDate;
  }

  /** A rule's row, cell by cell, in terms of its two date conversions. */
  lemma RuleRowValue(schema: Schema, today: CalendarDate, layer: string, number: string, r: Entry)
    requires r.Rule? && RuleRow(schema, today, layer, number, r).Success?
    ensures LastHitCells(today, r.lastDate).Success? && ConvertDatestring(r.modifyTime).Success?
    ensures var row := RuleRow(schema, today, layer, number, r).value;
      var last := LastHitCells(today, r.lastDate).value;
      && |row| == |Header(schema)|
      && row[0] == layer && row[1] == number && row[2] == RuleName(r.name)
      && row[3] == IntToString(r.hits) && row[4] == last.0 && row[5] == last.1
      && row[6] == BoolCell(r.enabled) && row[7] == FormatDate(ConvertDatestring(r.modifyTime).value)
      && row[8] == r.modifier && (schema == MultiDomain ==> row[9] == r.uid)
  {
    RuleRowPlainCells(schema, today, layer, number, r);
    RuleRowDateCells(schema, today, layer, number, r);
  }

  /** A rule's row as one list. */
  lemma RuleRowWhole(schema: Schema, today: CalendarDate, layer: string, number: string, r: Entry)
    requires r.Rule? && RuleRow(schema, today, layer, number, r).Success?
    ensures LastHitCells(today, r.lastDate).Success? && ConvertDatestring(r.modifyTime).Success?
    ensures var last := LastHitCells(today, r.lastDate).value;
      RuleRow(schema, today, layer, number, r).value
      == [layer, number, RuleName(r.name), IntToString(r.hits), last.0, last.1, BoolCell(r.enabled),
          FormatDate(ConvertDatestring(r.modifyTime).value), r.modifier]
         + (if schema == MultiDomain then [r.uid] else [])
  {
    RuleRowValue(schema, today, layer, number, r);
    var row := RuleRow(schema, today, layer, number, r).value;
    var last := LastHitCells(today, r.lastDate).value;
    NineCells(row[..9], layer, number, RuleName(r.name), IntToString(r.hits), last.0, last.1, BoolCell(r.enabled),
              FormatDate(ConvertDatestring(r.modifyTime).value), r.modifier);
    if schema == MultiDomain {
      assert row == row[..9] + [row[9]];
    } else {
      assert row == row[..9];
    }
  }

  /** A list of nine cells is the list of its nine elements. */
  lemma NineCells(row: Row, c0: string, c1: string, c2: string, c3: string, c4: string, c5: string,
                  c6: string, c7: string, c8: string)
    requires |row| == 9
    requires row[0] == c0 && row[1] == c1 && row[2] == c2 && row[3] == c3 && row[4] == c4
    requires row[5] == c5 && row[6] == c6 && row[7] == c7 && row[8] == c8
    ensures row == [c0, c1, c2, c3, c4, c5, c6, c7, c8]
  {
  }

  lemma SmallNumbers()
    ensures IntToString(1) == "1" && IntToString(5) == "5" && IntToString(42) == "42"
  {
    assert NatToString(42) == NatToString(4) + [DigitChar(2)];
  }

  /** A rule yields a row exactly when both of its timestamps (the last hit only if present) hold a valid date. */
  lemma RuleRowDefined(schema: Schema, today: CalendarDate, layer: string, number: string, r: Entry)
    requires r.Rule?
    ensures RuleRow(schema, today, layer, number, r).Success?
            <==> (r.lastDate.Some? ==> ConvertDatestring(r.lastDate.value).Success?)
                 && ConvertDatestring(r.modifyTime).Success?
  {
    var cols := Columns(schema);
    CellsSuccess(cols, today, layer, number, r);
    forall k | 0 <= k < |cols| ensures Cell(cols[k], today, layer, number, r).Success? <==>
        (cols[k] == DateLastHit || cols[k] == DaysSinceLastHit ==> LastHitCells(today, r.lastDate).Success?)
        && (cols[k] == ModifiedDate ==> ConvertDatestring(r.modifyTime).Success?) {
      CellDefined(cols[k], today, layer, number, r);
    }
    assert cols[4] == DateLastHit && cols[7] == ModifiedDate;
  }

  /**
    The cells of a rule's row, in header order: the layer name, the number,
    the cleaned rule name, the hit count, the two last-hit cells (both
    sentinels exactly when the rule was never hit), "True" exactly for an
    enabled rule, the modification date, the modifier, and the rule's uid in
    the multi-domain schema only.
   */
  lemma RuleRowCells(schema: Schema, today: CalendarDate, layer: string, number: string, r: Entry)
    requires r.Rule? && RuleRow(schema, today, layer, number, r).Success?
    ensures ConvertDatestring(r.modifyTime).Success?
    ensures var row := RuleRow(schema, today, layer, number, r).value;
      && |row| == |Header(schema)|
      && row[0] == layer && row[1] == number
      && row[2] == RuleName(r.name) && '\n' !in row[2]
      && row[3] == IntToString(r.hits)
      && (r.lastDate.None? <==> row[4] == LastHitEmpty)
      && (r.lastDate.None? <==> row[5] == LastDeltaEmpty)
      && (row[6] == "True" <==> r.enabled)
      && row[7] == FormatDate(ConvertDatestring(r.modifyTime).value)
      && row[8] == r.modifier
      && (schema == MultiDomain ==> row[9] == r.uid)
  {
    RuleRowValue(schema, today, layer, number, r);
  }

  /** The date of a timestamp that starts with the ISO date of `d`. */
  lemma StampDate(d: CalendarDate, stamp: string)
    requires |stamp| >= 10 && stamp[..10] == FormatDate(d)
    ensures ConvertDatestring(stamp) == Success(d)
  {
    ConvertFormatted(d, stamp[10..]);
    assert stamp == FormatDate(d) + stamp[10..];
  }

  const Jan10: CalendarDate := Date(2024, 1, 10)
  const Jan15: CalendarDate := Date(2024, 1, 15)
  const Jan20: CalendarDate := Date(2024, 1, 20)

  lemma FormatJan()
    ensures FormatDate(Jan10) == "2024-01-10"
    ensures FormatDate(Jan15) == "2024-01-15"
  {
  }

  /** A rule with no inline layer, alone in a list, gives its own row and nothing else. */
  lemma SinglePlainRule(env: Env, sid: string, r: Entry, parent: string, layer: string, fuel: nat)
    requires r.Rule? && r.inlineLayer.None?
    requires RuleRow(env.schema, env.today, layer, RuleNumber(parent, r.number), r).Success?
    ensures EntriesRows(env, sid, [r], parent, layer, fuel)
            == Success([RuleRow(env.schema, env.today, layer, RuleNumber(parent, r.number), r).value])
  {
    EntriesRowsSingle(env, sid, r, parent, layer, fuel);
    var row := RuleRow(env.schema, env.today, layer, RuleNumber(parent, r.number), r);
    assert RuleRows(env, sid, r, parent, layer, fuel) == Success([row.value]);
  }

  /** A named page that is the last one gives the rows of its own entries, labelled with its name. */
  lemma LastPage(env: Env, sid: string, uid: string, parent: string, name: string, k: nat, page: Page, fuel: nat)
    requires k <= fuel && page.name == Some(name) && page.to == page.total
    ensures PagesFrom(env, sid, uid, parent, k, page, fuel) == EntriesRows(env, sid, page.rulebase, parent, name, fuel)
  {
    var rows := EntriesRows(env, sid, page.rulebase, parent, name, fuel);
    if rows.Success? {
      assert rows.value + [] == rows.value;
    }
  }

  /** The rule "Allow-HTTP" of layer "Network": 42 hits, last hit 15 January 2024. */
  const AllowHttp: Entry :=
    Rule(1, Some("Allow-HTTP"), 42, Some("2024-01-15T00:00:00Z"), true,
         "2024-01-10T00:00:00Z", "admin", "abc-123", None)

  function AllowHttpCells(schema: Schema): Row
  {
    ["Network", "1", "Allow-HTTP", "42", "2024-01-15", "5", "True", "2024-01-10", "admin"]
    + (if schema == MultiDomain then ["abc-123"] else [])
  }

  lemma AllowHttpLastHit()
    ensures LastHitCells(Jan20, Some("2024-01-15T00:00:00Z")) == Success(("2024-01-15", "5"))
  {
    FormatJan();
    StampDate(Jan15, "2024-01-15T00:00:00Z");
    assert DaysSince(Jan20, Jan15) == 5;
    assert IntToString(5) == "5";
  }

  /** The modification time of "Allow-HTTP" holds 10 January 2024. */
  lemma AllowHttpModified()
    ensures ConvertDatestring(AllowHttp.modifyTime) == Success(Jan10)
  {
    FormatJan();
    StampDate(Jan10, "2024-01-10T00:00:00Z");
  }

  /** The text cells of "Allow-HTTP". */
  lemma AllowHttpText()
    ensures FormatDate(Jan10) == "2024-01-10"
    ensures RuleName(AllowHttp.name) == "Allow-HTTP"
    ensures IntToString(AllowHttp.hits) == "42"
  {
    FormatJan();
    ReplaceCharRemoves("Allow-HTTP", '\n', ' ');
    SmallNumbers();
  }

  lemma AllowHttpRow(schema: Schema)
    ensures RuleRow(schema, Jan20, "Network", "1", AllowHttp) == Success(AllowHttpCells(schema))
  {
    AllowHttpLastHit();
    AllowHttpModified();
    AllowHttpText();
    RuleRowIsDirect(schema, Jan20, "Network", "1", AllowHttp);
    var cells := ["Network", "1", RuleName(AllowHttp.name), IntToString(AllowHttp.hits), "2024-01-15", "5",
                  BoolCell(true), FormatDate(Jan10), "admin"];
    assert DirectRow(schema, Jan20, "Network", "1", AllowHttp)
           == Success(cells + if schema == MultiDomain then ["abc-123"] else []);
  }

  /**
    A layer "Network" of the one rule above, reported on 20 January 2024: the
    CSV is the header and one row, the last hit five days before the run.
   */
  lemma NetworkReport(schema: Schema, server: Server, sid: string, uid: string, stamp: string, fuel: nat)
    requires server(PageRequest(sid, uid, 0)) == Some(Page(Some("Network"), [AllowHttp], 1, 1))
    ensures LayerReport(Env(schema, Jan20, server), sid, uid, "Network", None, stamp, fuel)
            == Report("Network" + "_hit_count_report_" + stamp + ".csv",
                      [Header(schema),
                       ["Network", "1", "Allow-HTTP", "42", "2024-01-15", "5", "True", "2024-01-10", "admin"]
                       + (if schema == MultiDomain then ["abc-123"] else [])])
  {
    var env := Env(schema, Jan20, server);
    var cells := AllowHttpCells(schema);
    var page := Page(Some("Network"), [AllowHttp], 1, 1);
    assert EntriesRows(env, sid, [AllowHttp], "", "Network", fuel) == Success([cells]) by {
      AllowHttpRow(schema);
      SmallNumbers();
      SinglePlainRule(env, sid, AllowHttp, "", "Network", fuel);
    }
    assert PagesFrom(env, sid, uid, "", 0, page, fuel) == Success([cells]) by {
      LastPage(env, sid, uid, "", "Network", 0, page, fuel);
    }
    assert [Header(schema)] + [cells] == [Header(schema), cells];
  }

  /** A rule of an inline layer, placed in a section of that layer. */
  const InnerRule: Entry :=
    Rule(1, Some("inner"), 0, None, true, "2024-01-10T00:00:00Z", "admin", "u-1", None)

  /** Rule 5 of the top layer, which references inline layer "inline-uid". */
  const GateRule: Entry :=
    Rule(5, Some("gate"), 0, None, true, "2024-01-10T00:00:00Z", "admin", "u-5", Some("inline-uid"))

  lemma ExampleRowsExist(schema: Schema)
    ensures RuleRow(schema, Jan20, "Inner", "1", InnerRule).Success?
    ensures RuleRow(schema, Jan20, "Outer", "5", GateRule).Success?
  {
    FormatJan();
      StampDate(Jan10, "2024-01-10T00:00:00Z");
    RuleRowDefined(schema, Jan20, "Inner", "1", InnerRule);
    RuleRowDefined(schema, Jan20, "Outer", "5", GateRule);
  }

  /** The inline layer of the example: one section holding `InnerRule`, numbered with no parent. */
  lemma InlineSectionRows(schema: Schema, server: Server, sid: string)
    requires server(PageRequest(sid, "inline-uid", 0))
             == Some(Page(Some("Inner"), [Section(Some("S"), [InnerRule])], 1, 1))
    ensures RuleRow(schema, Jan20, "Inner", "1", InnerRule).Success?
    ensures InlineRows(Env(schema, Jan20, server), sid, "inline-uid", "5", 0)
            == Success([RuleRow(schema, Jan20, "Inner", "1", InnerRule).value])
  {
    var env := Env(schema, Jan20, server);
    ExampleRowsExist(schema);
    var inner := RuleRow(schema, Jan20, "Inner", "1", InnerRule).value;
    var section := Section(Some("S"), [InnerRule]);
    assert EntriesRows(env, sid, [section], "5", "Inner", 0) == Success([inner]) by {
      EntriesRowsSingle(env, sid, section, "5", "Inner", 0);
      SmallNumbers();
      SinglePlainRule(env, sid, InnerRule, "", "Inner", 0);
    }
    LastPage(env, sid, "inline-uid", "5", "Inner", 0, Page(Some("Inner"), [section], 1, 1), 0);
  }

  /**
    A section inside an inline layer drops the parent number: the section is
    walked with an empty parent, so the rule it holds is numbered "1", not
    "5.1", although it is reached through rule 5. Its row carries the inline
    layer's own name, not the top layer's.
   */
  lemma SectionInInlineLayerLosesParent(schema: Schema, server: Server, sid: string)
    requires server(PageRequest(sid, "inline-uid", 0))
             == Some(Page(Some("Inner"), [Section(Some("S"), [InnerRule])], 1, 1))
    ensures var rows := EntriesRows(Env(schema, Jan20, server), sid, [GateRule], "", "Outer", 1);
      && rows.Success? && |rows.value| == 2
      && |rows.value[0]| >= 2 && rows.value[0][0] == "Outer" && rows.value[0][1] == "5"
      && |rows.value[1]| >= 2 && rows.value[1][0] == "Inner" && rows.value[1][1] == "1"
  {
    var env := Env(schema, Jan20, server);
    InlineSectionRows(schema, server, sid);
    ExampleRowsExist(schema);
    var inner := RuleRow(schema, Jan20, "Inner", "1", InnerRule).value;
    var gate := RuleRow(schema, Jan20, "Outer", "5", GateRule).value;
    assert |inner| >= 2 && inner[0] == "Inner" && inner[1] == "1" by {
      RuleRowValue(schema, Jan20, "Inner", "1", InnerRule);
    }
    assert |gate| >= 2 && gate[0] == "Outer" && gate[1] == "5" by {
      RuleRowValue(schema, Jan20, "Outer", "5", GateRule);
    }
    assert RuleRows(env, sid, GateRule, "", "Outer", 1) == Success([gate, inner]) by {
      SmallNumbers();
      assert RuleNumber("", 5) == "5";
      assert [gate] + [inner] == [gate, inner];
    }
    EntriesRowsSingle(env, sid, GateRule, "", "Outer", 1);
  }
}

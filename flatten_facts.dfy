/**
  What the flattener guarantees: rows of consecutive entry lists concatenate,
  an inline layer's rows follow their rule's row, one row per rule, every row
  as wide as the header, inline numbering under the parent's number, and the
  cells of a rule's row.
 */
module FlattenFacts {
  import opened Base
  import opened Dates
  import opened Flatten

  lemma ConcatAssoc(a: Result<seq<Row>>, b: Result<seq<Row>>, c: Result<seq<Row>>)
    ensures Concat(Concat(a, b), c) == Concat(a, Concat(b, c))
  {
    if a.Success? && b.Success? && c.Success? {
      assert (a.value + b.value) + c.value == a.value + (b.value + c.value);
    }
  }

  lemma AppendAssoc<T>(a: seq<T>, b: seq<T>, c: seq<T>)
    ensures a + b + c == a + (b + c)
  {
  }

  lemma ConcatSuccess(a: Result<seq<Row>>, b: Result<seq<Row>>)
    requires Concat(a, b).Success?
    ensures a.Success? && b.Success? && Concat(a, b).value == a.value + b.value
  {
  }

  /**
    A rule's cells succeed exactly when every column's cell does, and then
    the row holds one cell per column, in column order.
   */
  lemma {:induction false} CellsSuccess(cols: seq<Column>, today: CalendarDate, layer: string, number: string, r: Entry)
    requires r.Rule?
    ensures Cells(cols, today, layer, number, r).Success?
            <==> forall k :: 0 <= k < |cols| ==> Cell(cols[k], today, layer, number, r).Success?
    ensures Cells(cols, today, layer, number, r).Success? ==>
              && |Cells(cols, today, layer, number, r).value| == |cols|
              && forall k :: 0 <= k < |cols| ==>
                   Cells(cols, today, layer, number, r).value[k] == Cell(cols[k], today, layer, number, r).value
  {
    if cols != [] {
      var tail := cols[1..];
      CellsSuccess(tail, today, layer, number, r);
      assert forall k :: 1 <= k < |cols| ==> cols[k] == tail[k - 1];
      if forall k :: 0 <= k < |cols| ==> Cell(cols[k], today, layer, number, r).Success? {
        assert forall k :: 0 <= k < |tail| ==> Cell(tail[k], today, layer, number, r).Success? by {
          forall k | 0 <= k < |tail| ensures Cell(tail[k], today, layer, number, r).Success? {
            assert tail[k] == cols[k + 1];
          }
        }
      }
    }
  }

  /** A row that cannot be built fails with the error of its first failing cell. */
  lemma {:induction false} CellsFirstFailure(cols: seq<Column>, today: CalendarDate, layer: string, number: string,
                                             r: Entry, k: nat)
    requires r.Rule? && k < |cols|
    requires Cell(cols[k], today, layer, number, r).Failure?
    requires forall j :: 0 <= j < k ==> Cell(cols[j], today, layer, number, r).Success?
    ensures Cells(cols, today, layer, number, r) == Failure(Cell(cols[k], today, layer, number, r).error)
  {
    if k > 0 {
      var tail := cols[1..];
      assert Cell(cols[0], today, layer, number, r).Success?;
      assert forall j :: 0 <= j < k - 1 ==> tail[j] == cols[j + 1];
      CellsFirstFailure(tail, today, layer, number, r, k - 1);
    }
  }

  lemma EntriesRowsCons(env: Env, sid: string, es: seq<Entry>, parent: string, layer: string, fuel: nat)
    requires es != []
    ensures EntriesRows(env, sid, es, parent, layer, fuel)
            == Concat(EntryRows(env, sid, es[0], parent, layer, fuel),
                      EntriesRows(env, sid, es[1..], parent, layer, fuel))
  {
  }

  /**
    Flattening is a homomorphism on entry lists: the rows of `a + b` are the
    rows of `a` followed by the rows of `b`, and a failure in `a` wins. So
    rows come out in document order however the entries are split into pages.
   */
  lemma {:induction false} EntriesRowsAppend(env: Env, sid: string, a: seq<Entry>, b: seq<Entry>,
                                             parent: string, layer: string, fuel: nat)
    ensures EntriesRows(env, sid, a + b, parent, layer, fuel)
            == Concat(EntriesRows(env, sid, a, parent, layer, fuel), EntriesRows(env, sid, b, parent, layer, fuel))
  {
    if a == [] {
      assert a + b == b;
      var rb := EntriesRows(env, sid, b, parent, layer, fuel);
      if rb.Success? {
        assert [] + rb.value == rb.value;
      }
    } else {
      assert (a + b)[0] == a[0];
      assert (a + b)[1..] == a[1..] + b;
      EntriesRowsCons(env, sid, a + b, parent, layer, fuel);
      EntriesRowsCons(env, sid, a, parent, layer, fuel);
      EntriesRowsAppend(env, sid, a[1..], b, parent, layer, fuel);
      ConcatAssoc(EntryRows(env, sid, a[0], parent, layer, fuel),
                  EntriesRows(env, sid, a[1..], parent, layer, fuel),
                  EntriesRows(env, sid, b, parent, layer, fuel));
    }
  }

  /** A list of one entry flattens to that entry's rows. */
  lemma EntriesRowsSingle(env: Env, sid: string, e: Entry, parent: string, layer: string, fuel: nat)
    ensures EntriesRows(env, sid, [e], parent, layer, fuel) == EntryRows(env, sid, e, parent, layer, fuel)
  {
    assert [e][1..] == [];
    var r := EntryRows(env, sid, e, parent, layer, fuel);
    if r.Success? {
      assert r.value + [] == r.value;
    }
  }

  /**
    A rule that references an inline layer: in the rows of the surrounding
    entries, its own row is followed at once by every row of the inline layer
    (numbered under the rule's number), and only then by the rows of the
    entries after it.
   */
  lemma InlineRowsFollowRule(env: Env, sid: string, before: seq<Entry>, r: Entry, after: seq<Entry>,
                             parent: string, layer: string, fuel: nat)
    requires r.Rule? && r.inlineLayer.Some?
    requires EntriesRows(env, sid, before + [r] + after, parent, layer, fuel).Success?
    ensures fuel > 0
    ensures var number := RuleNumber(parent, r.number);
      && EntriesRows(env, sid, before, parent, layer, fuel).Success?
      && RuleRow(env.schema, env.today, layer, number, r).Success?
      && InlineRows(env, sid, r.inlineLayer.value, number, fuel - 1).Success?
      && EntriesRows(env, sid, after, parent, layer, fuel).Success?
      && EntriesRows(env, sid, before + [r] + after, parent, layer, fuel).value
         == EntriesRows(env, sid, before, parent, layer, fuel).value
            + [RuleRow(env.schema, env.today, layer, number, r).value]
            + InlineRows(env, sid, r.inlineLayer.value, number, fuel - 1).value
            + EntriesRows(env, sid, after, parent, layer, fuel).value
  {
    var ra := EntriesRows(env, sid, before, parent, layer, fuel);
    var rr := EntriesRows(env, sid, [r], parent, layer, fuel);
    var rb := EntriesRows(env, sid, after, parent, layer, fuel);
    assert EntriesRows(env, sid, before + [r] + after, parent, layer, fuel) == Concat(Concat(ra, rr), rb) by {
      EntriesRowsAppend(env, sid, before + [r], after, parent, layer, fuel);
      EntriesRowsAppend(env, sid, before, [r], parent, layer, fuel);
    }
    assert rr == RuleRows(env, sid, r, parent, layer, fuel) by {
      EntriesRowsSingle(env, sid, r, parent, layer, fuel);
    }
    ConcatSuccess(Concat(ra, rr), rb);
    ConcatSuccess(ra, rr);
    RuleRowsShape(env, sid, r, parent, layer, fuel);
  }

  /** One more entry processed: the rows of the first i + 1 entries extend those of the first i. */
  lemma EntriesRowsPrefixStep(env: Env, sid: string, es: seq<Entry>, i: nat, parent: string, layer: string, fuel: nat)
    requires i < |es|
    ensures EntriesRows(env, sid, es[..i + 1], parent, layer, fuel)
            == Concat(EntriesRows(env, sid, es[..i], parent, layer, fuel), EntryRows(env, sid, es[i], parent, layer, fuel))
  {
    assert es[..i + 1] == es[..i] + [es[i]];
    EntriesRowsAppend(env, sid, es[..i], [es[i]], parent, layer, fuel);
    EntriesRowsSingle(env, sid, es[i], parent, layer, fuel);
  }

  /** The loop step of `loop_rules`: one more successful entry extends the rows so far by its own. */
  lemma EntriesRowsExtend(env: Env, sid: string, es: seq<Entry>, i: nat, parent: string, layer: string, fuel: nat,
                          acc: seq<Row>)
    requires i < |es|
    requires EntriesRows(env, sid, es[..i], parent, layer, fuel) == Success(acc)
    requires EntryRows(env, sid, es[i], parent, layer, fuel).Success?
    ensures EntriesRows(env, sid, es[..i + 1], parent, layer, fuel)
            == Success(acc + EntryRows(env, sid, es[i], parent, layer, fuel).value)
  {
    EntriesRowsPrefixStep(env, sid, es, i, parent, layer, fuel);
  }

  /** The first entry that fails makes the whole list fail with its error. */
  lemma EntriesRowsFailsAt(env: Env, sid: string, es: seq<Entry>, i: nat, parent: string, layer: string, fuel: nat)
    requires i < |es|
    requires EntriesRows(env, sid, es[..i], parent, layer, fuel).Success?
    requires EntryRows(env, sid, es[i], parent, layer, fuel).Failure?
    ensures EntriesRows(env, sid, es, parent, layer, fuel) == Failure(EntryRows(env, sid, es[i], parent, layer, fuel).error)
  {
    EntriesRowsPrefixStep(env, sid, es, i, parent, layer, fuel);
    assert es == es[..i + 1] + es[i + 1..];
    EntriesRowsAppend(env, sid, es[..i + 1], es[i + 1..], parent, layer, fuel);
  }

  /** True when no rule in the entries, at any section depth, references an inline layer. */
  predicate NoInline(es: seq<Entry>)
  {
    forall i :: 0 <= i < |es| ==>
      if es[i].Section? then NoInline(es[i].rulebase) else es[i].inlineLayer.None?
  }

  /** The number of rules in the entries, counting inside sections but not sections themselves. */
  function LeafCount(es: seq<Entry>): nat
  {
    if es == [] then 0
    else (if es[0].Section? then LeafCount(es[0].rulebase) else 1) + LeafCount(es[1..])
  }

  /**
    Without inline layers, a successful flattening has exactly one row per
    rule: sections contribute no row of their own.
   */
  lemma {:induction false} RowCountIsLeafCount(env: Env, sid: string, es: seq<Entry>,
                                               parent: string, layer: string, fuel: nat)
    requires NoInline(es)
    requires EntriesRows(env, sid, es, parent, layer, fuel).Success?
    ensures |EntriesRows(env, sid, es, parent, layer, fuel).value| == LeafCount(es)
  {
    if es != [] {
      EntriesRowsCons(env, sid, es, parent, layer, fuel);
      var head := EntryRows(env, sid, es[0], parent, layer, fuel);
      ConcatSuccess(head, EntriesRows(env, sid, es[1..], parent, layer, fuel));
      assert NoInline(es[1..]) by {
        forall i | 0 <= i < |es[1..]| ensures
          if es[1..][i].Section? then NoInline(es[1..][i].rulebase) else es[1..][i].inlineLayer.None?
        {
          assert es[1..][i] == es[i + 1];
        }
      }
      RowCountIsLeafCount(env, sid, es[1..], parent, layer, fuel);
      if es[0].Section? {
        assert NoInline(es[0].rulebase);
        var name := ResolveName(layer, es[0].name).value;
        RowCountIsLeafCount(env, sid, es[0].rulebase, "", name, fuel);
      }
    }
  }

  /**
    With the same domain and timestamp, distinct (sanitized) layer names
    give distinct file names, so two such reports never overwrite each other.
   */
  lemma FileNameInjective(domain: Option<string>, p: string, q: string, stamp: string)
    requires FileName(domain, p, stamp) == FileName(domain, q, stamp)
    ensures p == q
  {
    var pre := if domain.Some? then domain.value + "_" else "";
    var suffix := "_hit_count_report_" + stamp + ".csv";
    var a := FileName(domain, p, stamp);
    assert a == pre + p + suffix;
    assert a == pre + q + suffix;
    assert |p| == |q|;
    assert p == a[|pre|..|pre| + |p|];
    assert q == a[|pre|..|pre| + |q|];
  }

  predicate StartsWith(s: string, prefix: string)
  {
    |prefix| <= |s| && s[..|prefix|] == prefix
  }

  /** True when the entries hold no section at the top level. */
  predicate NoSections(es: seq<Entry>)
  {
    forall i :: 0 <= i < |es| ==> es[i].Rule?
  }

  /** Every inline layer the entries' rules reference is one of `layers`. */
  predicate InlineWithin(es: seq<Entry>, layers: set<string>)
  {
    forall i :: 0 <= i < |es| && es[i].Rule? && es[i].inlineLayer.Some? ==> es[i].inlineLayer.value in layers
  }

  /**
    The rule-bases `layers` are section-free and closed under inline
    references: no page the server returns for one of them holds a section,
    and every inline layer such a page references is again one of them.
    The top-level layer need not be among them.
   */
  ghost predicate SectionFreeLayers(server: Server, sid: string, layers: set<string>)
  {
    forall q: Request :: q.sid == sid && q.uid in layers && server(q).Some? ==>
      NoSections(server(q).value.rulebase) && InlineWithin(server(q).value.rulebase, layers)
  }

  lemma EntriesTail(es: seq<Entry>, layers: set<string>)
    requires es != [] && NoSections(es) && InlineWithin(es, layers)
    ensures NoSections(es[1..]) && InlineWithin(es[1..], layers)
  {
    forall i | 0 <= i < |es[1..]| ensures es[1..][i] == es[i + 1] {
    }
  }

  /** Every row's RULE_NUMBER cell starts with `prefix`. */
  predicate AllNumbered(rows: seq<Row>, prefix: string)
  {
    forall i :: 0 <= i < |rows| ==> |rows[i]| >= 2 && StartsWith(rows[i][1], prefix)
  }

  lemma AllNumberedConcat(a: Result<seq<Row>>, b: Result<seq<Row>>, prefix: string)
    requires a.Success? ==> AllNumbered(a.value, prefix)
    requires b.Success? ==> AllNumbered(b.value, prefix)
    ensures Concat(a, b).Success? ==> AllNumbered(Concat(a, b).value, prefix)
  {
    if Concat(a, b).Success? {
      var rows := Concat(a, b).value;
      forall i | 0 <= i < |rows| ensures |rows[i]| >= 2 && StartsWith(rows[i][1], prefix) {
        if i < |a.value| {
          assert rows[i] == a.value[i];
        } else {
          assert rows[i] == b.value[i - |a.value|];
        }
      }
    }
  }

  lemma AllNumberedWeaken(rows: seq<Row>, longer: string, prefix: string)
    requires AllNumbered(rows, longer) && StartsWith(longer, prefix)
    ensures AllNumbered(rows, prefix)
  {
    forall i | 0 <= i < |rows| ensures StartsWith(rows[i][1], prefix) {
      assert rows[i][1][..|prefix|] == rows[i][1][..|longer|][..|prefix|];
    }
  }

  /**
    Numbering under a parent: when the inline layers reached are
    section-free, every row reached from a rule numbered `parent` (its
    inline layer's rules, and theirs, at any depth) is numbered `parent`
    followed by a dot, as "5.3" and "5.3.2" are under "5". The rule itself
    may sit anywhere, in a section of the top-level layer too.
   */
  lemma {:induction false} InlineRowsNumbered(env: Env, sid: string, uid: string, parent: string, fuel: nat,
                                              layers: set<string>)
    requires parent != "" && uid in layers && SectionFreeLayers(env.server, sid, layers)
    ensures var rs := InlineRows(env, sid, uid, parent, fuel);
      rs.Success? ==> AllNumbered(rs.value, parent + ".")
    decreases fuel, 3
  {
    var first := env.server(PageRequest(sid, uid, 0));
    if first.Some? {
      PagesFromNumbered(env, sid, uid, parent, 0, first.value, fuel, layers);
    }
  }

  lemma {:induction false} PagesFromNumbered(env: Env, sid: string, uid: string, parent: string, k: nat,
                                             page: Page, fuel: nat, layers: set<string>)
    requires k <= fuel && parent != "" && uid in layers && SectionFreeLayers(env.server, sid, layers)
    requires env.server(PageRequest(sid, uid, k)) == Some(page)
    ensures var rs := PagesFrom(env, sid, uid, parent, k, page, fuel);
      rs.Success? ==> AllNumbered(rs.value, parent + ".")
    decreases fuel, 2, fuel - k, 1
  {
    assert NoSections(page.rulebase) && InlineWithin(page.rulebase, layers) by {
      assert env.server(PageRequest(sid, uid, k)).Some?;
    }
    var name := ResolveName("", page.name);
    if name.Success? {
      EntriesRowsNumbered(env, sid, page.rulebase, parent, name.value, fuel, layers);
      NextPagesNumbered(env, sid, uid, parent, k, page, fuel, layers);
      AllNumberedConcat(EntriesRows(env, sid, page.rulebase, parent, name.value, fuel),
                        NextPages(env, sid, uid, parent, k, page, fuel), parent + ".");
    }
  }

  lemma {:induction false} NextPagesNumbered(env: Env, sid: string, uid: string, parent: string, k: nat,
                                             page: Page, fuel: nat, layers: set<string>)
    requires k <= fuel && parent != "" && uid in layers && SectionFreeLayers(env.server, sid, layers)
    ensures var rs := NextPages(env, sid, uid, parent, k, page, fuel);
      rs.Success? ==> AllNumbered(rs.value, parent + ".")
    decreases fuel, 2, fuel - k, 0
  {
    if page.to != page.total && k + 1 < fuel {
      var next := env.server(PageRequest(sid, uid, k + 1));
      if next.Some? {
        PagesFromNumbered(env, sid, uid, parent, k + 1, next.value, fuel, layers);
      }
    }
  }

  lemma {:induction false} EntriesRowsNumbered(env: Env, sid: string, es: seq<Entry>, parent: string,
                                               layer: string, fuel: nat, layers: set<string>)
    requires parent != "" && SectionFreeLayers(env.server, sid, layers)
    requires NoSections(es) && InlineWithin(es, layers)
    ensures var rs := EntriesRows(env, sid, es, parent, layer, fuel);
      rs.Success? ==> AllNumbered(rs.value, parent + ".")
    decreases fuel, 1, es
  {
    if es != [] {
      assert es[0].Rule?;
      RuleRowsNumbered(env, sid, es[0], parent, layer, fuel, layers);
      EntriesTail(es, layers);
      EntriesRowsNumbered(env, sid, es[1..], parent, layer, fuel, layers);
      EntriesRowsCons(env, sid, es, parent, layer, fuel);
      AllNumberedConcat(EntryRows(env, sid, es[0], parent, layer, fuel),
                        EntriesRows(env, sid, es[1..], parent, layer, fuel), parent + ".");
    }
  }

  /** A rule's row carries its layer in the LAYER_NAME cell and its number in the RULE_NUMBER cell. */
  lemma RuleRowNumberCell(schema: Schema, today: CalendarDate, layer: string, number: string, r: Entry)
    requires r.Rule? && RuleRow(schema, today, layer, number, r).Success?
    ensures |RuleRow(schema, today, layer, number, r).value| >= 2
    ensures RuleRow(schema, today, layer, number, r).value[0] == layer
    ensures RuleRow(schema, today, layer, number, r).value[1] == number
  {
    CellsSuccess(Columns(schema), today, layer, number, r);
    assert Columns(schema)[0] == LayerName && Columns(schema)[1] == RuleNumberCol;
  }

  lemma NumberUnderParent(parent: string, n: int)
    requires parent != ""
    ensures StartsWith(RuleNumber(parent, n), parent + ".")
    ensures StartsWith(RuleNumber(parent, n) + ".", parent + ".")
  {
    var number := RuleNumber(parent, n);
    assert number == (parent + ".") + IntToString(n);
    assert (number + ".")[..|parent + "."|] == number[..|parent + "."|];
  }

  /** Under one parent number, distinct rule numbers give distinct RULE_NUMBER texts. */
  lemma RuleNumberInjective(parent: string, n: int, m: int)
    requires RuleNumber(parent, n) == RuleNumber(parent, m)
    ensures n == m
  {
    assert IntToString(n) == IntToString(m) by {
      if parent != "" {
        assert RuleNumber(parent, n)[|parent| + 1..] == RuleNumber(parent, m)[|parent| + 1..];
      }
    }
    IntToStringInjective(n, m);
  }

  /** `RuleRows` case by case: a failed row, a plain rule, an inline layer with and without fuel left. */
  lemma RuleRowsCases(env: Env, sid: string, r: Entry, parent: string, layer: string, fuel: nat)
    requires r.Rule?
    ensures var row := RuleRow(env.schema, env.today, layer, RuleNumber(parent, r.number), r);
      var rs := RuleRows(env, sid, r, parent, layer, fuel);
      && (row.Failure? ==> rs == Failure(row.error))
      && (row.Success? && r.inlineLayer.None? ==> rs == Success([row.value]))
      && (row.Success? && r.inlineLayer.Some? && fuel == 0 ==> rs == Failure(OutOfFuel))
      && (row.Success? && r.inlineLayer.Some? && fuel > 0 ==>
            rs == Concat(Success([row.value]), InlineRows(env, sid, r.inlineLayer.value, RuleNumber(parent, r.number), fuel - 1)))
  {
  }

  /** How a rule's rows are made: its row, then (with an inline layer) that layer's rows. */
  lemma RuleRowsShape(env: Env, sid: string, r: Entry, parent: string, layer: string, fuel: nat)
    requires r.Rule? && RuleRows(env, sid, r, parent, layer, fuel).Success?
    ensures var number := RuleNumber(parent, r.number);
      && RuleRow(env.schema, env.today, layer, number, r).Success?
      && (r.inlineLayer.None? ==>
            RuleRows(env, sid, r, parent, layer, fuel).value == [RuleRow(env.schema, env.today, layer, number, r).value])
      && (r.inlineLayer.Some? ==>
            && fuel > 0
            && InlineRows(env, sid, r.inlineLayer.value, number, fuel - 1).Success?
            && RuleRows(env, sid, r, parent, layer, fuel).value
               == [RuleRow(env.schema, env.today, layer, number, r).value]
                  + InlineRows(env, sid, r.inlineLayer.value, number, fuel - 1).value)
  {
  }

  /** Rows numbered under a rule's number are numbered under its parent's too. */
  lemma {:induction false} InlineRowsNumberedUnder(env: Env, sid: string, uid: string, number: string,
                                                   parent: string, fuel: nat, layers: set<string>)
    requires number != "" && uid in layers && SectionFreeLayers(env.server, sid, layers)
    requires StartsWith(number + ".", parent + ".")
    ensures InlineRows(env, sid, uid, number, fuel).Success? ==>
            AllNumbered(InlineRows(env, sid, uid, number, fuel).value, parent + ".")
    decreases fuel, 4
  {
    InlineRowsNumbered(env, sid, uid, number, fuel, layers);
    var rs := InlineRows(env, sid, uid, number, fuel);
    if rs.Success? {
      AllNumberedWeaken(rs.value, number + ".", parent + ".");
    }
  }

  lemma {:induction false} RuleRowsNumbered(env: Env, sid: string, r: Entry, parent: string,
                                            layer: string, fuel: nat, layers: set<string>)
    requires r.Rule? && parent != "" && SectionFreeLayers(env.server, sid, layers)
    requires r.inlineLayer.Some? ==> r.inlineLayer.value in layers
    ensures var rs := RuleRows(env, sid, r, parent, layer, fuel);
      rs.Success? ==> AllNumbered(rs.value, parent + ".")
    decreases fuel, 0
  {
    var rs := RuleRows(env, sid, r, parent, layer, fuel);
    if rs.Success? {
      var number := RuleNumber(parent, r.number);
      NumberUnderParent(parent, r.number);
      var row := RuleRow(env.schema, env.today, layer, number, r);
      assert row.Success? && |row.value| >= 2 && row.value[1] == number by {
        RuleRowsShape(env, sid, r, parent, layer, fuel);
        RuleRowNumberCell(env.schema, env.today, layer, number, r);
      }
      var head: seq<Row> := [row.value];
      assert AllNumbered(head, parent + ".");
      if r.inlineLayer.None? {
        assert rs.value == head by {
          RuleRowsShape(env, sid, r, parent, layer, fuel);
        }
      } else {
        var inner := InlineRows(env, sid, r.inlineLayer.value, number, fuel - 1);
        assert fuel > 0 && inner.Success? && rs.value == head + inner.value by {
          RuleRowsShape(env, sid, r, parent, layer, fuel);
        }
        assert AllNumbered(inner.value, parent + ".") by {
          InlineRowsNumberedUnder(env, sid, r.inlineLayer.value, number, parent, fuel - 1, layers);
        }
        AllNumberedConcat(Success(head), inner, parent + ".");
      }
    }
  }

  /** Every row's LAYER_NAME cell is one of `names`. */
  predicate AllLabelled(rows: seq<Row>, names: set<string>)
  {
    forall i :: 0 <= i < |rows| ==> |rows[i]| >= 1 && rows[i][0] in names
  }

  /** Every page the server returns for one of `layers` carries a name, one of `names`. */
  ghost predicate NamedLayers(server: Server, sid: string, layers: set<string>, names: set<string>)
  {
    forall q: Request :: q.sid == sid && q.uid in layers && server(q).Some? ==>
      server(q).value.name.Some? && server(q).value.name.value in names
  }

  lemma AllLabelledConcat(a: Result<seq<Row>>, b: Result<seq<Row>>, names: set<string>)
    requires a.Success? ==> AllLabelled(a.value, names)
    requires b.Success? ==> AllLabelled(b.value, names)
    ensures Concat(a, b).Success? ==> AllLabelled(Concat(a, b).value, names)
  {
    if Concat(a, b).Success? {
      var rows := Concat(a, b).value;
      forall i | 0 <= i < |rows| ensures |rows[i]| >= 1 && rows[i][0] in names {
        if i < |a.value| {
          assert rows[i] == a.value[i];
        } else {
          assert rows[i] == b.value[i - |a.value|];
        }
      }
    }
  }

  /**
    Labelling of inline rows: when the inline layers reached are
    section-free, every row of an inline layer carries in LAYER_NAME the
    name of the page it came from, not the name of the referencing layer;
    rows of nested inline layers carry their own layer's name.
   */
  lemma {:induction false} InlineRowsLabelled(env: Env, sid: string, uid: string, parent: string, fuel: nat,
                                              layers: set<string>, names: set<string>)
    requires uid in layers && SectionFreeLayers(env.server, sid, layers) && NamedLayers(env.server, sid, layers, names)
    ensures var rs := InlineRows(env, sid, uid, parent, fuel);
      rs.Success? ==> AllLabelled(rs.value, names)
    decreases fuel, 3
  {
    var first := env.server(PageRequest(sid, uid, 0));
    if first.Some? {
      PagesFromLabelled(env, sid, uid, parent, 0, first.value, fuel, layers, names);
    }
  }

  lemma {:induction false} PagesFromLabelled(env: Env, sid: string, uid: string, parent: string, k: nat,
                                             page: Page, fuel: nat, layers: set<string>, names: set<string>)
    requires k <= fuel && uid in layers
    requires SectionFreeLayers(env.server, sid, layers) && NamedLayers(env.server, sid, layers, names)
    requires env.server(PageRequest(sid, uid, k)) == Some(page)
    ensures var rs := PagesFrom(env, sid, uid, parent, k, page, fuel);
      rs.Success? ==> AllLabelled(rs.value, names)
    decreases fuel, 2, fuel - k, 1
  {
    assert NoSections(page.rulebase) && InlineWithin(page.rulebase, layers)
           && page.name.Some? && page.name.value in names by {
      assert env.server(PageRequest(sid, uid, k)).Some?;
    }
    var name := page.name.value;
    EntriesRowsLabelled(env, sid, page.rulebase, parent, name, fuel, layers, names);
    NextPagesLabelled(env, sid, uid, parent, k, page, fuel, layers, names);
    AllLabelledConcat(EntriesRows(env, sid, page.rulebase, parent, name, fuel),
                      NextPages(env, sid, uid, parent, k, page, fuel), names);
  }

  lemma {:induction false} NextPagesLabelled(env: Env, sid: string, uid: string, parent: string, k: nat,
                                             page: Page, fuel: nat, layers: set<string>, names: set<string>)
    requires k <= fuel && uid in layers
    requires SectionFreeLayers(env.server, sid, layers) && NamedLayers(env.server, sid, layers, names)
    ensures var rs := NextPages(env, sid, uid, parent, k, page, fuel);
      rs.Success? ==> AllLabelled(rs.value, names)
    decreases fuel, 2, fuel - k, 0
  {
    if page.to != page.total && k + 1 < fuel {
      var next := env.server(PageRequest(sid, uid, k + 1));
      if next.Some? {
        PagesFromLabelled(env, sid, uid, parent, k + 1, next.value, fuel, layers, names);
      }
    }
  }

  lemma {:induction false} EntriesRowsLabelled(env: Env, sid: string, es: seq<Entry>, parent: string,
                                               layer: string, fuel: nat, layers: set<string>, names: set<string>)
    requires layer in names && NoSections(es) && InlineWithin(es, layers)
    requires SectionFreeLayers(env.server, sid, layers) && NamedLayers(env.server, sid, layers, names)
    ensures var rs := EntriesRows(env, sid, es, parent, layer, fuel);
      rs.Success? ==> AllLabelled(rs.value, names)
    decreases fuel, 1, es
  {
    if es != [] {
      assert es[0].Rule?;
      RuleRowsLabelled(env, sid, es[0], parent, layer, fuel, layers, names);
      EntriesTail(es, layers);
      EntriesRowsLabelled(env, sid, es[1..], parent, layer, fuel, layers, names);
      EntriesRowsCons(env, sid, es, parent, layer, fuel);
      AllLabelledConcat(EntryRows(env, sid, es[0], parent, layer, fuel),
                        EntriesRows(env, sid, es[1..], parent, layer, fuel), names);
    }
  }

  lemma {:induction false} RuleRowsLabelled(env: Env, sid: string, r: Entry, parent: string, layer: string,
                                            fuel: nat, layers: set<string>, names: set<string>)
    requires r.Rule? && layer in names && (r.inlineLayer.Some? ==> r.inlineLayer.value in layers)
    requires SectionFreeLayers(env.server, sid, layers) && NamedLayers(env.server, sid, layers, names)
    ensures var rs := RuleRows(env, sid, r, parent, layer, fuel);
      rs.Success? ==> AllLabelled(rs.value, names)
    decreases fuel, 0
  {
    var rs := RuleRows(env, sid, r, parent, layer, fuel);
    if rs.Success? {
      var number := RuleNumber(parent, r.number);
      var row := RuleRow(env.schema, env.today, layer, number, r);
      RuleRowsShape(env, sid, r, parent, layer, fuel);
      RuleRowNumberCell(env.schema, env.today, layer, number, r);
      var head: seq<Row> := [row.value];
      assert AllLabelled(head, names);
      if r.inlineLayer.Some? {
        InlineRowsLabelled(env, sid, r.inlineLayer.value, number, fuel - 1, layers, names);
        AllLabelledConcat(Success(head), InlineRows(env, sid, r.inlineLayer.value, number, fuel - 1), names);
      }
    }
  }

  /**
    An inline layer that references no other layer and whose pages are
    named `name` and hold no section: every one of its rows carries `name`
    in LAYER_NAME.
   */
  lemma InlineLayerLabelled(env: Env, sid: string, uid: string, parent: string, name: string, fuel: nat)
    requires SectionFreeLayers(env.server, sid, {uid}) && NamedLayers(env.server, sid, {uid}, {name})
    ensures var rs := InlineRows(env, sid, uid, parent, fuel);
      rs.Success? ==> forall i :: 0 <= i < |rs.value| ==> |rs.value[i]| >= 1 && rs.value[i][0] == name
  {
    InlineRowsLabelled(env, sid, uid, parent, fuel, {uid}, {name});
  }

  lemma ConcatNil(a: Result<seq<Row>>)
    ensures Concat(a, Success([])) == a
  {
    if a.Success? {
      assert a.value + [] == a.value;
    }
  }

  /**
    The page a well-behaved server returns for `offset` o of a rule-base
    whose entries are `all`: at most 50 entries from o, `to` the index after
    the last of them, `total` the size of the whole rule-base.
   */
  function Window(all: seq<Entry>, name: string, o: nat): (p: Page)
    requires o <= |all|
    ensures p.to == p.total <==> |all| <= o + PageLimit
  {
    var end := if o + PageLimit < |all| then o + PageLimit else |all|;
    Page(Some(name), all[o..end], |all|, end)
  }

  /** The server pages rule-base `uid` of session `sid`, named `name`, as `all` for every offset. */
  ghost predicate ServesInPages(server: Server, sid: string, uid: string, name: string, all: seq<Entry>)
  {
    forall o: nat :: o <= |all| ==> server(Request(sid, uid, o, PageLimit)) == Some(Window(all, name, o))
  }

  /** A page that carries its own name labels its rows with it. */
  lemma PagesFromNamed(env: Env, sid: string, uid: string, parent: string, name: string, k: nat,
                       page: Page, fuel: nat)
    requires k <= fuel && page.name == Some(name)
    ensures PagesFrom(env, sid, uid, parent, k, page, fuel)
            == Concat(EntriesRows(env, sid, page.rulebase, parent, name, fuel),
                      NextPages(env, sid, uid, parent, k, page, fuel))
  {
  }

  lemma {:induction false} PagesFromWindow(env: Env, sid: string, uid: string, parent: string, name: string,
                                           all: seq<Entry>, k: nat, fuel: nat)
    requires ServesInPages(env.server, sid, uid, name, all)
    requires k * PageLimit <= |all| < fuel * PageLimit
    ensures k <= fuel
    ensures PagesFrom(env, sid, uid, parent, k, Window(all, name, k * PageLimit), fuel)
            == EntriesRows(env, sid, all[k * PageLimit..], parent, name, fuel)
    decreases |all| - k * PageLimit
  {
    var o := k * PageLimit;
    var page := Window(all, name, o);
    var end := page.to;
    assert k < fuel;
    var here := EntriesRows(env, sid, all[o..end], parent, name, fuel);
    var later := EntriesRows(env, sid, all[end..], parent, name, fuel);
    assert EntriesRows(env, sid, all[o..], parent, name, fuel) == Concat(here, later) by {
      assert all[o..] == all[o..end] + all[end..];
      EntriesRowsAppend(env, sid, all[o..end], all[end..], parent, name, fuel);
    }
    PagesFromNamed(env, sid, uid, parent, name, k, page, fuel);
    if end == |all| {
      assert later == Success([]) by {
        assert all[end..] == [];
      }
      ConcatNil(here);
    } else {
      assert NextPages(env, sid, uid, parent, k, page, fuel)
             == PagesFrom(env, sid, uid, parent, k + 1, Window(all, name, (k + 1) * PageLimit), fuel) by {
        assert end == (k + 1) * PageLimit;
        assert env.server(PageRequest(sid, uid, k + 1)) == Some(Window(all, name, end));
      }
      PagesFromWindow(env, sid, uid, parent, name, all, k + 1, fuel);
    }
  }

  /**
    Paging loses and repeats nothing: when the server pages a rule-base
    correctly and there is fuel for enough pages, walking it page by page
    (offsets 0, 50, 100, ...) gives the rows of the whole rule-base in one
    piece, for an inline layer and for a top-level layer's report alike.
   */
  lemma PagingCoversRulebase(env: Env, sid: string, uid: string, parent: string, name: string,
                             all: seq<Entry>, fuel: nat)
    requires ServesInPages(env.server, sid, uid, name, all)
    requires |all| < fuel * PageLimit
    ensures InlineRows(env, sid, uid, parent, fuel) == EntriesRows(env, sid, all, parent, name, fuel)
  {
    assert env.server(PageRequest(sid, uid, 0)) == Some(Window(all, name, 0));
    PagesFromWindow(env, sid, uid, parent, name, all, 0, fuel);
    assert all[0..] == all;
  }

  lemma PagingCoversLayer(env: Env, sid: string, uid: string, name: string, all: seq<Entry>,
                          policyName: string, domain: Option<string>, stamp: string, fuel: nat)
    requires ServesInPages(env.server, sid, uid, name, all)
    requires |all| < fuel * PageLimit
    ensures LayerReport(env, sid, uid, policyName, domain, stamp, fuel)
            == match EntriesRows(env, sid, all, "", name, fuel)
               case Success(rows) => Report(FileName(domain, policyName, stamp), [Header(env.schema)] + rows)
               case Failure(e) => Aborted(e)
  {
    assert env.server(PageRequest(sid, uid, 0)) == Some(Window(all, name, 0));
    PagesFromWindow(env, sid, uid, "", name, all, 0, fuel);
    assert all[0..] == all;
  }

  /**
    The page requests the paging loop sends for rule-base `uid` after the
    already-fetched page `k`: one per page until a page has `to == total`,
    the failed request included. (An exception while walking a page's
    entries stops the requests earlier.)
   */
  function RequestsAfter(env: Env, sid: string, uid: string, k: nat, page: Page, fuel: nat): seq<Request>
    requires k <= fuel
    decreases fuel - k
  {
    if page.to == page.total || k + 1 >= fuel then []
    else
      var q := PageRequest(sid, uid, k + 1);
      match env.server(q)
      case None => [q]
      case Some(next) => [q] + RequestsAfter(env, sid, uid, k + 1, next, fuel)
  }

  /** Every page request for rule-base `uid`: the first page's, then those after it. */
  function LayerRequests(env: Env, sid: string, uid: string, fuel: nat): seq<Request>
  {
    var q := PageRequest(sid, uid, 0);
    [q] + match env.server(q)
          case None => []
          case Some(page) => RequestsAfter(env, sid, uid, 0, page, fuel)
  }

  lemma {:induction false} RequestsAfterWindow(env: Env, sid: string, uid: string, name: string,
                                               all: seq<Entry>, k: nat, fuel: nat)
    requires ServesInPages(env.server, sid, uid, name, all)
    requires k * PageLimit <= |all| < fuel * PageLimit
    ensures k <= fuel
    ensures var qs := RequestsAfter(env, sid, uid, k, Window(all, name, k * PageLimit), fuel);
      && (forall i :: 0 <= i < |qs| ==> qs[i] == PageRequest(sid, uid, k + 1 + i))
      && (k + |qs|) * PageLimit <= |all| <= (k + |qs|) * PageLimit + PageLimit
      && (|qs| > 0 ==> (k + |qs|) * PageLimit < |all|)
    decreases |all| - k * PageLimit
  {
    var page := Window(all, name, k * PageLimit);
    assert k < fuel;
    var qs := RequestsAfter(env, sid, uid, k, page, fuel);
    if page.to != page.total {
      assert k + 1 < fuel;
      assert (k + 1) * PageLimit <= |all|;
      assert env.server(PageRequest(sid, uid, k + 1)) == Some(Window(all, name, (k + 1) * PageLimit));
      RequestsAfterWindow(env, sid, uid, name, all, k + 1, fuel);
      var rest := RequestsAfter(env, sid, uid, k + 1, Window(all, name, (k + 1) * PageLimit), fuel);
      assert qs == [PageRequest(sid, uid, k + 1)] + rest;
      forall i | 0 <= i < |qs| ensures qs[i] == PageRequest(sid, uid, k + 1 + i) {
        if i > 0 {
          assert qs[i] == rest[i - 1];
        }
      }
    }
  }

  /**
    The paging loop requests offsets 0, 50, 100, ... and no more: for a
    rule-base of n entries served in pages of 50 it sends max(1, ceil(n / 50))
    requests, the k-th at offset k * 50, stopping at the page that holds
    the last entry.
   */
  lemma PagingRequests(env: Env, sid: string, uid: string, name: string, all: seq<Entry>, fuel: nat)
    requires ServesInPages(env.server, sid, uid, name, all)
    requires |all| < fuel * PageLimit
    ensures var qs := LayerRequests(env, sid, uid, fuel);
      && |qs| >= 1
      && (forall i :: 0 <= i < |qs| ==> qs[i] == PageRequest(sid, uid, i) && qs[i].offset == i * PageLimit)
      && (|qs| - 1) * PageLimit <= |all| <= |qs| * PageLimit
      && (|all| > 0 ==> (|qs| - 1) * PageLimit < |all|)
  {
    assert env.server(PageRequest(sid, uid, 0)) == Some(Window(all, name, 0));
    RequestsAfterWindow(env, sid, uid, name, all, 0, fuel);
    var rest := RequestsAfter(env, sid, uid, 0, Window(all, name, 0), fuel);
    var qs := LayerRequests(env, sid, uid, fuel);
    assert qs == [PageRequest(sid, uid, 0)] + rest;
    forall i | 0 <= i < |qs| ensures qs[i] == PageRequest(sid, uid, i) {
      if i > 0 {
        assert qs[i] == rest[i - 1];
      }
    }
  }
}

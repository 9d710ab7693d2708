/**
  The traversal as the scripts run it: a reporter object whose `rows` field
  is the global accumulator `all_rules_object`, appended to in place by
  `loop_rules`, `get_inline_layer_info` and the paging loops, and reset to
  the header by `loop_policy_rulebase`. Every method is proved to leave
  exactly the rows the functions of module Flatten describe.
 */
module Reporter {
  import opened Base
  import opened Flatten
  import opened FlattenFacts
  import opened Menus

  /** How a traversal step that appends rows ended: normally, or by an exception. */
  datatype Status = Done | Stopped(error: Error)

  function StatusOf(r: Result<seq<Row>>): Status
  {
    if r.Success? then Done else Stopped(r.error)
  }

  /**
    `loop_rules(data, parent, policy_name)`: the layer name is `policy_name`,
    or the data's own name when that is empty; then the entries are flattened.
   */
  function DataRows(env: Env, sid: string, name: Option<string>, entries: seq<Entry>, parent: string,
                    policyName: string, fuel: nat): Result<seq<Row>>
  {
    var layer :- ResolveName(policyName, name);
    EntriesRows(env, sid, entries, parent, layer, fuel)
  }

  /** A page's rows are those of `loop_rules` on it with no policy name. */
  lemma PagesFromIsDataRows(env: Env, sid: string, uid: string, parent: string, k: nat, page: Page, fuel: nat)
    requires k <= fuel
    ensures PagesFrom(env, sid, uid, parent, k, page, fuel)
            == Concat(DataRows(env, sid, page.name, page.rulebase, parent, "", fuel),
                      NextPages(env, sid, uid, parent, k, page, fuel))
  {
  }

  /** What follows a rule's own row: nothing, or its inline layer's rows, which cost one unit of fuel. */
  function InlineTail(env: Env, sid: string, inline: Option<string>, number: string, fuel: nat): Result<seq<Row>>
  {
    match inline
    case None => Success([])
    case Some(uid) => if fuel == 0 then Failure(OutOfFuel) else InlineRows(env, sid, uid, number, fuel - 1)
  }

  /** A rule's rows are its own row followed by what its inline reference adds. */
  lemma RuleRowsTail(env: Env, sid: string, r: Entry, parent: string, layer: string, fuel: nat)
    requires r.Rule?
    ensures var number := RuleNumber(parent, r.number);
      var row := RuleRow(env.schema, env.today, layer, number, r);
      RuleRows(env, sid, r, parent, layer, fuel)
      == if row.Failure? then Failure(row.error) else Concat(Success([row.value]), InlineTail(env, sid, r.inlineLayer, number, fuel))
  {
    var row := RuleRow(env.schema, env.today, layer, RuleNumber(parent, r.number), r);
    RuleRowsCases(env, sid, r, parent, layer, fuel);
    if row.Success? && r.inlineLayer.None? {
      assert [row.value] + [] == [row.value];
    }
  }

  /**
    The file name uses the sanitized layer name, so two layers whose names
    differ only in a space against an underscore share one file name when
    written with the same timestamp, and the later report replaces the
    earlier one.
   */
  lemma SanitizedNamesCollide(domain: Option<string>, stamp: string)
    ensures "Net A" != "Net_A"
    ensures FileName(domain, Sanitize("Net A"), stamp) == FileName(domain, Sanitize("Net_A"), stamp)
  {
    assert Sanitize("Net A") == "Net_A" by {
      ReplaceCharRemoves("Net A", ' ', '_');
      assert ReplaceChar("Net A", ' ', '_')[3] == '_';
    }
    assert Sanitize("Net_A") == "Net_A" by {
      ReplaceCharRemoves("Net_A", ' ', '_');
    }
  }

  class HitCountReporter {
    /** The schema, the run date and the server of this run. */
    const env: Env
    /** `all_rules_object`: the rows of the CSV being built. */
    var rows: seq<Row>

    constructor(env: Env)
      ensures this.env == env && rows == []
    {
      this.env := env;
      rows := [];
    }

    /**
      `loop_rules`: walks the entries in order, recursing into sections with
      an empty parent number and appending one row per rule, each followed
      by its inline layer's rows. On success exactly the specified rows are
      appended.
     */
    method LoopRules(sid: string, name: Option<string>, entries: seq<Entry>, parent: string,
                     policyName: string, fuel: nat) returns (st: Status)
      modifies this
      ensures st == StatusOf(DataRows(env, sid, name, entries, parent, policyName, fuel))
      ensures st == Done ==> rows == old(rows) + DataRows(env, sid, name, entries, parent, policyName, fuel).value
      decreases fuel, 2, entries, 1
    {
      var layer := policyName;
      if layer == "" {
        if name.None? {
          return Stopped(MissingName);
        }
        layer := name.value;
      }
      assert DataRows(env, sid, name, entries, parent, policyName, fuel)
             == EntriesRows(env, sid, entries, parent, layer, fuel);
      var i := 0;
      ghost var acc: seq<Row> := [];
      assert EntriesRows(env, sid, entries[..0], parent, layer, fuel) == Success(acc) by {
        assert entries[..0] == [];
      }
      while i < |entries|
        invariant 0 <= i <= |entries|
        invariant EntriesRows(env, sid, entries[..i], parent, layer, fuel) == Success(acc)
        invariant rows == old(rows) + acc
      {
        ghost var spec := EntryRows(env, sid, entries[i], parent, layer, fuel);
        st := LoopEntry(sid, entries[i], parent, layer, fuel);
        if st.Stopped? {
          EntriesRowsFailsAt(env, sid, entries, i, parent, layer, fuel);
          return;
        }
        EntriesRowsExtend(env, sid, entries, i, parent, layer, fuel, acc);
        AppendAssoc(old(rows), acc, spec.value);
        acc := acc + spec.value;
        assert EntriesRows(env, sid, entries[..i + 1], parent, layer, fuel) == Success(acc);
        i := i + 1;
        assert EntriesRows(env, sid, entries[..i], parent, layer, fuel) == Success(acc);
        assert rows == old(rows) + acc;
      }
      assert entries[..i] == entries;
      st := Done;
    }

    /** One pass of the loop of `loop_rules`: a section recurses, anything else is a rule. */
    method LoopEntry(sid: string, entry: Entry, parent: string, layer: string, fuel: nat) returns (st: Status)
      modifies this
      ensures st == StatusOf(EntryRows(env, sid, entry, parent, layer, fuel))
      ensures st == Done ==> rows == old(rows) + EntryRows(env, sid, entry, parent, layer, fuel).value
      decreases fuel, 2, entry, 0
    {
      if entry.Section? {
        st := LoopRules(sid, entry.name, entry.rulebase, "", layer, fuel);
      } else {
        st := EmitRule(sid, entry, parent, layer, fuel);
      }
    }

    /**
      The rule branch of `loop_rules`: number the rule, build its row, append
      it, then follow its inline layer under the rule's number.
     */
    method EmitRule(sid: string, rule: Entry, parent: string, layer: string, fuel: nat) returns (st: Status)
      requires rule.Rule?
      modifies this
      ensures st == StatusOf(RuleRows(env, sid, rule, parent, layer, fuel))
      ensures st == Done ==> rows == old(rows) + RuleRows(env, sid, rule, parent, layer, fuel).value
      decreases fuel, 1
    {
      var number := RuleNumber(parent, rule.number);
      var row := RuleRow(env.schema, env.today, layer, number, rule);
      if row.Failure? {
        assert RuleRows(env, sid, rule, parent, layer, fuel) == Failure(row.error) by {
          RuleRowsTail(env, sid, rule, parent, layer, fuel);
        }
        return Stopped(row.error);
      }
      rows := rows + [row.value];
      ghost var tail := InlineTail(env, sid, rule.inlineLayer, number, fuel);
      assert RuleRows(env, sid, rule, parent, layer, fuel) == Concat(Success([row.value]), tail) by {
        RuleRowsTail(env, sid, rule, parent, layer, fuel);
      }
      st := FollowInline(sid, rule.inlineLayer, number, fuel);
      if st == Done {
        assert rows == old(rows) + ([row.value] + tail.value) by {
          AppendAssoc(old(rows), [row.value], tail.value);
        }
      }
    }

    /** `if 'inline-layer' in rule: get_inline_layer_info(...)`, bounded by the fuel. */
    method FollowInline(sid: string, inline: Option<string>, number: string, fuel: nat) returns (st: Status)
      modifies this
      ensures st == StatusOf(InlineTail(env, sid, inline, number, fuel))
      ensures st == Done ==> rows == old(rows) + InlineTail(env, sid, inline, number, fuel).value
      decreases fuel, 0
    {
      if inline.None? {
        return Done;
      }
      if fuel == 0 {
        return Stopped(OutOfFuel);
      }
      st := GetInlineLayerInfo(sid, inline.value, number, fuel - 1);
    }

    /**
      `get_inline_layer_info`: a failed first page adds nothing and lets the
      caller go on; otherwise every page of the inline layer is walked.
     */
    method GetInlineLayerInfo(sid: string, uid: string, parent: string, fuel: nat) returns (st: Status)
      modifies this
      ensures st == StatusOf(InlineRows(env, sid, uid, parent, fuel))
      ensures st == Done ==> rows == old(rows) + InlineRows(env, sid, uid, parent, fuel).value
      decreases fuel, 4
    {
      var response := env.server(PageRequest(sid, uid, 0));
      if response.None? {
        return Done;
      }
      st := LoopPages(sid, uid, parent, response.value, fuel);
    }

    /**
      The paging loop shared by both traversals: `loop_rules` on the first
      page, then, while `to` differs from `total`, request the page at offset
      `iterations * 50` and walk it. Pages are appended in order.
     */
    method LoopPages(sid: string, uid: string, parent: string, first: Page, fuel: nat) returns (st: Status)
      modifies this
      ensures st == StatusOf(PagesFrom(env, sid, uid, parent, 0, first, fuel))
      ensures st == Done ==> rows == old(rows) + PagesFrom(env, sid, uid, parent, 0, first, fuel).value
      decreases fuel, 3
    {
      var page := first;
      var iterations: nat := 0;
      PagesFromIsDataRows(env, sid, uid, parent, 0, first, fuel);
      st := LoopRules(sid, page.name, page.rulebase, parent, "", fuel);
      if st.Stopped? {
        return;
      }
      ghost var acc := DataRows(env, sid, page.name, page.rulebase, parent, "", fuel).value;
      while page.to != page.total
        invariant iterations <= fuel
        invariant rows == old(rows) + acc
        invariant PagesFrom(env, sid, uid, parent, 0, first, fuel)
                  == Concat(Success(acc), NextPages(env, sid, uid, parent, iterations, page, fuel))
        decreases fuel - iterations
      {
        if iterations + 1 >= fuel {
          return Stopped(OutOfFuel);
        }
        var response := env.server(PageRequest(sid, uid, iterations + 1));
        if response.None? {
          return Stopped(PageFailed((iterations + 1) * PageLimit));
        }
        ghost var next := NextPages(env, sid, uid, parent, iterations + 1, response.value, fuel);
        PagesFromIsDataRows(env, sid, uid, parent, iterations + 1, response.value, fuel);
        iterations := iterations + 1;
        page := response.value;
        st := LoopRules(sid, page.name, page.rulebase, parent, "", fuel);
        ghost var here := DataRows(env, sid, page.name, page.rulebase, parent, "", fuel);
        ConcatAssoc(Success(acc), here, next);
        if st.Stopped? {
          return;
        }
        acc := acc + here.value;
      }
      ConcatNil(Success(acc));
      st := Done;
    }

    /**
      `loop_policy_rulebase` and `print_rules` for one top-level layer: the
      accumulator restarts from the header, a failed first page writes no
      file, and a complete traversal is written under the layer's name.
     */
    method LoopPolicyRulebase(sid: string, uid: string, policyName: string, domain: Option<string>,
                              stamp: string, fuel: nat) returns (out: LayerOutcome)
      modifies this
      ensures out == LayerReport(env, sid, uid, policyName, domain, stamp, fuel)
      ensures out.Report? ==> rows == out.rows
      ensures out.NoReport? ==> rows == [Header(env.schema)]
    {
      rows := [Header(env.schema)];
      var response := env.server(PageRequest(sid, uid, 0));
      if response.None? {
        return NoReport;
      }
      var st := LoopPages(sid, uid, "", response.value, fuel);
      if st.Stopped? {
        return Aborted(st.error);
      }
      out := Report(FileName(domain, policyName, stamp), rows);
    }

    /** One pass of the jobs loop: the next job is reported on. */
    method ReportNext(sid: string, jobs: seq<Job>, domain: Option<string>, stamps: seq<string>, fuel: nat,
                      outs: seq<LayerOutcome>) returns (out: LayerOutcome)
      requires |outs| < |jobs| && |outs| < |stamps|
      requires forall k {:trigger jobs[k]} :: 0 <= k < |outs| ==>
                 outs[k] == LayerReport(env, sid, jobs[k].uid, jobs[k].name, domain, stamps[k], fuel)
      modifies this
      ensures forall k {:trigger jobs[k]} :: 0 <= k < |outs| + 1 ==>
                (outs + [out])[k] == LayerReport(env, sid, jobs[k].uid, jobs[k].name, domain, stamps[k], fuel)
      ensures out.Report? ==> rows == out.rows
    {
      out := LoopPolicyRulebase(sid, jobs[|outs|].uid, jobs[|outs|].name, domain, stamps[|outs|], fuel);
    }

    /**
      The "Collect All Policies" loop (or a single selection): each job is
      reported on in order, and an exception in one ends the loop, so the
      outcomes are those of a prefix of the jobs in which only the last may
      be aborted. The accumulator holds the last report's rows. Job k's file
      is named with `stamps[k]`, the clock as read for that layer.
     */
    method ProcessJobs(sid: string, jobs: seq<Job>, domain: Option<string>, stamps: seq<string>, fuel: nat)
      returns (outs: seq<LayerOutcome>)
      requires |stamps| == |jobs|
      modifies this
      ensures |outs| <= |jobs|
      ensures forall k {:trigger jobs[k]} :: 0 <= k < |outs| ==>
                outs[k] == LayerReport(env, sid, jobs[k].uid, jobs[k].name, domain, stamps[k], fuel)
      ensures forall k :: 0 <= k < |outs| - 1 ==> !outs[k].Aborted?
      ensures |outs| < |jobs| ==> |outs| > 0 && outs[|outs| - 1].Aborted?
      ensures |outs| > 0 && outs[|outs| - 1].Report? ==> rows == outs[|outs| - 1].rows
    {
      outs := [];
      var i := 0;
      while i < |jobs|
        invariant 0 <= i <= |jobs| && |outs| == i
        invariant forall k {:trigger jobs[k]} :: 0 <= k < i ==>
                    outs[k] == LayerReport(env, sid, jobs[k].uid, jobs[k].name, domain, stamps[k], fuel)
        invariant forall k :: 0 <= k < i ==> !outs[k].Aborted?
        invariant i > 0 && outs[i - 1].Report? ==> rows == outs[i - 1].rows
      {
        var out := ReportNext(sid, jobs, domain, stamps, fuel, outs);
        outs := outs + [out];
        if out.Aborted? {
          return;
        }
        i := i + 1;
      }
    }
  }
}

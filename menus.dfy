/**
  The interactive menus of both scripts, without the prompting: the policy
  menu built from `show-access-layers`, the domain menu built from
  `show-domains`, and what a parsed menu number selects.
 */
module Menus {
  import opened Base

  /** One element of the `access-layers` array of `show-access-layers`. */
  datatype AccessLayer = AccessLayer(name: string, uid: string, shared: bool, parentLayer: Option<string>)

  /** One line of the policy menu: a `{"name", "uid"}` object. */
  datatype MenuItem = MenuItem(name: string, uid: string)

  const AllPolicies: MenuItem := MenuItem("Collect All Policies", "n/a")
  const ExitItem: MenuItem := MenuItem("Exit", "n/a")
  const ExitName: string := "Exit"

  /** A layer the menu offers: neither shared nor an inline layer of another. */
  predicate Listed(l: AccessLayer)
  {
    !l.shared && l.parentLayer.None?
  }

  function ItemOf(l: AccessLayer): MenuItem
  {
    MenuItem(l.name, l.uid)
  }

  /**
    The menu items of the listed layers, in server order: at most one per
    layer and none when no layer is listed.
   */
  function ListedItems(layers: seq<AccessLayer>): (r: seq<MenuItem>)
    ensures |r| <= |layers|
    ensures (forall k :: 0 <= k < |layers| ==> !Listed(layers[k])) ==> r == []
  {
    if layers == [] then []
    else
      var last := layers[|layers| - 1];
      ListedItems(layers[..|layers| - 1]) + (if Listed(last) then [ItemOf(last)] else [])
  }

  /** Filtering distributes over concatenation, so the menu keeps the server's order. */
  lemma {:induction false} ListedItemsAppend(a: seq<AccessLayer>, b: seq<AccessLayer>)
    ensures ListedItems(a + b) == ListedItems(a) + ListedItems(b)
    decreases |b|
  {
    if b == [] {
      assert a + b == a;
    } else {
      var c, b' := a + b, b[..|b| - 1];
      var tail := if Listed(b[|b| - 1]) then [ItemOf(b[|b| - 1])] else [];
      assert c[..|c| - 1] == a + b';
      assert c[|c| - 1] == b[|b| - 1];
      assert ListedItems(c) == ListedItems(a + b') + tail;
      assert ListedItems(b) == ListedItems(b') + tail;
      ListedItemsAppend(a, b');
      assert ListedItems(c) == (ListedItems(a) + ListedItems(b')) + tail;
    }
  }

  /** When every layer is listed, the menu has one item per layer, in server order. */
  lemma {:induction false} ListedItemsAll(layers: seq<AccessLayer>)
    requires forall k :: 0 <= k < |layers| ==> Listed(layers[k])
    ensures |ListedItems(layers)| == |layers|
    ensures forall k :: 0 <= k < |layers| ==> ListedItems(layers)[k] == ItemOf(layers[k])
  {
    if layers != [] {
      ListedItemsAll(layers[..|layers| - 1]);
    }
  }

  /** An item is on the menu exactly when it comes from a listed layer. */
  lemma {:induction false} ListedItemsMembers(layers: seq<AccessLayer>, it: MenuItem)
    ensures it in ListedItems(layers) <==> exists l :: l in layers && Listed(l) && it == ItemOf(l)
  {
    if layers != [] {
      var init := layers[..|layers| - 1];
      var last := layers[|layers| - 1];
      ListedItemsMembers(init, it);
      assert layers == init + [last];
      if exists l :: l in layers && Listed(l) && it == ItemOf(l) {
        var l :| l in layers && Listed(l) && it == ItemOf(l);
        if l != last {
          assert l in init;
        }
      }
    }
  }

  /**
    `get_non_shared_access_layer_names`: "Collect All Policies", then the
    listed layers in server order, then "Exit". A failed listing ends the
    script, which the model reports as an error.
   */
  method GetNonSharedAccessLayerNames(response: Option<seq<AccessLayer>>) returns (r: Result<seq<MenuItem>>)
    ensures response.None? ==> r == Failure(ListingFailed)
    ensures response.Some? ==> r == Success([AllPolicies] + ListedItems(response.value) + [ExitItem])
  {
    if response.None? {
      return Failure(ListingFailed);
    }
    var layers := response.value;
    var names := [AllPolicies];
    var i := 0;
    while i < |layers|
      invariant 0 <= i <= |layers|
      invariant names == [AllPolicies] + ListedItems(layers[..i])
    {
      assert layers[..i + 1][..i] == layers[..i];
      if Listed(layers[i]) {
        names := names + [ItemOf(layers[i])];
      }
      i := i + 1;
    }
    assert layers[..i] == layers;
    names := names + [ExitItem];
    return Success(names);
  }

  /** The policy menu a successful listing gives. */
  function PolicyMenu(layers: seq<AccessLayer>): seq<MenuItem>
  {
    [AllPolicies] + ListedItems(layers) + [ExitItem]
  }

  /**
    `get_domain_names`: the domain names in server order, then "Exit". A
    failed listing ends the script, which the model reports as an error.
   */
  method GetDomainNames(response: Option<seq<string>>) returns (r: Result<seq<string>>)
    ensures response.None? ==> r == Failure(ListingFailed)
    ensures response.Some? ==> r.Success? && |r.value| == |response.value| + 1
    ensures response.Some? ==> r.value[..|response.value|] == response.value && r.value[|response.value|] == ExitName
  {
    if response.None? {
      return Failure(ListingFailed);
    }
    var domains := response.value;
    var names: seq<string> := [];
    var i := 0;
    while i < |domains|
      invariant 0 <= i <= |domains|
      invariant names == domains[..i]
    {
      names := names + [domains[i]];
      i := i + 1;
    }
    names := names + [ExitName];
    return Success(names);
  }

  /** Python's `xs[i]` on a list of length n: the position read, or None for an IndexError. */
  function PyIndex(n: nat, i: int): (r: Option<nat>)
    ensures r.Some? <==> -(n as int) <= i < n
    ensures r.Some? ==> r.value < n && (if i >= 0 then r.value == i else r.value == n + i)
  {
    if 0 <= i < n then Some(i)
    else if -(n as int) <= i < 0 then Some(n + i)
    else None
  }

  /** `name.replace(' ', '_')`: the layer or domain name as used in file names and logins. */
  function Sanitize(name: string): (r: string)
    ensures ' ' !in r && |r| == |name|
  {
    ReplaceCharRemoves(name, ' ', '_');
    ReplaceChar(name, ' ', '_')
  }

  /** A layer to report on: its uid and its sanitized name. */
  datatype Job = Job(uid: string, name: string)

  function JobOf(it: MenuItem): Job
  {
    Job(it.uid, Sanitize(it.name))
  }

  /**
    The "Collect All Policies" loop: every menu item but those named like the
    two special items, in order; every layer it reports on has a name
    without spaces.
   */
  function AllJobs(menu: seq<MenuItem>): (jobs: seq<Job>)
    ensures |jobs| <= |menu|
    ensures forall k :: 0 <= k < |jobs| ==> ' ' !in jobs[k].name
  {
    if menu == [] then []
    else
      (if menu[0].name == AllPolicies.name || menu[0].name == ExitItem.name then [] else [JobOf(menu[0])])
      + AllJobs(menu[1..])
  }

  /** What one menu number leads to. */
  datatype Choice =
    | Invalid           // IndexError: the menu is shown again
    | Quit              // "Exit": log out
    | Run(jobs: seq<Job>) // the layers to report on, in order

  /**
    The dispatch of `create_interactive_access_policy_menu` for an
    already-parsed number: invalid exactly outside Python's index range;
    otherwise at most as many layers as menu items, none with a space in its
    name.
   */
  function PolicyChoice(menu: seq<MenuItem>, i: int): (r: Choice)
    ensures r == Invalid <==> i < -|menu| || |menu| <= i
    ensures r.Run? ==> |r.jobs| <= |menu| && forall k :: 0 <= k < |r.jobs| ==> ' ' !in r.jobs[k].name
  {
    match PyIndex(|menu|, i)
    case None => Invalid
    case Some(j) =>
      if menu[j].name == ExitItem.name then Quit
      else if menu[j].name == AllPolicies.name then Run(AllJobs(menu))
      else Run([JobOf(menu[j])])
  }

  /** What one domain number leads to. */
  datatype DomainChoice = NoDomain | Logout | EnterDomain(name: string)

  /**
    The dispatch of `create_interactive_domain_list_menu` for an
    already-parsed number: no domain exactly outside Python's index range;
    a domain entered has no space in its name.
   */
  function DomainChoiceOf(names: seq<string>, i: int): (r: DomainChoice)
    ensures r == NoDomain <==> i < -|names| || |names| <= i
    ensures r.EnterDomain? ==> ' ' !in r.name
  {
    match PyIndex(|names|, i)
    case None => NoDomain
    case Some(j) => if names[j] == ExitName then Logout else EnterDomain(Sanitize(names[j]))
  }

  /** The jobs of a menu whose items all differ from the special names: one per item, in order. */
  lemma {:induction false} AllJobsOfPlainItems(items: seq<MenuItem>)
    requires forall k :: 0 <= k < |items| ==> items[k].name != AllPolicies.name && items[k].name != ExitItem.name
    ensures |AllJobs(items)| == |items|
    ensures forall k :: 0 <= k < |items| ==> AllJobs(items)[k] == JobOf(items[k])
  {
    if items != [] {
      AllJobsOfPlainItems(items[1..]);
    }
  }

  lemma {:induction false} AllJobsAppend(a: seq<MenuItem>, b: seq<MenuItem>)
    ensures AllJobs(a + b) == AllJobs(a) + AllJobs(b)
  {
    if a == [] {
      assert a + b == b;
    } else {
      assert (a + b)[1..] == a[1..] + b;
      AllJobsAppend(a[1..], b);
    }
  }

  /**
    On the policy menu built from a listing: -1 and the last number quit,
    0 collects every listed layer in server order, number k in between
    reports on the k-th listed layer, a negative number counts from the end,
    and any other number is an invalid selection. A listed layer named like
    a special item acts as that item: "Exit" quits, "Collect All Policies"
    collects.
   */
  lemma PolicyMenuDispatch(layers: seq<AccessLayer>, i: int)
    ensures var menu := PolicyMenu(layers);
      var listed := ListedItems(layers);
      && (PolicyChoice(menu, i) == Invalid <==> i < -|menu| || |menu| <= i)
      && (i == -1 || i == |menu| - 1 ==> PolicyChoice(menu, i) == Quit)
      && (i == 0 || i == -|menu| ==> PolicyChoice(menu, i) == Run(AllJobs(listed)))
      && (-|menu| < i < 0 ==> PolicyChoice(menu, i) == PolicyChoice(menu, i + |menu|))
      && (1 <= i <= |listed| && listed[i - 1].name == ExitItem.name ==> PolicyChoice(menu, i) == Quit)
      && (1 <= i <= |listed| && listed[i - 1].name == AllPolicies.name ==>
            PolicyChoice(menu, i) == Run(AllJobs(listed)))
      && (1 <= i <= |listed| && listed[i - 1].name != AllPolicies.name && listed[i - 1].name != ExitItem.name ==>
            PolicyChoice(menu, i) == Run([JobOf(listed[i - 1])]))
  {
    var listed := ListedItems(layers);
    var menu := PolicyMenu(layers);
    assert menu[0] == AllPolicies;
    assert menu[|menu| - 1] == ExitItem;
    AllJobsAppend([AllPolicies] + listed, [ExitItem]);
    AllJobsAppend([AllPolicies], listed);
    assert AllJobs([AllPolicies]) == [] by {
      assert [AllPolicies][1..] == [];
    }
    assert AllJobs([ExitItem]) == [] by {
      assert [ExitItem][1..] == [];
    }
    assert AllJobs(menu) == AllJobs(listed);
    if 1 <= i <= |listed| {
      assert menu[i] == listed[i - 1];
    }
  }

  /**
    On the domain menu built from a listing: -1 and the last number log
    out, a negative number counts from the end, a domain's number enters
    that domain under its sanitized name (a domain named "Exit" logs out),
    and any other number selects nothing.
   */
  lemma DomainMenuDispatch(domains: seq<string>, i: int)
    ensures var names := domains + [ExitName];
      && (DomainChoiceOf(names, i) == NoDomain <==> i < -|names| || |names| <= i)
      && (i == -1 || i == |names| - 1 ==> DomainChoiceOf(names, i) == Logout)
      && (-|names| <= i < 0 ==> DomainChoiceOf(names, i) == DomainChoiceOf(names, i + |names|))
      && (0 <= i < |domains| && domains[i] != ExitName ==> DomainChoiceOf(names, i) == EnterDomain(Sanitize(domains[i])))
      && (0 <= i < |domains| && domains[i] == ExitName ==> DomainChoiceOf(names, i) == Logout)
  {
    var names := domains + [ExitName];
    if 0 <= i < |domains| {
      assert names[i] == domains[i];
    }
  }
}

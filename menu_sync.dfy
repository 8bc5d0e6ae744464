/**
 * `createContextMenus` in background.js: the busy flag `isUpdatingMenus`, the
 * single-slot, last-write-wins buffer `pendingUpdate`, and the per-pass counter
 * `createdCount`. Every asynchronous continuation of the source (the `removeAll`
 * callback, the parent and child `create` callbacks, `setTimeout`) is a method that
 * the environment calls.
 */
module MenuSync {
  import opened Wrappers
  import opened Templates

  /** What a `chrome.contextMenus.create` callback reports through `chrome.runtime.lastError`. */
  datatype Outcome = Ok | DuplicateId | Other

  /** Which callback the running pass waits for; Idle when no pass runs. */
  datatype Phase = Idle | AwaitRemoveAll | AwaitParent | AwaitChildren

  /** The properties of one `chrome.contextMenus.create` call (contexts are always `['selection']`). */
  datatype MenuItem = MenuItem(id: string, parentId: Option<string>, title: Label)

  const MenuPrefix: string := "freejumper-"
  const ParentId: string := "freejumper-parent"

  /** The menu id of a template's entry. */
  function MenuIdFor(templateId: string): (r: string)
    ensures |r| == |MenuPrefix| + |templateId| && r[..|MenuPrefix|] == MenuPrefix
    ensures r[|MenuPrefix|..] == templateId
  {
    MenuPrefix + templateId
  }

  function ParentItem(): MenuItem {
    MenuItem(ParentId, None, ContextMenuParent)
  }

  /**
   * The child `create` calls of one pass: one per valid template, in list order,
   * titled by its name or by its 1-based position within the valid list.
   */
  function ChildItems(valid: seq<Template>): seq<MenuItem> {
    seq(|valid|, k requires 0 <= k < |valid| =>
      MenuItem(MenuIdFor(valid[k].id), Some(ParentId), TitleFor(valid[k], k + 1)))
  }

  /** Everything a completed pass creates: nothing for no valid template, else the parent then the children. */
  function MenuFor(valid: seq<Template>): seq<MenuItem> {
    if valid == [] then [] else [ParentItem()] + ChildItems(valid)
  }

  /** Different template ids give different menu ids. */
  lemma MenuIdInjective(a: string, b: string)
    requires MenuIdFor(a) == MenuIdFor(b)
    ensures a == b
  {
    assert a == MenuIdFor(a)[|MenuPrefix|..];
  }

  /**
   * Menu ids are unique when the template ids are distinct and none is "parent":
   * the parent comes first and no child takes its id.
   */
  lemma MenuIdsUnique(valid: seq<Template>)
    requires forall i, j :: 0 <= i < j < |valid| ==> valid[i].id != valid[j].id
    requires forall i :: 0 <= i < |valid| ==> valid[i].id != "parent"
    ensures var m := MenuFor(valid);
      forall i, j :: 0 <= i < j < |m| ==> m[i].id != m[j].id
  {
  }

  /**
   * A list with a single unnamed template whose url holds the marker gives the
   * parent and one child whose title is the positional default for position 1.
   */
  lemma SingleUnnamedTemplate(url: string)
    requires JsText.Contains(url, Marker)
    ensures MenuFor(ValidTemplates([Template("1", "", url)]))
      == [ParentItem(), MenuItem("freejumper-1", Some(ParentId), DefaultName(1))]
  {
    var t := Template("1", "", url);
    ValidIffContainsMarker(t);
    ValidTemplatesAllValid([t]);
    MenuOfOneUnnamed(t);
  }

  lemma MenuOfOneUnnamed(t: Template)
    requires t.id == "1" && t.name == ""
    ensures MenuFor([t]) == [ParentItem(), MenuItem("freejumper-1", Some(ParentId), DefaultName(1))]
  {
    assert MenuIdFor("1") == "freejumper-1";
    var child := MenuItem("freejumper-1", Some(ParentId), DefaultName(1));
    assert ChildItems([t])[0] == child;
    assert ChildItems([t]) == [child];
    assert MenuFor([t]) == [ParentItem()] + ChildItems([t]);
    assert [ParentItem()] + [child] == [ParentItem(), child];
  }

  class Synchronizer {
    /** `isUpdatingMenus`. */
    var busy: bool
    /** `pendingUpdate`: None for null or undefined; any list, even an empty one, is set. */
    var pending: Option<seq<Template>>
    var phase: Phase
    /** The `templates` argument of the running pass. */
    var passArg: Option<seq<Template>>
    /** `templatesToUse` of the latest pass. */
    var effective: Option<seq<Template>>
    /** `validTemplates` of the latest pass. */
    var valid: seq<Template>
    var createdCount: nat
    /** The `create` calls issued since the last `removeAll` completed, in call order. */
    var issued: seq<MenuItem>
    /** Lists passed to `createContextMenus` by `setTimeout` callbacks not yet fired. */
    var scheduled: seq<seq<Template>>

    ghost predicate Valid()
      reads this
    {
      && (busy <==> phase != Idle)
      && (phase == AwaitParent || phase == AwaitChildren ==>
            effective.Some? && valid == ValidTemplates(effective.value) && valid != [])
      && (phase == AwaitParent ==> issued == [ParentItem()])
      && (phase == AwaitChildren ==> createdCount < |valid| && issued == MenuFor(valid))
      // at rest the menu is complete, or only a parent is left and its retry is still to fire
      && (phase == Idle ==> issued == MenuFor(valid) || (issued == [ParentItem()] && scheduled != []))
    }

    constructor ()
      ensures Valid() && !busy && pending == None && issued == [] && scheduled == []
    {
      busy, pending, phase := false, None, Idle;
      passArg, effective, valid := None, None, [];
      createdCount, issued, scheduled := 0, [], [];
    }

    /**
     * `createContextMenus(list)`: while a pass runs, only the pending slot is
     * overwritten; otherwise a pass starts and `removeAll` is called.
     */
    method Request(list: Option<seq<Template>>)
      requires Valid()
      modifies this
      ensures Valid() && busy
      ensures old(busy) ==> pending == list && phase == old(phase) && passArg == old(passArg)
      ensures !old(busy) ==> pending == old(pending) && phase == AwaitRemoveAll && passArg == list
      ensures effective == old(effective) && valid == old(valid) && createdCount == old(createdCount)
      ensures issued == old(issued) && scheduled == old(scheduled)
    {
      if busy {
        pending := list;
        return;
      }
      busy := true;
      phase := AwaitRemoveAll;
      passArg := list;
    }

    /**
     * The `removeAll` callback: the effective list is the pending slot if set, else
     * the pass's argument, and the slot is cleared; with no valid template the pass
     * ends without creating a parent, otherwise the parent is created first.
     */
    method OnRemoveAllDone()
      requires Valid() && phase == AwaitRemoveAll
      modifies this
      ensures Valid()
      ensures effective == (if old(pending).Some? then old(pending) else old(passArg))
      ensures pending == None
      ensures valid == ValidTemplates(effective.GetOr([]))
      ensures valid == [] ==> !busy && phase == Idle && issued == []
      ensures valid != [] ==> busy && phase == AwaitParent && issued == [ParentItem()]
      ensures passArg == old(passArg) && createdCount == old(createdCount) && scheduled == old(scheduled)
    {
      effective := if pending.Some? then pending else passArg;
      pending := None;
      valid := ValidTemplates(effective.GetOr([]));
      issued := [];
      if valid != [] {
        issued := [ParentItem()];
        phase := AwaitParent;
      } else {
        busy := false;
        phase := Idle;
      }
    }

    /**
     * The parent's `create` callback. A duplicate id clears the flag, creates no
     * child and schedules a retry with the same effective list; any other outcome
     * creates every child at once, in list order.
     */
    method OnParentCreated(outcome: Outcome)
      requires Valid() && phase == AwaitParent
      modifies this
      ensures Valid()
      ensures outcome == DuplicateId ==>
        && !busy && phase == Idle && issued == old(issued)
        && scheduled == old(scheduled) + [old(effective.value)] && createdCount == old(createdCount)
      ensures outcome != DuplicateId ==>
        && busy && phase == AwaitChildren && createdCount == 0
        && issued == [ParentItem()] + ChildItems(valid) && scheduled == old(scheduled)
      ensures pending == old(pending) && passArg == old(passArg)
      ensures effective == old(effective) && valid == old(valid)
    {
      if outcome == DuplicateId {
        busy := false;
        phase := Idle;
        scheduled := scheduled + [effective.value];
        return;
      }
      assert issued + ChildItems(valid) == MenuFor(valid);
      createdCount := 0;
      issued := issued + ChildItems(valid);
      phase := AwaitChildren;
    }

    /**
     * A child's `create` callback, whatever its outcome (a duplicate id is not
     * retried): the counter goes up, and when it reaches the number of valid
     * templates the flag is cleared and a set pending slot is cleared and
     * scheduled for a rebuild.
     */
    method OnChildCreated(outcome: Outcome)
      requires Valid() && phase == AwaitChildren
      modifies this
      ensures Valid()
      ensures createdCount == old(createdCount) + 1
      ensures createdCount < |valid| ==>
        busy && phase == AwaitChildren && pending == old(pending) && scheduled == old(scheduled)
      ensures createdCount == |valid| ==>
        && !busy && phase == Idle && pending == None
        && scheduled == old(scheduled) + (if old(pending).Some? then [old(pending).value] else [])
      ensures issued == old(issued) && passArg == old(passArg)
      ensures effective == old(effective) && valid == old(valid)
    {
      createdCount := createdCount + 1;
      if createdCount == |valid| {
        busy := false;
        phase := Idle;
        if pending.Some? {
          var next := pending.value;
          pending := None;
          scheduled := scheduled + [next];
        }
      }
    }

    /** The k-th scheduled `setTimeout` fires and calls `createContextMenus` with its list. */
    method TimerFires(k: nat)
      requires Valid() && k < |scheduled|
      modifies this
      ensures Valid() && busy
      ensures scheduled == old(scheduled[..k] + scheduled[k + 1..])
      ensures old(busy) ==> pending == Some(old(scheduled[k])) && phase == old(phase) && passArg == old(passArg)
      ensures !old(busy) ==> pending == old(pending) && phase == AwaitRemoveAll && passArg == Some(old(scheduled[k]))
      ensures effective == old(effective) && valid == old(valid) && createdCount == old(createdCount)
      ensures issued == old(issued)
    {
      var list := scheduled[k];
      Request(Some(list));
      scheduled := scheduled[..k] + scheduled[k + 1..];
    }
  }

  /**
   * Requests arrive back to back, then the parent's `create` reports anything but
   * a duplicate id and the children's report any outcomes (`childOutcomes`, taken
   * in turn), and no other call intervenes. The first request starts the pass and
   * the others only overwrite the pending slot, so the pass uses the last list (or
   * the first one, when the last request passed no list at all); the settled menu
   * is the parent and one child per valid template of that list, or nothing when
   * it has none, and nothing is left pending or scheduled. Two identical requests
   * therefore settle as one does.
   */
  method SettleAfterRequests(lists: seq<Option<seq<Template>>>, parentOutcome: Outcome, childOutcomes: seq<Outcome>)
    returns (menu: seq<MenuItem>, settled: bool)
    requires |lists| > 0
    requires parentOutcome != DuplicateId && |childOutcomes| > 0
    ensures var used := if |lists| > 1 && lists[|lists| - 1].Some? then lists[|lists| - 1] else lists[0];
      menu == MenuFor(ValidTemplates(used.GetOr([])))
    ensures settled
  {
    ghost var used := if |lists| > 1 && lists[|lists| - 1].Some? then lists[|lists| - 1] else lists[0];
    var s := new Synchronizer();
    s.Request(lists[0]);
    var i := 1;
    while i < |lists|
      invariant 1 <= i <= |lists|
      invariant s.Valid() && s.phase == AwaitRemoveAll && s.passArg == lists[0]
      invariant s.pending == (if i > 1 then lists[i - 1] else None)
      invariant s.scheduled == []
    {
      s.Request(lists[i]);
      i := i + 1;
    }
    s.OnRemoveAllDone();
    assert s.effective == used;
    ghost var valid := s.valid;
    if s.phase == AwaitParent {
      s.OnParentCreated(parentOutcome);
      var k := 0;
      while s.phase == AwaitChildren
        invariant s.Valid() && s.pending == None && s.scheduled == []
        invariant s.valid == valid
        invariant s.phase == AwaitChildren || s.phase == Idle
        invariant s.phase == AwaitChildren ==> k == s.createdCount
        invariant s.issued == MenuFor(s.valid)
        decreases |s.valid| - s.createdCount
      {
        s.OnChildCreated(childOutcomes[k % |childOutcomes|]);
        k := k + 1;
      }
    }
    menu := s.issued;
    settled := !s.busy && s.pending == None && s.scheduled == [];
  }

  /**
   * One pass from its `removeAll` callback to its end, with nothing pending or
   * scheduled and nothing else arriving: the parent's `create` reports anything
   * but a duplicate id and the children's report `childOutcomes` in turn. The pass
   * settles on the menu of its argument's valid templates.
   */
  method SettlePass(s: Synchronizer, parentOutcome: Outcome, childOutcomes: seq<Outcome>)
    returns (menu: seq<MenuItem>, settled: bool)
    requires s.Valid() && s.phase == AwaitRemoveAll && s.pending == None && s.scheduled == []
    requires parentOutcome != DuplicateId && |childOutcomes| > 0
    modifies s
    ensures menu == MenuFor(ValidTemplates(old(s.passArg).GetOr([])))
    ensures settled
  {
    s.OnRemoveAllDone();
    ghost var valid := s.valid;
    if s.phase == AwaitParent {
      s.OnParentCreated(parentOutcome);
      var k := 0;
      while s.phase == AwaitChildren
        invariant s.Valid() && s.pending == None && s.scheduled == []
        invariant s.valid == valid
        invariant s.phase == AwaitChildren || s.phase == Idle
        invariant s.phase == AwaitChildren ==> k == s.createdCount
        invariant s.issued == MenuFor(s.valid)
        decreases |s.valid| - s.createdCount
      {
        s.OnChildCreated(childOutcomes[k % |childOutcomes|]);
        k := k + 1;
      }
    }
    menu := s.issued;
    settled := !s.busy && s.pending == None && s.scheduled == [];
  }

  /**
   * A pass whose parent `create` reports a duplicate id ends, and its retry 50 ms
   * later, when nothing else intervenes, settles on the menu of the same list,
   * whatever the second parent outcome (other than another duplicate) and the
   * children's outcomes.
   */
  method SettleAfterRetry(list: seq<Template>, parentOutcome: Outcome, childOutcomes: seq<Outcome>)
    returns (menu: seq<MenuItem>, settled: bool)
    requires ValidTemplates(list) != []
    requires parentOutcome != DuplicateId && |childOutcomes| > 0
    ensures menu == MenuFor(ValidTemplates(list))
    ensures settled
  {
    var s := new Synchronizer();
    s.Request(Some(list));
    s.OnRemoveAllDone();
    s.OnParentCreated(DuplicateId);
    s.TimerFires(0);
    menu, settled := SettlePass(s, parentOutcome, childOutcomes);
  }

  /**
   * A request with `newer` arriving while the children of `older` are being
   * created waits in the pending slot; when the pass ends it is scheduled, and
   * when that timer fires with nothing else arriving, the next pass settles on the
   * menu of `newer`.
   */
  method SettleAfterDeferred(older: seq<Template>, newer: seq<Template>, childOutcomes: seq<Outcome>)
    returns (menu: seq<MenuItem>, settled: bool)
    requires ValidTemplates(older) != [] && |childOutcomes| > 0
    ensures menu == MenuFor(ValidTemplates(newer))
    ensures settled
  {
    var s := new Synchronizer();
    s.Request(Some(older));
    s.OnRemoveAllDone();
    s.OnParentCreated(Ok);
    s.Request(Some(newer));
    var k := 0;
    while s.phase == AwaitChildren
      invariant s.Valid() && (s.phase == AwaitChildren || s.phase == Idle)
      invariant s.phase == AwaitChildren ==> s.pending == Some(newer) && s.scheduled == [] && k == s.createdCount
      invariant s.phase == Idle ==> s.pending == None && s.scheduled == [newer]
      decreases |s.valid| - s.createdCount
    {
      s.OnChildCreated(childOutcomes[k % |childOutcomes|]);
      k := k + 1;
    }
    s.TimerFires(0);
    menu, settled := SettlePass(s, Ok, childOutcomes);
  }

  /**
   * A duplicate parent id leaves the pending slot as it is: a list `pending` that
   * arrived before the duplicate is taken by the next pass, so a request with
   * `latest` arriving during the 50 ms wait loses before the retry even fires.
   */
  method PendingSurvivesRetry(first: seq<Template>, pending: seq<Template>, latest: seq<Template>)
    returns (used: Option<seq<Template>>)
    requires ValidTemplates(first) != []
    ensures used == Some(pending)
  {
    var s := new Synchronizer();
    s.Request(Some(first));
    s.OnRemoveAllDone();
    s.Request(Some(pending));
    s.OnParentCreated(DuplicateId);
    s.Request(Some(latest));
    s.OnRemoveAllDone();
    used := s.effective;
  }

  /**
   * The parent-retry race. A pass meets a duplicate parent id and schedules a
   * retry with its list `older`; a request with `newer` arrives during the wait,
   * finds the flag already cleared and starts a pass of its own; the retry then
   * fires into that pass's pending slot, so the pass builds the menu from `older`.
   */
  method RetryRace(older: seq<Template>, newer: seq<Template>) returns (used: Option<seq<Template>>)
    requires ValidTemplates(older) != []
    ensures used == Some(older)
  {
    var s := new Synchronizer();
    s.Request(Some(older));
    s.OnRemoveAllDone();
    s.OnParentCreated(DuplicateId);
    s.Request(Some(newer));
    s.TimerFires(0);
    s.OnRemoveAllDone();
    used := s.effective;
  }

  /**
   * The deferred-rebuild race. A request with `newer` arrives while the children
   * of `older` are being created and waits in the pending slot; when the pass
   * ends, that list is scheduled for a rebuild and the flag is cleared. A request
   * with `newest` arriving before the timer fires starts a pass of its own, the
   * timer then puts `newer` into that pass's pending slot, and the pass builds the
   * menu from `newer`, not from the latest list.
   */
  method DeferredRace(older: seq<Template>, newer: seq<Template>, newest: seq<Template>)
    returns (used: Option<seq<Template>>)
    requires ValidTemplates(older) != []
    ensures used == Some(newer)
  {
    var s := new Synchronizer();
    s.Request(Some(older));
    s.OnRemoveAllDone();
    s.OnParentCreated(Ok);
    s.Request(Some(newer));
    while s.phase == AwaitChildren
      invariant s.Valid() && (s.phase == AwaitChildren || s.phase == Idle)
      invariant s.phase == AwaitChildren ==> s.pending == Some(newer) && s.scheduled == []
      invariant s.phase == Idle ==> s.pending == None && s.scheduled == [newer]
      decreases |s.valid| - s.createdCount
    {
      s.OnChildCreated(Ok);
    }
    s.Request(Some(newest));
    s.TimerFires(0);
    s.OnRemoveAllDone();
    used := s.effective;
  }
}

/** The tree component's event and state-setting rules (src/tree/td-tree.tsx):
    what a click on a node does, what a checkbox change does, the toggles,
    and how `setItem` routes state keys to their dedicated setters.

    The store's own reaction to a setter (cascades, mutual exclusion) is not
    part of this model: a call of `setExpanded`, `setActived` or
    `setChecked` on the component is recorded as an action, together with
    the event it emits. */
module TreeEvents {
  import opened Js
  import opened Store

  /** The three node states with a dedicated setter on the component. */
  datatype StateKey = Expanded | Actived | Checked

  /** What the event handlers read of the node an event targets. */
  datatype EventNode = EventNode(value: NodeValue, disabled: bool,
                                 expanded: bool, actived: bool, checked: bool)

  /** One call the component makes while handling an event: a state setter
      (`setExpanded`/`setActived`/`setChecked`, which also emit `expand`,
      `active` or `change`), or the final `click` emit. */
  datatype Action =
    | SetState(key: StateKey, target: NodeValue, to: bool)
    | EmitClick(target: NodeValue)

  /** `node.isExpanded()`, `node.isActived()`, `node.isChecked()`. */
  function IsOn(node: EventNode, key: StateKey): bool
  {
    match key
    case Expanded => node.expanded
    case Actived => node.actived
    case Checked => node.checked
  }

  /** `toggleExpanded`, `toggleActived`, `toggleChecked`: call the setter
      with the negation of the node's current state. */
  function Toggle(node: EventNode, key: StateKey): (a: Action)
    ensures a.SetState? && a.key == key && a.target == node.value
    ensures a.to != IsOn(node, key)
  {
    SetState(key, node.value, !IsOn(node, key))
  }

  /** The guard shared by `handleClick` and `handleChange`: an event on a
      missing node, in a disabled tree or on a disabled node does nothing. */
  predicate Handles(node: Option<EventNode>, treeDisabled: bool)
  {
    node.Some? && !treeDisabled && !node.value.disabled
  }

  /** The marks `handleClick` looks for, in the order it looks. */
  datatype MarkName = Trigger | Ignore

  /** `mark?.value || ''`: a missing mark reads as the empty string. */
  function MarkValue(mark: Option<string>): (r: string)
    ensures mark.None? ==> r == ""
    ensures mark.Some? ==> r == mark.value
  {
    if mark.Some? then mark.value else ""
  }

  /** `markValue.indexOf(word) >= 0`. */
  predicate MarkHas(mark: Option<string>, word: string)
  {
    Includes(MarkValue(mark), word)
  }

  /** The flag computation of `handleClick`: expansion starts from
      `expandOnClickNode`, a trigger mark naming `expand` turns it on, an
      ignore mark naming `expand` turns it off and wins because the ignore
      mark is looked at second; activation happens unless the ignore mark
      names `active`, and a trigger mark naming `active` changes nothing. */
  method ClickFlags(expandOnClickNode: bool, trigger: Option<string>, ignore: Option<string>)
    returns (shouldExpand: bool, shouldActive: bool)
    ensures shouldExpand <==>
      (expandOnClickNode || MarkHas(trigger, "expand")) && !MarkHas(ignore, "expand")
    ensures shouldActive <==> !MarkHas(ignore, "active")
  {
    shouldExpand, shouldActive := expandOnClickNode, true;
    var names := [Trigger, Ignore];
    for k := 0 to |names|
      invariant k == 0 ==> shouldExpand == expandOnClickNode && shouldActive
      invariant k == 1 ==>
        shouldExpand == (expandOnClickNode || MarkHas(trigger, "expand")) && shouldActive
      invariant k == 2 ==>
        shouldExpand == ((expandOnClickNode || MarkHas(trigger, "expand")) && !MarkHas(ignore, "expand")) &&
        shouldActive == !MarkHas(ignore, "active")
    {
      var markName := names[k];
      var markValue := MarkValue(if markName == Trigger then trigger else ignore);
      if Includes(markValue, "expand") {
        if markName == Trigger {
          shouldExpand := true;
        } else if markName == Ignore {
          shouldExpand := false;
        }
      }
      if Includes(markValue, "active") {
        if markName == Ignore {
          shouldActive := false;
        }
      }
    }
  }

  /** `handleClick`: nothing when the guard fails; otherwise toggle the
      expansion (when the marks call for it), then toggle the activation
      (unless the ignore mark forbids it), then emit `click`. */
  method HandleClick(node: Option<EventNode>, treeDisabled: bool, expandOnClickNode: bool,
                     trigger: Option<string>, ignore: Option<string>)
    returns (actions: seq<Action>)
    ensures !Handles(node, treeDisabled) ==> actions == []
    ensures Handles(node, treeDisabled) ==>
      |actions| > 0 && actions[|actions| - 1] == EmitClick(node.value.value)
    ensures Handles(node, treeDisabled) ==>
      (Toggle(node.value, Expanded) in actions <==>
       (expandOnClickNode || MarkHas(trigger, "expand")) && !MarkHas(ignore, "expand"))
    ensures Handles(node, treeDisabled) ==>
      (Toggle(node.value, Actived) in actions <==> !MarkHas(ignore, "active"))
    ensures Handles(node, treeDisabled) ==>
      forall p, q | 0 <= p < |actions| && 0 <= q < |actions| ::
        actions[p] == Toggle(node.value, Expanded) && actions[q] == Toggle(node.value, Actived) ==> p < q
    ensures Handles(node, treeDisabled) ==>
      forall a :: a in actions ==>
        a == Toggle(node.value, Expanded) || a == Toggle(node.value, Actived) || a == EmitClick(node.value.value)
    ensures Handles(node, treeDisabled) ==>
      actions ==
        (if (expandOnClickNode || MarkHas(trigger, "expand")) && !MarkHas(ignore, "expand")
         then [Toggle(node.value, Expanded)] else [])
        + (if !MarkHas(ignore, "active") then [Toggle(node.value, Actived)] else [])
        + [EmitClick(node.value.value)]
  {
    if !Handles(node, treeDisabled) {
      return [];
    }
    var shouldExpand, shouldActive := ClickFlags(expandOnClickNode, trigger, ignore);
    actions := [];
    if shouldExpand {
      actions := actions + [Toggle(node.value, Expanded)];
    }
    if shouldActive {
      actions := actions + [Toggle(node.value, Actived)];
    }
    actions := actions + [EmitClick(node.value.value)];
  }

  /** `handleChange`: the same guard as a click, then toggle the check. */
  function HandleChange(node: Option<EventNode>, treeDisabled: bool): (actions: seq<Action>)
    ensures actions == [] <==> !Handles(node, treeDisabled)
    ensures Handles(node, treeDisabled) ==>
      |actions| == 1 && actions[0].SetState? && actions[0].key == Checked &&
      actions[0].target == node.value.value && actions[0].to == !node.value.checked
  {
    if Handles(node, treeDisabled) then [Toggle(node.value, Checked)] else []
  }

  // -------- setItem --------

  /** The option keys `setItem` routes to a setter, in the order it tries them. */
  const StateKeys: seq<StateKey> := [Expanded, Actived, Checked]

  function KeyName(key: StateKey): (name: string)
    ensures name in StateNames
  {
    match key
    case Expanded => "expanded"
    case Actived => "actived"
    case Checked => "checked"
  }

  const StateNames: set<string> := {"expanded", "actived", "checked"}

  /** Position of a key in StateKeys. */
  function Rank(key: StateKey): (r: nat)
    ensures r < |StateKeys| && StateKeys[r] == key
  {
    match key
    case Expanded => 0
    case Actived => 1
    case Checked => 2
  }

  /** A setter call made by `setItem`, with the option's value passed on. */
  datatype Setter<V> = Setter(key: StateKey, to: V)

  /** Everything `setItem` does on a node it found: the setter calls in
      order, then `node.set` with what is left of the options. */
  datatype ItemCalls<V> = ItemCalls(setters: seq<Setter<V>>, nodeSet: Option<map<string, V>>)

  /** The setter calls for the state keys of `keys` that `spec` holds, in
      the order of `keys`. */
  function Dispatch<V>(spec: map<string, V>, keys: seq<StateKey>): seq<Setter<V>>
  {
    if |keys| == 0 then []
    else
      var last := keys[|keys| - 1];
      Dispatch(spec, keys[..|keys| - 1]) +
      (if KeyName(last) in spec then [Setter(last, spec[KeyName(last)])] else [])
  }

  /** The names of `keys`. */
  function Names(keys: seq<StateKey>): set<string>
  {
    if |keys| == 0 then {} else Names(keys[..|keys| - 1]) + {KeyName(keys[|keys| - 1])}
  }

  /** Every setter call passes on the option's own value, each state key
      the options hold gets its call, and the calls keep the order of
      `keys`. */
  lemma {:induction false} DispatchRoutes<V>(spec: map<string, V>, keys: seq<StateKey>)
    requires forall p, q :: 0 <= p < q < |keys| ==> Rank(keys[p]) < Rank(keys[q])
    ensures forall s :: s in Dispatch(spec, keys) ==>
      s.key in keys && KeyName(s.key) in spec && s.to == spec[KeyName(s.key)]
    ensures forall k :: k in keys && KeyName(k) in spec ==> Setter(k, spec[KeyName(k)]) in Dispatch(spec, keys)
    ensures forall p, q :: 0 <= p < q < |Dispatch(spec, keys)| ==>
      Rank(Dispatch(spec, keys)[p].key) < Rank(Dispatch(spec, keys)[q].key)
  {
    if |keys| > 0 {
      var init := keys[..|keys| - 1];
      var last := keys[|keys| - 1];
      DispatchRoutes(spec, init);
      var front := Dispatch(spec, init);
      var d := Dispatch(spec, keys);
      assert d == front + (if KeyName(last) in spec then [Setter(last, spec[KeyName(last)])] else []);
      forall k | k in keys && KeyName(k) in spec ensures Setter(k, spec[KeyName(k)]) in d {
        if k != last {
          var p :| 0 <= p < |keys| && keys[p] == k;
          assert p < |init| && init[p] == k;
        }
      }
      forall p, q | 0 <= p < q < |d| ensures Rank(d[p].key) < Rank(d[q].key) {
        if q >= |front| {
          assert d[q].key == last;
          assert d[p] == front[p] && front[p] in front;
          var r :| 0 <= r < |init| && init[r] == d[p].key;
          assert keys[r] == init[r];
        } else {
          assert d[p] == front[p] && d[q] == front[q];
        }
      }
    }
  }

  /** One more key routed: the setter list grows by that key's call, if
      any, and the options lose that key. */
  lemma DispatchStep<V>(spec: map<string, V>, keys: seq<StateKey>, k: nat)
    requires k < |keys|
    ensures Dispatch(spec, keys[..k + 1]) == Dispatch(spec, keys[..k]) +
      (if KeyName(keys[k]) in spec then [Setter(keys[k], spec[KeyName(keys[k])])] else [])
    ensures spec - Names(keys[..k + 1]) == (spec - Names(keys[..k])) - {KeyName(keys[k])}
  {
    assert keys[..k + 1][..k] == keys[..k];
    assert Names(keys[..k + 1]) == Names(keys[..k]) + {KeyName(keys[k])};
  }

  /** `setItem(value, options)`. Without a store (no data was ever built)
      `this.store.getNode` throws, and `Object.keys(options)` runs before
      any check, so absent options throw as well, even for a value the store
      does not hold; a value the store does not hold is otherwise a no-op.
      For a node it holds, the `expanded`, `actived` and `checked` options
      go, in that order, to their setters and are deleted from the options,
      and `node.set` receives the rest. */
  method SetItem<V>(store: Option<TreeStore>, value: NodeValue, options: Option<map<string, V>>)
    returns (r: Result<ItemCalls<V>>)
    ensures r.TypeError? <==> store.None? || options.None?
    ensures store.Some? && options.Some? && !store.value.Has(value) ==> r == Ok(ItemCalls([], None))
    ensures store.Some? && options.Some? && store.value.Has(value) ==>
      r.Ok? && r.value.setters == Dispatch(options.value, StateKeys) &&
      r.value.nodeSet == Some(options.value - StateNames)
  {
    if store.None? || options.None? {
      return TypeError;
    }
    if !store.value.Has(value) {
      return Ok(ItemCalls([], None));
    }
    var setters, rest := RouteStates(options.value);
    return Ok(ItemCalls(setters, Some(rest)));
  }

  /** The names of the keys before position `k` do not include the name at
      `k`: no state option is routed twice. */
  lemma FreshName(k: nat)
    requires k < |StateKeys|
    ensures KeyName(StateKeys[k]) !in Names(StateKeys[..k])
  {
    var first: seq<StateKey> := [Expanded];
    assert first[..0] == [];
    assert Names(first) == {"expanded"};
    if k == 1 {
      assert StateKeys[..1] == first;
    } else if k == 2 {
      assert StateKeys[..2] == first + [Actived];
      assert StateKeys[..2][..1] == first;
    }
  }

  /** The `forEach` of `setItem` over the state keys: each key the options
      hold is passed to its setter and deleted from the options. */
  method RouteStates<V>(options: map<string, V>) returns (setters: seq<Setter<V>>, spec: map<string, V>)
    ensures setters == Dispatch(options, StateKeys)
    ensures spec == options - StateNames
  {
    spec := options;
    var keys := spec.Keys;
    setters := [];
    for k := 0 to |StateKeys|
      invariant setters == Dispatch(options, StateKeys[..k])
      invariant spec == options - Names(StateKeys[..k])
    {
      var name := KeyName(StateKeys[k]);
      DispatchStep(options, StateKeys, k);
      FreshName(k);
      if name in keys {
        assert name in spec;
        setters := setters + [Setter(StateKeys[k], spec[name])];
        spec := spec - {name};
      }
    }
    assert StateKeys[..|StateKeys|] == StateKeys;
    assert Names(StateKeys) == StateNames;
  }

  /** What `setItem` promises on a node it finds: each setter receives the
      option's own value, every state option present is applied, in the
      order expanded, actived, checked, and `node.set` never sees a state
      key while every other option reaches it unchanged. */
  lemma SetItemRoutes<V>(spec: map<string, V>)
    ensures forall s :: s in Dispatch(spec, StateKeys) ==>
      KeyName(s.key) in spec && s.to == spec[KeyName(s.key)]
    ensures forall k :: KeyName(k) in spec ==> Setter(k, spec[KeyName(k)]) in Dispatch(spec, StateKeys)
    ensures forall p, q :: 0 <= p < q < |Dispatch(spec, StateKeys)| ==>
      Rank(Dispatch(spec, StateKeys)[p].key) < Rank(Dispatch(spec, StateKeys)[q].key)
    ensures forall n :: n in spec - StateNames <==> n in spec && n !in StateNames
    ensures forall n :: n in spec - StateNames ==> (spec - StateNames)[n] == spec[n]
  {
    DispatchRoutes(spec, StateKeys);
    forall k ensures k in StateKeys {
      assert StateKeys[Rank(k)] == k;
    }
  }
}

/** What `build` (src/tree/td-tree.tsx:282-361) does once the component
    has its data: create and fill the store, apply the initial checked,
    expanded and actived values, and refresh the view. The store's own
    handling of each call is not part of this model; the calls are recorded
    in order, and the expanded list handed to the store is computed here
    as the source computes it. */
module TreeBuild {
  import opened Js
  import opened Store

  /** No value occurs twice. */
  predicate Distinct(s: seq<NodeValue>)
  {
    forall p, q :: 0 <= p < q < |s| ==> s[p] != s[q]
  }

  /** The keys of a Map whose every value is `true`, in insertion order,
      after `map.set(v, true)`: a new key goes last, setting a key already
      present leaves the order as it was. */
  function MapSet(keys: seq<NodeValue>, v: NodeValue): seq<NodeValue>
  {
    if v in keys then keys else keys + [v]
  }

  /** Setting a key adds it, keeps the keys already there in place, and
      never duplicates one. */
  lemma MapSetKeys(keys: seq<NodeValue>, v: NodeValue)
    ensures forall x :: x in MapSet(keys, v) <==> x in keys || x == v
    ensures |keys| <= |MapSet(keys, v)| && MapSet(keys, v)[..|keys|] == keys
    ensures Distinct(keys) ==> Distinct(MapSet(keys, v))
  {
  }

  /** The values one element of `expanded` sets in the map: itself, then,
      when `expandParent` is on, the values of `getParents()` of its node.
      `parents` maps each value the store holds to those ancestor values. */
  function Visit(v: NodeValue, expandParent: bool, parents: map<NodeValue, seq<NodeValue>>): seq<NodeValue>
  {
    [v] + (if expandParent && v in parents then parents[v] else [])
  }

  /** Every value set in the map, in the order of the calls. */
  function Visits(expanded: seq<NodeValue>, expandParent: bool,
                  parents: map<NodeValue, seq<NodeValue>>): seq<NodeValue>
  {
    if |expanded| == 0 then []
    else
      Visits(expanded[..|expanded| - 1], expandParent, parents) +
      Visit(expanded[|expanded| - 1], expandParent, parents)
  }

  /** The map's keys after setting every value of `s` in turn:
      `Array.from(map.keys())`. */
  function Keys(s: seq<NodeValue>): seq<NodeValue>
  {
    if |s| == 0 then [] else MapSet(Keys(s[..|s| - 1]), s[|s| - 1])
  }

  lemma KeysSnoc(s: seq<NodeValue>, x: NodeValue)
    ensures Keys(s + [x]) == MapSet(Keys(s), x)
  {
    assert (s + [x])[..|s|] == s;
  }

  lemma VisitsSnoc(expanded: seq<NodeValue>, i: nat, expandParent: bool,
                   parents: map<NodeValue, seq<NodeValue>>)
    requires i < |expanded|
    ensures Visits(expanded[..i + 1], expandParent, parents) ==
      Visits(expanded[..i], expandParent, parents) + Visit(expanded[i], expandParent, parents)
  {
    assert expanded[..i + 1][..i] == expanded[..i];
  }

  /** The keys are exactly the values set, each once. */
  lemma {:induction false} KeysMembers(s: seq<NodeValue>)
    ensures forall x :: x in Keys(s) <==> x in s
    ensures Distinct(Keys(s))
  {
    if |s| > 0 {
      var init := s[..|s| - 1];
      KeysMembers(init);
      MapSetKeys(Keys(init), s[|s| - 1]);
      assert s == init + [s[|s| - 1]];
    }
  }

  /** The values `Visits` sets: every element of `expanded` and, with
      `expandParent`, every ancestor of each. */
  lemma {:induction false} VisitsMembers(expanded: seq<NodeValue>, expandParent: bool,
                                         parents: map<NodeValue, seq<NodeValue>>)
    ensures forall x :: x in Visits(expanded, expandParent, parents) <==>
      x in expanded || (expandParent && exists v :: v in expanded && v in parents && x in parents[v])
  {
    if |expanded| > 0 {
      var init := expanded[..|expanded| - 1];
      var last := expanded[|expanded| - 1];
      VisitsMembers(init, expandParent, parents);
      assert expanded == init + [last];
      forall x | expandParent && (exists v :: v in expanded && v in parents && x in parents[v])
        ensures x in Visits(expanded, expandParent, parents)
      {
        var v :| v in expanded && v in parents && x in parents[v];
        if v != last {
          assert v in init;
        }
      }
    }
  }

  /** The store holds a node for every value of `s`. */
  predicate AllHeld(s: seq<NodeValue>, parents: map<NodeValue, seq<NodeValue>>)
  {
    forall v :: v in s ==> v in parents
  }

  lemma AllHeldSnoc(s: seq<NodeValue>, i: nat, parents: map<NodeValue, seq<NodeValue>>)
    requires i < |s| && AllHeld(s[..i], parents) && s[i] in parents
    ensures AllHeld(s[..i + 1], parents)
  {
    assert s[..i + 1] == s[..i] + [s[i]];
  }

  /** `expandedMap.set(x, true)` for each `x` of `xs` in turn, on a map
      whose keys so far are those of the values `pre`. */
  method SetEach(keys: seq<NodeValue>, ghost pre: seq<NodeValue>, xs: seq<NodeValue>)
    returns (r: seq<NodeValue>)
    requires keys == Keys(pre)
    ensures r == Keys(pre + xs)
  {
    r := keys;
    SetEachStart(pre, xs);
    for j := 0 to |xs|
      invariant r == Keys(pre + xs[..j])
    {
      SetEachStep(pre, xs, j);
      r := MapSet(r, xs[j]);
    }
    assert xs[..|xs|] == xs;
  }

  lemma SetEachStart(pre: seq<NodeValue>, xs: seq<NodeValue>)
    ensures Keys(pre + xs[..0]) == Keys(pre)
  {
    assert pre + xs[..0] == pre;
  }

  lemma SetEachStep(pre: seq<NodeValue>, xs: seq<NodeValue>, j: nat)
    requires j < |xs|
    ensures Keys(pre + xs[..j + 1]) == MapSet(Keys(pre + xs[..j]), xs[j])
  {
    assert pre + xs[..j + 1] == (pre + xs[..j]) + [xs[j]];
    KeysSnoc(pre + xs[..j], xs[j]);
  }

  /** The expanded list of `build` (td-tree.tsx:337-349): each value of
      `expanded` and, with `expandParent`, the values of its node's
      ancestors, set in a Map and read back as its keys. With
      `expandParent`, a value the store does not hold has no node, and
      `node.getParents()` throws. */
  method ExpandedKeys(expanded: seq<NodeValue>, expandParent: bool,
                      parents: map<NodeValue, seq<NodeValue>>)
    returns (r: Result<seq<NodeValue>>)
    ensures r.TypeError? <==> expandParent && exists v :: v in expanded && v !in parents
    ensures r.Ok? ==> r.value == Keys(Visits(expanded, expandParent, parents))
  {
    var keys: seq<NodeValue> := [];
    for i := 0 to |expanded|
      invariant keys == Keys(Visits(expanded[..i], expandParent, parents))
      invariant expandParent ==> AllHeld(expanded[..i], parents)
    {
      var val := expanded[i];
      VisitsSnoc(expanded, i, expandParent, parents);
      ghost var before := Visits(expanded[..i], expandParent, parents);
      KeysSnoc(before, val);
      keys := MapSet(keys, val);
      if expandParent {
        if val !in parents {
          assert val in expanded;
          return TypeError;
        }
        AllHeldSnoc(expanded, i, parents);
        keys := SetEach(keys, before + [val], parents[val]);
        assert Visit(val, expandParent, parents) == [val] + parents[val];
        assert before + [val] + parents[val] == before + Visit(val, expandParent, parents);
      } else {
        assert before + [val] == before + Visit(val, expandParent, parents);
      }
    }
    assert expanded[..|expanded|] == expanded;
    return Ok(keys);
  }

  /** What `setExpanded` receives: every value of `expanded`, plus every
      ancestor of each when `expandParent` is on, and nothing else, with no
      duplicates. */
  lemma ExpandedKeysMembers(expanded: seq<NodeValue>, expandParent: bool,
                            parents: map<NodeValue, seq<NodeValue>>)
    ensures forall x :: x in Keys(Visits(expanded, expandParent, parents)) <==>
      x in expanded || (expandParent && exists v :: v in expanded && v in parents && x in parents[v])
    ensures Distinct(Keys(Visits(expanded, expandParent, parents)))
  {
    KeysMembers(Visits(expanded, expandParent, parents));
    VisitsMembers(expanded, expandParent, parents);
  }

  /** A call `build` makes, in the order it makes them. */
  datatype BuildStep<D> =
    | CreateStore                              // new TreeStore(...); this.store = store
    | Append(list: seq<D>)                     // store.append(list)
    | SetCheckedValues(values: seq<NodeValue>) // store.setChecked(value)
    | SetExpandedValues(values: seq<NodeValue>) // store.setExpanded(expandedArr)
    | SetActivedValues(values: seq<NodeValue>) // store.setActived(actived)
    | RefreshNodes                             // store.refreshNodes()
    | RefreshView                              // this.refresh()

  /** Where each kind of call stands in `build`. */
  function Phase<D>(step: BuildStep<D>): nat
  {
    match step
    case CreateStore => 0
    case Append(_) => 1
    case SetCheckedValues(_) => 2
    case SetExpandedValues(_) => 3
    case SetActivedValues(_) => 4
    case RefreshNodes => 5
    case RefreshView => 6
  }

  /** `list && list.length > 0`. */
  predicate HasData<D>(list: Option<seq<D>>)
  {
    list.Some? && |list.value| > 0
  }

  /** The expanded list with `expandParent` cannot be built. */
  predicate ExpandFails(expanded: Option<seq<NodeValue>>, expandParent: bool,
                        parents: map<NodeValue, seq<NodeValue>>)
  {
    expanded.Some? && expandParent && exists v :: v in expanded.value && v !in parents
  }

  /** Each call comes after every call of an earlier kind, so the calls
      keep the order of `build` and none is made twice. */
  predicate InOrder<D>(steps: seq<BuildStep<D>>)
  {
    forall p, q :: 0 <= p < q < |steps| ==> Phase(steps[p]) < Phase(steps[q])
  }

  /** Two runs of calls in order, the second of later kinds only, make one
      run in order. */
  lemma InOrderJoin<D>(a: seq<BuildStep<D>>, b: seq<BuildStep<D>>, n: nat)
    requires InOrder(a) && InOrder(b)
    requires forall x :: x in a ==> Phase(x) < n
    requires forall y :: y in b ==> n <= Phase(y)
    ensures InOrder(a + b)
  {
    var ab := a + b;
    forall p, q | 0 <= p < q < |ab| ensures Phase(ab[p]) < Phase(ab[q]) {
      if q < |a| {
        assert ab[p] == a[p] && ab[q] == a[q];
      } else if p >= |a| {
        assert ab[p] == b[p - |a|] && ab[q] == b[q - |a|];
      } else {
        assert ab[p] == a[p] && ab[q] == b[q - |a|];
        assert a[p] in a && b[q - |a|] in b;
      }
    }
  }

  /** A call, when the initial value it passes on is an array. */
  function Optional<D>(present: bool, step: BuildStep<D>): (r: seq<BuildStep<D>>)
    ensures |r| <= 1 && (present <==> r == [step])
  {
    if present then [step] else []
  }

  /** The calls `build` makes up to the expanded list: create the store,
      append the data, and set the checked values when `value` is an array. */
  function Started<D>(list: seq<D>, value: Option<seq<NodeValue>>): seq<BuildStep<D>>
  {
    [CreateStore, Append(list)] +
    Optional(value.Some?, SetCheckedValues(if value.Some? then value.value else []))
  }

  /** The calls `build` makes once the expanded list is known: set it and
      the actived values when they are arrays, then refresh. */
  function Finished<D>(expanded: Option<seq<NodeValue>>, actived: Option<seq<NodeValue>>,
                       expandParent: bool, parents: map<NodeValue, seq<NodeValue>>): seq<BuildStep<D>>
  {
    Optional(expanded.Some?,
             SetExpandedValues(if expanded.Some? then Keys(Visits(expanded.value, expandParent, parents)) else [])) +
    Optional(actived.Some?, SetActivedValues(if actived.Some? then actived.value else [])) +
    [RefreshNodes, RefreshView]
  }

  lemma StartedMembers<D>(list: seq<D>, value: Option<seq<NodeValue>>)
    ensures forall y :: y in Started(list, value) <==>
      y == CreateStore || y == Append(list) || (value.Some? && y == SetCheckedValues(value.value))
  {
  }

  lemma FinishedMembers<D>(expanded: Option<seq<NodeValue>>, actived: Option<seq<NodeValue>>,
                           expandParent: bool, parents: map<NodeValue, seq<NodeValue>>)
    ensures forall y :: y in Finished<D>(expanded, actived, expandParent, parents) <==>
      (expanded.Some? && y == SetExpandedValues(Keys(Visits(expanded.value, expandParent, parents)))) ||
      (actived.Some? && y == SetActivedValues(actived.value)) ||
      y == RefreshNodes || y == RefreshView
  {
  }

  /** The calls `build` makes, and whether it runs to the end. */
  function Plan<D>(list: Option<seq<D>>, value: Option<seq<NodeValue>>,
                   expanded: Option<seq<NodeValue>>, actived: Option<seq<NodeValue>>,
                   expandParent: bool, parents: map<NodeValue, seq<NodeValue>>): (seq<BuildStep<D>>, bool)
  {
    if !HasData(list) then ([], true)
    else if ExpandFails(expanded, expandParent, parents) then (Started(list.value, value), false)
    else (Started(list.value, value) + Finished(expanded, actived, expandParent, parents), true)
  }

  /** `build` from the data and the initial values. `value`, `expanded`
      and `actived` are None when they are not arrays. `parents` gives the
      ancestor values of the nodes the store holds once `list` is appended.
      A throw while computing the expanded list (`ok` false) leaves the
      store created and filled but never refreshed. */
  method Build<D>(list: Option<seq<D>>, value: Option<seq<NodeValue>>,
                  expanded: Option<seq<NodeValue>>, actived: Option<seq<NodeValue>>,
                  expandParent: bool, parents: map<NodeValue, seq<NodeValue>>)
    returns (steps: seq<BuildStep<D>>, ok: bool)
    ensures (steps, ok) == Plan(list, value, expanded, actived, expandParent, parents)
    ensures !HasData(list) ==> steps == [] && ok
    ensures ok <==> !(HasData(list) && ExpandFails(expanded, expandParent, parents))
  {
    if list.None? || |list.value| == 0 {
      return [], true;
    }
    steps := [CreateStore, Append(list.value)];
    if value.Some? {
      steps := steps + [SetCheckedValues(value.value)];
    }
    assert steps == Started(list.value, value);
    ghost var head := steps;
    if expanded.Some? {
      var r := ExpandedKeys(expanded.value, expandParent, parents);
      if r.TypeError? {
        return steps, false;
      }
      steps := steps + [SetExpandedValues(r.value)];
    }
    ghost var e := steps;
    if actived.Some? {
      steps := steps + [SetActivedValues(actived.value)];
    }
    ghost var a := steps;
    steps := steps + [RefreshNodes, RefreshView];
    assert steps == head + (e[|head|..] + a[|e|..] + [RefreshNodes, RefreshView]);
    ok := true;
  }

  /** With data, `build` first creates the store and appends the data;
      when it runs to the end, it finishes with `store.refreshNodes()` and
      `this.refresh()`. Without data it does nothing at all. */
  lemma PlanFrame<D>(list: Option<seq<D>>, value: Option<seq<NodeValue>>,
                     expanded: Option<seq<NodeValue>>, actived: Option<seq<NodeValue>>,
                     expandParent: bool, parents: map<NodeValue, seq<NodeValue>>)
    ensures var (steps, ok) := Plan(list, value, expanded, actived, expandParent, parents);
      (!HasData(list) ==> steps == []) &&
      (HasData(list) ==> |steps| >= 2 && steps[0] == CreateStore && steps[1] == Append(list.value)) &&
      (HasData(list) && ok ==> |steps| >= 4 && steps[|steps| - 2] == RefreshNodes && steps[|steps| - 1] == RefreshView) &&
      (RefreshView in steps <==> HasData(list) && ok)
  {
  }

  /** The calls come in the order of `build`, each at most once. */
  lemma PlanInOrder<D>(list: Option<seq<D>>, value: Option<seq<NodeValue>>,
                       expanded: Option<seq<NodeValue>>, actived: Option<seq<NodeValue>>,
                       expandParent: bool, parents: map<NodeValue, seq<NodeValue>>)
    ensures InOrder(Plan(list, value, expanded, actived, expandParent, parents).0)
  {
    if HasData(list) {
      var head := [CreateStore, Append(list.value)];
      var c := Optional(value.Some?, SetCheckedValues(if value.Some? then value.value else []));
      InOrderJoin(head, c, 2);
      if !ExpandFails(expanded, expandParent, parents) {
        var keys := if expanded.Some? then Keys(Visits(expanded.value, expandParent, parents)) else [];
        var e := Optional(expanded.Some?, SetExpandedValues(keys));
        var a := Optional(actived.Some?, SetActivedValues(if actived.Some? then actived.value else []));
        InOrderJoin(e, a, 4);
        InOrderJoin(e + a, [RefreshNodes, RefreshView], 5);
        InOrderJoin(head + c, e + a + [RefreshNodes, RefreshView], 3);
      }
    }
  }

  /** The checked values reach the store whenever `value` is an array and
      there is data, even when `build` later throws. */
  lemma PlanChecked<D>(list: Option<seq<D>>, value: Option<seq<NodeValue>>,
                       expanded: Option<seq<NodeValue>>, actived: Option<seq<NodeValue>>,
                       expandParent: bool, parents: map<NodeValue, seq<NodeValue>>)
    ensures forall vs :: SetCheckedValues(vs) in Plan(list, value, expanded, actived, expandParent, parents).0 <==>
      HasData(list) && value == Some(vs)
  {
    if HasData(list) {
      StartedMembers(list.value, value);
      FinishedMembers<D>(expanded, actived, expandParent, parents);
    }
  }

  /** The expanded list of ExpandedKeys reaches the store exactly when
      `expanded` is an array and `build` runs to the end. */
  lemma PlanExpanded<D>(list: Option<seq<D>>, value: Option<seq<NodeValue>>,
                        expanded: Option<seq<NodeValue>>, actived: Option<seq<NodeValue>>,
                        expandParent: bool, parents: map<NodeValue, seq<NodeValue>>)
    ensures var (steps, ok) := Plan(list, value, expanded, actived, expandParent, parents);
      forall ks :: SetExpandedValues(ks) in steps <==>
        HasData(list) && ok && expanded.Some? && ks == Keys(Visits(expanded.value, expandParent, parents))
  {
    if HasData(list) {
      StartedMembers(list.value, value);
      FinishedMembers<D>(expanded, actived, expandParent, parents);
    }
  }

  /** The actived values reach the store exactly when `actived` is an array
      and `build` runs to the end. */
  lemma PlanActived<D>(list: Option<seq<D>>, value: Option<seq<NodeValue>>,
                       expanded: Option<seq<NodeValue>>, actived: Option<seq<NodeValue>>,
                       expandParent: bool, parents: map<NodeValue, seq<NodeValue>>)
    ensures var (steps, ok) := Plan(list, value, expanded, actived, expandParent, parents);
      forall vs :: SetActivedValues(vs) in steps <==> HasData(list) && ok && actived == Some(vs)
  {
    if HasData(list) {
      StartedMembers(list.value, value);
      FinishedMembers<D>(expanded, actived, expandParent, parents);
    }
  }
}

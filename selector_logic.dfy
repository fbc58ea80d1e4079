/** The selection rule of the Selector component, stated on values:
    what `selectOption` computes and what it does to the component's
    internal state and to the log of host callbacks. */
module SelectorLogic {
  import opened JsValues
  import opened Lists

  /** A host callback invocation, in the order the component makes them. */
  datatype Call =
    | OnClick                                  // an Option's `onClick()`
    | OnChange(value: seq<Value>, option: Value) // `onChange({value, option})`

  /** The Selector properties the selection logic depends on. `value` is
      `Some` whenever the caller passed an array, even an empty one. */
  datatype SelectorProps = SelectorProps(
    value: Option<seq<Value>>,
    multiple: bool,
    disabled: bool,
    hasOnChange: bool)

  /** The internal selection state together with the callback log. */
  datatype Snapshot = Snapshot(state: seq<Value>, calls: seq<Call>)

  /** Initial internal state: `value ? value : []`. */
  function InitialState(value: Option<seq<Value>>): (r: seq<Value>)
    ensures r == Effective(value, [])
  {
    if value.Some? then value.value else []
  }

  /** The selection used for rendering and for the context: the caller's
      `value` when one is given, otherwise the internal state. */
  function Effective(value: Option<seq<Value>>, state: seq<Value>): (r: seq<Value>)
    ensures value.Some? ==> r == value.value
    ensures value.None? ==> r == state
  {
    if value.Some? then value.value else state
  }

  /** The `newValue` that `selectOption(option)` computes from the current
      selection, or `None` when it computes none. It flips the membership
      of `option`; in multi mode every other element keeps its membership,
      in single mode the result is `option` alone. */
  function NextValue(selected: seq<Value>, multiple: bool, option: Value): (r: Option<seq<Value>>)
    ensures r.None? <==> Falsy(option) || (!multiple && option in selected)
    ensures r.Some? ==> (option in r.value <==> option !in selected)
    ensures r.Some? && multiple ==>
      forall y :: y != option ==> (y in r.value <==> y in selected)
    ensures r.Some? && !multiple ==> r.value == [option]
  {
    if Falsy(option) then None
    else if multiple then
      if option in selected then Some(Without(selected, option))
      else Some(selected + [option])
    else if option !in selected then Some([option])
    else None
  }

  /** What one `selectOption(option)` call does to the internal state and
      the callback log, given the props of the render it belongs to. The
      log only grows, by at most one `onChange` that reports the new state. */
  function Select(p: SelectorProps, st: Snapshot, option: Value): (r: Snapshot)
    ensures |st.calls| <= |r.calls| <= |st.calls| + 1 && r.calls[..|st.calls|] == st.calls
    ensures |r.calls| == |st.calls| + 1 ==> r.calls[|st.calls|] == OnChange(r.state, option)
  {
    match NextValue(Effective(p.value, st.state), p.multiple, option)
    case None => st
    case Some(v) =>
      Snapshot(v, st.calls + if p.hasOnChange then [OnChange(v, option)] else [])
  }

  /** The selection of an uncontrolled Selector after one click. */
  function Step(selected: seq<Value>, multiple: bool, option: Value): seq<Value> {
    match NextValue(selected, multiple, option)
    case None => selected
    case Some(v) => v
  }

  /** The selection of an uncontrolled Selector after a series of clicks. */
  function StepAll(selected: seq<Value>, multiple: bool, options: seq<Value>): seq<Value>
    decreases |options|
  {
    if options == [] then selected
    else StepAll(Step(selected, multiple, options[0]), multiple, options[1..])
  }

  // ---------------------------------------------------------------------
  // Properties of one call

  /** A falsy option is ignored: no new value, so the state and the
      callback log stay as they are. */
  lemma FalsyIsIgnored(p: SelectorProps, st: Snapshot, option: Value)
    requires Falsy(option)
    ensures Select(p, st, option) == st
  {
  }

  /** Multi mode, option present: the new value is the selection with every
      occurrence removed and the others in their original order. */
  lemma MultiRemovesInOrder(selected: seq<Value>, option: Value)
    requires !Falsy(option) && option in selected
    ensures NextValue(selected, true, option) == Some(Without(selected, option))
    ensures option !in NextValue(selected, true, option).value
    ensures exists idx :: PicksOthersInOrder(NextValue(selected, true, option).value, selected, option, idx)
    ensures |NextValue(selected, true, option).value| < |selected|
  {
    KeepsOthersInOrder(selected, option);
  }

  /** Multi mode, option absent: the option is appended; earlier elements
      keep their positions. */
  lemma MultiAppends(selected: seq<Value>, option: Value)
    requires !Falsy(option) && option !in selected
    ensures NextValue(selected, true, option).Some?
    ensures |NextValue(selected, true, option).value| == |selected| + 1
    ensures NextValue(selected, true, option).value[..|selected|] == selected
    ensures NextValue(selected, true, option).value[|selected|] == option
  {
  }

  /** Multi mode: toggling an absent option twice restores the selection. */
  lemma {:induction false} MultiToggleTwice(selected: seq<Value>, option: Value)
    requires !Falsy(option) && option !in selected
    ensures NextValue(selected, true, option).Some?
    ensures NextValue(NextValue(selected, true, option).value, true, option) == Some(selected)
  {
    var once := selected + [option];
    assert option in once;
    WithoutConcat(selected, [option], option);
    WithoutAbsent(selected, option);
    assert Without([option], option) == [];
    assert Without(once, option) == selected;
  }

  /** Multi mode keeps a duplicate-free selection duplicate-free. */
  lemma MultiKeepsNoDup(selected: seq<Value>, option: Value)
    requires NoDup(selected) && !Falsy(option)
    ensures NextValue(selected, true, option).Some?
    ensures NoDup(NextValue(selected, true, option).value)
  {
    if option in selected {
      WithoutKeepsNoDup(selected, option);
    } else {
      AppendKeepsNoDup(selected, option);
    }
  }

  /** Single mode: a member is a no-op, anything else becomes the whole
      selection. */
  lemma SingleReplaces(p: SelectorProps, st: Snapshot, option: Value)
    requires !p.multiple && !Falsy(option)
    ensures option in Effective(p.value, st.state) ==> Select(p, st, option) == st
    ensures option !in Effective(p.value, st.state) ==>
      Select(p, st, option).state == [option] && |Select(p, st, option).state| == 1
  {
  }

  /** A new value, when computed, becomes the internal state and is
      reported once through `onChange` (when given) with the option;
      otherwise nothing happens. */
  lemma ChangeIsReported(p: SelectorProps, st: Snapshot, option: Value)
    ensures var nv := NextValue(Effective(p.value, st.state), p.multiple, option);
      && (nv.None? ==> Select(p, st, option) == st)
      && (nv.Some? ==> Select(p, st, option).state == nv.value)
      && (nv.Some? && p.hasOnChange ==>
            Select(p, st, option).calls == st.calls + [OnChange(nv.value, option)])
      && (nv.Some? && !p.hasOnChange ==> Select(p, st, option).calls == st.calls)
  {
  }

  /** A controlled Selector keeps showing the caller's value, whatever
      `selectOption` writes to the internal state. */
  lemma ControlledSelectionIsValue(p: SelectorProps, st: Snapshot, option: Value)
    requires p.value.Some?
    ensures Effective(p.value, Select(p, st, option).state) == p.value.value
  {
  }

  /** An uncontrolled Selector shows exactly what `Step` predicts. */
  lemma UncontrolledFollowsStep(p: SelectorProps, st: Snapshot, option: Value)
    requires p.value.None?
    ensures Effective(p.value, Select(p, st, option).state) == Step(st.state, p.multiple, option)
  {
  }

  // ---------------------------------------------------------------------
  // Properties of a series of clicks on an uncontrolled Selector

  /** Single mode: starting from at most one selected option, the last
      click decides the selection. */
  lemma {:induction false} SingleLastClickWins(selected: seq<Value>, options: seq<Value>)
    requires |selected| <= 1 && options != []
    requires forall i :: 0 <= i < |options| ==> !Falsy(options[i])
    ensures StepAll(selected, false, options) == [options[|options| - 1]]
    decreases |options|
  {
    var next := Step(selected, false, options[0]);
    assert next == [options[0]];
    if |options| > 1 {
      SingleLastClickWins(next, options[1..]);
    }
  }

  /** Single mode: at most one option stays selected. */
  lemma {:induction false} SingleKeepsAtMostOne(selected: seq<Value>, options: seq<Value>)
    requires |selected| <= 1
    ensures |StepAll(selected, false, options)| <= 1
    decreases |options|
  {
    if options != [] {
      SingleKeepsAtMostOne(Step(selected, false, options[0]), options[1..]);
    }
  }

  /** Multi mode: every option is selected at most once. */
  lemma {:induction false} MultiKeepsNoDupAll(selected: seq<Value>, options: seq<Value>)
    requires NoDup(selected)
    ensures NoDup(StepAll(selected, true, options))
    decreases |options|
  {
    if options != [] {
      if !Falsy(options[0]) {
        MultiKeepsNoDup(selected, options[0]);
      }
      MultiKeepsNoDupAll(Step(selected, true, options[0]), options[1..]);
    }
  }
}

/** The Option leaf: its selected flag, its status style and what a click
    on it does. */
module OptionComponent {
  import opened JsValues
  import opened SelectorLogic
  import opened SelectorComponent

  /** The Option properties the logic depends on. */
  datatype OptionProps = OptionProps(disabled: bool, hasOnClick: bool, option: Value)

  /** The four status styles (their CSS contents are not modelled). */
  datatype Style = StyleDisabled | StyleMultiSelected | StyleSelected | StyleOption

  /** A side effect of the click handler. */
  datatype Effect = InvokeOnClick | InvokeSelectOption(option: Value)

  /** `selected.includes(option)`. */
  predicate IsSelected(ctx: SelectorContext, option: Value)
    ensures IsSelected(ctx, option) <==>
      exists i :: 0 <= i < |ctx.selected| && ctx.selected[i] == option
  {
    option in ctx.selected
  }

  /** The status style. It is DISABLED exactly when either is disabled, and
      it is one of the two selected styles exactly when an enabled Option's
      `selected` flag is set, the multi one exactly in multi mode. */
  function StatusStyle(ctx: SelectorContext, props: OptionProps): (r: Style)
    ensures r == StyleDisabled <==> props.disabled || ctx.disabled
    ensures r in {StyleSelected, StyleMultiSelected} <==>
      !props.disabled && !ctx.disabled && IsSelected(ctx, props.option)
    ensures r == StyleMultiSelected ==> ctx.multiple
    ensures r == StyleSelected ==> !ctx.multiple
  {
    if props.disabled || ctx.disabled then StyleDisabled
    else if IsSelected(ctx, props.option) then
      if ctx.multiple then StyleMultiSelected else StyleSelected
    else StyleOption
  }

  /** The effects of one click, in the order the handler performs them:
      none when the Selector or the Option is disabled; otherwise the
      caller's `onClick` (when given) and then `selectOption(option)`. */
  function ClickEffects(ctx: SelectorContext, props: OptionProps): (r: seq<Effect>)
    ensures r == [] <==> ctx.disabled || props.disabled
    ensures r != [] ==> r[|r| - 1] == InvokeSelectOption(props.option)
    ensures InvokeOnClick in r <==> r != [] && props.hasOnClick
    ensures r != [] ==> |r| == if props.hasOnClick then 2 else 1
    ensures InvokeOnClick in r ==> r[0] == InvokeOnClick
  {
    if ctx.disabled || props.disabled then []
    else (if props.hasOnClick then [InvokeOnClick] else []) + [InvokeSelectOption(props.option)]
  }

  function Perform(p: SelectorProps, st: Snapshot, e: Effect): Snapshot {
    match e
    case InvokeOnClick => st.(calls := st.calls + [OnClick])
    case InvokeSelectOption(option) => Select(p, st, option)
  }

  /** The effects performed one after the other. */
  function PerformAll(p: SelectorProps, st: Snapshot, effects: seq<Effect>): Snapshot
    decreases |effects|
  {
    if effects == [] then st else PerformAll(p, Perform(p, st, effects[0]), effects[1..])
  }

  /** The `clickHandler` of an Option under the Selector `sel`. */
  method Click(sel: Selector, props: OptionProps)
    modifies sel
    ensures sel.props == old(sel.props)
    ensures sel.Observed() == PerformAll(sel.props, old(sel.Observed()), ClickEffects(old(sel.Context()), props))
  {
    ghost var effects := ClickEffects(sel.Context(), props);
    if sel.props.disabled || props.disabled {
      return;
    }
    if props.hasOnClick {
      sel.callbacks := sel.callbacks + [OnClick];
    }
    ghost var mid := sel.Observed();
    sel.SelectOption(props.option);
    assert sel.Observed() == PerformAll(sel.props, mid, [InvokeSelectOption(props.option)]);
  }

  // ---------------------------------------------------------------------
  // Properties

  /** The status style in its priority order: disabled first, then
      selected in multi mode, then selected, then plain. */
  lemma StatusStyleByPriority(ctx: SelectorContext, props: OptionProps)
    ensures StatusStyle(ctx, props) == StyleDisabled <==> props.disabled || ctx.disabled
    ensures StatusStyle(ctx, props) == StyleMultiSelected <==>
      !props.disabled && !ctx.disabled && IsSelected(ctx, props.option) && ctx.multiple
    ensures StatusStyle(ctx, props) == StyleSelected <==>
      !props.disabled && !ctx.disabled && IsSelected(ctx, props.option) && !ctx.multiple
    ensures StatusStyle(ctx, props) == StyleOption <==>
      !props.disabled && !ctx.disabled && !IsSelected(ctx, props.option)
  {
  }

  /** An Option is drawn disabled exactly when clicking it does nothing. */
  lemma DisabledLookIffInert(ctx: SelectorContext, props: OptionProps)
    ensures StatusStyle(ctx, props) == StyleDisabled <==> ClickEffects(ctx, props) == []
  {
  }

  /** A suppressed click leaves the state and the callback log alone. */
  lemma SuppressedClickDoesNothing(p: SelectorProps, st: Snapshot, props: OptionProps)
    requires p.disabled || props.disabled
    ensures PerformAll(p, st, ClickEffects(ContextOf(p, st.state), props)) == st
  {
  }

  /** An enabled click logs `onClick` (when given) before anything that
      `selectOption` does, and then does exactly what `selectOption` does. */
  lemma EnabledClickOrder(p: SelectorProps, st: Snapshot, props: OptionProps)
    requires !p.disabled && !props.disabled
    ensures PerformAll(p, st, ClickEffects(ContextOf(p, st.state), props)) ==
      Select(p, st.(calls := st.calls + if props.hasOnClick then [OnClick] else []), props.option)
  {
    var effects := ClickEffects(ContextOf(p, st.state), props);
    var sel := [InvokeSelectOption(props.option)];
    var st1 := st.(calls := st.calls + if props.hasOnClick then [OnClick] else []);
    assert PerformAll(p, st1, sel) == Select(p, st1, props.option) by {
      assert sel[1..] == [];
    }
    if props.hasOnClick {
      assert effects == [InvokeOnClick] + sel;
      assert effects[1..] == sel;
      assert Perform(p, st, effects[0]) == st1;
    } else {
      assert effects == sel;
      assert st1 == st;
    }
  }

  /** In an uncontrolled Selector, clicking an enabled, truthy option flips
      its status between multi-selected and plain in multi mode, and makes
      it the selected one in single mode. */
  lemma ClickUpdatesStatus(p: SelectorProps, st: Snapshot, props: OptionProps)
    requires p.value.None? && !p.disabled && !props.disabled && !Falsy(props.option)
    ensures var after := PerformAll(p, st, ClickEffects(ContextOf(p, st.state), props));
      var was := IsSelected(ContextOf(p, st.state), props.option);
      StatusStyle(ContextOf(p, after.state), props) ==
        if !p.multiple then StyleSelected
        else if was then StyleOption else StyleMultiSelected
  {
    EnabledClickOrder(p, st, props);
  }

  /** In a controlled Selector no click changes any Option's status. */
  lemma ControlledClickKeepsStatus(p: SelectorProps, st: Snapshot, clicked: OptionProps, other: OptionProps)
    requires p.value.Some?
    ensures var after := PerformAll(p, st, ClickEffects(ContextOf(p, st.state), clicked));
      StatusStyle(ContextOf(p, after.state), other) == StatusStyle(ContextOf(p, st.state), other)
  {
    if !p.disabled && !clicked.disabled {
      EnabledClickOrder(p, st, clicked);
    }
  }
}

/** The Selector container: its internal selection state, the selection
    it exposes through its context, and the `selectOption` capability. */
module SelectorComponent {
  import opened JsValues
  import opened Lists
  import opened SelectorLogic

  /** What a Selector's context gives its Options (`selectOption` is the
      Selector's method of that name). */
  datatype SelectorContext = SelectorContext(selected: seq<Value>, disabled: bool, multiple: bool)

  /** The context a render with props `p` and internal state `state` builds. */
  function ContextOf(p: SelectorProps, state: seq<Value>): (r: SelectorContext)
    ensures p.value.Some? ==> r.selected == p.value.value
    ensures p.value.None? ==> r.selected == state
    ensures r.disabled == p.disabled && r.multiple == p.multiple
  {
    SelectorContext(Effective(p.value, state), p.disabled, p.multiple)
  }

  class Selector {
    /** The props of the latest render. */
    var props: SelectorProps
    /** `selectedState`, held by `useState`. */
    var selectedState: seq<Value>
    /** The host callbacks invoked so far, in order. */
    var callbacks: seq<Call>

    /** First render: the state starts as `value`, or `[]` without one. */
    constructor (props: SelectorProps)
      ensures this.props == props && callbacks == []
      ensures selectedState == InitialState(props.value)
      ensures Selected() == if props.value.Some? then props.value.value else []
    {
      this.props := props;
      selectedState := if props.value.Some? then props.value.value else [];
      callbacks := [];
    }

    /** The effective `selected`. */
    function Selected(): seq<Value>
      reads this
    {
      Effective(props.value, selectedState)
    }

    function Context(): SelectorContext
      reads this
    {
      ContextOf(props, selectedState)
    }

    function Observed(): Snapshot
      reads this
    {
      Snapshot(selectedState, callbacks)
    }

    /** A later render with new props: `useState` keeps its state, so a
        changed `value` does not reset the internal state. */
    method Render(props: SelectorProps)
      modifies this
      ensures this.props == props
      ensures selectedState == old(selectedState) && callbacks == old(callbacks)
    {
      this.props := props;
    }

    /** `selectOption(option)` of the context built by the latest render. */
    method SelectOption(option: Value)
      modifies this
      ensures props == old(props)
      ensures Observed() == Select(props, old(Observed()), option)
      ensures props.value.Some? ==> Selected() == props.value.value
      ensures props.value.None? ==> Selected() == Step(old(Selected()), props.multiple, option)
    {
      if Falsy(option) {
        return;
      }
      var selected := Selected();
      var newValue: Option<seq<Value>> := None;
      if props.multiple {
        newValue := if option in selected then Some(Without(selected, option))
                    else Some(selected + [option]);
      } else if option !in selected {
        newValue := Some([option]);
      }
      if newValue.Some? {
        selectedState := newValue.value;
        if props.hasOnChange {
          callbacks := callbacks + [OnChange(newValue.value, option)];
        }
      }
    }
  }

  /** Single mode, options a, b, c: click b, click c, click c again. */
  method SingleModeScenario() returns (selected: seq<Value>, calls: seq<Call>)
    ensures selected == [Str("c")]
    ensures calls == [OnChange([Str("b")], Str("b")), OnChange([Str("c")], Str("c"))]
  {
    var s := new Selector(SelectorProps(None, false, false, true));
    s.SelectOption(Str("b"));
    s.SelectOption(Str("c"));
    s.SelectOption(Str("c"));
    selected, calls := s.Selected(), s.callbacks;
  }

  /** Multi mode, options a, b, c: click a, click c, click a again. */
  method MultiModeScenario() returns (selected: seq<Value>, calls: seq<Call>)
    ensures selected == [Str("c")]
    ensures calls == [OnChange([Str("a")], Str("a")),
                      OnChange([Str("a"), Str("c")], Str("c")),
                      OnChange([Str("c")], Str("a"))]
  {
    var s := new Selector(SelectorProps(None, true, false, true));
    s.SelectOption(Str("a"));
    assert s.Selected() == [Str("a")];
    assert s.callbacks == [OnChange([Str("a")], Str("a"))];
    s.SelectOption(Str("c"));
    assert s.Selected() == [Str("a"), Str("c")];
    assert s.callbacks == [OnChange([Str("a")], Str("a")), OnChange([Str("a"), Str("c")], Str("c"))];
    assert Without([Str("a"), Str("c")], Str("a")) == [Str("c")] by {
      assert [Str("a"), Str("c")][1..] == [Str("c")];
      assert [Str("c")][1..] == [];
    }
    s.SelectOption(Str("a"));
    selected, calls := s.Selected(), s.callbacks;
  }

  /** A controlled Selector with a two-element `value` in single mode:
      clicking either member does nothing. */
  method ControlledMemberScenario() returns (selected: seq<Value>, calls: seq<Call>)
    ensures selected == [Str("a"), Str("b")] && calls == []
  {
    var s := new Selector(SelectorProps(Some([Str("a"), Str("b")]), false, false, true));
    s.SelectOption(Str("b"));
    s.SelectOption(Str("a"));
    selected, calls := s.Selected(), s.callbacks;
  }
}

# amp-selector 1.0: selection logic

A Dafny model of the selection logic of the `Selector` and `Option`
components of `amp-selector` 1.0 (a Preact listbox). A `Selector` holds the
selected option identities as an ordered list, either controlled by the
caller's `value` prop or kept in its own `useState`; its context gives
descendant `Option`s the effective selection and a `selectOption` toggle.
An `Option` derives a selected flag and one of four status styles, and on a
click runs the caller's `onClick` and then `selectOption`.

Modules:

- `JsValues` (`values.dfy`): option identities as JavaScript values and the
  truthiness test behind `!option`.
- `Lists` (`lists.dfy`): `filter((v) => v != x)` as `Without`, with its
  order-preservation, concatenation and duplicate-freedom lemmas.
- `SelectorLogic` (`selector_logic.dfy`): the pure rule: `NextValue` (the
  `newValue` of `selectOption`), `Select` (its effect on the internal state
  and the callback log), and `Step`/`StepAll` for runs of clicks.
- `SelectorComponent` (`selector.dfy`): the `Selector` class with its props,
  `selectedState` and a log of the host callbacks invoked; `SelectOption` is
  the imperative toggle, proved to do what `Select` says.
- `OptionComponent` (`option.dfy`): `IsSelected`, `StatusStyle`,
  `ClickEffects` (the ordered effects of a click) and the `Click` handler,
  proved to perform exactly those effects.

Three behaviours of the code a reader may not expect:

- In single mode the code's no-op test is `selected.includes(option)`, not
  "the option is the only selection". With a controlled multi-element
  `value`, clicking any member does nothing (`ControlledMemberScenario`).
- The code calls `setSelectedState` in controlled mode too. The internal
  state changes, but the effective selection stays the caller's `value`.
- Single mode need not hold at most one element: the code keeps that only
  when the selection starts with at most one element
  (`SingleKeepsAtMostOne`), and an initial or controlled `value` may hold more.

The callbacks `onClick` and `onChange` are foreign calls. They are recorded,
in order, in the `callbacks` log of the `Selector` (`Call.OnClick`,
`Call.OnChange(value, option)`), and their effects are not modelled.

## Model

| member | source | states |
|---|---|---|
| `JsValues.Falsy` | extensions/amp-selector/1.0/selector.js:45 | the `!option` test holds exactly for `undefined`, `null`, `false`, `0` and `""`; objects and arrays are never falsy |
| `SelectorLogic.InitialState` | extensions/amp-selector/1.0/selector.js:38 | the internal state starts as what the Selector shows with an empty state: `value` when given, else `[]` |
| `SelectorLogic.Effective` | extensions/amp-selector/1.0/selector.js:40 | the effective selection is the caller's `value` when given, otherwise the internal state |
| `SelectorComponent.ContextOf` | extensions/amp-selector/1.0/selector.js:41-65 | the context carries the effective selection and the Selector's `disabled` and `multiple` flags |
| `OptionComponent.IsSelected` | extensions/amp-selector/1.0/selector.js:114 | an Option is selected exactly when some position of the selection holds its identity |
| `OptionComponent.StatusStyle` | extensions/amp-selector/1.0/selector.js:115-122 | DISABLED exactly when either is disabled; a selected style exactly when an enabled Option is selected, MULTI_SELECTED only in multi mode and SELECTED only in single mode |
| `Lists.Without` | extensions/amp-selector/1.0/selector.js:51 | the filtered list holds exactly the elements other than the option, and is strictly shorter when the option was present |
| `Lists.KeepsOthersInOrder` | extensions/amp-selector/1.0/selector.js:51 | filtering drops every occurrence of the option and lists every other element in its original relative order (a strictly increasing index embedding covering all other positions) |
| `Lists.OrderWitness` | extensions/amp-selector/1.0/selector.js:51 | builds that index embedding for any list |
| `Lists.WithoutAbsent` | extensions/amp-selector/1.0/selector.js:51 | filtering out an absent element returns the list unchanged |
| `Lists.WithoutConcat` | extensions/amp-selector/1.0/selector.js:51 | filtering distributes over concatenation |
| `Lists.WithoutKeepsNoDup` | extensions/amp-selector/1.0/selector.js:51 | filtering a duplicate-free list leaves it duplicate-free |
| `SelectorLogic.NextValue` | extensions/amp-selector/1.0/selector.js:44-55 | no new value exactly when the option is falsy or (single mode) already a member; otherwise the option's membership flips, every other element keeps its membership in multi mode, and in single mode the value is the option alone |
| `SelectorLogic.Select` | extensions/amp-selector/1.0/selector.js:56-61 | the callback log only grows, by at most one `onChange` call, and that call reports the new internal state and the option |
| `SelectorLogic.FalsyIsIgnored` | extensions/amp-selector/1.0/selector.js:45-47 | a falsy option leaves the state and the callback log untouched |
| `SelectorLogic.MultiRemovesInOrder` | extensions/amp-selector/1.0/selector.js:50-51 | multi mode, option present: the new value is the selection minus every occurrence of the option, others in their original order, and it is shorter |
| `SelectorLogic.MultiAppends` | extensions/amp-selector/1.0/selector.js:50-52 | multi mode, option absent: the new value is one longer, its prefix is the old selection and its last element is the option |
| `SelectorLogic.MultiToggleTwice` | extensions/amp-selector/1.0/selector.js:49-52 | multi mode: toggling an absent option twice gives back the original selection |
| `SelectorLogic.MultiKeepsNoDup` | extensions/amp-selector/1.0/selector.js:49-52 | multi mode: a duplicate-free selection stays duplicate-free after one toggle |
| `SelectorLogic.MultiKeepsNoDupAll` | extensions/amp-selector/1.0/selector.js:44-62 | multi mode, uncontrolled: a duplicate-free selection stays duplicate-free over any series of clicks |
| `SelectorLogic.SingleReplaces` | extensions/amp-selector/1.0/selector.js:53-55 | single mode: a member is a no-op on state and log; otherwise the state becomes exactly `[option]`, of length 1 |
| `SelectorLogic.ChangeIsReported` | extensions/amp-selector/1.0/selector.js:56-61 | a computed value becomes the internal state and is reported once through `onChange` with the option when `onChange` is given; without a new value nothing changes |
| `SelectorLogic.ControlledSelectionIsValue` | extensions/amp-selector/1.0/selector.js:38-57 | with a `value` prop the effective selection is that value even after `selectOption` writes the internal state |
| `SelectorLogic.UncontrolledFollowsStep` | extensions/amp-selector/1.0/selector.js:38-61 | without a `value` prop the effective selection after a click is the internal state that `Step` predicts |
| `SelectorLogic.SingleLastClickWins` | extensions/amp-selector/1.0/selector.js:53-57 | single mode, uncontrolled, starting with at most one selected: after a series of truthy clicks the selection is exactly the last clicked option |
| `SelectorLogic.SingleKeepsAtMostOne` | extensions/amp-selector/1.0/selector.js:53-57 | single mode, uncontrolled, starting with at most one selected: at most one option stays selected over any series of clicks |
| `SelectorComponent.Selector.constructor` | extensions/amp-selector/1.0/selector.js:38-40 | the internal state starts as `value`, or `[]` without one, and the log is empty |
| `SelectorComponent.Selector.Render` | extensions/amp-selector/1.0/selector.js:38-40 | a re-render takes new props and keeps the internal state and log (`useState` initialises once) |
| `SelectorComponent.Selector.SelectOption` | extensions/amp-selector/1.0/selector.js:44-62 | the new state and log are exactly `Select` of the old ones; a controlled Selector keeps showing `value`, an uncontrolled one shows `Step` of its old selection |
| `SelectorComponent.SingleModeScenario` | extensions/amp-selector/1.0/selector.js:53-60 | single mode: clicking b, c, c selects `[c]` and reports two changes, none for the repeated click |
| `SelectorComponent.MultiModeScenario` | extensions/amp-selector/1.0/selector.js:49-60 | multi mode: clicking a, c, a goes through `[a]`, `[a, c]`, `[c]`, reporting each change |
| `SelectorComponent.ControlledMemberScenario` | extensions/amp-selector/1.0/selector.js:40-55 | single mode with a controlled two-element `value`: clicking either member changes nothing and reports nothing |
| `OptionComponent.ClickEffects` | extensions/amp-selector/1.0/selector.js:105-113 | no effect exactly when the Selector or the Option is disabled; otherwise `selectOption(option)` is last, preceded by `onClick` exactly when one is given |
| `OptionComponent.Click` | extensions/amp-selector/1.0/selector.js:105-113 | the handler's effect on the Selector's state and log is exactly `ClickEffects` performed in order |
| `OptionComponent.StatusStyleByPriority` | extensions/amp-selector/1.0/selector.js:114-122 | each of the four styles holds exactly under its condition: DISABLED if either is disabled, else MULTI_SELECTED for a member in multi mode, else SELECTED for a member, else OPTION |
| `OptionComponent.DisabledLookIffInert` | extensions/amp-selector/1.0/selector.js:105-122 | an Option is styled DISABLED exactly when a click on it has no effect |
| `OptionComponent.SuppressedClickDoesNothing` | extensions/amp-selector/1.0/selector.js:105-108 | a click on a disabled Selector or Option changes neither the state nor the log (no `onClick`, no `onChange`) |
| `OptionComponent.EnabledClickOrder` | extensions/amp-selector/1.0/selector.js:109-112 | an enabled click logs `onClick` when given and then does exactly what `selectOption(option)` does |
| `OptionComponent.ClickUpdatesStatus` | extensions/amp-selector/1.0/selector.js:105-122 | uncontrolled, enabled, truthy option: after a click the style is SELECTED in single mode, and in multi mode flips between MULTI_SELECTED and OPTION |
| `OptionComponent.ControlledClickKeepsStatus` | extensions/amp-selector/1.0/selector.js:112-122 | under a controlled Selector no click changes the style of any Option |

## Left out

- Rendering: the JSX elements, the `as` component, the `rest` and `props` spreads, and the `role` and ARIA attributes passed through (lines 69-82, 123-132). These are view construction done by the framework.
- Context propagation and `useMemo`: the context is a plain value (`ContextOf`). The model assumes that the re-render triggered by `setSelectedState` happens before the next click: a second `SelectOption` sees the state the first one wrote. Two clicks handled before that re-render, which would both see the same stale `selected`, are not modelled.
- The style objects of `selector.css`: their contents are not part of this model. They are the four values of `Style`, and the merge with the caller's `style` is left out.
- An `Option` with no ancestor `Selector`: `selected` is then undefined and `.includes` throws. The code defines no behaviour for this case.
- `concat` flattening an array-valued option, and the loose `!=` in the filter. Options are compared with plain equality.
- Numbers are integers. `NaN` and fractions are not represented, so `Falsy` covers `undefined`, `null`, `false`, `0` and `""`.
- The callbacks' own effects: `onClick` and `onChange` only appear as entries of the callback log.

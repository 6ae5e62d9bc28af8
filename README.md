# sugar view updater and `v-if` directive, in Dafny

This project models the part of the sugar MVVM library that turns a changed
binding into a change of the DOM. It has two components:

- **The view updater** (`src/mvvm/updater.js`) has one rule per view effect:
  show/hide through inline `display`, conditional content rendered from
  memoised markup, attributes, class tokens, single style properties, and
  the value/checked/selected state of text, radio, checkbox and select
  controls. The display and render rules also treat an else-marked next
  element sibling inversely.
- **The `v-if` directive** (`src/mvvm/directives/if.js`) caches an element's
  content at parse time, together with the content of an immediately
  following `v-else` element. On each update it renders a compiled copy of
  the cache into the element, or empties the element. It does the opposite
  to the paired element.

Both components tear down the element registry (name → element, or null)
when content is discarded. They set to null every registered name that a
`v-el` attribute carries anywhere in the discarded fragment.

Modules:

- `Js` (js.dfy): the JavaScript values bindings carry, truthiness, `===`,
  `String(v)`, unary `+`, `indexOf` and `split(' ')`.
- `Dom` (dom.dfy): content trees as values, attribute lists, and the
  live `Node` class whose fields the updater assigns. It also holds
  `FirstElement`, the DOM's `nextElementSibling`.
- `Registers` (registers.dfy): the registry class and its teardown walk, which
  both components share. It also holds the walk's specification `Nulled`
  over `VelNames`, and the lemmas about them.
- `Vm` (vm.dfy): the view model, with its two registries (`$regElements`
  and `$data.$els`) and its two compiler entry points.
- `ViewUpdater` (updater.dfy): the module-level helpers of updater.js, and
  the `Updater` class.
- `IfDirective` (vif.dfy): the `VIf` class, and lemmas about histories of
  toggles.

Representation choices:

- A node's content and every fragment is a value (`seq<Tree>`). A deep
  clone is therefore a copy, and the cached fragments cannot be changed by
  rendering.
- A node's later siblings are passed as a sequence `following`. This
  sequence stands in for its `nextSibling` chain.
- `__render` holds markup. The model holds the content that markup parses
  to, so `stringToFragment(node.innerHTML)` is that content.

Notes on the code as written:

- `updateStyle` compares against the inline `node.style` value.
- The updater's `toggleRender` does not empty the node. Only
  `setRenderContent` does.
- The directive's `toggle` does not empty before rendering. So two renders
  in a row leave two compiled copies (`RendersAccumulate`).

## Model

| member | source | states |
|---|---|---|
| `Registers.Registry.RemoveDOMRegister` | src/mvvm/updater.js:13-37 | the registry afterwards is the old one with exactly the already-registered names carried by a `v-el` attribute of an element anywhere in the fragment set to null (the same walk as src/mvvm/directives/if.js:10-38, run on the other registry) |
| `Registers.NulledSpec` | src/mvvm/directives/if.js:26-31 | teardown keeps the key set (never adds or deletes), nulls each named registered key, and leaves every other entry unchanged |
| `Registers.NulledIdempotent` | src/mvvm/directives/if.js:10-38 | tearing down the same fragment twice leaves the registry as tearing it down once |
| `Registers.NulledTwice` | src/mvvm/updater.js:33-35 | a teardown followed by a teardown of nested content equals one teardown of both name sets, which is how the recursive call composes |
| `Registers.VelNamesReachEveryDepth` | src/mvvm/directives/if.js:34-36 | an element at any depth of the fragment, reached by any path of child positions, has its `v-el` name in the set the walk nulls |
| `Registers.VelNamesAreRegisteredSomewhere` | src/mvvm/directives/if.js:17-31 | conversely, every name the walk nulls is carried by an element (never a text node) at some path |
| `Dom.FirstElement` | src/mvvm/directives/if.js:55 | `nextElementSibling`: null iff no following sibling is an element, else the first following element, with every sibling before it a non-element |
| `ViewUpdater.GetNextSiblingElement` | src/mvvm/updater.js:58-74 | the sibling loop returns the same node as `nextElementSibling` (first following element, or null when there is none) |
| `ViewUpdater.HandleClass` | src/mvvm/updater.js:45-53 | the class set afterwards is the old one plus (or, when removing, minus) every token of the space-split class list |
| `Js.Split` | src/mvvm/updater.js:46 | `split(' ')` gives at least one piece and no piece contains a space |
| `Js.JoinSplit` | src/mvvm/updater.js:46 | joining the pieces of `split(' ')` with single spaces gives the string back |
| `Js.SplitJoin` | src/mvvm/updater.js:46 | splitting a space-joined list of space-free pieces gives the pieces back |
| `ViewUpdater.VisibleMemoAsWritten` | src/mvvm/updater.js:82-101 | as written, a non-empty memo is kept and `none` is never stored; an inline `none` leaves the memo as it was, unset included |
| `ViewUpdater.DisplayRequestAsWritten` | src/mvvm/updater.js:150-151 | as written, hiding requests `none`; showing requests the as-written memo (a non-empty memo as it is), and requests `undefined` only for an element with no memo whose inline display is `none` |
| `ViewUpdater.ShowingHiddenInlineRequestsUndefined` | src/mvvm/updater.js:97-99 | showing an element with inline `display: none` and no memo requests `display = undefined`, where the corrected memo gives `''` |
| `ViewUpdater.HiddenInlineLeavesVisibleUnset` | src/mvvm/updater.js:97-99 | for every style whose inline display is `none`, an element with no memo is left with no memo at all |
| `ViewUpdater.VisibleMemo` | src/mvvm/updater.js:82-101 | corrected memo: always set, never `none`, a non-empty memo is never replaced, an empty one takes the inline display (or `''` when that is absent or `none`); it agrees with the code whenever the inline display is not `none` |
| `ViewUpdater.SetVisibleDisplay` | src/mvvm/updater.js:82-101 | the node's `__visible` becomes the corrected memo of its old value and its inline style |
| `ViewUpdater.RenderMemo` | src/mvvm/updater.js:107-109 | the markup memo is always set afterwards; a non-empty memo is never replaced; an empty or unset one takes the current content |
| `ViewUpdater.SetRenderContent` | src/mvvm/updater.js:106-111 | `__render` becomes that memo and the node is left with no children |
| `ViewUpdater.Updater.UpdateStyle` | src/mvvm/updater.js:251-255 | the property reads the requested value afterwards; a write happens iff it read differently before, and with no write the style is unchanged; every other property reads as before |
| `ViewUpdater.IfPairedIsElseMarked` | src/mvvm/updater.js:154 | the updater's else test (also at line 172) accepts every sibling the `v-if` directive pairs by its `v-else` attribute (src/mvvm/directives/if.js:61), and also a sibling tagged only by `__directive`, which the directive leaves unpaired |
| `ViewUpdater.Updater.constructor` | src/mvvm/updater.js:117-119 | the updater keeps the view model it is given |
| `ViewUpdater.Updater.UpdateDisplay` | src/mvvm/updater.js:147-158 | built on the corrected memo of the Findings row: the node's display is its memo when shown and `none` when hidden, so it is shown iff `show`; an else-marked (attribute or `__directive`) next element sibling gets the inverse, from its own memo; any other sibling, and every other style property, is untouched |
| `ViewUpdater.Updater.ToggleRender` | src/mvvm/updater.js:181-194 | rendering appends the compiled memo content and leaves the registry alone; not rendering leaves the children and nulls the `$els` names in the memo content |
| `ViewUpdater.Updater.UpdateRenderContent` | src/mvvm/updater.js:165-176 | node and else-marked sibling are both emptied and memoised; only the rendered one holds content (its compiled memo); the registry loses the names of the one not rendered; a sibling that is not else-marked is untouched |
| `Dom.SetAttr` | src/mvvm/updater.js:213 | after `setAttr` the attribute reads the new value and every other attribute reads as before |
| `Dom.RemoveAttr` | src/mvvm/updater.js:205 | after `removeAttr` the attribute is absent and every other attribute reads as before |
| `ViewUpdater.Updater.UpdateAttribute` | src/mvvm/updater.js:202-215 | `null` removes the attribute; name `value` sets the `value` property to `String(value)`, attributes untouched; any other name sets the attribute to `String(value)`; other attributes read as before |
| `ViewUpdater.Updater.UpdateClassName` | src/mvvm/updater.js:224-243 | with a class name, `true` adds and `false` removes its tokens and any other value changes nothing; without one, the tokens of a truthy `newclass` are added and then those of a truthy `oldclass` removed, so a token in both ends absent; a truthy non-string throws (`ok` false) with the classes as far as the update got |
| `ViewUpdater.Updater.UpdateTextValue` | src/mvvm/updater.js:279-283 | a write happens iff the control's value is not `===` the bound value; afterwards a string binding is the control's value |
| `Js.ToNumber` | src/mvvm/updater.js:307 | unary `+` gives a number or NaN; it gives a number exactly for the empty string (0) and an optionally signed decimal numeral (its value, leading zeros ignored) |
| `Js.StrictEq` | src/mvvm/updater.js:328 | `===` holds iff both sides are the same value and that value is neither NaN nor an array |
| `Js.NumberRoundTrip` | src/mvvm/updater.js:307 | `+String(n)` is `n` for every integer, so a numeric binding and its numeral agree |
| `ViewUpdater.RadioMatches` | src/mvvm/updater.js:291 | a radio is checked iff the bound value is a string equal to its value, or a number whose numeral equals its value |
| `ViewUpdater.RadioNumberMatchCoerces` | src/mvvm/updater.js:291 | a radio checked by a numeric binding `n` reads as `n` under the `number` coercion of lines 307 and 327 |
| `ViewUpdater.RadioCoercionDoesNotMatch` | src/mvvm/updater.js:291 | the converse fails: a radio valued `07` coerces to 7 but the binding 7 does not check it |
| `ViewUpdater.Updater.UpdateRadioChecked` | src/mvvm/updater.js:290-292 | `checked` becomes exactly that match |
| `ViewUpdater.Updater.UpdateCheckboxChecked` | src/mvvm/updater.js:299-311 | a value that is neither boolean nor array warns and leaves `checked` unchanged; a boolean becomes `checked`; an array checks the box iff it holds the control's value, number-coerced under `number` |
| `ViewUpdater.OptionSelected` | src/mvvm/updater.js:328 | single: selected iff the option value equals the binding and is neither NaN nor an array; multiple over an array: iff the array holds that value; multiple over a string: iff the option's `String` value occurs in the string, so an option whose value is the whole string or empty is selected |
| `ViewUpdater.Updater.UpdateSelectChecked` | src/mvvm/updater.js:319-330 | every option's `selected` becomes membership of its (optionally number-coerced) value when multiple, and `===` otherwise, and nothing else changes; a multiple select bound to a value with no `indexOf` throws before any option changes |
| `IfDirective.NodeToFragment` | src/mvvm/directives/if.js:58 | the fragment is the node's former content and the node is left empty |
| `IfDirective.VIf.Parse` | src/mvvm/directives/if.js:53-67 | the element's content is cached before binding; the next element sibling becomes the paired element, with its content cached, only when it has a `v-else` attribute; otherwise no pair is recorded and that sibling is untouched |
| `IfDirective.VIf.Update` | src/mvvm/directives/if.js:73-81 | the element is toggled with `isRender` and the paired element, if any, with `!isRender`; without a pair only the element changes; caches unchanged; the registry loses exactly the names of the hidden branch's cache |
| `IfDirective.VIf.Toggle` | src/mvvm/directives/if.js:89-103 | render appends the copy compiled with this directive's scope and `once` after the existing children; hide leaves no children and nulls the names in the discarded copy |
| `IfDirective.RendersAccumulate` | src/mvvm/directives/if.js:94-96 | from an emptied element, the content after any history of updates is one compiled copy per render since the last hide: re-rendering is not a no-op |
| `IfDirective.PairExclusive` | src/mvvm/directives/if.js:73-81 | for an if/else pair driven by one history (with non-empty compiled branches), after every update exactly one of the two elements holds content |

## Left out

- `updateEvent`, `updateTextContent`, `updateHtmlContent`: not modelled. They are one-line wrappers over the event helper and over DOM writes with HTML parsing.
- The compiler (`vm.compile`, `vm.complieElement`) is not part of this model. It is a pair of total functions on the fragment it is given. So compiled content cannot register elements, which the real compiler does through `v-el`.
- The order of the primary and paired toggles in `VIf.Update` is not observable. Compilation here has no side effects, and only one of the two toggles touches the registry.
- `Parser`, `linkParser` and `bind` are not part of this model. `VIf.Parse` ends where `bind` is called, and `VIf.Update` requires the caches that `Parse` establishes.
- `nodeToFragment`, `stringToFragment`, `cloneNode`, `innerHTML`: the util file is not part of this model. `nodeToFragment` is taken to move the content out of the node. Markup round-trips exactly to the content it came from, and a clone is a value copy.
- `removeSpace` and `getKeyValue` are not part of this model. The inline `display` is read from the style map, not parsed from the style attribute text.
- The `class` and `style` attributes are not kept in step with the class set and the style map. `addClass` and `removeClass` are set insertion and deletion, so an empty token from a double space is added as it is.
- `warn` is the returned `warned` flag. A thrown `TypeError` is the returned `ok` flag.
- JavaScript numbers are integers or NaN. Unary `+` reads only optionally signed decimal integers, and anything else it would accept (spaces, fractions, exponents, hex) reads as NaN.
- ViewUpdater.SetVisibleDisplay: stores the corrected memo of the Findings row; as written, an inline `display: none` leaves `__visible` unwritten (`VisibleMemoAsWritten`), where the method stores `''`.
- ViewUpdater.Updater.UpdateDisplay: states the behaviour with the corrected memo of the Findings row; as written, showing an element with inline `display: none` and no memo requests `display = undefined` instead (`DisplayRequestAsWritten`), which the method does not model.
- Array identity is not modelled: `===` never holds between two arrays. No rule here compares an array with an array.
- Real DOM identity, attachment, reflow and browser behaviour are not modelled. Sibling order is the given sequence.

## Findings

| source | as written | input that shows it | evidently intended | confidence | as-written member | corrected member |
|---|---|---|---|---|---|---|
| src/mvvm/updater.js:97-99 | when the inline display is `none`, `__visible` is not written at all, so an unset memo stays `undefined` and `updateDisplay(node, true)` assigns `style.display = undefined` | an element authored with `style="display:none"` and `v-show` (or an else-marked sibling so styled), then shown | an unset memo falls back to `''`, so showing uses the stylesheet's display | medium, not executed | `ViewUpdater.ShowingHiddenInlineRequestsUndefined` | `ViewUpdater.VisibleMemo` |

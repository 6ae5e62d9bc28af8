/**
 * The view updater: one rule per view effect a binding can have on a node
 * (display, conditional content, attribute, class, style, form-control
 * state). Each rule runs synchronously when its binding's value changes.
 */
module ViewUpdater {
  import opened Js
  import opened Dom
  import opened Registers
  import opened Vm

  // ---------------------------------------------------------------------
  // handleClass

  /** The class tokens of a space-separated class list. */
  function TokenSet(classname: string): set<string> {
    set t | t in Split(classname)
  }

  /** Add (or, with `remove`, drop) every space-separated token of `classname`. */
  method HandleClass(node: Node, classname: string, remove: bool)
    modifies node`classes
    ensures node.classes == if remove then old(node.classes) - TokenSet(classname)
                            else old(node.classes) + TokenSet(classname)
  {
    var tokens := Split(classname);
    var i := 0;
    while i < |tokens|
      invariant 0 <= i <= |tokens|
      invariant node.classes == if remove then old(node.classes) - (set t | t in tokens[..i])
                                else old(node.classes) + (set t | t in tokens[..i])
    {
      assert tokens[..i + 1] == tokens[..i] + [tokens[i]];
      if remove {
        node.classes := node.classes - {tokens[i]};
      } else {
        node.classes := node.classes + {tokens[i]};
      }
      i := i + 1;
    }
    assert tokens[..i] == tokens;
  }

  // ---------------------------------------------------------------------
  // getNextSiblingElement

  /**
   * The first element after the node whose following siblings are
   * `following`, or null; every sibling passed over is a non-element.
   */
  method GetNextSiblingElement(following: seq<Node>) returns (r: Node?)
    ensures r == FirstElement(following)
  {
    var i := 0;
    while i < |following|
      invariant 0 <= i <= |following|
      invariant forall j :: 0 <= j < i ==> !following[j].isElement
    {
      if following[i].isElement {
        FirstElementAt(following, i);
        return following[i];
      }
      i := i + 1;
    }
    return null;
  }

  // ---------------------------------------------------------------------
  // setVisibleDisplay

  /**
   * The `display` declared in the node's inline style, if any. Reading it
   * out of the style attribute text (`removeSpace`, `getKeyValue`) is not
   * part of this model: the declaration is taken from the style map.
   */
  function InlineDisplay(style: map<string, string>): Option<string> {
    if "display" in style then Some(style["display"]) else None
  }

  /** `!node.__visible`: unset or the empty string. */
  predicate MemoFalsy(memo: Option<string>) {
    memo == None || memo == Some("")
  }

  /**
   * The `__visible` memo that setVisibleDisplay leaves, as written: when the
   * inline display is `none`, nothing is stored, so an unset memo stays
   * unset and a later `show` asks for `display = undefined`.
   */
  function VisibleMemoAsWritten(memo: Option<string>, style: map<string, string>): (r: Option<string>)
    ensures !MemoFalsy(memo) ==> r == memo
    ensures memo != Some("none") ==> r != Some("none")
    ensures InlineDisplay(style) == Some("none") ==> r == memo
  {
    if !MemoFalsy(memo) then memo
    else
      var display := InlineDisplay(style);
      if display == Some("none") then memo
      else Some(if display.Some? then display.value else "")
  }

  /** An element whose inline style hides it keeps no visible display at all. */
  lemma {:induction false} HiddenInlineLeavesVisibleUnset(style: map<string, string>)
    requires InlineDisplay(style) == Some("none")
    ensures VisibleMemoAsWritten(None, style) == None
  {
  }

  /**
   * The display updateDisplay asks updateStyle for on `node`, as written:
   * the memo setVisibleDisplay leaves when shown, `none` when hidden. None
   * stands for `undefined`.
   */
  function DisplayRequestAsWritten(memo: Option<string>, style: map<string, string>, show: bool): (r: Option<string>)
    ensures show ==> r == VisibleMemoAsWritten(memo, style)
    ensures !show ==> r == Some("none")
    ensures show && !MemoFalsy(memo) ==> r == memo
    ensures show && r.None? ==> memo.None? && InlineDisplay(style) == Some("none")
    ensures show && memo != Some("none") ==> r != Some("none")
  {
    if show then VisibleMemoAsWritten(memo, style) else Some("none")
  }

  /**
   * Showing an element whose inline style hides it and which has no memo
   * asks for `display = undefined`, where the corrected memo asks for `''`.
   */
  lemma {:induction false} ShowingHiddenInlineRequestsUndefined(style: map<string, string>)
    requires InlineDisplay(style) == Some("none")
    ensures DisplayRequestAsWritten(None, style, true) == None
    ensures VisibleMemo(None, style) == Some("")
  {
  }

  /**
   * The `__visible` memo after setVisibleDisplay, corrected so that an
   * inline `none` leaves the empty string (show with the stylesheet's
   * display) instead of nothing.
   */
  function VisibleMemo(memo: Option<string>, style: map<string, string>): (r: Option<string>)
    ensures r.Some?
    ensures memo != Some("none") ==> r != Some("none")
    ensures !MemoFalsy(memo) ==> r == memo
    ensures MemoFalsy(memo) && InlineDisplay(style) != Some("none") && InlineDisplay(style).Some? ==> r == InlineDisplay(style)
    ensures MemoFalsy(memo) && (InlineDisplay(style) == Some("none") || InlineDisplay(style).None?) ==> r == Some("")
    ensures InlineDisplay(style) != Some("none") ==> r == VisibleMemoAsWritten(memo, style)
  {
    if !MemoFalsy(memo) then memo
    else
      var display := InlineDisplay(style);
      if display == Some("none") then Some("")
      else Some(if display.Some? then display.value else "")
  }

  /** Memoise the node's visible inline display once it is known. */
  method SetVisibleDisplay(node: Node)
    modifies node`visibleMemo
    ensures node.visibleMemo == VisibleMemo(old(node.visibleMemo), node.style)
  {
    if MemoFalsy(node.visibleMemo) {
      var display := InlineDisplay(node.style);
      if display != Some("none") {
        node.visibleMemo := Some(if display.Some? then display.value else "");
      } else {
        node.visibleMemo := Some("");
      }
    }
  }

  // ---------------------------------------------------------------------
  // setRenderContent

  /** `!node.__render`: unset or empty markup. */
  predicate RenderMemoFalsy(memo: Option<seq<Tree>>) {
    memo == None || MarkupEmpty(memo.value)
  }

  /** The `__render` memo after it has been offered the current content. */
  function RenderMemo(memo: Option<seq<Tree>>, children: seq<Tree>): (r: Option<seq<Tree>>)
    ensures r.Some?
    ensures !RenderMemoFalsy(memo) ==> r == memo
    ensures RenderMemoFalsy(memo) ==> r == Some(children)
  {
    if RenderMemoFalsy(memo) then Some(children) else memo
  }

  /** Memoise the node's markup unless a non-empty memo exists, then empty it. */
  method SetRenderContent(node: Node)
    modifies node`renderMemo, node`children
    ensures node.renderMemo == RenderMemo(old(node.renderMemo), old(node.children))
    ensures node.children == []
  {
    if RenderMemoFalsy(node.renderMemo) {
      node.renderMemo := Some(node.children);
    }
    node.children := [];
  }

  // ---------------------------------------------------------------------

  /** A sibling paired as the else branch: a `v-else` attribute or a `v-else` directive tag. */
  predicate IsElseMarked(n: Node)
    reads n
  {
    HasAttr(n.attrs, "v-else") || n.directive == "v-else"
  }

  /**
   * The updater pairs more siblings than the `v-if` directive does: every
   * sibling the directive pairs (it has a `v-else` attribute) is else-marked
   * here, and so is a sibling tagged only by its `__directive`, which the
   * directive leaves unpaired.
   */
  lemma {:induction false} IfPairedIsElseMarked(s: Node)
    ensures HasAttr(s.attrs, "v-else") ==> IsElseMarked(s)
    ensures s.directive == "v-else" && !HasAttr(s.attrs, "v-else") ==> IsElseMarked(s)
  {
  }

  /** An inline style that does not hide the element. */
  predicate Shown(style: map<string, string>) {
    StyleValue(style, "display") != "none"
  }

  /** `control.value = v` on a form control: null writes the empty string. */
  function DomString(v: Value): string {
    if v.Null? then "" else ToJsString(v)
  }

  /** The tokens of a truthy class-list string; nothing for any other value. */
  function ClassTokens(v: Value): set<string> {
    if Truthy(v) && v.Str? then TokenSet(v.s) else {}
  }

  /** `v` is either skipped (falsy) or can be split (a string). */
  predicate Splittable(v: Value) {
    !Truthy(v) || v.Str?
  }

  /** Whether a radio with value `radioValue` is checked by the bound `value`. */
  function RadioMatches(radioValue: string, value: Value): (r: bool)
    ensures r <==> (value.Str? && value.s == radioValue) || (IsNumber(value) && ToJsString(value) == radioValue)
  {
    StrictEq(Str(radioValue), if IsNumber(value) then Str(ToJsString(value)) else value)
  }

  /**
   * A radio checked by a numeric binding would also be matched by that
   * number under the `number` coercion that checkboxes and selects apply.
   */
  lemma {:induction false} RadioNumberMatchCoerces(radioValue: string, n: int)
    ensures RadioMatches(radioValue, Num(n)) ==> ControlValue(radioValue, true) == Num(n)
  {
    if RadioMatches(radioValue, Num(n)) {
      NumberRoundTrip(n);
    }
  }

  /**
   * The converse fails: a radio valued `07` coerces to 7 but is not checked
   * by the binding 7, since the radio compares numerals, not numbers.
   */
  lemma RadioCoercionDoesNotMatch()
    ensures ControlValue("07", true) == Num(7) && !RadioMatches("07", Num(7))
  {
    assert DigitsValue("07"[..1]) == 0;
    assert ToJsString(Num(7)) == "7";
  }

  /** A control's value as compared with the binding: coerced by unary `+` when `number` is set. */
  function ControlValue(value: string, number: bool): Value {
    if number then ToNumber(value) else Str(value)
  }

  /** Whether an option with value `value` is selected by `selected`. */
  function OptionSelected(selected: Value, multiple: bool, value: Value): (r: bool)
    requires multiple ==> selected.Arr? || selected.Str?
    ensures !multiple ==> (r <==> selected == value && !value.NaN? && !value.Arr?)
    ensures multiple && selected.Arr? ==> (r <==> value in selected.items && !value.NaN? && !value.Arr?)
    ensures multiple && selected.Str? ==> (r <==> HasSubstring(selected.s, ToJsString(value)))
    ensures multiple && selected.Str? && (ToJsString(value) == selected.s || ToJsString(value) == "") ==> r
  {
    if !multiple then StrictEq(selected, value)
    else if selected.Arr? then IndexOfFound(selected.items, value)
    else
      var needle := ToJsString(value);
      assert needle == selected.s ==> OccursAt(selected.s, needle, 0);
      assert needle == "" ==> OccursAt(selected.s, needle, 0);
      HasSubstring(selected.s, needle)
  }

  /** The value an option is compared by, under the select's own `number` flag. */
  function OptionValue(getNumber: bool, option: Node): Value
    reads option
  {
    ControlValue(option.value, getNumber || HasAttr(option.attrs, "number"))
  }

  // ---------------------------------------------------------------------

  class Updater {
    const vm: ViewModel

    constructor (vm: ViewModel)
      ensures this.vm == vm
    {
      this.vm := vm;
    }

    /**
     * Show or hide `node` through its inline display, and give an
     * else-marked next element sibling the opposite state.
     */
    method UpdateDisplay(node: Node, following: seq<Node>, show: bool)
      requires node !in following
      modifies node`style, node`visibleMemo
      modifies NextElementSet(following)`style, NextElementSet(following)`visibleMemo
      ensures node.visibleMemo == VisibleMemo(old(node.visibleMemo), old(node.style))
      ensures StyleValue(node.style, "display") == if show then node.visibleMemo.value else "none"
      ensures forall q :: q != "display" ==> StyleValue(node.style, q) == StyleValue(old(node.style), q)
      ensures old(node.visibleMemo) != Some("none") ==> (Shown(node.style) <==> show)
      ensures var s := FirstElement(following);
        s != null && IsElseMarked(s) ==>
          && s.visibleMemo == VisibleMemo(old(s.visibleMemo), old(s.style))
          && StyleValue(s.style, "display") == (if show then "none" else s.visibleMemo.value)
          && (forall q :: q != "display" ==> StyleValue(s.style, q) == StyleValue(old(s.style), q))
          && (old(s.visibleMemo) != Some("none") ==> (Shown(s.style) <==> !show))
      ensures var s := FirstElement(following);
        s != null && !IsElseMarked(s) ==> s.style == old(s.style) && s.visibleMemo == old(s.visibleMemo)
    {
      var siblingNode := GetNextSiblingElement(following);
      SetVisibleDisplay(node);
      var wrote := UpdateStyle(node, "display", if show then node.visibleMemo.value else "none");
      if siblingNode != null && IsElseMarked(siblingNode) {
        SetVisibleDisplay(siblingNode);
        wrote := UpdateStyle(siblingNode, "display", if show then "none" else siblingNode.visibleMemo.value);
      }
    }

    /**
     * Render or clear `node`'s content from its memoised markup, and give an
     * else-marked next element sibling the opposite state. Both are emptied
     * first; only the rendered one receives compiled content, and the
     * registry loses the names of the one that is not rendered.
     */
    method UpdateRenderContent(node: Node, following: seq<Node>, isRender: bool)
      requires node !in following
      modifies node`renderMemo, node`children
      modifies NextElementSet(following)`renderMemo, NextElementSet(following)`children
      modifies vm.els
      ensures node.renderMemo == RenderMemo(old(node.renderMemo), old(node.children))
      ensures node.children == if isRender then vm.compileElement(node.renderMemo.value) else []
      ensures var s := FirstElement(following);
        s != null && IsElseMarked(s) ==>
          && s.renderMemo == RenderMemo(old(s.renderMemo), old(s.children))
          && s.children == (if isRender then [] else vm.compileElement(s.renderMemo.value))
          && vm.els.entries == Nulled(old(vm.els.entries),
                                      VelNames(if isRender then s.renderMemo.value else node.renderMemo.value))
      ensures var s := FirstElement(following);
        !(s != null && IsElseMarked(s)) ==>
          && (s != null ==> s.renderMemo == old(s.renderMemo) && s.children == old(s.children))
          && vm.els.entries == (if isRender then old(vm.els.entries)
                                else Nulled(old(vm.els.entries), VelNames(node.renderMemo.value)))
    {
      var siblingNode := GetNextSiblingElement(following);
      SetRenderContent(node);
      ToggleRender(node, isRender);
      if siblingNode != null && IsElseMarked(siblingNode) {
        SetRenderContent(siblingNode);
        ToggleRender(siblingNode, !isRender);
      }
    }

    /**
     * Append the compiled memoised content, or, when not rendering, null the
     * registry entries it names; the content is parsed afresh each time.
     */
    method ToggleRender(node: Node, isRender: bool)
      requires node.renderMemo.Some?
      modifies node`children, vm.els
      ensures isRender ==> node.children == old(node.children) + vm.compileElement(node.renderMemo.value)
                           && vm.els.entries == old(vm.els.entries)
      ensures !isRender ==> node.children == old(node.children)
                            && vm.els.entries == Nulled(old(vm.els.entries), VelNames(node.renderMemo.value))
    {
      var fragment := node.renderMemo.value;
      if isRender {
        fragment := vm.compileElement(fragment);
        node.children := node.children + fragment;
      } else {
        vm.els.RemoveDOMRegister(fragment);
      }
    }

    /** Remove the attribute on null, set the `value` property directly, else set the attribute. */
    method UpdateAttribute(node: Node, attribute: string, value: Value)
      modifies node`attrs, node`value
      ensures value.Null? ==> !HasAttr(node.attrs, attribute) && node.value == old(node.value)
      ensures value.Null? ==> node.attrs == RemoveAttr(old(node.attrs), attribute)
      ensures !value.Null? && attribute == "value" ==> node.value == ToJsString(value) && node.attrs == old(node.attrs)
      ensures !value.Null? && attribute != "value" ==>
        && node.attrs == SetAttr(old(node.attrs), attribute, ToJsString(value))
        && GetAttr(node.attrs, attribute) == Some(ToJsString(value))
        && node.value == old(node.value)
      ensures forall other :: other != attribute ==> GetAttr(node.attrs, other) == GetAttr(old(node.attrs), other)
    {
      if value.Null? {
        node.attrs := RemoveAttr(node.attrs, attribute);
      } else if attribute == "value" {
        node.value := ToJsString(value);
      } else {
        node.attrs := SetAttr(node.attrs, attribute, ToJsString(value));
      }
    }

    /**
     * With a `classname`, a boolean `newclass` adds or removes its tokens.
     * Without one, the tokens of `newclass` are added and then those of
     * `oldclass` removed. `ok` is false where `split` would be called on a
     * truthy non-string, which throws; the classes are then as far as the
     * update got.
     */
    method UpdateClassName(node: Node, newclass: Value, oldclass: Value, classname: string) returns (ok: bool)
      modifies node`classes
      ensures classname != "" ==> ok
      ensures classname != "" && newclass == Bool(true) ==> node.classes == old(node.classes) + TokenSet(classname)
      ensures classname != "" && newclass == Bool(false) ==> node.classes == old(node.classes) - TokenSet(classname)
      ensures classname != "" && !newclass.Bool? ==> node.classes == old(node.classes)
      ensures classname == "" ==> ok == (Splittable(newclass) && Splittable(oldclass))
      ensures classname == "" && !Splittable(newclass) ==> node.classes == old(node.classes)
      ensures classname == "" && Splittable(newclass) ==>
        node.classes == (old(node.classes) + ClassTokens(newclass)) - ClassTokens(oldclass)
      ensures classname == "" && ok ==>
        forall t :: t in ClassTokens(oldclass) ==> t !in node.classes
    {
      if classname != "" {
        if newclass == Bool(true) {
          HandleClass(node, classname, false);
        } else if newclass == Bool(false) {
          HandleClass(node, classname, true);
        }
        return true;
      }
      if Truthy(newclass) {
        if !newclass.Str? {
          return false;
        }
        HandleClass(node, newclass.s, false);
      }
      if Truthy(oldclass) {
        if !oldclass.Str? {
          return false;
        }
        HandleClass(node, oldclass.s, true);
      }
      return true;
    }

    /** Write one style property, unless it already has the requested value. */
    method UpdateStyle(node: Node, property: string, value: string) returns (wrote: bool)
      modifies node`style
      ensures StyleValue(node.style, property) == value
      ensures wrote <==> StyleValue(old(node.style), property) != value
      ensures !wrote ==> node.style == old(node.style)
      ensures forall q :: q != property ==> StyleValue(node.style, q) == StyleValue(old(node.style), q)
    {
      wrote := StyleValue(node.style, property) != value;
      if wrote {
        node.style := node.style[property := value];
      }
    }

    /** Write a text control's value, unless it already strictly equals the bound value. */
    method UpdateTextValue(text: Node, value: Value) returns (wrote: bool)
      modifies text`value
      ensures wrote <==> !StrictEq(Str(old(text.value)), value)
      ensures text.value == if wrote then DomString(value) else old(text.value)
      ensures value.Str? ==> text.value == value.s
    {
      wrote := !StrictEq(Str(text.value), value);
      if wrote {
        text.value := DomString(value);
      }
    }

    /** Check the radio iff its value equals the bound value, numbers compared as numerals. */
    method UpdateRadioChecked(radio: Node, value: Value)
      modifies radio`checked
      ensures radio.checked == RadioMatches(radio.value, value)
    {
      radio.checked := RadioMatches(radio.value, value);
    }

    /**
     * A boolean binding sets `checked`; an array binding checks the box iff
     * it holds the control's value (number-coerced under `number`). Any
     * other binding is a usage error: `warned`, and `checked` is untouched.
     */
    method UpdateCheckboxChecked(checkbox: Node, values: Value) returns (warned: bool)
      modifies checkbox`checked
      ensures warned <==> !(values.Arr? || values.Bool?)
      ensures warned ==> checkbox.checked == old(checkbox.checked)
      ensures values.Bool? ==> checkbox.checked == values.b
      ensures values.Arr? ==>
        checkbox.checked == IndexOfFound(values.items, ControlValue(checkbox.value, HasAttr(checkbox.attrs, "number")))
    {
      var value := Str(checkbox.value);
      if !values.Arr? && !values.Bool? {
        return true;
      }
      if HasAttr(checkbox.attrs, "number") {
        value := ToNumber(checkbox.value);
      }
      checkbox.checked := if values.Bool? then values.b else IndexOfFound(values.items, value);
      return false;
    }

    /**
     * Set every option's `selected`: membership in `selected` when the
     * select is multiple, strict equality otherwise. A multiple select bound
     * to something with no `indexOf` throws on the first option (`ok` is
     * false) before any option changes.
     */
    method UpdateSelectChecked(select: Node, selected: Value, multi: bool) returns (ok: bool)
      modifies (set o | o in select.options)`selected
      ensures var multiple := multi || HasAttr(select.attrs, "multiple");
        ok <==> !(multiple && |select.options| > 0 && !(selected.Arr? || selected.Str?))
      ensures var multiple := multi || HasAttr(select.attrs, "multiple");
        ok ==> forall j :: 0 <= j < |select.options| ==>
          select.options[j].selected ==
            OptionSelected(selected, multiple, OptionValue(HasAttr(select.attrs, "number"), select.options[j]))
      ensures !ok ==> forall o :: o in select.options ==> o.selected == old(o.selected)
    {
      var getNumber := HasAttr(select.attrs, "number");
      var options := select.options;
      var leng := |options|;
      var multiple := multi || HasAttr(select.attrs, "multiple");
      var i := 0;
      while i < leng
        invariant 0 <= i <= leng
        invariant multiple && i > 0 ==> selected.Arr? || selected.Str?
        invariant forall j :: 0 <= j < i ==>
          options[j].selected == OptionSelected(selected, multiple, OptionValue(getNumber, options[j]))
        invariant forall o :: o in options && o !in options[..i] ==> o.selected == old(o.selected)
      {
        var option := options[i];
        var value := Str(option.value);
        value := if getNumber then ToNumber(option.value)
                 else if HasAttr(option.attrs, "number") then ToNumber(option.value)
                 else value;
        if multiple && !(selected.Arr? || selected.Str?) {
          return false;
        }
        option.selected := OptionSelected(selected, multiple, value);
        assert options[..i + 1] == options[..i] + [option];
        i := i + 1;
      }
      return true;
    }
  }
}

/**
 * The `v-if` directive. At parse time it moves the element's content into a
 * cached fragment, and does the same for an immediately following `v-else`
 * element. On each update it toggles the element with the condition and the
 * `v-else` element, if any, with its negation. Rendering appends a compiled
 * copy of the cache; hiding empties the element and nulls the registry
 * entries named in the discarded copy. The caches themselves never change.
 */
module IfDirective {
  import opened Dom
  import opened Registers
  import opened Vm

  /**
   * `nodeToFragment(node)`: move the node's content into a new fragment,
   * leaving the node empty.
   */
  method NodeToFragment(node: Node) returns (fragment: seq<Tree>)
    modifies node`children
    ensures fragment == old(node.children) && node.children == []
  {
    fragment := node.children;
    node.children := [];
  }

  /** An element's content after one toggle that renders `rendered` or hides. */
  function Toggled(children: seq<Tree>, rendered: seq<Tree>, isRender: bool): seq<Tree> {
    if isRender then children + rendered else []
  }

  /** An element's content after a history of toggles, the latest last. */
  function AfterToggles(start: seq<Tree>, rendered: seq<Tree>, flags: seq<bool>): seq<Tree>
    decreases |flags|
  {
    if flags == [] then start
    else Toggled(AfterToggles(start, rendered, flags[..|flags| - 1]), rendered, flags[|flags| - 1])
  }

  /** `k` copies of `ts` one after another. */
  function Repeat(ts: seq<Tree>, k: nat): seq<Tree> {
    if k == 0 then [] else Repeat(ts, k - 1) + ts
  }

  /** How many renders the history ends with. */
  function TrailingRenders(flags: seq<bool>): nat
    decreases |flags|
  {
    if flags == [] || !flags[|flags| - 1] then 0 else TrailingRenders(flags[..|flags| - 1]) + 1
  }

  /** The history of the paired element: every condition negated. */
  function Negated(flags: seq<bool>): (r: seq<bool>)
    ensures |r| == |flags|
    ensures forall i :: 0 <= i < |flags| ==> r[i] == !flags[i]
  {
    seq(|flags|, i requires 0 <= i < |flags| => !flags[i])
  }

  /**
   * Rendering is not guarded against a branch already rendered: once the
   * element has been emptied (by parse or by a hide), its content is one
   * compiled copy per render since the last hide.
   */
  lemma {:induction false} RendersAccumulate(start: seq<Tree>, rendered: seq<Tree>, flags: seq<bool>)
    requires start == [] || false in flags
    ensures AfterToggles(start, rendered, flags) == Repeat(rendered, TrailingRenders(flags))
    decreases |flags|
  {
    if flags == [] {
    } else {
      var init := flags[..|flags| - 1];
      if flags[|flags| - 1] {
        if start != [] {
          var i :| 0 <= i < |flags| && flags[i] == false;
          assert i < |flags| - 1;
          assert init[i] == false;
        }
        RendersAccumulate(start, rendered, init);
      }
    }
  }

  /**
   * An if/else pair driven by one history: after every update exactly one
   * of the two elements holds content, provided both branches compile to
   * something.
   */
  lemma {:induction false} PairExclusive(primary: seq<Tree>, rendered: seq<Tree>,
                                         paired: seq<Tree>, elseRendered: seq<Tree>, flags: seq<bool>)
    requires flags != [] && rendered != [] && elseRendered != []
    ensures (AfterToggles(primary, rendered, flags) == []) != (AfterToggles(paired, elseRendered, Negated(flags)) == [])
  {
    var n := |flags|;
    var neg := Negated(flags);
    assert neg[..n - 1] == Negated(flags[..n - 1]);
    var a := AfterToggles(primary, rendered, flags[..n - 1]);
    var b := AfterToggles(paired, elseRendered, neg[..n - 1]);
    if flags[n - 1] {
      assert |a + rendered| > 0;
    } else {
      assert |b + elseRendered| > 0;
    }
  }

  class VIf {
    const vm: ViewModel
    const el: Node
    const scope: Scope
    /** `this.desc.once`: the compile-once modifier. */
    const once: bool
    /** The cached content of `el`; None until parse. */
    var elFrag: Option<seq<Tree>>
    /** The paired `v-else` element; null when there is none. */
    var elseEl: Node?
    var elseElFrag: Option<seq<Tree>>

    /** Parsed: the caches exist, and the paired element is another element. */
    ghost predicate Valid()
      reads this
    {
      elFrag.Some? && elseEl != el && (elseEl != null ==> elseElFrag.Some?)
    }

    /** The paired element, as a set (for frames). */
    function ElseSet(): set<Node>
      reads this
    {
      if elseEl == null then {} else {elseEl}
    }

    constructor (vm: ViewModel, el: Node, scope: Scope, once: bool)
      ensures this.vm == vm && this.el == el && this.scope == scope && this.once == once
      ensures elFrag == None && elseEl == null && elseElFrag == None
    {
      this.vm := vm;
      this.el := el;
      this.scope := scope;
      this.once := once;
      elFrag := None;
      elseEl := null;
      elseElFrag := None;
    }

    /**
     * Cache the element's content, and pair the next element sibling when
     * it carries a `v-else` attribute, caching its content too; both caches
     * are in place before the directive is bound to its expression (the
     * binding itself is not part of this model).
     */
    method Parse(following: seq<Node>)
      requires el !in following
      requires elFrag == None && elseEl == null
      modifies this, el`children, NextElementSet(following)`children
      ensures Valid()
      ensures elFrag == Some(old(el.children)) && el.children == []
      ensures var s := FirstElement(following);
        s != null && HasAttr(s.attrs, "v-else") ==>
          elseEl == s && elseElFrag == Some(old(s.children)) && s.children == []
      ensures var s := FirstElement(following);
        !(s != null && HasAttr(s.attrs, "v-else")) ==>
          elseEl == null && elseElFrag == old(elseElFrag) && (s != null ==> s.children == old(s.children))
    {
      var candidate := FirstElement(following);
      var fragment := NodeToFragment(el);
      elFrag := Some(fragment);
      if candidate != null && HasAttr(candidate.attrs, "v-else") {
        elseEl := candidate;
        fragment := NodeToFragment(candidate);
        elseElFrag := Some(fragment);
      }
    }

    /**
     * Toggle the element with `isRender`, then the paired element, if any,
     * with its negation. Exactly one of them is hidden, and the registry
     * loses the names of the hidden one's cache.
     */
    method Update(isRender: bool)
      requires Valid()
      modifies el`children, ElseSet()`children, vm.regElements
      ensures Valid() && elFrag == old(elFrag) && elseEl == old(elseEl) && elseElFrag == old(elseElFrag)
      ensures el.children == Toggled(old(el.children), vm.compile(elFrag.value, scope, once), isRender)
      ensures elseEl != null ==>
        elseEl.children == Toggled(old(elseEl.children), vm.compile(elseElFrag.value, scope, once), !isRender)
      ensures !isRender ==>
        vm.regElements.entries == Nulled(old(vm.regElements.entries), VelNames(elFrag.value))
      ensures isRender && elseEl != null ==>
        vm.regElements.entries == Nulled(old(vm.regElements.entries), VelNames(elseElFrag.value))
      ensures isRender && elseEl == null ==> vm.regElements.entries == old(vm.regElements.entries)
    {
      var pairedEl := elseEl;
      Toggle(el, elFrag.value, isRender);
      if pairedEl != null {
        Toggle(pairedEl, elseElFrag.value, !isRender);
      }
    }

    /**
     * Render: compile a copy of the cached fragment in this directive's
     * scope and append it after whatever the element holds. Hide: empty the
     * element and null the registry entries named in the discarded copy.
     */
    method Toggle(renderEl: Node, fragment: seq<Tree>, isRender: bool)
      modifies renderEl`children, vm.regElements
      ensures renderEl.children == Toggled(old(renderEl.children), vm.compile(fragment, scope, once), isRender)
      ensures isRender ==> vm.regElements.entries == old(vm.regElements.entries)
      ensures !isRender ==> vm.regElements.entries == Nulled(old(vm.regElements.entries), VelNames(fragment))
    {
      var frag := fragment;
      if isRender {
        frag := vm.compile(frag, scope, once);
        renderEl.children := renderEl.children + frag;
      } else {
        renderEl.children := [];
        vm.regElements.RemoveDOMRegister(frag);
      }
    }
  }
}

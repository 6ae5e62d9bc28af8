/**
 * The element registry: a map from a `v-el` name to the element registered
 * under it, or null once that element has been taken out of the view. A null
 * entry means "was registered, now gone"; a missing key means "never
 * registered", so teardown sets entries to null and never deletes or adds.
 *
 * `RemoveDOMRegister` is the teardown walk. The updater runs it on
 * `vm.$data.$els` and the `v-if` directive on `vm.$regElements`; the two
 * walks are the same code over different registries, so both are this one
 * method on two `Registry` objects.
 */
module Registers {
  import opened Dom

  /** The values of the `v-el` attributes in one attribute list. */
  function AttrVelNames(attrs: seq<Attr>): set<string> {
    set a | a in attrs && a.name == "v-el" :: a.value
  }

  /** The `v-el` names carried by the elements of a tree, at any depth. */
  function TreeVelNames(t: Tree): set<string>
    decreases t, 1
  {
    match t
    case Text(_) => {}
    case Element(_, attrs, children) => AttrVelNames(attrs) + VelNames(children)
  }

  /** The `v-el` names carried by the elements of a fragment, at any depth. */
  function VelNames(ts: seq<Tree>): set<string>
    decreases ts, 0
  {
    if ts == [] then {} else VelNames(ts[..|ts| - 1]) + TreeVelNames(ts[|ts| - 1])
  }

  /** The registry after every entry named in `names` has been set to null. */
  function Nulled(entries: map<string, Node?>, names: set<string>): map<string, Node?> {
    map k | k in entries :: if k in names then null else entries[k]
  }

  /**
   * Teardown never adds or deletes a key: it nulls exactly the registered
   * keys that are named and leaves every other entry as it was.
   */
  lemma NulledSpec(entries: map<string, Node?>, names: set<string>)
    ensures Nulled(entries, names).Keys == entries.Keys
    ensures forall k :: k in entries && k in names ==> Nulled(entries, names)[k] == null
    ensures forall k :: k in entries && k !in names ==> Nulled(entries, names)[k] == entries[k]
  {
  }

  // ---------------------------------------------------------------------
  // Facts about the walk's specification

  lemma NulledTwice(entries: map<string, Node?>, a: set<string>, b: set<string>)
    ensures Nulled(Nulled(entries, a), b) == Nulled(entries, a + b)
  {
  }

  /** Nulling one more name, when it is registered, extends the nulled set by it. */
  lemma NulledOneMore(entries: map<string, Node?>, names: set<string>, n: string)
    ensures var e := Nulled(entries, names);
      (if n in e then e[n := null] else e) == Nulled(entries, names + {n})
  {
  }

  lemma AttrVelNamesSnoc(attrs: seq<Attr>, ii: nat)
    requires ii < |attrs|
    ensures AttrVelNames(attrs[..ii + 1]) == AttrVelNames(attrs[..ii]) + (if attrs[ii].name == "v-el" then {attrs[ii].value} else {})
  {
    assert attrs[..ii + 1] == attrs[..ii] + [attrs[ii]];
  }

  lemma VelNamesSnoc(ts: seq<Tree>, i: nat)
    requires i < |ts|
    ensures VelNames(ts[..i + 1]) == VelNames(ts[..i]) + TreeVelNames(ts[i])
  {
    assert ts[..i + 1][..i] == ts[..i];
  }

  /** Tearing the same fragment down twice leaves the registry as once does. */
  lemma NulledIdempotent(entries: map<string, Node?>, names: set<string>)
    ensures Nulled(Nulled(entries, names), names) == Nulled(entries, names)
  {
    NulledTwice(entries, names, names);
    assert names + names == names;
  }

  lemma {:induction false} VelNamesAppend(ts: seq<Tree>, us: seq<Tree>)
    ensures VelNames(ts + us) == VelNames(ts) + VelNames(us)
    decreases |us|
  {
    if us == [] {
      assert ts + us == ts;
    } else {
      var last := us[|us| - 1];
      assert (ts + us)[..|ts + us| - 1] == ts + us[..|us| - 1];
      VelNamesAppend(ts, us[..|us| - 1]);
    }
  }

  /** Every tree of a fragment contributes its names. */
  lemma {:induction false} VelNamesOfMember(ts: seq<Tree>, k: nat)
    requires k < |ts|
    ensures TreeVelNames(ts[k]) <= VelNames(ts)
  {
    assert ts == ts[..k] + [ts[k]] + ts[k + 1..];
    VelNamesAppend(ts[..k] + [ts[k]], ts[k + 1..]);
    VelNamesAppend(ts[..k], [ts[k]]);
    assert [ts[k]][..0] == [];
  }

  /** Every name of a fragment comes from one of its trees. */
  lemma {:induction false} VelNamesMember(ts: seq<Tree>, n: string)
    requires n in VelNames(ts)
    ensures exists k :: 0 <= k < |ts| && n in TreeVelNames(ts[k])
    decreases |ts|
  {
    var init := ts[..|ts| - 1];
    if n in TreeVelNames(ts[|ts| - 1]) {
    } else {
      VelNamesMember(init, n);
      var k :| 0 <= k < |init| && n in TreeVelNames(init[k]);
      assert init[k] == ts[k];
    }
  }

  // ---------------------------------------------------------------------
  // Reaching every depth

  /**
   * The node reached from a fragment by a path of child positions: the first
   * position picks a top-level tree, each further one a child of the last.
   */
  function At(ts: seq<Tree>, path: seq<nat>): Option<Tree>
    decreases path
  {
    if path == [] || path[0] >= |ts| then None
    else if |path| == 1 then Some(ts[path[0]])
    else match ts[path[0]]
      case Text(_) => None
      case Element(_, _, children) => At(children, path[1..])
  }

  /** The node at `path` is an element that carries `v-el="name"`. */
  predicate RegistersAt(ts: seq<Tree>, path: seq<nat>, name: string) {
    var t := At(ts, path);
    t.Some? && t.value.Element? && Attr("v-el", name) in t.value.attrs
  }

  /** The walk sees the `v-el` name of an element however deep it sits. */
  lemma {:induction false} VelNamesReachEveryDepth(ts: seq<Tree>, path: seq<nat>, name: string)
    requires RegistersAt(ts, path, name)
    ensures name in VelNames(ts)
    decreases path
  {
    VelNamesOfMember(ts, path[0]);
    if |path| == 1 {
      assert name in AttrVelNames(ts[path[0]].attrs);
    } else {
      var children := ts[path[0]].children;
      VelNamesReachEveryDepth(children, path[1..], name);
    }
  }

  /** And it sees no other names: each one is carried by an element at some path. */
  lemma {:induction false} VelNamesAreRegisteredSomewhere(ts: seq<Tree>, name: string)
    requires name in VelNames(ts)
    ensures exists path :: RegistersAt(ts, path, name)
    decreases ts
  {
    VelNamesMember(ts, name);
    var k :| 0 <= k < |ts| && name in TreeVelNames(ts[k]);
    var t := ts[k];
    if name in AttrVelNames(t.attrs) {
      var a :| a in t.attrs && a.name == "v-el" && a.value == name;
      assert At(ts, [k]) == Some(t);
      assert RegistersAt(ts, [k], name);
    } else {
      VelNamesAreRegisteredSomewhere(t.children, name);
      var p :| RegistersAt(t.children, p, name);
      var path := [k as nat] + p;
      assert path[1..] == p;
      assert At(ts, path) == At(t.children, p);
      assert RegistersAt(ts, path, name);
    }
  }

  // ---------------------------------------------------------------------

  class Registry {
    var entries: map<string, Node?>

    constructor (entries: map<string, Node?>)
      ensures this.entries == entries
    {
      this.entries := entries;
    }

    /**
     * Walk the nodes of a discarded fragment and set to null every entry
     * named by a `v-el` attribute of an element at any depth; text nodes
     * are skipped and only names already registered are touched.
     */
    method RemoveDOMRegister(nodes: seq<Tree>)
      modifies this
      ensures entries == Nulled(old(entries), VelNames(nodes))
      decreases nodes
    {
      var i := 0;
      while i < |nodes|
        invariant 0 <= i <= |nodes|
        invariant entries == Nulled(old(entries), VelNames(nodes[..i]))
      {
        var node := nodes[i];
        VelNamesSnoc(nodes, i);
        if !node.Element? {
          i := i + 1;
          continue;
        }
        ghost var done := VelNames(nodes[..i]);
        var nodeAttrs := node.attrs;
        var ii := 0;
        while ii < |nodeAttrs|
          invariant 0 <= ii <= |nodeAttrs|
          invariant entries == Nulled(old(entries), done + AttrVelNames(nodeAttrs[..ii]))
        {
          var attr := nodeAttrs[ii];
          AttrVelNamesSnoc(nodeAttrs, ii);
          if attr.name == "v-el" {
            NulledOneMore(old(entries), done + AttrVelNames(nodeAttrs[..ii]), attr.value);
            assert done + AttrVelNames(nodeAttrs[..ii + 1]) == done + AttrVelNames(nodeAttrs[..ii]) + {attr.value};
            if attr.value in entries {
              entries := entries[attr.value := null];
            }
          }
          ii := ii + 1;
        }
        assert nodeAttrs[..ii] == nodeAttrs;
        if |node.children| > 0 {
          RemoveDOMRegister(node.children);
          NulledTwice(old(entries), done + AttrVelNames(nodeAttrs), VelNames(node.children));
        }
        i := i + 1;
      }
      assert nodes[..i] == nodes;
    }
  }
}

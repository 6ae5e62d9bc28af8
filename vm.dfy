/**
 * The view model as the core sees it: two element registries and the two
 * compiler entry points. The compiler binds directives inside a fragment;
 * it is not part of this model and stands here as a total function from
 * the fragment to the compiled fragment, so it touches nothing but the
 * fragment it is given.
 */
module Vm {
  import opened Dom
  import opened Registers

  /** The data scope a directive was compiled in, by identity. */
  datatype Scope = Scope(id: nat)

  class ViewModel {
    /** `vm.$regElements`: the registry the `v-if` directive tears down. */
    const regElements: Registry
    /** `vm.$data.$els`: the registry the updater's render path tears down. */
    const els: Registry
    /** `vm.compile(fragment, true, scope, once)` */
    const compile: (seq<Tree>, Scope, bool) -> seq<Tree>
    /** `vm.complieElement(fragment, true)` */
    const compileElement: seq<Tree> -> seq<Tree>

    constructor (regElements: Registry, els: Registry,
                 compile: (seq<Tree>, Scope, bool) -> seq<Tree>,
                 compileElement: seq<Tree> -> seq<Tree>)
      ensures this.regElements == regElements && this.els == els
      ensures this.compile == compile && this.compileElement == compileElement
    {
      this.regElements := regElements;
      this.els := els;
      this.compile := compile;
      this.compileElement := compileElement;
    }
  }
}

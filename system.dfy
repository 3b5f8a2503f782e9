/** A system (`System`): the component types an entity must have for the
    system to process it, and whether the system's scene-level draw hook
    runs after (default) or before its per-entity draws. */
module Systems {
  import opened Base

  class System {
    /** `type(system)`: the concrete subclass, which `Scene.addSystem`
        compares. */
    const kind: string
    var drawAfterEntities: bool
    /** `requiredComponentTypeList`. */
    var required: seq<TypeTag>

    ghost predicate Valid()
      reads this
    {
      NoDups(required)
    }

    /** `__init__`: draw after entities, no requirement, and then the
        subclass's `init()` hook, last. A subclass's `init` is modelled by
        the requirement types it adds (`initRequired`, empty for the base
        class, whose `init` does nothing). */
    constructor (kind: string, initRequired: seq<TypeTag>)
      ensures Valid() && this.kind == kind && drawAfterEntities
      ensures required == AppendAbsent([], initRequired)
    {
      this.kind := kind;
      drawAfterEntities := true;
      required := [];
      new;
      if initRequired != [] {
        AddRequiredComponentType(initRequired[0], initRequired[1..]);
        assert initRequired == [initRequired[0]] + initRequired[1..];
      }
    }

    /** `addRequiredComponentType`: appends, in argument order, each type
        not yet required. */
    method AddRequiredComponentType(t: TypeTag, more: seq<TypeTag>)
      requires Valid()
      modifies this`required
      ensures Valid()
      ensures required == AppendAbsent(old(required), [t] + more)
      ensures old(required) <= required
      ensures forall u :: u in required <==> u in old(required) || u in [t] + more
    {
      var all := [t] + more;
      var i := 0;
      assert all[i..] == all;
      while i < |all|
        invariant 0 <= i <= |all| && Valid()
        invariant AppendAbsent(required, all[i..]) == AppendAbsent(old(required), all)
      {
        assert all[i..][0] == all[i] && all[i..][1..] == all[i + 1..];
        if all[i] !in required {
          required := required + [all[i]];
        }
        i := i + 1;
      }
      assert all[i..] == [];
      AppendAbsentSpec(old(required), all);
    }

    /** `removeRequiredComponentType`: removes each given type that is
        required; absent ones are ignored and the rest keep their order. */
    method RemoveRequiredComponentType(t: TypeTag, more: seq<TypeTag>)
      requires Valid()
      modifies this`required
      ensures Valid()
      ensures required == RemovePresent(old(required), [t] + more)
      ensures required == Without(old(required), Elems([t] + more))
    {
      var all := [t] + more;
      var i := 0;
      assert all[i..] == all;
      while i < |all|
        invariant 0 <= i <= |all| && Valid()
        invariant RemovePresent(required, all[i..]) == RemovePresent(old(required), all)
      {
        assert all[i..][0] == all[i] && all[i..][1..] == all[i + 1..];
        if all[i] in required {
          RemoveFirstIsWithout(required, all[i]);
          WithoutNoDups(required, {all[i]});
          required := RemoveFirst(required, all[i]);
        }
        i := i + 1;
      }
      assert all[i..] == [];
      RemovePresentSpec(old(required), all);
    }
  }
}

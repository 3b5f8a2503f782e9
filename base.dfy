/** Values shared by every part of the entity-component-system model:
    optional values, errors, component types and instances, and the
    list operations the Python code performs on its lists. */
module Base {

  datatype Option<T> = None | Some(value: T)

  /** The exceptions the Python code raises (the core never catches them). */
  datatype Error =
    | NoEntityID          // Entity(): the ID pool is empty
    | TypeNotRegistered   // addComponentToEntity with an unregistered type
    | IndexError          // a table index outside the pre-sized 2D list
    | ValueError          // list.remove of an element that is absent

  datatype Result<T> = Ok(value: T) | Err(error: Error)

  /** A component type: `type(component)` in the source. `NoneType` is the
      type of Python's `None`, which `Entity()` registers as a component type. */
  datatype TypeTag = NoneType | ClassType(name: string)

  /** A component instance: its class, an identity that tells two instances
      of one class apart, and which of the optional callbacks
      (`onAddedToEntity`, `onRemovedFromEntity`, `reset`) the instance has. */
  datatype Component = Component(cls: string, serial: nat,
                                 hasOnAdded: bool, hasOnRemoved: bool, hasReset: bool)

  /** `type(c)` for a value that may be `None`. */
  function TypeOf(c: Option<Component>): (t: TypeTag)
    ensures t == NoneType <==> c.None?
  {
    match c
    case None => NoneType
    case Some(x) => ClassType(x.cls)
  }

  lemma ConcatAssoc<T>(a: seq<T>, b: seq<T>, c: seq<T>)
    ensures a + (b + c) == (a + b) + c
  {
  }

  predicate NoDups<T(==)>(s: seq<T>) {
    forall i, j :: 0 <= i < j < |s| ==> s[i] != s[j]
  }

  lemma NoDupsTail<T>(s: seq<T>)
    requires NoDups(s) && s != []
    ensures NoDups(s[1..]) && s[0] !in s[1..]
  {
    forall k | 0 <= k < |s| - 1 ensures s[1..][k] != s[0] {
      assert s[k + 1] != s[0];
    }
  }

  /** `list.index(x)`: the position of the first occurrence of `x`. */
  function IndexOf<T(==)>(s: seq<T>, x: T): (i: nat)
    requires x in s
    ensures i < |s| && s[i] == x && x !in s[..i]
  {
    if s[0] == x then 0 else 1 + IndexOf(s[1..], x)
  }

  lemma IndexOfUnique<T>(s: seq<T>, k: nat)
    requires NoDups(s) && k < |s|
    ensures IndexOf(s, s[k]) == k
  {
    var i := IndexOf(s, s[k]);
    assert s[i] == s[k];
  }

  /** `list.remove(x)` on a list that holds `x`: the first occurrence goes. */
  function RemoveFirst<T(==)>(s: seq<T>, x: T): (r: seq<T>)
    requires x in s
    ensures r == s[..IndexOf(s, x)] + s[IndexOf(s, x) + 1..]
  {
    if s[0] == x then s[1..]
    else
      assert s == [s[0]] + s[1..];
      [s[0]] + RemoveFirst(s[1..], x)
  }

  /** The elements of `s` outside `d`, in their original order. */
  function Without<T(==)>(s: seq<T>, d: set<T>): (r: seq<T>)
    ensures |r| <= |s|
    ensures forall i :: 0 <= i < |r| ==> r[i] in s && r[i] !in d
    ensures forall i :: 0 <= i < |s| && s[i] !in d ==> s[i] in r
  {
    if s == [] then []
    else if s[0] in d then Without(s[1..], d)
    else [s[0]] + Without(s[1..], d)
  }

  lemma {:induction false} WithoutNoDups<T>(s: seq<T>, d: set<T>)
    requires NoDups(s)
    ensures NoDups(Without(s, d))
  {
    if s != [] {
      WithoutNoDups(s[1..], d);
      forall k | 0 <= k < |s| - 1 ensures s[1..][k] != s[0] {
        assert s[k + 1] != s[0];
      }
    }
  }

  lemma {:induction false} WithoutConcat<T>(a: seq<T>, b: seq<T>, d: set<T>)
    ensures Without(a + b, d) == Without(a, d) + Without(b, d)
  {
    if a != [] {
      assert (a + b)[1..] == a[1..] + b;
      WithoutConcat(a[1..], b, d);
    } else {
      assert a + b == b;
    }
  }

  lemma {:induction false} WithoutNothing<T>(s: seq<T>, d: set<T>)
    requires forall x :: x in s ==> x !in d
    ensures Without(s, d) == s
  {
    if s != [] {
      WithoutNothing(s[1..], d);
    }
  }

  lemma {:induction false} WithoutTwice<T>(s: seq<T>, a: set<T>, b: set<T>)
    ensures Without(Without(s, a), b) == Without(s, a + b)
  {
    if s != [] {
      WithoutTwice(s[1..], a, b);
    }
  }

  /** On a list without duplicates, `list.remove(x)` drops exactly `x`. */
  lemma {:induction false} RemoveFirstIsWithout<T>(s: seq<T>, x: T)
    requires NoDups(s) && x in s
    ensures RemoveFirst(s, x) == Without(s, {x})
  {
    if s[0] == x {
      forall k | 0 <= k < |s| - 1 ensures s[1..][k] != x {
        assert s[k + 1] != s[0];
      }
      WithoutNothing(s[1..], {x});
    } else {
      RemoveFirstIsWithout(s[1..], x);
    }
  }

  /** Every element of `a` is an element of `b`. */
  ghost predicate Within<T>(a: seq<T>, b: seq<T>) {
    forall x :: x in a ==> x in b
  }

  lemma WithinTrans<T>(a: seq<T>, b: seq<T>, c: seq<T>)
    requires Within(a, b) && Within(b, c)
    ensures Within(a, c)
  {}

  /** The elements of a list, as a set. */
  function Elems<T>(xs: seq<T>): set<T> {
    if xs == [] then {} else {xs[0]} + Elems(xs[1..])
  }

  lemma {:induction false} ElemsSpec<T>(xs: seq<T>)
    ensures forall x :: x in Elems(xs) <==> x in xs
  {
    if xs != [] {
      ElemsSpec(xs[1..]);
      assert xs == [xs[0]] + xs[1..];
    }
  }

  /** The loop `for x in xs: if x not in s: s.append(x)`, as the source
      writes it for entity tags and for a system's required types. */
  function AppendAbsent<T(==)>(s: seq<T>, xs: seq<T>): seq<T>
    decreases |xs|
  {
    if xs == [] then s
    else AppendAbsent(if xs[0] in s then s else s + [xs[0]], xs[1..])
  }

  /** The loop `for x in xs: if x in s: s.remove(x)`. */
  function RemovePresent<T(==)>(s: seq<T>, xs: seq<T>): seq<T>
    decreases |xs|
  {
    if xs == [] then s
    else RemovePresent(if xs[0] in s then RemoveFirst(s, xs[0]) else s, xs[1..])
  }

  /** Appending the absent elements keeps the list duplicate-free, keeps the
      old list as a prefix, and adds exactly the elements of `xs`. */
  lemma {:induction false} AppendAbsentSpec<T>(s: seq<T>, xs: seq<T>)
    requires NoDups(s)
    ensures NoDups(AppendAbsent(s, xs))
    ensures s <= AppendAbsent(s, xs)
    ensures forall x :: x in AppendAbsent(s, xs) <==> x in s || x in xs
    decreases |xs|
  {
    if xs != [] {
      var s' := if xs[0] in s then s else s + [xs[0]];
      assert NoDups(s');
      AppendAbsentSpec(s', xs[1..]);
      assert xs == [xs[0]] + xs[1..];
    }
  }

  /** On a duplicate-free list, removing each present element of `xs`
      leaves the other elements in their original order. */
  lemma {:induction false} RemovePresentSpec<T>(s: seq<T>, xs: seq<T>)
    requires NoDups(s)
    ensures RemovePresent(s, xs) == Without(s, Elems(xs))
    decreases |xs|
  {
    if xs == [] {
      WithoutNothing(s, {});
    } else {
      var s' := if xs[0] in s then RemoveFirst(s, xs[0]) else s;
      if xs[0] in s {
        RemoveFirstIsWithout(s, xs[0]);
        WithoutNoDups(s, {xs[0]});
      }
      assert s' == Without(s, {xs[0]}) by {
        if xs[0] !in s { WithoutNothing(s, {xs[0]}); }
      }
      RemovePresentSpec(s', xs[1..]);
      WithoutTwice(s, {xs[0]}, Elems(xs[1..]));
    }
  }

  /** Appending an absent element and then removing it restores the list. */
  lemma AppendThenRemove<T>(s: seq<T>, x: T)
    requires NoDups(s) && x !in s
    ensures RemovePresent(AppendAbsent(s, [x]), [x]) == s
  {
    assert AppendAbsent(s, [x]) == s + [x];
    assert (s + [x])[|s|] == x;
    IndexOfUnique(s + [x], |s|);
    assert (s + [x])[..|s|] == s;
  }
}

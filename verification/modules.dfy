/** The sidebar's module records (`Module` in the shared types file) and the
    list queries both the selector and the panel make on them. */
module Modules {
  import opened Sequences

  /** A sidebar module. The optional `isDefault` flag is a boolean here:
      an absent flag and `false` are equally falsy to every test the
      components make. */
  datatype Module = Module(id: string, name: string, isDefault: bool)

  predicate IsDefault(m: Module) {
    m.isDefault
  }

  /** `available.filter(m => m.isDefault)`. */
  function Defaults(available: seq<Module>): seq<Module> {
    Filter(available, IsDefault)
  }

  /** `list.some(m => m.id === id)`. */
  function HasId(list: seq<Module>, id: string): bool {
    if list == [] then false else list[0].id == id || HasId(list[1..], id)
  }

  /** The test `m => m.id !== id`, named so that every use is the same
      function value. */
  function OtherId(id: string): Module -> bool {
    (m: Module) => m.id != id
  }

  /** No two entries share an id. */
  predicate DistinctIds(list: seq<Module>) {
    forall i, j :: 0 <= i < j < |list| ==> list[i].id != list[j].id
  }

  /** `some` finds exactly the ids that occur. */
  lemma {:induction false} HasIdSpec(list: seq<Module>, id: string)
    ensures HasId(list, id) <==> exists m :: m in list && m.id == id
  {
    if list != [] {
      HasIdSpec(list[1..], id);
      assert list == [list[0]] + list[1..];
    }
  }

  lemma HasIdAppend(a: seq<Module>, b: seq<Module>, id: string)
    ensures HasId(a + b, id) <==> HasId(a, id) || HasId(b, id)
  {
    HasIdSpec(a + b, id);
    HasIdSpec(a, id);
    HasIdSpec(b, id);
  }

  /** Keeping only some entries cannot create a repeated id. */
  lemma {:induction false} FilterKeepsDistinctIds(list: seq<Module>, p: Module -> bool)
    requires DistinctIds(list)
    ensures DistinctIds(Filter(list, p))
    decreases |list|
  {
    if list != [] {
      var rest := list[1..];
      FilterKeepsDistinctIds(rest, p);
      if p(list[0]) {
        forall m | m in Filter(rest, p)
          ensures m.id != list[0].id
        {
          FilterMembership(rest, p, m);
        }
      }
    }
  }

  /** With distinct ids a list has as many different entries as positions. */
  lemma {:induction false} DistinctIdsCard(list: seq<Module>)
    requires DistinctIds(list)
    ensures |set m | m in list| == |list|
    decreases |list|
  {
    if list != [] {
      var rest := list[1..];
      DistinctIdsCard(rest);
      assert (set m | m in list) == {list[0]} + (set m | m in rest) by {
        assert list == [list[0]] + rest;
      }
      assert list[0] !in rest;
    }
  }

  /** A subset is no larger than its superset. */
  lemma {:induction false} SubsetCard<T>(a: set<T>, b: set<T>)
    requires a <= b
    ensures |a| <= |b|
    decreases |a|
  {
    if a != {} {
      var y :| y in a;
      SubsetCard(a - {y}, b - {y});
    }
  }

  /** A subset as large as its superset is the whole of it. */
  lemma SubsetSameCard<T>(a: set<T>, b: set<T>)
    requires a <= b && |a| == |b|
    ensures a == b
  {
    if a != b {
      var x :| x in b && x !in a;
      SubsetCard(a, b - {x});
    }
  }
}

/** The module selector at the foot of the sidebar: its initial selection,
    the check-box toggle, the grouping of the available modules by name, and
    the summary label "N Module(s) Selected (Default)". */
module ModulesSelector {
  import opened Options
  import opened Sequences
  import opened Modules
  import Decimal

  /** `initialSelectedModules || availableModules.filter(m => m.isDefault)`.
      A given list is used even when empty, since an array is truthy. */
  function InitialSelection(available: seq<Module>, initial: Option<seq<Module>>): seq<Module> {
    match initial
    case Some(list) => list
    case None => Defaults(available)
  }

  /** Without a given list the selection is the default modules, in their
      order among the available ones, each as often as it is available, and
      inherits distinct ids from them. */
  lemma InitialSelectionDefaults(available: seq<Module>, initial: Option<seq<Module>>)
    ensures initial.Some? ==> InitialSelection(available, initial) == initial.value
    ensures initial.None? ==>
      && Subseq(InitialSelection(available, initial), available)
      && (forall m :: m in InitialSelection(available, initial) <==> m in available && m.isDefault)
      && (forall m :: multiset(InitialSelection(available, initial))[m] ==
            if m.isDefault then multiset(available)[m] else 0)
      && (DistinctIds(available) ==> DistinctIds(InitialSelection(available, initial)))
  {
    FilterSubseq(available, IsDefault);
    forall m ensures m in Defaults(available) <==> m in available && m.isDefault {
      FilterMembership(available, IsDefault, m);
    }
    forall m ensures multiset(Defaults(available))[m] == if m.isDefault then multiset(available)[m] else 0 {
      FilterCount(available, IsDefault, m);
    }
    if DistinctIds(available) {
      FilterKeepsDistinctIds(available, IsDefault);
    }
  }

  /** `toggleModule`: a module whose id is selected is removed (every entry
      with that id); otherwise it is appended. */
  function Toggle(prev: seq<Module>, m: Module): seq<Module> {
    if HasId(prev, m.id) then Filter(prev, OtherId(m.id)) else prev + [m]
  }

  /** The toggled id changes membership; every other id keeps it. */
  lemma ToggleMembership(prev: seq<Module>, m: Module, id: string)
    ensures HasId(Toggle(prev, m), id) <==> if id == m.id then !HasId(prev, id) else HasId(prev, id)
  {
    var r := Toggle(prev, m);
    HasIdSpec(prev, id);
    HasIdSpec(r, id);
    if HasId(prev, m.id) {
      forall x ensures x in r <==> x in prev && x.id != m.id {
        FilterMembership(prev, OtherId(m.id), x);
      }
    } else {
      HasIdAppend(prev, [m], id);
    }
  }

  /** Removing keeps the other entries, in their original order and each
      as often as before. */
  lemma ToggleRemoves(prev: seq<Module>, m: Module)
    requires HasId(prev, m.id)
    ensures Subseq(Toggle(prev, m), prev)
    ensures forall x :: x in Toggle(prev, m) <==> x in prev && x.id != m.id
    ensures forall x :: multiset(Toggle(prev, m))[x] == if x.id != m.id then multiset(prev)[x] else 0
  {
    FilterSubseq(prev, OtherId(m.id));
    forall x ensures x in Toggle(prev, m) <==> x in prev && x.id != m.id {
      FilterMembership(prev, OtherId(m.id), x);
    }
    forall x ensures multiset(Toggle(prev, m))[x] == if x.id != m.id then multiset(prev)[x] else 0 {
      FilterCount(prev, OtherId(m.id), x);
    }
  }

  /** Adding puts the module last and leaves the earlier entries alone. */
  lemma ToggleAppends(prev: seq<Module>, m: Module)
    requires !HasId(prev, m.id)
    ensures |Toggle(prev, m)| == |prev| + 1
    ensures Toggle(prev, m)[..|prev|] == prev && Toggle(prev, m)[|prev|] == m
  {
  }

  /** Selecting a module and then deselecting it restores the selection. */
  lemma ToggleTwice(prev: seq<Module>, m: Module)
    requires !HasId(prev, m.id)
    ensures Toggle(Toggle(prev, m), m) == prev
  {
    var once := prev + [m];
    HasIdAppend(prev, [m], m.id);
    assert HasId(once, m.id);
    FilterAppend(prev, [m], OtherId(m.id));
    HasIdSpec(prev, m.id);
    FilterAll(prev, OtherId(m.id));
    assert Filter([m], OtherId(m.id)) == [];
  }

  /** A selection without repeated ids keeps that property. */
  lemma ToggleKeepsDistinctIds(prev: seq<Module>, m: Module)
    requires DistinctIds(prev)
    ensures DistinctIds(Toggle(prev, m))
  {
    if HasId(prev, m.id) {
      FilterKeepsDistinctIds(prev, OtherId(m.id));
    } else {
      HasIdSpec(prev, m.id);
      var r := prev + [m];
      forall i, j | 0 <= i < j < |r| ensures r[i].id != r[j].id {
        if j == |prev| {
          assert r[i] in prev;
        }
      }
    }
  }

  /** `modulesByName`: the reduce that appends each module to the list of
      its name, creating the list on first sight of the name. */
  function GroupInto(acc: map<string, seq<Module>>, list: seq<Module>): map<string, seq<Module>>
    decreases |list|
  {
    if list == [] then acc
    else
      var m := list[0];
      var group := if m.name in acc then acc[m.name] else [];
      GroupInto(acc[m.name := group + [m]], list[1..])
  }

  function ByName(available: seq<Module>): map<string, seq<Module>> {
    GroupInto(map[], available)
  }

  /** The test `m => m.name === name`, named so that every use is the same
      function value. */
  function Named(name: string): Module -> bool {
    (m: Module) => m.name == name
  }

  lemma {:induction false} GroupIntoSpec(acc: map<string, seq<Module>>, list: seq<Module>, name: string)
    ensures name in GroupInto(acc, list) <==> name in acc || exists m :: m in list && m.name == name
    ensures name in GroupInto(acc, list) ==>
      GroupInto(acc, list)[name] == (if name in acc then acc[name] else []) + Filter(list, Named(name))
    decreases |list|
  {
    if list != [] {
      var m := list[0];
      var group := if m.name in acc then acc[m.name] else [];
      var next := acc[m.name := group + [m]];
      GroupIntoSpec(next, list[1..], name);
      assert list == [m] + list[1..];
      if m.name == name {
        assert next[name] == (if name in acc then acc[name] else []) + [m];
      }
    } else {
      assert Filter(list, Named(name)) == [];
    }
  }

  /** There is a group for each name that occurs, and it holds exactly the
      modules of that name, in their original order. */
  lemma ByNameSpec(available: seq<Module>, name: string)
    ensures name in ByName(available) <==> exists m :: m in available && m.name == name
    ensures name in ByName(available) ==> ByName(available)[name] == Filter(available, Named(name))
  {
    GroupIntoSpec(map[], available, name);
  }

  /** Every module is in the group of its own name and in no other. */
  lemma ByNamePartition(available: seq<Module>, m: Module, name: string)
    requires m in available
    ensures m.name in ByName(available) && m in ByName(available)[m.name]
    ensures name in ByName(available) && m in ByName(available)[name] ==> name == m.name
  {
    ByNameSpec(available, m.name);
    ByNameSpec(available, name);
    FilterMembership(available, Named(m.name), m);
    FilterMembership(available, Named(name), m);
  }

  /** `${n} Module${n !== 1 ? 's' : ''} Selected`. */
  function CountLabel(n: nat): string {
    Decimal.Show(n) + " Module" + (if n != 1 then "s" else "") + " Selected"
  }

  /** The noun is plural exactly when the count is not one. */
  lemma CountLabelPlural(n: nat)
    ensures CountLabel(n) == Decimal.Show(n) + " Modules Selected" <==> n != 1
    ensures CountLabel(n) == Decimal.Show(n) + " Module Selected" <==> n == 1
  {
    assert |" Modules Selected"| != |" Module Selected"|;
  }

  /** Whether the " (Default)" suffix is shown: as many modules selected as
      there are defaults, and every selected module a default. */
  function DefaultTag(selected: seq<Module>, available: seq<Module>): bool {
    |selected| == |Defaults(available)| && forall i :: 0 <= i < |selected| ==> selected[i].isDefault
  }

  /** For a selection drawn from the available modules without repeated ids
      (which the initial selection and every toggle keep), the suffix is
      shown exactly when the selected modules are the default ones. */
  lemma DefaultTagIff(selected: seq<Module>, available: seq<Module>)
    requires DistinctIds(available) && DistinctIds(selected)
    requires forall m :: m in selected ==> m in available
    ensures DefaultTag(selected, available) <==>
      (set m | m in selected) == (set m | m in Defaults(available))
  {
    var defaults := Defaults(available);
    var s, d := set m | m in selected, set m | m in defaults;
    FilterKeepsDistinctIds(available, IsDefault);
    DistinctIdsCard(selected);
    DistinctIdsCard(defaults);
    forall m ensures m in defaults <==> m in available && m.isDefault {
      FilterMembership(available, IsDefault, m);
    }
    if DefaultTag(selected, available) {
      assert s <= d;
      SubsetSameCard(s, d);
    }
    if s == d {
      assert forall i :: 0 <= i < |selected| ==> selected[i] in d;
    }
  }

  /** The initial default selection carries the suffix. */
  lemma InitialSelectionTagged(available: seq<Module>)
    ensures DefaultTag(InitialSelection(available, None), available)
  {
  }

  /** The selection stays within the available modules and free of repeated
      ids under every toggle of an available module. */
  lemma ToggleKeepsSelectionValid(prev: seq<Module>, m: Module, available: seq<Module>)
    requires DistinctIds(prev) && (forall x :: x in prev ==> x in available)
    requires m in available
    ensures DistinctIds(Toggle(prev, m))
    ensures forall x :: x in Toggle(prev, m) ==> x in available
  {
    ToggleKeepsDistinctIds(prev, m);
    if HasId(prev, m.id) {
      ToggleRemoves(prev, m);
    }
  }
}

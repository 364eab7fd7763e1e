/** The sidebar panel: its fixed list of modules, the modules that start
    active, the active modules it shows in id order, which view each module
    shows, and the open/close button. */
module ModulePanel {
  import opened Options
  import opened Sequences
  import opened Modules
  import Decimal

  /** The panel's `availableModules`. */
  const Available: seq<Module> := [
    Module("1", "Visuals", true),
    Module("2", "Information", false),
    Module("3", "Endpoints", true)
  ]

  /** The initial `activeModules`: the default ones. */
  function InitialActive(available: seq<Module>): seq<Module> {
    Defaults(available)
  }

  /** The panel starts with Visuals and Endpoints active. */
  lemma InitialActiveOfPanel()
    ensures InitialActive(Available) == [Available[0], Available[2]]
  {
    assert Filter(Available[2..], IsDefault) == [Available[2]];
    assert Filter(Available[1..], IsDefault) == [Available[2]];
  }

  /** The test `module => activeModules.some(active => active.id === module.id)`. */
  function IsActive(active: seq<Module>): Module -> bool {
    (m: Module) => HasId(active, m.id)
  }

  /** The comparator `(a, b) => parseInt(a.id) - parseInt(b.id)` as a key. */
  function IdKey(m: Module): real {
    Decimal.ParseInt(m.id) as real
  }

  /** The modules the panel shows: the available ones whose id is active,
      sorted by numeric id. */
  function Displayed(available: seq<Module>, active: seq<Module>): seq<Module> {
    SortBy(Filter(available, IsActive(active)), IdKey)
  }

  /** A module is shown exactly when it is available and its id is active. */
  lemma DisplayedMembership(available: seq<Module>, active: seq<Module>, m: Module)
    ensures m in Displayed(available, active) <==> m in available && HasId(active, m.id)
  {
    DisplayedCount(available, active, m);
  }

  /** A shown module appears as often as it is available, however often its
      id is active, so a module listed once is shown at most once. */
  lemma DisplayedCount(available: seq<Module>, active: seq<Module>, m: Module)
    ensures multiset(Displayed(available, active))[m] ==
      if HasId(active, m.id) then multiset(available)[m] else 0
  {
    FilterCount(available, IsActive(active), m);
  }

  /** Only which ids are active matters, not their order or repetitions. */
  lemma DisplayedDependsOnIds(available: seq<Module>, a: seq<Module>, b: seq<Module>)
    requires forall m :: m in available ==> HasId(a, m.id) == HasId(b, m.id)
    ensures Displayed(available, a) == Displayed(available, b)
  {
    FilterCongruent(available, IsActive(a), IsActive(b));
  }

  /** Shown modules are in ascending numeric id order. */
  lemma DisplayedAscending(available: seq<Module>, active: seq<Module>)
    ensures forall i, j :: 0 <= i < j < |Displayed(available, active)| ==>
      Decimal.ParseInt(Displayed(available, active)[i].id) <= Decimal.ParseInt(Displayed(available, active)[j].id)
  {
    SortBySorted(Filter(available, IsActive(active)), IdKey);
  }

  /** The views a module can show. */
  datatype View = MoleculeView | InformationView | EndpointTable

  /** `renderModuleContent`: a view per known module name, nothing for any
      other name. */
  function RenderModuleContent(m: Module): Option<View> {
    match m.name
    case "Visuals" => Some(MoleculeView)
    case "Information" => Some(InformationView)
    case "Endpoints" => Some(EndpointTable)
    case _ => None
  }

  /** Visuals shows the molecule viewer, Information the information view
      and Endpoints the endpoint table; so every module of the panel has a
      view, different modules get different views, and any unknown name
      renders nothing. */
  lemma RenderModuleContentCovers(m: Module, n: Module)
    ensures m.name == "Visuals" ==> RenderModuleContent(m) == Some(MoleculeView)
    ensures m.name == "Information" ==> RenderModuleContent(m) == Some(InformationView)
    ensures m.name == "Endpoints" ==> RenderModuleContent(m) == Some(EndpointTable)
    ensures m in Available ==> RenderModuleContent(m).Some?
    ensures m in Available && n in Available && m != n ==> RenderModuleContent(m) != RenderModuleContent(n)
    ensures (forall a :: a in Available ==> a.name != m.name) ==> RenderModuleContent(m) == None
  {
  }

  /** What `handleToggle` leaves behind: the new open state, and the value
      passed to `onOpenChange` when that callback was supplied. */
  datatype ToggleOutcome = ToggleOutcome(open: bool, reported: Option<bool>)

  function HandleToggle(isOpen: bool, hasCallback: bool): ToggleOutcome {
    var newState := !isOpen;
    ToggleOutcome(newState, if hasCallback then Some(newState) else None)
  }

  /** The button flips the panel, reports the state it flipped to, and a
      second press restores the first state. */
  lemma HandleToggleSpec(isOpen: bool, hasCallback: bool)
    ensures HandleToggle(isOpen, hasCallback).open != isOpen
    ensures HandleToggle(isOpen, hasCallback).reported.Some? <==> hasCallback
    ensures hasCallback ==> HandleToggle(isOpen, hasCallback).reported == Some(HandleToggle(isOpen, hasCallback).open)
    ensures HandleToggle(HandleToggle(isOpen, hasCallback).open, hasCallback).open == isOpen
  {
  }

  /** On first render the panel shows Visuals then Endpoints. */
  lemma InitialDisplay()
    ensures Displayed(Available, InitialActive(Available)) == [Available[0], Available[2]]
  {
    InitialActiveOfPanel();
    var active := InitialActive(Available);
    assert Filter(Available, IsActive(active)) == [Available[0], Available[2]] by {
      assert Filter(Available[2..], IsActive(active)) == [Available[2]];
      assert Filter(Available[1..], IsActive(active)) == [Available[2]];
    }
    assert Decimal.ParseInt("1") == 1 by {
      Decimal.ParseShow(1);
    }
    assert Decimal.ParseInt("3") == 3 by {
      Decimal.ParseShow(3);
    }
    assert [Available[2]][1..] == [];
    assert SortBy([Available[2]], IdKey) == [Available[2]];
  }
}

/**
 Generation of the remote store: the walk over the supertraits of `RuntimeStore`, one
 implementation for each trait with methods, and the list of forwarded operations.
 */
module StoreCodegen {
  import opened Prelude
  import opened Graphs

  /** A supertrait bound by its last path segment, or a lifetime bound. */
  datatype Bound = TraitBound(name: string) | OtherBound

  /** A method with its asyncness and whether each typed argument is a plain name; or another item. */
  datatype Item = Method(name: string, isAsync: bool, namedArguments: bool) | OtherItem

  datatype Trait = Trait(supertraits: seq<Bound>, items: seq<Item>)

  type Traits = map<string, Trait>

  const ROOT := "RuntimeStore"

  /** Methods with a body of their own instead of a forwarded call. */
  const SPECIAL: set<string> := {
    "worker_coordination_mode", "storage_pool_metrics", "storage_backend_name", "subscribe_event_changes",
    "committed_event_hint", "wait_for_edge_command_change", "wait_for_thread_signal_change"}

  /** An emitted method: forwarded as an operation, or with its special body. */
  datatype Emitted = Forwarded(item: Item) | Fixed(item: Item)

  datatype Implementation = Implementation(name: string, methods: seq<Emitted>)

  datatype Operation = Operation(store: string, operation: string) {
    function Text(): string {
      store + "::" + operation
    }
  }

  datatype Output = Output(implementations: seq<Implementation>, operations: seq<Operation>)

  function Supertraits(bounds: seq<Bound>): seq<string> {
    if bounds == [] then []
    else
      var rest, last := Supertraits(bounds[..|bounds| - 1]), bounds[|bounds| - 1];
      if last.TraitBound? && last.name != "Send" && last.name != "Sync" then rest + [last.name] else rest
  }

  /** The bounds that are walked: traits other than the two markers. */
  const WALKED: Bound -> bool := (b: Bound) => b.TraitBound? && b.name != "Send" && b.name != "Sync"

  /** `names` are, in order, the names at these positions of the bounds. */
  ghost predicate NamesAt(bounds: seq<Bound>, at: seq<nat>, names: seq<string>) {
    |names| == |at| && forall j | 0 <= j < |at| :: at[j] < |bounds| && bounds[at[j]] == TraitBound(names[j])
  }

  /** Exactly the trait bounds other than Send and Sync, in the order of the bounds. */
  lemma {:induction false} SupertraitsExact(bounds: seq<Bound>) returns (at: seq<nat>)
    ensures Picks(bounds, WALKED, at) && NamesAt(bounds, at, Supertraits(bounds))
  {
    at := [];
    if bounds != [] {
      var n := |bounds| - 1;
      at := SupertraitsExact(bounds[..n]);
      PicksSnoc(bounds[..n], WALKED, at, bounds[n]);
      assert bounds == bounds[..n] + [bounds[n]];
      at := at + if WALKED(bounds[n]) then [n] else [];
    }
  }

  /** The declaration of trait `n` has `m` among its supertraits. */
  ghost predicate Declares(traits: Traits, n: string, m: string) {
    n in traits && TraitBound(m) in traits[n].supertraits && m != "Send" && m != "Sync"
  }

  /** A chain of declarations from the root, each trait naming the next one. */
  ghost predicate IsChain(traits: Traits, chain: seq<string>) {
    chain != [] && chain[0] == ROOT && forall i | 0 < i < |chain| :: Declares(traits, chain[i - 1], chain[i])
  }

  ghost predicate Inherited(traits: Traits, n: string) {
    exists chain :: IsChain(traits, chain) && chain[|chain| - 1] == n
  }

  function GraphOf(traits: Traits): Graph {
    map n | n in traits :: Supertraits(traits[n].supertraits)
  }

  lemma DeclaresIsNext(traits: Traits, n: string, m: string)
    ensures Declares(traits, n, m) <==> m in Next(GraphOf(traits), n)
  {
    if n in traits {
      var bounds := traits[n].supertraits;
      var at := SupertraitsExact(bounds);
      if Declares(traits, n, m) {
        var i: nat :| i < |bounds| && bounds[i] == TraitBound(m);
        assert WALKED(bounds[i]);
        var j :| 0 <= j < |at| && at[j] == i;
        assert Supertraits(bounds)[j] == m;
      }
      if m in Supertraits(bounds) {
        var j :| 0 <= j < |at| && Supertraits(bounds)[j] == m;
        assert bounds[at[j]] == TraitBound(m) && WALKED(bounds[at[j]]);
      }
    }
  }

  /** What the walk reaches in the graph is what the declarations inherit. */
  lemma InheritedIsReachable(traits: Traits, n: string)
    ensures Inherited(traits, n) <==> Reachable(GraphOf(traits), ROOT, n)
  {
    var g := GraphOf(traits);
    if Inherited(traits, n) {
      var chain :| IsChain(traits, chain) && chain[|chain| - 1] == n;
      forall i | 0 < i < |chain| ensures chain[i] in Next(g, chain[i - 1]) {
        DeclaresIsNext(traits, chain[i - 1], chain[i]);
      }
      assert PathTo(g, ROOT, chain, n);
    }
    if Reachable(g, ROOT, n) {
      var path :| PathTo(g, ROOT, path, n);
      forall i | 0 < i < |path| ensures Declares(traits, path[i - 1], path[i]) {
        DeclaresIsNext(traits, path[i - 1], path[i]);
      }
      assert IsChain(traits, path);
    }
  }

  predicate SupportedItem(item: Item) {
    item.Method? && (item.name in SPECIAL || (item.isAsync && item.namedArguments))
  }

  predicate Supported(t: Trait) {
    forall i | 0 <= i < |t.items| :: SupportedItem(t.items[i])
  }

  function Emit(item: Item): Emitted {
    if item.Method? && item.name in SPECIAL then Fixed(item) else Forwarded(item)
  }

  /** What the items are emitted as, in order. */
  function Methods(items: seq<Item>): seq<Emitted> {
    seq(|items|, i requires 0 <= i < |items| => Emit(items[i]))
  }

  function Operations(name: string, items: seq<Item>): seq<Operation> {
    if items == [] then []
    else
      var rest, last := Operations(name, items[..|items| - 1]), items[|items| - 1];
      if last.Method? && last.name !in SPECIAL then rest + [Operation(name, last.name)] else rest
  }

  // ----- The loops -----

  /** The loop over one trait's bounds. */
  method PushSupertraits(pending: seq<string>, bounds: seq<Bound>) returns (r: seq<string>, ghost at: seq<nat>)
    ensures r == pending + Supertraits(bounds)
    ensures pending <= r && Picks(bounds, WALKED, at) && NamesAt(bounds, at, r[|pending|..])
  {
    r := pending;
    for i := 0 to |bounds|
      invariant r == pending + Supertraits(bounds[..i])
    {
      assert bounds[..i + 1][..i] == bounds[..i];
      if bounds[i].TraitBound? && bounds[i].name != "Send" && bounds[i].name != "Sync" {
        r := r + [bounds[i].name];
      }
    }
    assert bounds[..|bounds|] == bounds;
    at := SupertraitsExact(bounds);
  }

  /** The loop over one trait's items; `None` is a panic. */
  method EmitTrait(name: string, items: seq<Item>) returns (r: Option<(seq<Emitted>, seq<Operation>)>)
    ensures r.Some? <==> forall i | 0 <= i < |items| :: SupportedItem(items[i])
    ensures r.Some? <==> forall item | item in items ::
      item.Method? && (item.name in SPECIAL || (item.isAsync && item.namedArguments))
    ensures r.Some? ==> r.value == (Methods(items), Operations(name, items))
  {
    var methods: seq<Emitted>, operations: seq<Operation> := [], [];
    for i := 0 to |items|
      invariant forall j | 0 <= j < i :: SupportedItem(items[j])
      invariant |methods| == i && forall j | 0 <= j < i :: methods[j] == Emit(items[j])
      invariant operations == Operations(name, items[..i])
    {
      assert items[..i + 1][..i] == items[..i];
      if !items[i].Method? {
        return None;
      }
      if items[i].name in SPECIAL {
        methods := methods + [Fixed(items[i])];
      } else {
        if !items[i].isAsync || !items[i].namedArguments {
          return None;
        }
        operations := operations + [Operation(name, items[i].name)];
        methods := methods + [Forwarded(items[i])];
      }
    }
    assert items[..|items|] == items && methods == Methods(items);
    return Some((methods, operations));
  }

  /** What visiting the traits in this order emits. */
  function EmittedBy(traits: Traits, order: seq<string>): Output
    requires forall n | n in order :: n in traits
  {
    if order == [] then Output([], [])
    else
      var last := order[|order| - 1];
      var rest, items := EmittedBy(traits, order[..|order| - 1]), traits[last].items;
      Output(if items == [] then rest.implementations else rest.implementations + [Implementation(last, Methods(items))],
             rest.operations + Operations(last, items))
  }

  /** Everything the walk can reach is registered and supported. */
  ghost predicate AllSupported(traits: Traits) {
    forall n | Inherited(traits, n) :: n in traits && Supported(traits[n])
  }

  /** The worklist. It ends for every trait graph, cycles and diamonds included; it panics exactly when
      some reachable trait is unregistered or unsupported; and otherwise visits each reachable trait
      once, emitting its implementation and operations then. */
  method Generate(traits: Traits) returns (r: Option<Output>, ghost order: seq<string>)
    ensures r.Some? <==> AllSupported(traits)
    ensures r.Some? ==>
      && Distinct(order) && (forall n :: n in order <==> Inherited(traits, n))
      && (forall n | n in order :: n in traits && Supported(traits[n]))
      && r.value == EmittedBy(traits, order)
  {
    ghost var g := GraphOf(traits);
    var pending, visited: set<string> := [ROOT], {};
    var out := Output([], []);
    order := [];
    ExploringStarts(g, ROOT);
    while pending != []
      invariant Exploring(g, ROOT, visited, pending)
      invariant VisitedSoFar(traits, order, visited, out)
      decreases |traits.Keys - visited|, |pending|
    {
      var name := pending[|pending| - 1];
      assert name in pending;
      if name in visited {
        ExploringSkips(g, ROOT, visited, pending);
        pending := pending[..|pending| - 1];
        continue;
      }
      if name !in traits {
        InheritedIsReachable(traits, name);
        return None, order;
      }
      ExploringVisits(g, ROOT, visited, pending);
      ghost var at;
      pending, at := PushSupertraits(pending[..|pending| - 1], traits[name].supertraits);
      var emitted := EmitTrait(name, traits[name].items);
      if emitted.None? {
        assert !Supported(traits[name]);
        InheritedIsReachable(traits, name);
        return None, order;
      }
      VisitStep(traits, order, visited, out, name);
      visited, order := visited + {name}, order + [name];
      out := Output(
        if emitted.value.0 == [] then out.implementations else out.implementations + [Implementation(name, emitted.value.0)],
        out.operations + emitted.value.1);
    }
    VisitedIsInherited(traits, visited);
    return Some(out), order;
  }

  /** The traits visited so far, each once and supported, and what they emitted. */
  ghost predicate VisitedSoFar(traits: Traits, order: seq<string>, visited: set<string>, out: Output) {
    && visited <= traits.Keys && visited == Elements(order) && Distinct(order)
    && (forall n | n in order :: n in traits && Supported(traits[n]))
    && out == EmittedBy(traits, order)
  }

  lemma VisitedIsInherited(traits: Traits, visited: set<string>)
    requires Exploring(GraphOf(traits), ROOT, visited, [])
    ensures forall n :: n in visited <==> Inherited(traits, n)
  {
    ExploringEnds(GraphOf(traits), ROOT, visited);
    forall n ensures n in visited <==> Inherited(traits, n) {
      InheritedIsReachable(traits, n);
    }
  }

  lemma VisitStep(traits: Traits, order: seq<string>, visited: set<string>, out: Output, name: string)
    requires VisitedSoFar(traits, order, visited, out) && name !in visited && name in traits && Supported(traits[name])
    ensures |traits.Keys - (visited + {name})| < |traits.Keys - visited|
    ensures VisitedSoFar(traits, order + [name], visited + {name},
      Output(if Methods(traits[name].items) == [] then out.implementations
             else out.implementations + [Implementation(name, Methods(traits[name].items))],
             out.operations + Operations(name, traits[name].items)))
  {
    assert traits.Keys - visited == (traits.Keys - (visited + {name})) + {name};
    DistinctSnoc(order, name);
    EmittedNext(traits, order, name);
  }

  lemma EmittedNext(traits: Traits, order: seq<string>, name: string)
    requires name in traits && forall n | n in order :: n in traits
    ensures EmittedBy(traits, order + [name]) ==
      Output(if Methods(traits[name].items) == [] then EmittedBy(traits, order).implementations
             else EmittedBy(traits, order).implementations + [Implementation(name, Methods(traits[name].items))],
             EmittedBy(traits, order).operations + Operations(name, traits[name].items))
  {
    assert (order + [name])[..|order|] == order;
  }

  // ----- What the output holds -----

  lemma {:induction false} OperationsExact(name: string, items: seq<Item>, op: Operation)
    ensures op in Operations(name, items) <==>
      op.store == name && exists item | item in items :: item.Method? && item.name !in SPECIAL && item.name == op.operation
  {
    if items != [] {
      OperationsExact(name, items[..|items| - 1], op);
      assert forall item :: item in items <==> item in items[..|items| - 1] || item == items[|items| - 1];
    }
  }

  /** The items that are forwarded as operations. */
  const FORWARDED: Item -> bool := (item: Item) => item.Method? && item.name !in SPECIAL

  ghost predicate OperationsAt(name: string, items: seq<Item>, at: seq<nat>, ops: seq<Operation>) {
    |ops| == |at| && forall j | 0 <= j < |at| ::
      at[j] < |items| && items[at[j]].Method? && ops[j] == Operation(name, items[at[j]].name)
  }

  /** A trait's operations are its forwarded methods, each once, in the order of its items. */
  lemma {:induction false} OperationsInOrder(name: string, items: seq<Item>) returns (at: seq<nat>)
    ensures Picks(items, FORWARDED, at) && OperationsAt(name, items, at, Operations(name, items))
  {
    at := [];
    if items != [] {
      var n := |items| - 1;
      at := OperationsInOrder(name, items[..n]);
      PicksSnoc(items[..n], FORWARDED, at, items[n]);
      assert items == items[..n] + [items[n]];
      at := at + if FORWARDED(items[n]) then [n] else [];
    }
  }

  /** The operation list holds exactly the forwarded methods of the visited traits. */
  lemma {:induction false} OperationListExact(traits: Traits, order: seq<string>, op: Operation)
    requires forall n | n in order :: n in traits && Supported(traits[n])
    ensures op in EmittedBy(traits, order).operations <==>
      && op.store in order
      && exists item | item in traits[op.store].items :: item.Method? && item.name !in SPECIAL && item.name == op.operation
  {
    if order != [] {
      var front, last := order[..|order| - 1], order[|order| - 1];
      OperationListExact(traits, front, op);
      OperationsExact(last, traits[last].items, op);
      assert forall n :: n in order <==> n in front || n == last;
    }
  }

  /** Exactly the visited traits that have items get an implementation, with all of them in order. */
  lemma {:induction false} ImplementationsExact(traits: Traits, order: seq<string>, impl: Implementation)
    requires forall n | n in order :: n in traits && Supported(traits[n])
    ensures impl in EmittedBy(traits, order).implementations <==>
      impl.name in order && traits[impl.name].items != [] && impl.methods == Methods(traits[impl.name].items)
  {
    if order != [] {
      var front, last := order[..|order| - 1], order[|order| - 1];
      ImplementationsExact(traits, front, impl);
      assert forall n :: n in order <==> n in front || n == last;
    }
  }

  ghost predicate NamesOnce(impls: seq<Implementation>) {
    forall i, j | 0 <= i < j < |impls| :: impls[i].name != impls[j].name
  }

  lemma {:induction false} ImplementedOnce(traits: Traits, order: seq<string>)
    requires (forall n | n in order :: n in traits && Supported(traits[n])) && Distinct(order)
    ensures NamesOnce(EmittedBy(traits, order).implementations)
  {
    if order != [] {
      var front, last := order[..|order| - 1], order[|order| - 1];
      ImplementedOnce(traits, front);
      var impls := EmittedBy(traits, front).implementations;
      forall i | 0 <= i < |impls| ensures impls[i].name != last {
        ImplementationsExact(traits, front, impls[i]);
        assert impls[i] in impls;
      }
    }
  }

  /** A trait declares each method name once, as the compiler demands. */
  ghost predicate MethodsOnce(items: seq<Item>) {
    forall i, j | 0 <= i < j < |items| && items[i].Method? && items[j].Method? :: items[i].name != items[j].name
  }

  lemma {:induction false} OperationsOnce(name: string, items: seq<Item>)
    requires MethodsOnce(items)
    ensures Distinct(Operations(name, items))
  {
    if items != [] {
      var front, last := items[..|items| - 1], items[|items| - 1];
      OperationsOnce(name, front);
      if last.Method? && last.name !in SPECIAL {
        OperationsExact(name, front, Operation(name, last.name));
        DistinctSnoc(Operations(name, front), Operation(name, last.name));
      }
    }
  }

  lemma {:induction false} OperationListOnce(traits: Traits, order: seq<string>)
    requires (forall n | n in order :: n in traits && Supported(traits[n])) && Distinct(order)
    requires forall n | n in order :: MethodsOnce(traits[n].items)
    ensures Distinct(EmittedBy(traits, order).operations)
  {
    if order != [] {
      var front, last := order[..|order| - 1], order[|order| - 1];
      OperationListOnce(traits, front);
      OperationsOnce(last, traits[last].items);
      var earlier, mine := EmittedBy(traits, front).operations, Operations(last, traits[last].items);
      forall op | op in earlier ensures op !in mine {
        OperationListExact(traits, front, op);
        OperationsExact(last, traits[last].items, op);
      }
      DistinctConcat(earlier, mine);
    }
  }

  /**
   The whole result, for any visiting order of the reachable traits: one implementation for each
   reachable trait with items, none for any other; every method of such a trait is emitted there; and
   the operation list holds, once each, exactly the methods of reachable traits that have no
   special body, all of them async.
   */
  lemma GeneratedIsComplete(traits: Traits, order: seq<string>, impl: Implementation, op: Operation)
    requires Distinct(order) && forall n :: n in order <==> Inherited(traits, n)
    requires forall n | n in order :: n in traits && Supported(traits[n]) && MethodsOnce(traits[n].items)
    ensures
      var out := EmittedBy(traits, order);
      && NamesOnce(out.implementations) && Distinct(out.operations)
      && (impl in out.implementations <==>
            && Inherited(traits, impl.name) && impl.name in traits && traits[impl.name].items != []
            && |impl.methods| == |traits[impl.name].items|
            && forall i | 0 <= i < |impl.methods| :: impl.methods[i] ==
                 if traits[impl.name].items[i].Method? && traits[impl.name].items[i].name in SPECIAL
                 then Fixed(traits[impl.name].items[i]) else Forwarded(traits[impl.name].items[i]))
      && (op in out.operations <==>
            && Inherited(traits, op.store) && op.store in traits
            && exists item | item in traits[op.store].items ::
                 item.Method? && item.name !in SPECIAL && item.name == op.operation && item.isAsync && item.namedArguments)
  {
    ImplementedOnce(traits, order);
    OperationListOnce(traits, order);
    ImplementationsExact(traits, order, impl);
    OperationListExact(traits, order, op);
    if impl.name in order {
      var items := traits[impl.name].items;
      assert forall i | 0 <= i < |items| :: SupportedItem(items[i]);
      assert impl.methods == Methods(items) <==>
        |impl.methods| == |items| && forall i | 0 <= i < |items| :: impl.methods[i] == Emit(items[i]);
    }
    if op.store in order {
      var items := traits[op.store].items;
      forall item | item in items && item.Method? && item.name !in SPECIAL ensures item.isAsync && item.namedArguments {
        var i :| 0 <= i < |items| && items[i] == item;
        assert SupportedItem(items[i]);
      }
    }
  }

  /** Printed operation names tell operations apart, since a Rust identifier has no colon. */
  lemma OperationTextIsInjective(a: Operation, b: Operation)
    requires ':' !in a.store && ':' !in b.store && a.Text() == b.Text()
    ensures a == b
  {
    var s, t := a.Text(), b.Text();
    assert s[|a.store|] == ':' && t[|b.store|] == ':';
    assert forall i | 0 <= i < |a.store| :: s[i] == a.store[i];
    assert forall i | 0 <= i < |b.store| :: t[i] == b.store[i];
    assert |a.store| == |b.store|;
    assert s[..|a.store|] == a.store && t[..|b.store|] == b.store;
    assert s[|a.store| + 2..] == a.operation && t[|b.store| + 2..] == b.operation;
  }
}

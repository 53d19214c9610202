/** The search itself, and the binary search over its result. */
module CallGraphSearch {
  import opened Wrappers
  import opened Ordering
  import opened Lists
  import opened CallGraph

  ghost predicate DistinctSymbols(functions: seq<Function>) {
    forall i, j :: 0 <= i < j < |functions| ==> functions[i].name != functions[j].name
  }

  ghost function SymbolNames(functions: seq<Function>, k: nat): set<Name>
    requires k <= |functions|
  {
    if k == 0 then {} else SymbolNames(functions, k - 1) + {functions[k - 1].name}
  }

  /** `syms` is the symbol table of the first `k` functions. */
  ghost predicate Table(functions: seq<Function>, k: nat, syms: Symbols)
    requires k <= |functions|
  {
    && (forall i :: 0 <= i < k ==> functions[i].name in syms && syms[functions[i].name] == functions[i])
    && syms.Keys == SymbolNames(functions, k)
    && |syms| == k
  }

  method BuildSymbols(functions: seq<Function>) returns (r: Result<Symbols, Error>)
    ensures r.Ok? <==> DistinctSymbols(functions)
    ensures r.Ok? ==> Table(functions, |functions|, r.value)
    ensures r.Err? ==> r.error.DuplicateSymbol?
  {
    var syms: Symbols := map[];
    for i := 0 to |functions|
      invariant Table(functions, i, syms) && DistinctSymbols(functions[..i])
    {
      var f := functions[i];
      if f.name in syms {
        DuplicateFound(functions, i, syms);
        return Err(DuplicateSymbol(f.name));
      }
      TableExtends(functions, i, syms);
      syms := syms[f.name := f];
    }
    assert functions[..|functions|] == functions;
    return Ok(syms);
  }

  lemma {:induction false} NamedBy(functions: seq<Function>, k: nat, n: Name) returns (i: nat)
    requires k <= |functions| && n in SymbolNames(functions, k)
    ensures i < k && functions[i].name == n
  {
    if functions[k - 1].name == n { i := k - 1; } else { i := NamedBy(functions, k - 1, n); }
  }

  lemma {:induction false} DuplicateFound(functions: seq<Function>, k: nat, syms: Symbols)
    requires k < |functions| && Table(functions, k, syms) && functions[k].name in syms
    ensures !DistinctSymbols(functions)
  {
    var i := NamedBy(functions, k, functions[k].name);
  }

  lemma {:induction false} TableExtends(functions: seq<Function>, k: nat, syms: Symbols)
    requires k < |functions| && Table(functions, k, syms) && functions[k].name !in syms && DistinctSymbols(functions[..k])
    ensures Table(functions, k + 1, syms[functions[k].name := functions[k]]) && DistinctSymbols(functions[..k + 1])
  {
    var next := syms[functions[k].name := functions[k]];
    assert next.Keys == syms.Keys + {functions[k].name};
    assert SymbolNames(functions, k + 1) == SymbolNames(functions, k) + {functions[k].name};
  }

  ghost function Pending(syms: Symbols, states: map<Name, State>, stack: seq<Frame>): set<Name> {
    set n | n in syms && StateOf(states, n) == Unvisited && n !in Names(stack)
  }

  ghost function Ahead(syms: Symbols, stack: seq<Frame>): int {
    if stack == [] || Top(stack).name !in syms then 0
    else if !Top(stack).entered then 1 + |syms[Top(stack).name].Callees()|
    else |syms[Top(stack).name].Callees()| - Top(stack).next
  }

  lemma {:induction false} RootKeeps(syms: Symbols, roots: set<Name>, states: map<Name, State>, graph: seq<Validated>, edges: nat, root: Name)
    requires Searching(syms, roots, states, [], graph, edges) && root in syms && root in roots
    requires StateOf(states, root) != Pure
    ensures Searching(syms, roots, states, [Frame(root, 0, false)], graph, edges)
  {
    assert StateOf(states, root) == Active ==> root in Names([]);
    assert TakenUpto([Frame(root, 0, false)], 1) == TakenUpto([Frame(root, 0, false)], 0) + 0;
  }

  lemma {:induction false} PendingShrinks(syms: Symbols, states: map<Name, State>, stack: seq<Frame>, target: Name)
    requires stack != [] && target in syms && StateOf(states, target) == Unvisited && target !in Names(stack)
    ensures Pending(syms, states, Descended(stack, target)) < Pending(syms, states, stack)
  {
    assert Names(Descended(stack, target)) == Names(stack) + [target];
    assert target in Pending(syms, states, stack) && target !in Pending(syms, states, Descended(stack, target));
  }

  lemma {:induction false} PendingKept(syms: Symbols, states: map<Name, State>, stack: seq<Frame>, f: Frame)
    requires stack != [] && f.name == Top(stack).name
    ensures Pending(syms, states[f.name := Active], WithTop(stack, f)) == Pending(syms, states, stack)
    ensures Pending(syms, states, WithTop(stack, f)) == Pending(syms, states, stack)
    ensures Pending(syms, states[f.name := Pure], stack[..|stack| - 1]) == Pending(syms, states, stack)
  {
    assert Names(WithTop(stack, f)) == Names(stack) && Names(stack)[|stack| - 1] == f.name;
    assert Names(stack) == Names(stack[..|stack| - 1]) + [f.name];
  }

  /** Where an active function sits on the stack. */
  method FindFrame(stack: seq<Frame>, target: Name) returns (begin: nat)
    requires target in Names(stack)
    ensures begin < |stack| && stack[begin].name == target
  {
    begin := 0;
    while stack[begin].name != target
      invariant begin < |stack| && target in Names(stack)[begin..]
      decreases |stack| - begin
    {
      begin := begin + 1;
    }
  }

  ghost function RootNames(roots: seq<Root>): set<Name> { set r | r in roots :: r.callee }

  function RootKey(r: Root): Key { r.text }

  /** What entering a frame checks, in order. */
  function Admission(syms: Symbols, stack: seq<Frame>, limits: Limits): (r: Option<Error>)
    requires stack != [] && Top(stack).name in syms
  {
    var f := syms[Top(stack).name];
    if f.external then Some(External(Top(stack).name))
    else if |stack| > limits.maxDepth then Some(TooDeep(Names(stack)))
    else if !f.lowerable then Some(NotLowerable(Top(stack).name))
    else if f.calls.None? then Some(Impure(Top(stack).name))
    else None
  }

  lemma {:induction false} AdmissionJustified(syms: Symbols, roots: set<Name>, states: map<Name, State>,
                           stack: seq<Frame>, graph: seq<Validated>, edges: nat, limits: Limits)
    requires Searching(syms, roots, states, stack, graph, edges) && stack != []
    ensures Admission(syms, stack, limits).Some? ==> Justified(syms, roots, limits, Admission(syms, stack, limits).value)
    ensures Admission(syms, stack, limits).None? ==> syms[Top(stack).name].Good()
  {
    StackReachable(syms, roots, stack, |stack| - 1);
    StackPath(syms, roots, stack);
  }

  lemma {:induction false} TargetReachable(syms: Symbols, roots: set<Name>, stack: seq<Frame>, target: Name)
    requires StackOk(syms, roots, stack) && stack != [] && target in syms[Top(stack).name].Callees()
    ensures Reachable(syms, roots, target)
  {
    StackReachable(syms, roots, stack, |stack| - 1);
    ReachableStep(syms, roots, Top(stack).name, target);
  }

  lemma {:induction false} TopFacts(syms: Symbols, roots: set<Name>, stack: seq<Frame>)
    requires StackOk(syms, roots, stack) && stack != []
    ensures Top(stack).name in syms && Top(stack).next <= |syms[Top(stack).name].Callees()|
    ensures Top(stack).entered ==> syms[Top(stack).name].Good()
  {
  }

  /** A call path from a root of no more functions than the depth limit leads to `n`. */
  ghost predicate Near(syms: Symbols, roots: set<Name>, limits: Limits, n: Name) {
    exists p :: PathTo(syms, roots, p, n) && |p| <= limits.maxDepth
  }

  ghost predicate AllNear(syms: Symbols, roots: set<Name>, limits: Limits, names: seq<Name>) {
    forall n :: n in names ==> Near(syms, roots, limits, n)
  }

  /** Entered frames are within the depth limit. */
  ghost predicate Shallow(stack: seq<Frame>, depth: nat) {
    forall i :: 0 <= i < |stack| && stack[i].entered ==> i < depth
  }

  lemma {:induction false} ShallowMoves(stack: seq<Frame>, depth: nat, target: Name)
    requires Shallow(stack, depth) && stack != []
    ensures |stack| <= depth ==> Shallow(WithTop(stack, Top(stack).(entered := true)), depth)
    ensures Shallow(WithTop(stack, Top(stack).(next := Top(stack).next + 1)), depth)
    ensures Shallow(stack[..|stack| - 1], depth)
    ensures Top(stack).entered ==> Shallow(Descended(stack, target), depth)
  {
  }

  /** A function that finishes was reached along the stack. */
  lemma {:induction false} FinishNear(syms: Symbols, roots: set<Name>, limits: Limits, stack: seq<Frame>, names: seq<Name>)
    requires StackOk(syms, roots, stack) && stack != [] && Top(stack).entered && Shallow(stack, limits.maxDepth)
    requires AllNear(syms, roots, limits, names)
    ensures AllNear(syms, roots, limits, names + [Top(stack).name])
  {
    hide StackOk;
    StackPath(syms, roots, stack);
    assert PathTo(syms, roots, Names(stack), Top(stack).name) by { StackRoot(syms, roots, stack); }
    assert Near(syms, roots, limits, Top(stack).name);
  }

  lemma {:induction false} StackRoot(syms: Symbols, roots: set<Name>, stack: seq<Frame>)
    requires StackOk(syms, roots, stack) && stack != []
    ensures Names(stack)[0] in roots
  {
  }

  lemma {:induction false} UnresolvedJustified(syms: Symbols, roots: set<Name>, limits: Limits, target: Name)
    requires target !in syms && Reachable(syms, roots, target)
    ensures Justified(syms, roots, limits, Unresolved(target))
  {
  }

  lemma {:induction false} CycleJustified(syms: Symbols, roots: set<Name>, states: map<Name, State>, stack: seq<Frame>,
                        graph: seq<Validated>, edges: nat, limits: Limits, begin: nat, target: Name)
    requires Searching(syms, roots, states, stack, graph, edges)
    requires stack != [] && Top(stack).next < |syms[Top(stack).name].Callees()|
    requires target == syms[Top(stack).name].Callees()[Top(stack).next]
    requires begin < |stack| && stack[begin].name == target
    ensures Justified(syms, roots, limits, Recursive(Names(stack[begin..]) + [target]))
  {
    hide StackOk, StatesOk, CallsDone, GraphOk, Reachable, Taken, EdgeTotal, CallPath;
    CycleFound(syms, roots, states, stack, graph, edges, begin, target);
  }

  /** Searches everything reachable from one root. */
  method Explore(syms: Symbols, ghost roots: set<Name>, limits: Limits, root: Name,
                 states0: map<Name, State>, graph0: seq<Validated>, edges0: nat)
    returns (e: Option<Error>, states: map<Name, State>, graph: seq<Validated>, edges: nat)
    requires root in syms && root in roots && StateOf(states0, root) != Pure
    requires Searching(syms, roots, states0, [], graph0, edges0) && edges0 <= limits.maxEdges
    requires AllNear(syms, roots, limits, NamesOf(graph0))
    ensures e.Some? ==> Justified(syms, roots, limits, e.value)
    ensures e.None? ==> Searching(syms, roots, states, [], graph, edges) && edges <= limits.maxEdges
    ensures e.None? ==> graph0 <= graph && root in NamesOf(graph) && AllNear(syms, roots, limits, NamesOf(graph))
  {
    hide AllNear, Shallow, StatesOk, StackOk, CallsDone, GraphOk, Reachable, Taken, EdgeTotal, FrameDone, Pending, Names, NamesOf, Justified;
    states, graph, edges := states0, graph0, edges0;
    RootKeeps(syms, roots, states, graph, edges, root);
    var stack := [Frame(root, 0, false)];
    ShallowStart(root, limits.maxDepth);
    while stack != []
      invariant Searching(syms, roots, states, stack, graph, edges) && edges <= limits.maxEdges
      invariant graph0 <= graph && Shallow(stack, limits.maxDepth) && AllNear(syms, roots, limits, NamesOf(graph))
      invariant if stack == [] then root in NamesOf(graph) else stack[0].name == root
      decreases Pending(syms, states, stack), |stack|, Ahead(syms, stack)
    {
      var name := Top(stack).name;
      TopFacts(syms, roots, stack);
      if !Top(stack).entered {
        AdmissionJustified(syms, roots, states, stack, graph, edges, limits);
        e := Admission(syms, stack, limits);
        if e.Some? {
          return;
        }
        EnterKeeps(syms, roots, states, stack, graph, edges);
        ShallowMoves(stack, limits.maxDepth, name);
        PendingKept(syms, states, stack, Top(stack).(entered := true));
        states := states[name := Active];
        stack := WithTop(stack, Top(stack).(entered := true));
      }
      var calls := syms[name].calls.value;
      if Top(stack).next == |calls| {
        FinishKeeps(syms, roots, states, stack, graph, edges);
        FinishNear(syms, roots, limits, stack, NamesOf(graph));
        ShallowMoves(stack, limits.maxDepth, name);
        NamesMore(graph, Validated(name, calls));
        PendingKept(syms, states, stack, Top(stack));
        states := states[name := Pure];
        graph := graph + [Validated(name, calls)];
        stack := stack[..|stack| - 1];
        continue;
      }
      var target := calls[Top(stack).next];
      TargetReachable(syms, roots, stack, target);
      ShallowMoves(stack, limits.maxDepth, target);
      if edges == limits.maxEdges {
        EdgesExceeded(syms, roots, states, stack, graph, edges, limits);
        e := Some(TooManyEdges);
        return;
      }
      edges := edges + 1;
      if target !in syms {
        UnresolvedJustified(syms, roots, limits, target);
        e := Some(Unresolved(target));
        return;
      }
      if StateOf(states, target) == Pure {
        SkipKeeps(syms, roots, states, stack, graph, edges - 1);
        PendingKept(syms, states, stack, Top(stack).(next := Top(stack).next + 1));
        stack := WithTop(stack, Top(stack).(next := Top(stack).next + 1));
        continue;
      }
      if StateOf(states, target) == Active {
        ActiveOnStack(states, stack, NamesOf(graph), target);
        var begin := FindFrame(stack, target);
        CycleJustified(syms, roots, states, stack, graph, edges - 1, limits, begin, target);
        e := Some(Recursive(Names(stack[begin..]) + [target]));
        return;
      }
      DescendKeeps(syms, roots, states, stack, graph, edges - 1, target);
      PendingShrinks(syms, states, stack, target);
      stack := Descended(stack, target);
    }
    e := None;
  }

  lemma {:induction false} ShallowStart(root: Name, depth: nat)
    ensures Shallow([Frame(root, 0, false)], depth)
  {
  }

  lemma {:induction false} NamesMore(graph: seq<Validated>, v: Validated)
    ensures NamesOf(graph + [v]) == NamesOf(graph) + [v.name] && v.name in NamesOf(graph + [v])
  {
    assert NamesOf(graph + [v])[|graph|] == v.name;
  }

  lemma {:induction false} ActiveOnStack(states: map<Name, State>, stack: seq<Frame>, graph: seq<Name>, n: Name)
    requires StatesOk(states, stack, graph) && StateOf(states, n) == Active
    ensures n in Names(stack)
  {
  }

  lemma {:induction false} NothingVisited(syms: Symbols, roots: set<Name>)
    ensures Searching(syms, roots, map[], [], [], 0)
    ensures forall limits :: AllNear(syms, roots, limits, NamesOf([]))
  {
    assert NamesOf([]) == [] && Names([]) == [];
  }

  lemma {:induction false} PureKnown(states: map<Name, State>, graph: seq<Name>, n: Name)
    requires StatesOk(states, [], graph) && StateOf(states, n) == Pure
    ensures n in graph
  {
  }

  /** The loop over the ordered roots. */
  method ExploreAll(symbols: Symbols, ghost names: set<Name>, ordered: seq<Root>, limits: Limits)
    returns (e: Option<Error>, graph: seq<Validated>)
    requires forall k :: 0 <= k < |ordered| ==> ordered[k].callee in names
    ensures e.Some? ==> Justified(symbols, names, limits, e.value)
    ensures e.None? ==> GraphOk(symbols, names, graph) && AllDistinct(NamesOf(graph))
    ensures e.None? ==> EdgeTotal(symbols, NamesOf(graph)) <= limits.maxEdges
    ensures e.None? ==> AllNear(symbols, names, limits, NamesOf(graph))
    ensures e.None? ==> forall k :: 0 <= k < |ordered| ==> ordered[k].callee in NamesOf(graph)
  {
    hide StatesOk, CallsDone, GraphOk, Reachable, Taken, EdgeTotal, StackOk, AllNear;
    var states: map<Name, State> := map[];
    graph := [];
    var edges: nat := 0;
    NothingVisited(symbols, names);
    for i := 0 to |ordered|
      invariant Searching(symbols, names, states, [], graph, edges) && edges <= limits.maxEdges
      invariant AllNear(symbols, names, limits, NamesOf(graph))
      invariant forall k :: 0 <= k < i ==> ordered[k].callee in NamesOf(graph)
    {
      var root := ordered[i].callee;
      if root !in symbols {
        ReachableRoot(symbols, names, root);
        return Some(Unresolved(root)), graph;
      }
      if StateOf(states, root) == Pure {
        PureKnown(states, NamesOf(graph), root);
        continue;
      }
      ghost var before := graph;
      e, states, graph, edges := Explore(symbols, names, limits, root, states, graph, edges);
      if e.Some? {
        return;
      }
      assert forall k :: 0 <= k < |before| ==> NamesOf(graph)[k] == NamesOf(before)[k];
    }
    NamesDistinct(states, NamesOf(graph));
    assert Taken([]) == 0;
    e := None;
  }

  lemma {:induction false} OrderedRoots(roots: seq<Root>)
    ensures forall k :: 0 <= k < |roots| ==> SortBy(RootKey, roots)[k].callee in RootNames(roots)
    ensures forall n :: n in RootNames(roots) ==> exists k :: 0 <= k < |roots| && SortBy(RootKey, roots)[k].callee == n
  {
    var ordered := SortBy(RootKey, roots);
    forall k | 0 <= k < |roots| ensures ordered[k].callee in RootNames(roots) {
      assert ordered[k] in multiset(ordered);
    }
    forall n | n in RootNames(roots) ensures exists k :: 0 <= k < |roots| && ordered[k].callee == n {
      var r :| r in roots && r.callee == n;
      assert r in multiset(ordered);
      var k :| 0 <= k < |ordered| && ordered[k] == r;
    }
  }

  /** Success returns exactly the reachable functions; every failure is justified. So it succeeds only
      on clean call graphs, and on all of them unless the depth limit is below the function count. */
  method Validate(functions: seq<Function>, roots: seq<Root>, limits: Limits)
    returns (r: Result<seq<Validated>, Error>, ghost syms: Symbols)
    ensures r.Err? && r.error.DuplicateSymbol? <==> !DistinctSymbols(functions)
    ensures DistinctSymbols(functions) ==> Table(functions, |functions|, syms)
    ensures r.Ok? ==> Complete(syms, RootNames(roots), r.value)
    ensures r.Err? && !r.error.DuplicateSymbol? ==> Justified(syms, RootNames(roots), limits, r.error)
    ensures r.Ok? ==> Clean(syms, RootNames(roots), limits)
    ensures r.Ok? ==> forall n :: Reachable(syms, RootNames(roots), n) ==> Near(syms, RootNames(roots), limits, n)
    ensures DistinctSymbols(functions) && limits.maxDepth >= |functions| ==> (r.Ok? <==> Clean(syms, RootNames(roots), limits))
  {
    hide GraphOk, Reachable, Complete, DistinctSymbols, EdgeTotal, Clean, Justified, AllNear;
    var table := BuildSymbols(functions);
    syms := if table.Ok? then table.value else map[];
    if table.Err? {
      return Err(table.error), syms;
    }
    var symbols := table.value;
    if |symbols| > limits.maxFunctions {
      FunctionsJustified(symbols, RootNames(roots), limits);
      return Err(TooManyFunctions), syms;
    }
    OrderedRoots(roots);
    var e, graph := ExploreAll(symbols, RootNames(roots), SortBy(RootKey, roots), limits);
    if e.Some? {
      if Clean(symbols, RootNames(roots), limits) { CleanRefused(symbols, RootNames(roots), limits, e.value); }
      NotDuplicate(symbols, RootNames(roots), limits, e.value);
      return Err(e.value), syms;
    }
    DoneMeansComplete(symbols, RootNames(roots), graph, SortBy(NameKey, graph));
    SameMembers(graph, SortBy(NameKey, graph));
    CompleteClean(symbols, RootNames(roots), SortBy(NameKey, graph), NamesOf(graph), limits);
    CompleteNear(symbols, RootNames(roots), limits, SortBy(NameKey, graph), NamesOf(graph));
    return Ok(SortBy(NameKey, graph)), syms;
  }

  lemma {:induction false} CompleteNear(syms: Symbols, roots: set<Name>, limits: Limits, graph: seq<Validated>, names: seq<Name>)
    requires Complete(syms, roots, graph) && AllNear(syms, roots, limits, names)
    requires forall n :: n in NamesOf(graph) ==> n in names
    ensures forall n :: Reachable(syms, roots, n) ==> Near(syms, roots, limits, n)
  {
    hide Reachable, Near;
  }

  lemma {:induction false} FunctionsJustified(syms: Symbols, roots: set<Name>, limits: Limits)
    requires |syms| > limits.maxFunctions
    ensures Justified(syms, roots, limits, TooManyFunctions) && !Clean(syms, roots, limits)
  {
  }

  lemma {:induction false} NotDuplicate(syms: Symbols, roots: set<Name>, limits: Limits, e: Error)
    requires Justified(syms, roots, limits, e)
    ensures !e.DuplicateSymbol?
  {
  }

  lemma {:induction false} NamesDistinct(states: map<Name, State>, graph: seq<Name>)
    requires StatesOk(states, [], graph)
    ensures AllDistinct(graph)
  {
  }

  /** `ValidatedPureCallGraph::lookup`. */
  method Lookup(graph: seq<Validated>, name: Name) returns (r: Option<Validated>)
    requires StrictlySorted(NameKey, graph)
    ensures r.Some? <==> name in NamesOf(graph)
    ensures r.Some? ==> r.value in graph && r.value.name == name
  {
    var begin, end := 0, |graph|;
    while begin < end
      invariant 0 <= begin <= end <= |graph|
      invariant forall i :: 0 <= i < begin ==> Less(NameKey(graph[i]), name)
      invariant forall i :: end <= i < |graph| ==> Less(name, NameKey(graph[i]))
    {
      var middle := begin + (end - begin) / 2;
      var candidate := graph[middle].name;
      if Less(candidate, name) {
        forall i | 0 <= i <= middle ensures Less(NameKey(graph[i]), name) {
          if i < middle { LessTransitive(NameKey(graph[i]), candidate, name); }
        }
        begin := middle + 1;
      } else if Less(name, candidate) {
        forall i | middle <= i < |graph| ensures Less(name, NameKey(graph[i])) {
          if i > middle { LessTransitive(name, candidate, NameKey(graph[i])); }
        }
        end := middle;
      } else {
        LessTotal(candidate, name);
        assert NamesOf(graph)[middle] == name;
        return Some(graph[middle]);
      }
    }
    LessIrreflexive(name);
    assert forall i :: 0 <= i < |graph| ==> NamesOf(graph)[i] != name;
    return None;
  }

  /** The later assertion cannot fire: every call met while expanding a reachable function resolves. */
  method LookupCallee(syms: Symbols, ghost roots: set<Name>, graph: seq<Validated>, caller: Name, callee: Name)
    returns (r: Option<Validated>)
    requires Complete(syms, roots, graph)
    requires callee in roots || (Reachable(syms, roots, caller) && Calls(syms, caller, callee))
    ensures callee in syms && r == Some(Validated(callee, syms[callee].Callees()))
  {
    if callee in roots {
      ReachableRoot(syms, roots, callee);
    } else {
      ReachableStep(syms, roots, caller, callee);
    }
    r := Lookup(graph, callee);
    var i :| 0 <= i < |graph| && graph[i] == r.value;
  }
}

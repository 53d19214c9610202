/** The purity check of process-reachable functions: an iterative search over the call graph whose
    result is sorted by name and read back by binary search. Names compare as byte strings. */
module CallGraph {
  import opened Wrappers
  import opened Ordering
  import opened Lists

  type Name = Key

  /** A function as the search sees it: `calls` is `None` when its body has an effect. */
  datatype Function = Function(name: Name, external: bool, lowerable: bool, calls: Option<seq<Name>>) {
    predicate Good() { !external && lowerable && calls.Some? }
    function Callees(): seq<Name> { if calls.Some? then calls.value else [] }
  }

  datatype Limits = Limits(maxFunctions: nat, maxEdges: nat, maxDepth: nat)

  /** One `func.call` inside a process, with the qualified text its diagnostics are ordered by. */
  datatype Root = Root(text: Key, callee: Name)

  datatype Validated = Validated(name: Name, calls: seq<Name>)

  datatype Error =
    | DuplicateSymbol(name: Name)
    | TooManyFunctions
    | Unresolved(callee: Name)
    | External(name: Name)
    | TooDeep(chain: seq<Name>)
    | NotLowerable(name: Name)
    | Impure(name: Name)
    | TooManyEdges
    | Recursive(cycle: seq<Name>)

  type Symbols = map<Name, Function>

  // ----- What the result means -----

  ghost predicate Calls(syms: Symbols, a: Name, b: Name) {
    a in syms && b in syms[a].Callees()
  }

  ghost predicate CallPath(syms: Symbols, p: seq<Name>) {
    |p| > 0 && forall i :: 0 <= i < |p| - 1 ==> Calls(syms, p[i], p[i + 1])
  }

  ghost predicate PathTo(syms: Symbols, roots: set<Name>, p: seq<Name>, n: Name) {
    CallPath(syms, p) && p[0] in roots && p[|p| - 1] == n
  }

  ghost predicate Reachable(syms: Symbols, roots: set<Name>, n: Name) {
    exists p :: PathTo(syms, roots, p, n)
  }

  lemma {:induction false} ReachableRoot(syms: Symbols, roots: set<Name>, n: Name)
    requires n in roots
    ensures Reachable(syms, roots, n)
  {
    assert PathTo(syms, roots, [n], n);
  }

  lemma {:induction false} ReachableStep(syms: Symbols, roots: set<Name>, a: Name, b: Name)
    requires Reachable(syms, roots, a) && Calls(syms, a, b)
    ensures Reachable(syms, roots, b)
  {
    var p :| PathTo(syms, roots, p, a);
    var q := p + [b];
    forall i | 0 <= i < |q| - 1 ensures Calls(syms, q[i], q[i + 1]) {
      if i < |p| - 1 { assert Calls(syms, p[i], p[i + 1]); }
    }
    assert PathTo(syms, roots, q, b);
  }

  function NamesOf(graph: seq<Validated>): (r: seq<Name>)
    ensures |r| == |graph| && forall i :: 0 <= i < |r| ==> r[i] == graph[i].name
  {
    seq(|graph|, i requires 0 <= i < |graph| => graph[i].name)
  }

  function NameKey(v: Validated): Key { v.name }

  /** How many calls the first `k` named functions make. */
  ghost function EdgesUpto(syms: Symbols, names: seq<Name>, k: nat): nat
    requires k <= |names|
  {
    if k == 0 then 0
    else EdgesUpto(syms, names, k - 1) + (if names[k - 1] in syms then |syms[names[k - 1]].Callees()| else 0)
  }

  ghost function EdgeTotal(syms: Symbols, names: seq<Name>): nat { EdgesUpto(syms, names, |names|) }

  lemma {:induction false} EdgesAgree(syms: Symbols, a: seq<Name>, b: seq<Name>, k: nat)
    requires k <= |a| && k <= |b| && forall i :: 0 <= i < k ==> a[i] == b[i]
    ensures EdgesUpto(syms, a, k) == EdgesUpto(syms, b, k)
  {
    if k > 0 { EdgesAgree(syms, a, b, k - 1); }
  }

  lemma {:induction false} EdgeTotalSnoc(syms: Symbols, names: seq<Name>, n: Name)
    requires n in syms
    ensures EdgeTotal(syms, names + [n]) == EdgeTotal(syms, names) + |syms[n].Callees()|
  {
    EdgesAgree(syms, names, names + [n], |names|);
  }

  /** A validated graph is exactly the reachable functions, each once, in name order, all good and
      without recursion, and it contains every callee it mentions. */
  ghost predicate Complete(syms: Symbols, roots: set<Name>, graph: seq<Validated>) {
    && StrictlySorted(NameKey, graph)
    && (forall i :: 0 <= i < |graph| ==>
          graph[i].name in syms && syms[graph[i].name].Good() && graph[i].calls == syms[graph[i].name].calls.value)
    && (forall n :: n in NamesOf(graph) <==> Reachable(syms, roots, n))
    && (forall p :: CallPath(syms, p) && |p| >= 2 && p[0] == p[|p| - 1] ==> !Reachable(syms, roots, p[0]))
  }

  /** No defect but depth: everything reachable exists, is pure and does not recurse, and however its
      functions are listed they make no more calls than allowed. */
  ghost predicate Clean(syms: Symbols, roots: set<Name>, limits: Limits) {
    && |syms| <= limits.maxFunctions
    && (forall n :: Reachable(syms, roots, n) ==> n in syms && syms[n].Good())
    && (forall p :: CallPath(syms, p) && |p| >= 2 && p[0] == p[|p| - 1] ==> !Reachable(syms, roots, p[0]))
    && (forall names :: AllDistinct(names) && (forall n :: n in names ==> Reachable(syms, roots, n)) ==>
          EdgeTotal(syms, names) <= limits.maxEdges)
  }

  /** Every failure names a genuine defect. */
  ghost predicate Justified(syms: Symbols, roots: set<Name>, limits: Limits, e: Error) {
    match e
    case DuplicateSymbol(_) => false
    case TooManyFunctions => |syms| > limits.maxFunctions
    case Unresolved(c) => c !in syms && Reachable(syms, roots, c)
    case External(n) => n in syms && syms[n].external && Reachable(syms, roots, n)
    case NotLowerable(n) => n in syms && !syms[n].lowerable && Reachable(syms, roots, n)
    case Impure(n) => n in syms && syms[n].calls.None? && Reachable(syms, roots, n)
    case TooDeep(chain) => |chain| > limits.maxDepth && AllDistinct(chain) && CallPath(syms, chain) && chain[0] in roots
    case TooManyEdges =>
      exists names :: AllDistinct(names) && (forall n :: n in names ==> Reachable(syms, roots, n))
                   && EdgeTotal(syms, names) > limits.maxEdges
    case Recursive(c) => CallPath(syms, c) && |c| >= 2 && c[0] == c[|c| - 1] && Reachable(syms, roots, c[0])
  }

  // ----- The search state -----

  datatype State = Unvisited | Active | Pure

  function StateOf(states: map<Name, State>, n: Name): State {
    if n in states then states[n] else Unvisited
  }

  datatype Frame = Frame(name: Name, next: nat, entered: bool)

  function Names(stack: seq<Frame>): (r: seq<Name>)
    ensures |r| == |stack| && forall i :: 0 <= i < |r| ==> r[i] == stack[i].name
  {
    seq(|stack|, i requires 0 <= i < |stack| => stack[i].name)
  }

  /** The stack is a call chain from a root; only its top may not have been entered yet. */
  ghost predicate StackOk(syms: Symbols, roots: set<Name>, stack: seq<Frame>) {
    && (stack != [] ==> stack[0].name in roots)
    && (forall i :: 0 <= i < |stack| ==>
          && stack[i].name in syms && stack[i].next <= |syms[stack[i].name].Callees()|
          && (if stack[i].entered then syms[stack[i].name].Good() else i == |stack| - 1 && stack[i].next == 0))
    && (forall i :: 0 <= i < |stack| - 1 ==>
          stack[i].next > 0 && syms[stack[i].name].Callees()[stack[i].next - 1] == stack[i + 1].name)
  }

  /** States mirror the stack and the graph. */
  ghost predicate StatesOk(states: map<Name, State>, stack: seq<Frame>, graph: seq<Name>) {
    && AllDistinct(Names(stack)) && AllDistinct(graph)
    && (forall i :: 0 <= i < |stack| ==> StateOf(states, stack[i].name) == if stack[i].entered then Active else Unvisited)
    && (forall n :: StateOf(states, n) == Active ==> n in Names(stack))
    && (forall n :: StateOf(states, n) == Pure <==> n in graph)
  }

  ghost predicate FrameDone(syms: Symbols, graph: seq<Name>, f: Frame, waiting: nat) {
    f.name in syms && f.next <= |syms[f.name].Callees()|
    && forall k :: 0 <= k < f.next - waiting ==> syms[f.name].Callees()[k] in graph
  }

  ghost predicate CallsDone(syms: Symbols, graph: seq<Name>, stack: seq<Frame>) {
    forall i :: 0 <= i < |stack| ==> FrameDone(syms, graph, stack[i], if i == |stack| - 1 then 0 else 1)
  }

  /** Finished functions are good, reachable, and only call functions finished before them. */
  ghost predicate Finished(syms: Symbols, roots: set<Name>, graph: seq<Validated>, i: nat)
    requires i < |graph|
  {
    var v := graph[i];
    && v.name in syms && syms[v.name].Good() && v.calls == syms[v.name].calls.value
    && Reachable(syms, roots, v.name)
    && forall k :: 0 <= k < |v.calls| ==> v.calls[k] in NamesOf(graph[..i])
  }

  ghost predicate GraphOk(syms: Symbols, roots: set<Name>, graph: seq<Validated>) {
    forall i :: 0 <= i < |graph| ==> Finished(syms, roots, graph, i)
  }

  /** How many calls the first `k` frames have taken. */
  ghost function TakenUpto(stack: seq<Frame>, k: nat): nat
    requires k <= |stack|
  {
    if k == 0 then 0 else TakenUpto(stack, k - 1) + stack[k - 1].next
  }

  ghost function Taken(stack: seq<Frame>): nat { TakenUpto(stack, |stack|) }

  lemma {:induction false} TakenAgrees(a: seq<Frame>, b: seq<Frame>, k: nat)
    requires k <= |a| && k <= |b| && forall i :: 0 <= i < k ==> a[i] == b[i]
    ensures TakenUpto(a, k) == TakenUpto(b, k)
  {
    if k > 0 { TakenAgrees(a, b, k - 1); }
  }

  ghost predicate Searching(syms: Symbols, roots: set<Name>, states: map<Name, State>,
                            stack: seq<Frame>, graph: seq<Validated>, edges: nat)
  {
    && StackOk(syms, roots, stack) && StatesOk(states, stack, NamesOf(graph))
    && CallsDone(syms, NamesOf(graph), stack) && GraphOk(syms, roots, graph)
    && edges == EdgeTotal(syms, NamesOf(graph)) + Taken(stack)
  }

  // ----- Facts about the stack -----

  lemma {:induction false} StackPath(syms: Symbols, roots: set<Name>, stack: seq<Frame>)
    requires StackOk(syms, roots, stack) && stack != []
    ensures CallPath(syms, Names(stack)) && Names(stack)[0] in roots
  {
    var p := Names(stack);
    forall i | 0 <= i < |p| - 1 ensures Calls(syms, p[i], p[i + 1]) {
      assert syms[stack[i].name].Callees()[stack[i].next - 1] == stack[i + 1].name;
    }
  }

  lemma {:induction false} StackReachable(syms: Symbols, roots: set<Name>, stack: seq<Frame>, i: nat)
    requires StackOk(syms, roots, stack) && i < |stack|
    ensures Reachable(syms, roots, stack[i].name)
  {
    StackPath(syms, roots, stack);
    var p := Names(stack)[..i + 1];
    forall k | 0 <= k < |p| - 1 ensures Calls(syms, p[k], p[k + 1]) {
      assert Calls(syms, Names(stack)[k], Names(stack)[k + 1]);
    }
    assert PathTo(syms, roots, p, stack[i].name);
  }

  // ----- Steps -----

  function Top(stack: seq<Frame>): Frame
    requires stack != []
  {
    stack[|stack| - 1]
  }

  function WithTop(stack: seq<Frame>, f: Frame): (r: seq<Frame>)
    requires stack != []
    ensures |r| == |stack|
  {
    stack[|stack| - 1 := f]
  }

  /** Replacing the top frame by one for the same function, further along. */
  lemma {:induction false} TopStack(syms: Symbols, roots: set<Name>, graph: seq<Name>, stack: seq<Frame>, f: Frame)
    requires StackOk(syms, roots, stack) && CallsDone(syms, graph, stack) && stack != []
    requires f.name == Top(stack).name && f.entered && syms[f.name].Good() && FrameDone(syms, graph, f, 0)
    ensures StackOk(syms, roots, WithTop(stack, f)) && CallsDone(syms, graph, WithTop(stack, f))
    ensures Names(WithTop(stack, f)) == Names(stack)
    ensures Taken(WithTop(stack, f)) == Taken(stack) - Top(stack).next + f.next
  {
    hide StackOk, CallsDone, Taken;
    TopStackOk(syms, roots, stack, f);
    TopDone(syms, graph, stack, f);
    TopTaken(stack, f);
    assert Names(WithTop(stack, f)) == Names(stack) by { TopSame(syms, roots, stack, f); }
  }

  lemma {:induction false} TopSame(syms: Symbols, roots: set<Name>, stack: seq<Frame>, f: Frame)
    requires stack != [] && f.name == Top(stack).name
    ensures Names(WithTop(stack, f)) == Names(stack)
  {
  }

  lemma {:induction false} TopStackOk(syms: Symbols, roots: set<Name>, stack: seq<Frame>, f: Frame)
    requires StackOk(syms, roots, stack) && stack != []
    requires f.name == Top(stack).name && f.entered && syms[f.name].Good() && f.next <= |syms[f.name].Callees()|
    ensures StackOk(syms, roots, WithTop(stack, f))
  {
    hide Function.Callees, Function.Good;
    var s := WithTop(stack, f);
    forall i | 0 <= i < |s| - 1
      ensures s[i].next > 0 && s[i] == stack[i] && syms[s[i].name].Callees()[s[i].next - 1] == s[i + 1].name
    {
      assert s[i + 1].name == stack[i + 1].name;
    }
  }

  lemma {:induction false} TopDone(syms: Symbols, graph: seq<Name>, stack: seq<Frame>, f: Frame)
    requires CallsDone(syms, graph, stack) && stack != [] && FrameDone(syms, graph, f, 0)
    ensures CallsDone(syms, graph, WithTop(stack, f))
  {
    hide FrameDone;
    var s := WithTop(stack, f);
    forall i | 0 <= i < |s| ensures FrameDone(syms, graph, s[i], if i == |s| - 1 then 0 else 1) {
      assert FrameDone(syms, graph, stack[i], if i == |stack| - 1 then 0 else 1);
    }
  }

  lemma {:induction false} TopTaken(stack: seq<Frame>, f: Frame)
    requires stack != []
    ensures Taken(WithTop(stack, f)) == Taken(stack) - Top(stack).next + f.next
  {
    TakenAgrees(WithTop(stack, f), stack, |stack| - 1);
  }

  /** The stack after the top frame has taken its next call and a frame for the callee is pushed. */
  function Descended(stack: seq<Frame>, target: Name): (s: seq<Frame>)
    requires stack != []
    ensures |s| == |stack| + 1
    ensures s[|stack|] == Frame(target, 0, false) && s[|stack| - 1] == Top(stack).(next := Top(stack).next + 1)
    ensures forall i :: 0 <= i < |stack| - 1 ==> s[i] == stack[i]
  {
    WithTop(stack, Top(stack).(next := Top(stack).next + 1)) + [Frame(target, 0, false)]
  }

  lemma {:induction false} PushStack(syms: Symbols, roots: set<Name>, stack: seq<Frame>, target: Name)
    requires StackOk(syms, roots, stack) && stack != [] && target in syms
    requires Top(stack).entered && Top(stack).next < |syms[Top(stack).name].Callees()|
    requires target == syms[Top(stack).name].Callees()[Top(stack).next]
    ensures StackOk(syms, roots, Descended(stack, target))
  {
    hide Descended;
    var s := Descended(stack, target);
    forall i | 0 <= i < |s| - 1
      ensures s[i].next > 0 && s[i].name in syms && s[i].next <= |syms[s[i].name].Callees()|
      ensures syms[s[i].name].Callees()[s[i].next - 1] == s[i + 1].name
    {
      if i < |stack| - 1 {
        assert syms[stack[i].name].Callees()[stack[i].next - 1] == stack[i + 1].name == s[i + 1].name;
      }
    }
  }

  lemma {:induction false} PushDone(syms: Symbols, graph: seq<Name>, stack: seq<Frame>, target: Name)
    requires CallsDone(syms, graph, stack) && stack != [] && target in syms
    requires Top(stack).name in syms && Top(stack).next < |syms[Top(stack).name].Callees()|
    ensures CallsDone(syms, graph, Descended(stack, target))
    ensures Taken(Descended(stack, target)) == Taken(stack) + 1
  {
    hide Descended, FrameDone;
    var s := Descended(stack, target);
    PushTaken(stack, target);
    FrameAdvances(syms, graph, Top(stack));
    FrameStarts(syms, graph, target);
    forall i | 0 <= i < |s| ensures FrameDone(syms, graph, s[i], if i == |s| - 1 then 0 else 1) {
      if i < |stack| - 1 { assert FrameDone(syms, graph, stack[i], 1); }
    }
  }

  lemma {:induction false} FrameAdvances(syms: Symbols, graph: seq<Name>, f: Frame)
    requires f.name in syms && f.next < |syms[f.name].Callees()|
    ensures FrameDone(syms, graph, f, 0) ==> FrameDone(syms, graph, f.(next := f.next + 1), 1)
  {
  }

  lemma {:induction false} FrameStarts(syms: Symbols, graph: seq<Name>, target: Name)
    requires target in syms
    ensures FrameDone(syms, graph, Frame(target, 0, false), 0)
  {
  }

  lemma {:induction false} PushTaken(stack: seq<Frame>, target: Name)
    requires stack != []
    ensures Taken(Descended(stack, target)) == Taken(stack) + 1
  {
    hide Descended;
    var s := Descended(stack, target);
    TakenAgrees(s, stack, |stack| - 1);
    assert TakenUpto(s, |stack|) == TakenUpto(s, |stack| - 1) + s[|stack| - 1].next;
  }

  /** Popping the top frame once its function is in the graph. */
  lemma {:induction false} PopStack(syms: Symbols, roots: set<Name>, stack: seq<Frame>)
    requires StackOk(syms, roots, stack) && stack != []
    ensures StackOk(syms, roots, stack[..|stack| - 1])
    ensures Taken(stack[..|stack| - 1]) == Taken(stack) - Top(stack).next
  {
    TakenAgrees(stack[..|stack| - 1], stack, |stack| - 1);
  }

  lemma {:induction false} PopDone(syms: Symbols, roots: set<Name>, graph: seq<Name>, stack: seq<Frame>)
    requires StackOk(syms, roots, stack) && CallsDone(syms, graph, stack) && stack != []
    ensures CallsDone(syms, graph + [Top(stack).name], stack[..|stack| - 1])
  {
    var s, g := stack[..|stack| - 1], graph + [Top(stack).name];
    forall i | 0 <= i < |s| ensures FrameDone(syms, g, s[i], if i == |s| - 1 then 0 else 1) {
      assert FrameDone(syms, graph, stack[i], 1);
      forall k | 0 <= k < s[i].next - (if i == |s| - 1 then 0 else 1) ensures syms[s[i].name].Callees()[k] in g {
        if k == s[i].next - 1 {
          assert syms[stack[i].name].Callees()[stack[i].next - 1] == stack[i + 1].name == g[|graph|];
        }
      }
    }
  }

  lemma {:induction false} TopStates(states: map<Name, State>, stack: seq<Frame>, graph: seq<Name>, f: Frame)
    requires StatesOk(states, stack, graph) && stack != [] && f.name == Top(stack).name && f.entered
    ensures StatesOk(states[f.name := Active], WithTop(stack, f), graph)
    ensures Top(stack).entered ==> StatesOk(states, WithTop(stack, f), graph)
  {
    var s := WithTop(stack, f);
    assert Names(s) == Names(stack);
    assert Names(stack)[|stack| - 1] == f.name;
    forall i | 0 <= i < |s| - 1 ensures s[i].name != f.name {
      assert Names(stack)[i] != Names(stack)[|stack| - 1];
    }
  }

  lemma {:induction false} PureInGraph(states: map<Name, State>, stack: seq<Frame>, graph: seq<Name>, n: Name)
    requires StatesOk(states, stack, graph) && StateOf(states, n) == Pure
    ensures n in graph
  {
  }

  lemma {:induction false} PushStates(states: map<Name, State>, stack: seq<Frame>, graph: seq<Name>, target: Name)
    requires StatesOk(states, stack, graph) && stack != [] && StateOf(states, target) == Unvisited
    requires forall i :: 0 <= i < |stack| ==> stack[i].entered
    ensures StatesOk(states, Descended(stack, target), graph) && target !in Names(stack)
  {
    hide Descended;
    var s := Descended(stack, target);
    assert Names(s) == Names(stack) + [target];
    forall i | 0 <= i < |stack| ensures Names(stack)[i] != target {
      assert StateOf(states, stack[i].name) == Active;
    }
  }

  lemma {:induction false} FinishStates(states: map<Name, State>, stack: seq<Frame>, graph: seq<Name>)
    requires StatesOk(states, stack, graph) && stack != [] && Top(stack).entered
    ensures StatesOk(states[Top(stack).name := Pure], stack[..|stack| - 1], graph + [Top(stack).name])
  {
    var n, s := Top(stack).name, stack[..|stack| - 1];
    assert Names(s) == Names(stack)[..|s|];
    assert n !in graph by { assert StateOf(states, n) == Active; }
    forall m | StateOf(states[n := Pure], m) == Active ensures m in Names(s) {
      assert m in Names(stack) && m != n;
      var i :| 0 <= i < |stack| && Names(stack)[i] == m;
      assert Names(s)[i] == m;
    }
    forall i | 0 <= i < |s| ensures s[i].name != n {
      assert Names(stack)[i] != Names(stack)[|stack| - 1];
    }
  }

  lemma {:induction false} FinishGraph(syms: Symbols, roots: set<Name>, stack: seq<Frame>, graph: seq<Validated>)
    requires StackOk(syms, roots, stack) && CallsDone(syms, NamesOf(graph), stack) && GraphOk(syms, roots, graph)
    requires stack != [] && Top(stack).entered && Top(stack).next == |syms[Top(stack).name].Callees()|
    ensures GraphOk(syms, roots, graph + [Validated(Top(stack).name, syms[Top(stack).name].calls.value)])
  {
    var n := Top(stack).name;
    var g := graph + [Validated(n, syms[n].calls.value)];
    StackReachable(syms, roots, stack, |stack| - 1);
    assert FrameDone(syms, NamesOf(graph), stack[|stack| - 1], 0);
    forall i | 0 <= i < |g| ensures Finished(syms, roots, g, i) {
      if i < |graph| {
        assert Finished(syms, roots, graph, i) && g[..i] == graph[..i];
      } else {
        assert g[..i] == graph;
      }
    }
  }

  lemma {:induction false} EnterKeeps(syms: Symbols, roots: set<Name>, states: map<Name, State>,
                   stack: seq<Frame>, graph: seq<Validated>, edges: nat)
    requires Searching(syms, roots, states, stack, graph, edges)
    requires stack != [] && !Top(stack).entered && syms[Top(stack).name].Good()
    ensures Searching(syms, roots, states[Top(stack).name := Active], WithTop(stack, Top(stack).(entered := true)), graph, edges)
  {
    hide StatesOk, GraphOk;
    var f := Top(stack).(entered := true);
    assert FrameDone(syms, NamesOf(graph), Top(stack), 0);
    TopStack(syms, roots, NamesOf(graph), stack, f);
    TopStates(states, stack, NamesOf(graph), f);
  }

  lemma {:induction false} SkipKeeps(syms: Symbols, roots: set<Name>, states: map<Name, State>,
                  stack: seq<Frame>, graph: seq<Validated>, edges: nat)
    requires Searching(syms, roots, states, stack, graph, edges)
    requires stack != [] && Top(stack).entered && Top(stack).next < |syms[Top(stack).name].Callees()|
    requires StateOf(states, syms[Top(stack).name].Callees()[Top(stack).next]) == Pure
    ensures Searching(syms, roots, states, WithTop(stack, Top(stack).(next := Top(stack).next + 1)), graph, edges + 1)
  {
    hide StatesOk, GraphOk;
    var f := Top(stack).(next := Top(stack).next + 1);
    PureInGraph(states, stack, NamesOf(graph), syms[f.name].Callees()[f.next - 1]);
    assert FrameDone(syms, NamesOf(graph), Top(stack), 0);
    TopStack(syms, roots, NamesOf(graph), stack, f);
    TopStates(states, stack, NamesOf(graph), f);
  }

  lemma {:induction false} DescendKeeps(syms: Symbols, roots: set<Name>, states: map<Name, State>,
                     stack: seq<Frame>, graph: seq<Validated>, edges: nat, target: Name)
    requires Searching(syms, roots, states, stack, graph, edges)
    requires stack != [] && Top(stack).entered && Top(stack).next < |syms[Top(stack).name].Callees()|
    requires target == syms[Top(stack).name].Callees()[Top(stack).next] && target in syms
    requires StateOf(states, target) == Unvisited
    ensures Searching(syms, roots, states, Descended(stack, target), graph, edges + 1)
    ensures target !in Names(stack)
  {
    hide StatesOk, CallsDone, GraphOk;
    PushStack(syms, roots, stack, target);
    PushDone(syms, NamesOf(graph), stack, target);
    PushStates(states, stack, NamesOf(graph), target);
  }

  lemma {:induction false} FinishKeeps(syms: Symbols, roots: set<Name>, states: map<Name, State>,
                    stack: seq<Frame>, graph: seq<Validated>, edges: nat)
    requires Searching(syms, roots, states, stack, graph, edges)
    requires stack != [] && Top(stack).entered && Top(stack).next == |syms[Top(stack).name].Callees()|
    ensures Searching(syms, roots, states[Top(stack).name := Pure], stack[..|stack| - 1],
                      graph + [Validated(Top(stack).name, syms[Top(stack).name].calls.value)], edges)
  {
    hide GraphOk, StatesOk, CallsDone;
    var n := Top(stack).name;
    assert NamesOf(graph + [Validated(n, syms[n].calls.value)]) == NamesOf(graph) + [n];
    FinishStates(states, stack, NamesOf(graph));
    PopStack(syms, roots, stack);
    PopDone(syms, roots, NamesOf(graph), stack);
    FinishGraph(syms, roots, stack, graph);
    EdgeTotalSnoc(syms, NamesOf(graph), n);
  }

  // ----- Failures -----

  /** A call back to an active function closes a cycle along the stack. */
  lemma {:induction false} CycleFound(syms: Symbols, roots: set<Name>, states: map<Name, State>,
                   stack: seq<Frame>, graph: seq<Validated>, edges: nat, begin: nat, target: Name)
    requires Searching(syms, roots, states, stack, graph, edges)
    requires stack != [] && Top(stack).next < |syms[Top(stack).name].Callees()|
    requires target == syms[Top(stack).name].Callees()[Top(stack).next]
    requires begin < |stack| && stack[begin].name == target
    ensures var c := Names(stack[begin..]) + [target];
      CallPath(syms, c) && |c| >= 2 && c[0] == c[|c| - 1] && Reachable(syms, roots, c[0])
  {
    hide StatesOk, CallsDone, GraphOk, Reachable, Taken, EdgeTotal;
    var c := Names(stack[begin..]) + [target];
    StackPath(syms, roots, stack);
    StackReachable(syms, roots, stack, begin);
    CycleCalls(syms, roots, stack, begin, target);
  }

  lemma {:induction false} CycleCalls(syms: Symbols, roots: set<Name>, stack: seq<Frame>, begin: nat, target: Name)
    requires CallPath(syms, Names(stack)) && begin < |stack| && Top(stack).name in syms
    requires Top(stack).next < |syms[Top(stack).name].Callees()|
    requires target == syms[Top(stack).name].Callees()[Top(stack).next]
    ensures CallPath(syms, Names(stack[begin..]) + [target])
  {
    var n, c := Names(stack), Names(stack[begin..]) + [target];
    assert forall i :: 0 <= i < |stack| - begin ==> c[i] == n[begin + i];
    forall i | 0 <= i < |c| - 1 ensures Calls(syms, c[i], c[i + 1]) {
      if i < |c| - 2 {
        assert Calls(syms, n[begin + i], n[begin + i + 1]);
      } else {
        assert c[i] == Top(stack).name;
      }
    }
  }

  lemma {:induction false} TakenAtMost(syms: Symbols, roots: set<Name>, stack: seq<Frame>, k: nat)
    requires StackOk(syms, roots, stack) && k <= |stack|
    ensures TakenUpto(stack, k) <= EdgesUpto(syms, Names(stack), k)
  {
    if k > 0 { TakenAtMost(syms, roots, stack, k - 1); }
  }

  lemma {:induction false} EdgesConcat(syms: Symbols, a: seq<Name>, b: seq<Name>, k: nat)
    requires k <= |b|
    ensures EdgesUpto(syms, a + b, |a| + k) == EdgeTotal(syms, a) + EdgesUpto(syms, b, k)
  {
    if k == 0 {
      EdgesAgree(syms, a, a + b, |a|);
    } else {
      EdgesConcat(syms, a, b, k - 1);
    }
  }

  lemma {:induction false} VisitedDistinct(states: map<Name, State>, stack: seq<Frame>, graph: seq<Name>)
    requires StatesOk(states, stack, graph)
    ensures AllDistinct(graph + Names(stack))
  {
    forall i, j | 0 <= i < |graph| && 0 <= j < |stack| ensures graph[i] != Names(stack)[j] {
      assert StateOf(states, stack[j].name) != Pure;
    }
  }

  lemma {:induction false} VisitedReachable(syms: Symbols, roots: set<Name>, stack: seq<Frame>, graph: seq<Validated>, n: Name)
    requires StackOk(syms, roots, stack) && GraphOk(syms, roots, graph) && n in NamesOf(graph) + Names(stack)
    ensures Reachable(syms, roots, n)
  {
    if n in NamesOf(graph) {
      var i :| 0 <= i < |graph| && NamesOf(graph)[i] == n;
      assert Finished(syms, roots, graph, i);
    } else {
      var i :| 0 <= i < |stack| && Names(stack)[i] == n;
      StackReachable(syms, roots, stack, i);
    }
  }

  /** One call too many: the finished and active functions together make more calls than allowed. */
  lemma {:induction false} EdgesExceeded(syms: Symbols, roots: set<Name>, states: map<Name, State>,
                      stack: seq<Frame>, graph: seq<Validated>, edges: nat, limits: Limits)
    requires Searching(syms, roots, states, stack, graph, edges) && edges == limits.maxEdges
    requires stack != [] && Top(stack).next < |syms[Top(stack).name].Callees()|
    ensures Justified(syms, roots, limits, TooManyEdges)
  {
    hide GraphOk, StatesOk, CallsDone;
    var names := NamesOf(graph) + Names(stack);
    VisitedDistinct(states, stack, NamesOf(graph));
    forall n | n in names ensures Reachable(syms, roots, n) {
      VisitedReachable(syms, roots, stack, graph, n);
    }
    EdgesConcat(syms, NamesOf(graph), Names(stack), |stack|);
    TakenAtMost(syms, roots, stack, |stack| - 1);
  }

  // ----- The finished graph -----

  lemma {:induction false} PathInGraph(syms: Symbols, roots: set<Name>, graph: seq<Validated>, p: seq<Name>)
    requires GraphOk(syms, roots, graph) && CallPath(syms, p) && p[0] in NamesOf(graph)
    ensures p[|p| - 1] in NamesOf(graph)
    decreases |p|
  {
    if |p| > 1 {
      var q := p[..|p| - 1];
      assert CallPath(syms, q) by {
        forall i | 0 <= i < |q| - 1 ensures Calls(syms, q[i], q[i + 1]) { assert Calls(syms, p[i], p[i + 1]); }
      }
      PathInGraph(syms, roots, graph, q);
      assert Calls(syms, p[|p| - 2], p[|p| - 2 + 1]);
      var i :| 0 <= i < |graph| && NamesOf(graph)[i] == p[|p| - 2];
      var _ := CalleeEarlier(syms, roots, graph, i, p[|p| - 1]);
    }
  }

  lemma {:induction false} CalleeEarlier(syms: Symbols, roots: set<Name>, graph: seq<Validated>, i: nat, c: Name) returns (j: nat)
    requires GraphOk(syms, roots, graph) && i < |graph| && Calls(syms, graph[i].name, c)
    ensures j < i && graph[j].name == c && c in NamesOf(graph)
  {
    assert Finished(syms, roots, graph, i);
    var k :| 0 <= k < |graph[i].calls| && graph[i].calls[k] == c;
    assert c in NamesOf(graph[..i]);
    j :| 0 <= j < i && NamesOf(graph[..i])[j] == c;
    assert NamesOf(graph)[j] == c;
  }

  /** Following calls through the graph goes strictly down its finishing order. */
  lemma {:induction false} PathDescends(syms: Symbols, roots: set<Name>, graph: seq<Validated>, p: seq<Name>, i: nat) returns (j: nat)
    requires GraphOk(syms, roots, graph) && CallPath(syms, p) && i < |graph| && graph[i].name == p[0]
    ensures j <= i - (|p| - 1) && graph[j].name == NamesOf(graph)[j] == p[|p| - 1]
    decreases |p|
  {
    if |p| == 1 {
      j := i;
    } else {
      assert Calls(syms, p[0], p[0 + 1]);
      var k := CalleeEarlier(syms, roots, graph, i, p[1]);
      var q := p[1..];
      assert CallPath(syms, q) by {
        forall m | 0 <= m < |q| - 1 ensures Calls(syms, q[m], q[m + 1]) { assert Calls(syms, p[m + 1], p[m + 1 + 1]); }
      }
      j := PathDescends(syms, roots, graph, q, k);
    }
  }

  lemma {:induction false} DoneMeansComplete(syms: Symbols, roots: set<Name>, graph: seq<Validated>, sorted: seq<Validated>)
    requires GraphOk(syms, roots, graph) && AllDistinct(NamesOf(graph)) && forall r :: r in roots ==> r in NamesOf(graph)
    requires sorted == SortBy(NameKey, graph)
    ensures Complete(syms, roots, sorted)
  {
    forall i, j | 0 <= i < j < |graph| ensures NameKey(graph[i]) != NameKey(graph[j]) {
      assert NamesOf(graph)[i] != NamesOf(graph)[j];
    }
    SortByStrict(NameKey, graph);
    SameMembers(graph, sorted);
    forall i | 0 <= i < |sorted|
      ensures sorted[i].name in syms && syms[sorted[i].name].Good() && sorted[i].calls == syms[sorted[i].name].calls.value
    {
      assert sorted[i] in graph;
      var j :| 0 <= j < |graph| && graph[j] == sorted[i];
      assert Finished(syms, roots, graph, j);
    }
    forall n ensures n in NamesOf(sorted) <==> Reachable(syms, roots, n) {
      if n in NamesOf(graph) {
        var i :| 0 <= i < |graph| && NamesOf(graph)[i] == n;
        assert Finished(syms, roots, graph, i);
      }
      if Reachable(syms, roots, n) {
        var p :| PathTo(syms, roots, p, n);
        PathInGraph(syms, roots, graph, p);
      }
    }
    forall p | CallPath(syms, p) && |p| >= 2 && p[0] == p[|p| - 1] ensures !Reachable(syms, roots, p[0]) {
      if Reachable(syms, roots, p[0]) {
        assert p[0] in NamesOf(graph);
        var i :| 0 <= i < |graph| && NamesOf(graph)[i] == p[0];
        var j := PathDescends(syms, roots, graph, p, i);
      }
    }
  }

  lemma {:induction false} SameMembers(graph: seq<Validated>, sorted: seq<Validated>)
    requires multiset(graph) == multiset(sorted)
    ensures forall v :: v in sorted <==> v in graph
    ensures forall n :: n in NamesOf(sorted) <==> n in NamesOf(graph)
  {
    forall v ensures v in sorted <==> v in graph { assert v in multiset(sorted) <==> v in multiset(graph); }
    forall n ensures n in NamesOf(sorted) <==> n in NamesOf(graph) {
      if n in NamesOf(sorted) {
        var i :| 0 <= i < |sorted| && NamesOf(sorted)[i] == n;
        assert sorted[i] in graph;
        var j :| 0 <= j < |graph| && graph[j] == sorted[i];
        assert NamesOf(graph)[j] == n;
      }
      if n in NamesOf(graph) {
        var i :| 0 <= i < |graph| && NamesOf(graph)[i] == n;
        assert graph[i] in sorted;
        var j :| 0 <= j < |sorted| && sorted[j] == graph[i];
        assert NamesOf(sorted)[j] == n;
      }
    }
  }

  // ----- Exactly when the search succeeds -----

  lemma {:induction false} EdgesWithout(syms: Symbols, names: seq<Name>, j: nat)
    requires j < |names|
    ensures EdgeTotal(syms, names) == EdgeTotal(syms, names[..j] + names[j + 1..])
      + if names[j] in syms then |syms[names[j]].Callees()| else 0
  {
    var a, b := names[..j + 1], names[j + 1..];
    assert names == a + b;
    EdgesConcat(syms, a, b, |b|);
    EdgesConcat(syms, names[..j], b, |b|);
    EdgesAgree(syms, names[..j], a, j);
  }

  /** Fewer functions make fewer calls. */
  lemma {:induction false} EdgesWithin(syms: Symbols, few: seq<Name>, many: seq<Name>)
    requires AllDistinct(few) && forall n :: n in few ==> n in many
    ensures EdgeTotal(syms, few) <= EdgeTotal(syms, many)
    decreases |few|
  {
    if few != [] {
      var rest, x := few[..|few| - 1], few[|few| - 1];
      assert x in few;
      var j :| 0 <= j < |many| && many[j] == x;
      var others := many[..j] + many[j + 1..];
      assert many == many[..j] + [x] + many[j + 1..];
      forall n | n in rest ensures n in others { assert n in few && n != x; }
      EdgesWithin(syms, rest, others);
      EdgesWithout(syms, many, j);
      EdgesAgree(syms, rest, few, |rest|);
    }
  }

  lemma {:induction false} CompleteClean(syms: Symbols, roots: set<Name>, graph: seq<Validated>, names: seq<Name>, limits: Limits)
    requires Complete(syms, roots, graph) && |syms| <= limits.maxFunctions
    requires (forall n :: n in NamesOf(graph) ==> n in names) && EdgeTotal(syms, names) <= limits.maxEdges
    ensures Clean(syms, roots, limits)
  {
    hide Reachable, EdgeTotal;
    forall n | Reachable(syms, roots, n) ensures n in syms && syms[n].Good() {
      assert n in NamesOf(graph);
      var i :| 0 <= i < |graph| && NamesOf(graph)[i] == n;
    }
    forall few | AllDistinct(few) && (forall n :: n in few ==> Reachable(syms, roots, n))
      ensures EdgeTotal(syms, few) <= limits.maxEdges
    {
      forall n | n in few ensures n in names { assert n in NamesOf(graph); }
      EdgesWithin(syms, few, names);
    }
  }

  lemma {:induction false} ChainReachable(syms: Symbols, roots: set<Name>, chain: seq<Name>, k: nat)
    requires CallPath(syms, chain) && chain[0] in roots && k < |chain|
    ensures Reachable(syms, roots, chain[k])
  {
    var p := chain[..k + 1];
    forall i | 0 <= i < |p| - 1 ensures Calls(syms, p[i], p[i + 1]) { assert Calls(syms, chain[i], chain[i + 1]); }
    assert PathTo(syms, roots, p, chain[k]);
  }

  /** Only too small a depth limit refuses a clean call graph, and only one below its size. */
  lemma {:induction false} CleanRefused(syms: Symbols, roots: set<Name>, limits: Limits, e: Error)
    requires Clean(syms, roots, limits) && Justified(syms, roots, limits, e)
    ensures e.TooDeep? && limits.maxDepth < |syms|
  {
    hide Reachable, EdgeTotal;
    if e.TooDeep? {
      var chain := e.chain;
      forall k | 0 <= k < |chain| ensures chain[k] in syms.Keys { ChainReachable(syms, roots, chain, k); }
      DistinctSize(chain);
      assert Elements(chain) <= syms.Keys;
      SubsetSize(Elements(chain), syms.Keys);
    }
  }
}

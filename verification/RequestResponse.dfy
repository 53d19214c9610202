/** `RequestResponse<Req, Resp>`: bounded matching by correlation id. */
module RequestResponses {
  import opened Lists
  import opened Wrappers

  datatype Envelope<T> = Envelope(payload: T, correlationId: nat)

  function Ids<T>(s: seq<Envelope<T>>): (r: seq<nat>)
    ensures |r| == |s| && forall i :: 0 <= i < |s| ==> r[i] == s[i].correlationId
  {
    seq(|s|, i requires 0 <= i < |s| => s[i].correlationId)
  }

  lemma {:induction false} IdsConcat<T>(a: seq<Envelope<T>>, b: seq<Envelope<T>>)
    ensures Ids(a + b) == Ids(a) + Ids(b)
  {
  }

  lemma {:induction false} IdsAppend<T>(s: seq<Envelope<T>>, e: Envelope<T>)
    ensures Elements(Ids(s + [e])) == Elements(Ids(s)) + {e.correlationId}
    ensures AllDistinct(Ids(s)) && e.correlationId !in Ids(s) ==> AllDistinct(Ids(s + [e]))
  {
    IdsConcat(s, [e]);
    assert Ids([e]) == [e.correlationId];
  }

  datatype Channel<Req, Resp> = Channel(
    maxInFlight: nat,
    requestProposals: seq<Envelope<Req>>,
    committedRequests: seq<Envelope<Req>>,
    responseProposals: seq<Envelope<Resp>>,
    committedResponses: seq<Envelope<Resp>>,
    active: set<nat>,
    delivered: set<nat>,
    requestPops: nat,
    responsePops: nat,
    totalCompleted: nat)
  {
    predicate ContainsCorrelation(id: nat) {
      id in active || id in Ids(requestProposals) || id in Ids(committedResponses)
    }

    function Request(e: Envelope<Req>): (Channel<Req, Resp>, bool) {
      if |active| + |requestProposals| >= maxInFlight || ContainsCorrelation(e.correlationId) then (this, false)
      else (this.(requestProposals := requestProposals + [e]), true)
    }

    function TakeRequest(): (Channel<Req, Resp>, Option<Envelope<Req>>) {
      if requestPops >= |committedRequests| then (this, None)
      else (this.(requestPops := requestPops + 1), Some(committedRequests[requestPops]))
    }

    function Respond(e: Envelope<Resp>): (Channel<Req, Resp>, bool) {
      var id := e.correlationId;
      if id !in active || id !in delivered || id in Ids(responseProposals) then (this, false)
      else (this.(responseProposals := responseProposals + [e]), true)
    }

    function TakeResponse(): (Channel<Req, Resp>, Option<Envelope<Resp>>) {
      if responsePops >= |committedResponses| then (this, None)
      else (this.(responsePops := responsePops + 1), Some(committedResponses[responsePops]))
    }

    /** Publication: popped requests become delivered, then new requests become active, then
        responses retire their ids. */
    function Xfer(): Channel<Req, Resp> {
      var k, m := Min(requestPops, |committedRequests|), Min(responsePops, |committedResponses|);
      var answered := Elements(Ids(responseProposals));
      this.(
        committedRequests := committedRequests[k..] + requestProposals,
        committedResponses := committedResponses[m..] + responseProposals,
        active := active + Elements(Ids(requestProposals)) - answered,
        delivered := delivered + Elements(Ids(committedRequests[..k])) - answered,
        totalCompleted := totalCompleted + |responseProposals|,
        requestProposals := [], responseProposals := [], requestPops := 0, responsePops := 0)
    }

    /** What `validate()` checks. */
    ghost predicate Validates() {
      && |active| + |requestProposals| <= maxInFlight
      && delivered <= active
      && (forall i :: 0 <= i < |committedRequests| ==> committedRequests[i].correlationId in active)
      && (forall i :: 0 <= i < |responseProposals| ==>
            responseProposals[i].correlationId in active && responseProposals[i].correlationId in delivered)
    }

    /** Where an id may be, at every instant of every run. */
    ghost predicate Placed() {
      && requestPops <= |committedRequests| && responsePops <= |committedResponses|
      && AllDistinct(Ids(requestProposals)) && AllDistinct(Ids(committedRequests))
      && AllDistinct(Ids(responseProposals)) && AllDistinct(Ids(committedResponses))
      // the active ids are those waiting to be delivered and those delivered, never both
      && active == Elements(Ids(committedRequests)) + delivered
      && Elements(Ids(committedRequests)) !! delivered
      // an id with an unread response is not active, and a fresh request uses neither
      && Elements(Ids(committedResponses)) !! active
      && Elements(Ids(requestProposals)) !! active + Elements(Ids(committedResponses))
      && Elements(Ids(responseProposals)) <= delivered
      && |active| + |requestProposals| <= maxInFlight
    }
  }

  function Idle<Req, Resp>(maxInFlight: nat): Channel<Req, Resp> {
    Channel(maxInFlight, [], [], [], [], {}, {}, 0, 0, 0)
  }

  // ----- One step -----

  lemma {:induction false} PlacedValidates<Req, Resp>(c: Channel<Req, Resp>)
    requires c.Placed()
    ensures c.Validates()
  {
    forall i | 0 <= i < |c.committedRequests| ensures c.committedRequests[i].correlationId in c.active {
      assert Ids(c.committedRequests)[i] in Elements(Ids(c.committedRequests));
    }
    forall i | 0 <= i < |c.responseProposals| ensures c.responseProposals[i].correlationId in c.delivered {
      assert Ids(c.responseProposals)[i] in Elements(Ids(c.responseProposals));
    }
  }

  lemma {:induction false} RequestPlaced<Req, Resp>(c: Channel<Req, Resp>, e: Envelope<Req>)
    requires c.Placed()
    ensures c.Request(e).0.Placed()
  {
    hide Ids, AllDistinct, Elements;
    IdsAppend(c.requestProposals, e);
  }

  lemma {:induction false} RespondPlaced<Req, Resp>(c: Channel<Req, Resp>, e: Envelope<Resp>)
    requires c.Placed()
    ensures c.Respond(e).0.Placed()
  {
    hide Ids, AllDistinct, Elements;
    IdsAppend(c.responseProposals, e);
  }

  lemma {:induction false} DistinctSplit(a: seq<nat>, b: seq<nat>)
    ensures AllDistinct(a + b) <==> AllDistinct(a) && AllDistinct(b) && Elements(a) !! Elements(b)
    ensures Elements(a + b) == Elements(a) + Elements(b)
  {
    var c := a + b;
    forall i | 0 <= i < |a| ensures c[i] == a[i] {}
    forall j | 0 <= j < |b| ensures c[|a| + j] == b[j] {}
    if AllDistinct(c) {
      forall i, j | 0 <= i < |a| && 0 <= j < |b| ensures a[i] != b[j] {
        assert c[i] != c[|a| + j];
      }
      forall x | x in Elements(a) ensures x !in Elements(b) {
        var i :| 0 <= i < |a| && a[i] == x;
      }
    }
    if AllDistinct(a) && AllDistinct(b) && Elements(a) !! Elements(b) {
      forall i, j | 0 <= i < j < |c| ensures c[i] != c[j] {
        if i < |a| <= j { assert a[i] in Elements(a) && b[j - |a|] in Elements(b); }
      }
    }
  }

  lemma {:induction false} IdsSplit<T>(s: seq<Envelope<T>>, k: nat)
    requires k <= |s|
    ensures Ids(s) == Ids(s[..k]) + Ids(s[k..])
    ensures AllDistinct(Ids(s)) ==> AllDistinct(Ids(s[..k])) && AllDistinct(Ids(s[k..])) && Elements(Ids(s[..k])) !! Elements(Ids(s[k..]))
    ensures Elements(Ids(s)) == Elements(Ids(s[..k])) + Elements(Ids(s[k..]))
  {
    hide Ids, AllDistinct, Elements;
    assert s == s[..k] + s[k..];
    IdsConcat(s[..k], s[k..]);
    DistinctSplit(Ids(s[..k]), Ids(s[k..]));
  }

  /** Appending to what a pop left over. */
  lemma {:induction false} IdsShift<T>(s: seq<Envelope<T>>, k: nat, t: seq<Envelope<T>>)
    requires k <= |s| && AllDistinct(Ids(s)) && AllDistinct(Ids(t)) && Elements(Ids(s)) !! Elements(Ids(t))
    ensures AllDistinct(Ids(s[k..] + t)) && Elements(Ids(s[k..] + t)) == Elements(Ids(s[k..])) + Elements(Ids(t))
  {
    hide Ids, AllDistinct, Elements;
    IdsSplit(s, k);
    IdsConcat(s[k..], t);
    DistinctSplit(Ids(s[k..]), Ids(t));
  }

  lemma {:induction false} CardinalityDisjoint(a: set<nat>, b: set<nat>, c: set<nat>)
    requires a !! b && c <= a
    ensures |a + b - c| == |a| + |b| - |c|
  {
    assert |a + b| == |a| + |b|;
    assert a + b == (a + b - c) + c;
    assert |(a + b - c) + c| == |a + b - c| + |c|;
  }

  /** The barrier on sets: of the waiting ids `kept + popped`, the popped ones become delivered;
      `news` ids become active; `answered` ids move from delivered to unread. */
  lemma {:induction false} SetsMove(kept: set<nat>, popped: set<nat>, delivered: set<nat>, news: set<nat>, answered: set<nat>, unread: set<nat>)
    requires kept !! popped && kept + popped !! delivered && answered <= delivered
    requires unread !! kept + popped + delivered && news !! kept + popped + delivered + unread
    ensures (kept + popped + delivered) + news - answered == (kept + news) + (delivered + popped - answered)
    ensures kept + news !! delivered + popped - answered
    ensures unread + answered !! (kept + popped + delivered) + news - answered
  {
  }

  /** The barrier retires one id per response and admits one per request. */
  lemma {:induction false} XferPlaced<Req, Resp>(c: Channel<Req, Resp>)
    requires c.Placed()
    ensures c.Xfer().Placed()
    ensures |c.Xfer().active| == |c.active| + |c.requestProposals| - |c.responseProposals|
  {
    hide Ids, AllDistinct, Elements;
    XferDistinct(c);
    XferSets(c);
    XferSize(c);
    NothingProposed<Req>();
    NothingProposed<Resp>();
  }

  lemma {:induction false} XferSets<Req, Resp>(c: Channel<Req, Resp>)
    requires c.Placed()
    ensures var d := c.Xfer(); var waiting, unread := Elements(Ids(d.committedRequests)), Elements(Ids(d.committedResponses));
      d.active == waiting + d.delivered && waiting !! d.delivered && unread !! d.active
  {
    hide Ids, AllDistinct, Elements, Channel.Placed;
    PlacedParts(c);
    PlacedApart(c);
    XferDistinct(c);
    SetsMove(Elements(Ids(c.committedRequests[c.requestPops..])), Elements(Ids(c.committedRequests[..c.requestPops])), c.delivered,
             Elements(Ids(c.requestProposals)), Elements(Ids(c.responseProposals)), Elements(Ids(c.committedResponses[c.responsePops..])));
  }

  /** The disjointness an id's place gives, on the parts. */
  lemma {:induction false} PlacedApart<Req, Resp>(c: Channel<Req, Resp>)
    requires c.Placed()
    ensures Elements(Ids(c.responseProposals)) <= c.delivered
    ensures Elements(Ids(c.committedResponses[c.responsePops..])) !! c.active
    ensures Elements(Ids(c.requestProposals)) !! c.active + Elements(Ids(c.committedResponses[c.responsePops..]))
  {
    hide Ids, AllDistinct, Elements;
    PlacedParts(c);
  }

  /** The two queues after the barrier, by their ids. */
  lemma {:induction false} XferDistinct<Req, Resp>(c: Channel<Req, Resp>)
    requires c.Placed()
    ensures var d := c.Xfer();
      && AllDistinct(Ids(d.committedRequests)) && AllDistinct(Ids(d.committedResponses))
      && Elements(Ids(d.committedRequests)) == Elements(Ids(c.committedRequests[c.requestPops..])) + Elements(Ids(c.requestProposals))
      && Elements(Ids(d.committedResponses)) == Elements(Ids(c.committedResponses[c.responsePops..])) + Elements(Ids(c.responseProposals))
  {
    hide Ids, AllDistinct, Elements;
    IdsShift(c.committedRequests, c.requestPops, c.requestProposals);
    IdsShift(c.committedResponses, c.responsePops, c.responseProposals);
  }

  /** The ids before the barrier, split at the pops. */
  lemma {:induction false} PlacedParts<Req, Resp>(c: Channel<Req, Resp>)
    requires c.Placed()
    ensures c.requestPops <= |c.committedRequests| && c.responsePops <= |c.committedResponses|
    ensures var kept, popped := Elements(Ids(c.committedRequests[c.requestPops..])), Elements(Ids(c.committedRequests[..c.requestPops]));
      c.active == kept + popped + c.delivered && kept !! popped && kept + popped !! c.delivered
    ensures Elements(Ids(c.committedResponses[c.responsePops..])) <= Elements(Ids(c.committedResponses))
  {
    hide Ids, AllDistinct, Elements;
    IdsSplit(c.committedRequests, c.requestPops);
    IdsSplit(c.committedResponses, c.responsePops);
  }

  lemma {:induction false} XferStaysPlaced<Req, Resp>(c: Channel<Req, Resp>)
    requires c.Placed()
    ensures c.Xfer().Placed()
  {
    XferPlaced(c);
  }

  lemma {:induction false} PopsInRange<Req, Resp>(c: Channel<Req, Resp>)
    requires c.Placed()
    ensures c.requestPops <= |c.committedRequests| && c.responsePops <= |c.committedResponses|
  {
  }

  lemma {:induction false} XferSize<Req, Resp>(c: Channel<Req, Resp>)
    requires c.Placed()
    ensures |c.Xfer().active| == |c.active| + |c.requestProposals| - |c.responseProposals|
  {
    hide Ids, AllDistinct, Elements;
    DistinctSize(Ids(c.requestProposals));
    DistinctSize(Ids(c.responseProposals));
    CardinalityDisjoint(c.active, Elements(Ids(c.requestProposals)), Elements(Ids(c.responseProposals)));
  }

  lemma {:induction false} NothingProposed<T>()
    ensures AllDistinct(Ids<T>([])) && Elements(Ids<T>([])) == {}
  {
  }

  // ----- Every run -----

  datatype Op<Req, Resp> =
    | Request(request: Envelope<Req>)
    | TakeRequest
    | Respond(response: Envelope<Resp>)
    | TakeResponse
    | Commit

  /** A channel with the history of one run: committed requests and responses, and those handed
      out and removed. */
  datatype History<Req, Resp> = History(
    c: Channel<Req, Resp>,
    requested: seq<Envelope<Req>>,
    handed: seq<Envelope<Req>>,
    served: seq<Envelope<Req>>,
    responded: seq<Envelope<Resp>>,
    returned: seq<Envelope<Resp>>,
    retired: seq<Envelope<Resp>>)

  function Step<Req, Resp>(h: History<Req, Resp>, op: Op<Req, Resp>): History<Req, Resp> {
    var c := h.c;
    match op
    case Request(e) => h.(c := c.Request(e).0)
    case Respond(e) => h.(c := c.Respond(e).0)
    case TakeRequest =>
      var (d, e) := c.TakeRequest();
      h.(c := d, handed := h.handed + if e.Some? then [e.value] else [])
    case TakeResponse =>
      var (d, e) := c.TakeResponse();
      h.(c := d, returned := h.returned + if e.Some? then [e.value] else [])
    case Commit =>
      h.(c := c.Xfer(),
         requested := h.requested + c.requestProposals,
         served := h.served + c.committedRequests[..Min(c.requestPops, |c.committedRequests|)],
         responded := h.responded + c.responseProposals,
         retired := h.retired + c.committedResponses[..Min(c.responsePops, |c.committedResponses|)])
  }

  function Run<Req, Resp>(h: History<Req, Resp>, ops: seq<Op<Req, Resp>>): History<Req, Resp>
    decreases |ops|
  {
    if ops == [] then h else Run(Step(h, ops[0]), ops[1..])
  }

  function Start<Req, Resp>(maxInFlight: nat): History<Req, Resp> {
    History(Idle(maxInFlight), [], [], [], [], [], [])
  }

  /** First in, first out on both sides. */
  ghost predicate Ordered<Req, Resp>(h: History<Req, Resp>) {
    var c := h.c;
    && c.requestPops <= |c.committedRequests| && c.responsePops <= |c.committedResponses|
    && h.requested == h.served + c.committedRequests
    && h.handed == h.served + c.committedRequests[..c.requestPops]
    && h.responded == h.retired + c.committedResponses
    && h.returned == h.retired + c.committedResponses[..c.responsePops]
  }

  /** Id by id: requests handed to the server less responses is one exactly for the delivered ids;
      requests less responses is one exactly for the active ids. */
  ghost predicate Matched<Req, Resp>(h: History<Req, Resp>) {
    && multiset(Ids(h.served)) == multiset(Ids(h.responded)) + multiset(h.c.delivered)
    && multiset(Ids(h.requested)) == multiset(Ids(h.responded)) + multiset(h.c.active)
    && |h.responded| == h.c.totalCompleted
    && |h.requested| == h.c.totalCompleted + |h.c.active|
  }

  ghost predicate Safe<Req, Resp>(h: History<Req, Resp>) {
    h.c.Placed() && Ordered(h) && Matched(h) && h.c.Validates()
  }

  lemma {:induction false} CommitOrdered<Req, Resp>(h: History<Req, Resp>)
    requires Ordered(h)
    ensures Ordered(Step(h, Commit))
  {
    var c, g := h.c, Step(h, Commit);
    Reassociate(h.served, c.committedRequests, c.requestPops, c.requestProposals);
    Reassociate(h.retired, c.committedResponses, c.responsePops, c.responseProposals);
    assert g.c.committedRequests[..0] == [] && g.c.committedResponses[..0] == [];
  }

  lemma {:induction false} Reassociate<T>(a: seq<T>, b: seq<T>, k: nat, d: seq<T>)
    requires k <= |b|
    ensures a + b + d == (a + b[..k]) + (b[k..] + d)
  {
    assert b == b[..k] + b[k..];
  }

  lemma {:induction false} TakeOrdered<Req, Resp>(h: History<Req, Resp>)
    requires Ordered(h)
    ensures Ordered(Step(h, TakeRequest)) && Ordered(Step(h, TakeResponse))
  {
    var c := h.c;
    if c.requestPops < |c.committedRequests| {
      assert c.committedRequests[..c.requestPops + 1] == c.committedRequests[..c.requestPops] + [c.committedRequests[c.requestPops]];
    }
    if c.responsePops < |c.committedResponses| {
      assert c.committedResponses[..c.responsePops + 1] == c.committedResponses[..c.responsePops] + [c.committedResponses[c.responsePops]];
    }
  }

  lemma {:induction false} BagMoves(served: multiset<nat>, responded: multiset<nat>, delivered: set<nat>, add: seq<nat>, remove: seq<nat>)
    requires served == responded + multiset(delivered)
    requires AllDistinct(add) && AllDistinct(remove) && Elements(add) !! delivered && Elements(remove) <= delivered
    ensures served + multiset(add) == responded + multiset(remove) + multiset(delivered + Elements(add) - Elements(remove))
  {
    DistinctSize(add);
    DistinctSize(remove);
    assert multiset(delivered + Elements(add)) == multiset(delivered) + multiset(Elements(add));
    assert multiset(delivered + Elements(add)) == multiset(delivered + Elements(add) - Elements(remove)) + multiset(Elements(remove));
  }

  lemma {:induction false} CommitMatched<Req, Resp>(h: History<Req, Resp>)
    requires Safe(h)
    ensures Matched(Step(h, Commit))
  {
    hide Ids, AllDistinct, Elements;
    var c := h.c;
    var popped := c.committedRequests[..c.requestPops];
    XferPlaced(c);
    IdsSplit(c.committedRequests, c.requestPops);
    IdsConcat(h.served, popped);
    IdsConcat(h.responded, c.responseProposals);
    IdsConcat(h.requested, c.requestProposals);
    BagMoves(multiset(Ids(h.served)), multiset(Ids(h.responded)), c.delivered, Ids(popped), Ids(c.responseProposals));
    BagMoves(multiset(Ids(h.requested)), multiset(Ids(h.responded)), c.active, Ids(c.requestProposals), Ids(c.responseProposals));
  }

  lemma {:induction false} ProposalsOrdered<Req, Resp>(h: History<Req, Resp>, op: Op<Req, Resp>)
    requires Ordered(h) && (op.Request? || op.Respond?)
    ensures Ordered(Step(h, op))
  {
  }

  /** Nothing is matched or unmatched before the barrier. */
  lemma {:induction false} ProposalsMatched<Req, Resp>(h: History<Req, Resp>, op: Op<Req, Resp>)
    requires Matched(h) && !op.Commit?
    ensures Matched(Step(h, op))
  {
    hide Ids;
  }

  lemma {:induction false} TakePlaced<Req, Resp>(h: History<Req, Resp>)
    requires h.c.Placed()
    ensures Step(h, TakeRequest).c.Placed() && Step(h, TakeResponse).c.Placed()
  {
    hide Ids, AllDistinct, Elements;
  }

  lemma {:induction false} StepSafe<Req, Resp>(h: History<Req, Resp>, op: Op<Req, Resp>)
    requires Safe(h)
    ensures Safe(Step(h, op))
  {
    hide Ordered, Matched, Channel.Placed, Channel.Validates, Channel.Xfer;
    match op {
      case Request(e) => RequestPlaced(h.c, e);
      case Respond(e) => RespondPlaced(h.c, e);
      case TakeRequest => TakeOrdered(h);
      case TakeResponse => TakeOrdered(h);
      case Commit =>
        XferPlaced(h.c);
        CommitOrdered(h);
        CommitMatched(h);
    }
    if op.Request? || op.Respond? { ProposalsOrdered(h, op); }
    if !op.Commit? {
      ProposalsMatched(h, op);
      TakePlaced(h);
    }
    PlacedValidates(Step(h, op).c);
  }

  lemma {:induction false} RunSafe<Req, Resp>(h: History<Req, Resp>, ops: seq<Op<Req, Resp>>)
    requires Safe(h)
    ensures Safe(Run(h, ops))
    decreases |ops|
  {
    if ops != [] {
      StepSafe(h, ops[0]);
      RunSafe(Step(h, ops[0]), ops[1..]);
    }
  }

  /** Every reachable state is safe, whatever is requested, answered and popped in whatever order. */
  lemma {:induction false} EveryRunIsSafe<Req, Resp>(maxInFlight: nat, ops: seq<Op<Req, Resp>>)
    ensures Safe(Run(Start<Req, Resp>(maxInFlight), ops))
  {
    var h := Start<Req, Resp>(maxInFlight);
    NothingProposed<Req>();
    NothingProposed<Resp>();
    assert Matched(h);
    RunSafe(h, ops);
  }

  /** No id ever has more responses than requests handed to the server, nor two requests outstanding. */
  lemma {:induction false} AtMostOneResponse<Req, Resp>(maxInFlight: nat, ops: seq<Op<Req, Resp>>, id: nat)
    ensures var h := Run(Start<Req, Resp>(maxInFlight), ops);
      var requests, served, responses := multiset(Ids(h.requested))[id], multiset(Ids(h.served))[id], multiset(Ids(h.responded))[id];
      && responses <= served <= requests <= responses + 1
      && (requests == responses + 1 <==> id in h.c.active)
      && (served == responses + 1 <==> id in h.c.delivered)
  {
    EveryRunIsSafe(maxInFlight, ops);
  }

  // ----- What is accepted, by the history alone -----

  /** How often an id occurs. */
  ghost function Times<T>(s: seq<Envelope<T>>, id: nat): nat { multiset(Ids(s))[id] }

  lemma {:induction false} TimesConcat<T>(a: seq<Envelope<T>>, b: seq<Envelope<T>>, id: nat)
    ensures Times(a + b, id) == Times(a, id) + Times(b, id)
  {
    hide Ids;
    IdsConcat(a, b);
  }

  lemma {:induction false} TimesMember<T>(s: seq<Envelope<T>>, id: nat)
    ensures Times(s, id) > 0 <==> id in Ids(s)
    ensures AllDistinct(Ids(s)) ==> Times(s, id) <= 1
  {
    if AllDistinct(Ids(s)) { DistinctSize(Ids(s)); }
  }

  /** In every reachable state a request is accepted exactly when fewer than the limit are unanswered,
      pending ones included, and every earlier request with its id has had its response removed. */
  lemma {:induction false} RequestExactly<Req, Resp>(h: History<Req, Resp>, e: Envelope<Req>)
    requires Safe(h)
    ensures h.c.Request(e).1 <==>
      (|h.requested| + |h.c.requestProposals| - |h.responded| < h.c.maxInFlight
       && Times(h.requested, e.correlationId) + Times(h.c.requestProposals, e.correlationId) == Times(h.retired, e.correlationId))
  {
    hide Ids, AllDistinct, Channel.Placed, Channel.Validates;
    var id := e.correlationId;
    TimesConcat(h.retired, h.c.committedResponses, id);
    TimesMember(h.c.committedResponses, id);
    TimesMember(h.c.requestProposals, id);
    assert Times(h.requested, id) == Times(h.responded, id) + multiset(h.c.active)[id];
  }

  /** A response is accepted exactly when its id has been handed to the server, as of the last barrier,
      more often than it has been answered, pending answers included. */
  lemma {:induction false} RespondExactly<Req, Resp>(h: History<Req, Resp>, e: Envelope<Resp>)
    requires Safe(h)
    ensures h.c.Respond(e).1 <==>
      Times(h.served, e.correlationId) > Times(h.responded, e.correlationId) + Times(h.c.responseProposals, e.correlationId)
  {
    hide Ids, AllDistinct, Channel.Validates, Elements;
    var id := e.correlationId;
    TimesMember(h.c.responseProposals, id);
    assert Times(h.served, id) == Times(h.responded, id) + multiset(h.c.delivered)[id];
  }

  /** Both sides are served in order until nothing published is left. */
  lemma {:induction false} TakesExactly<Req, Resp>(h: History<Req, Resp>)
    requires Safe(h)
    ensures h.c.TakeRequest().1 == if |h.handed| < |h.requested| then Some(h.requested[|h.handed|]) else None
    ensures h.c.TakeResponse().1 == if |h.returned| < |h.responded| then Some(h.responded[|h.returned|]) else None
  {
    hide Channel.Placed, Channel.Validates, Matched;
  }

  // ----- The runtime object -----

  class RequestResponse<Req, Resp> {
    const maxInFlight: nat
    var totalCompleted: nat
    var requestProposals: seq<Envelope<Req>>
    var committedRequests: seq<Envelope<Req>>
    var responseProposals: seq<Envelope<Resp>>
    var committedResponses: seq<Envelope<Resp>>
    var active: set<nat>
    var deliveredRequests: set<nat>
    var requestPopCount: nat
    var responsePopCount: nat

    function State(): Channel<Req, Resp>
      reads this
    {
      Channel(maxInFlight, requestProposals, committedRequests, responseProposals, committedResponses,
              active, deliveredRequests, requestPopCount, responsePopCount, totalCompleted)
    }

    constructor (maxInFlight: nat)
      ensures State() == Idle(maxInFlight)
    {
      this.maxInFlight := maxInFlight;
      totalCompleted, requestPopCount, responsePopCount := 0, 0, 0;
      requestProposals, committedRequests := [], [];
      responseProposals, committedResponses := [], [];
      active, deliveredRequests := {}, {};
    }

    method ProposeRequest(request: Req, correlationId: nat) returns (ok: bool)
      requires State().Placed()
      modifies this`requestProposals
      ensures (State(), ok) == old(State()).Request(Envelope(request, correlationId))
      ensures State().Placed()
    {
      RequestPlaced(State(), Envelope(request, correlationId));
      if |active| + |requestProposals| >= maxInFlight {
        return false;
      }
      var used := ContainsCorrelation(correlationId);
      if used {
        return false;
      }
      requestProposals := requestProposals + [Envelope(request, correlationId)];
      return true;
    }

    method ContainsCorrelation(correlationId: nat) returns (found: bool)
      ensures found <==> State().ContainsCorrelation(correlationId)
    {
      found := correlationId in active;
      if !found { found := AnyOf(requestProposals, correlationId); }
      if !found { found := AnyOf(committedResponses, correlationId); }
    }

    method ProposePopRequest() returns (r: Option<Envelope<Req>>)
      requires State().Placed()
      modifies this`requestPopCount
      ensures (State(), r) == old(State()).TakeRequest()
      ensures State().Placed()
    {
      if requestPopCount >= |committedRequests| {
        return None;
      }
      requestPopCount := requestPopCount + 1;
      return Some(committedRequests[requestPopCount - 1]);
    }

    method ProposeResponse(response: Resp, correlationId: nat) returns (ok: bool)
      requires State().Placed()
      modifies this`responseProposals
      ensures (State(), ok) == old(State()).Respond(Envelope(response, correlationId))
      ensures State().Placed()
    {
      RespondPlaced(State(), Envelope(response, correlationId));
      if correlationId !in active || correlationId !in deliveredRequests {
        return false;
      }
      var found := AnyOf(responseProposals, correlationId);
      if found {
        return false;
      }
      responseProposals := responseProposals + [Envelope(response, correlationId)];
      return true;
    }

    method ProposePopResponse() returns (r: Option<Envelope<Resp>>)
      requires State().Placed()
      modifies this`responsePopCount
      ensures (State(), r) == old(State()).TakeResponse()
      ensures State().Placed()
    {
      if responsePopCount >= |committedResponses| {
        return None;
      }
      responsePopCount := responsePopCount + 1;
      return Some(committedResponses[responsePopCount - 1]);
    }

    /** Popped requests leave the queue for the delivered set. */
    method DeliverPopped()
      requires requestPopCount <= |committedRequests|
      modifies this`deliveredRequests, this`committedRequests, this`requestPopCount
      ensures deliveredRequests == old(deliveredRequests) + Elements(Ids(old(committedRequests[..requestPopCount])))
      ensures committedRequests == old(committedRequests[requestPopCount..]) && requestPopCount == 0
    {
      hide Ids, Elements;
      Empties(committedRequests);
      var requestPops := Min(requestPopCount, |committedRequests|);
      for i := 0 to requestPops
        invariant committedRequests == old(committedRequests) && requestPopCount == old(requestPopCount)
        invariant deliveredRequests == old(deliveredRequests) + Elements(Ids(old(committedRequests)[..i]))
      {
        OneMore(committedRequests, i);
        deliveredRequests := deliveredRequests + {committedRequests[i].correlationId};
      }
      committedRequests := committedRequests[requestPops..];
      requestPopCount := 0;
    }

    method AdmitRequests()
      modifies this`active, this`committedRequests, this`requestProposals
      ensures active == old(active) + Elements(Ids(old(requestProposals)))
      ensures committedRequests == old(committedRequests + requestProposals) && requestProposals == []
    {
      hide Ids, Elements;
      Empties(requestProposals);
      for i := 0 to |requestProposals|
        invariant requestProposals == old(requestProposals)
        invariant active == old(active) + Elements(Ids(requestProposals[..i]))
        invariant committedRequests == old(committedRequests) + requestProposals[..i]
      {
        OneMore(requestProposals, i);
        active := active + {requestProposals[i].correlationId};
        committedRequests := committedRequests + [requestProposals[i]];
      }
      requestProposals := [];
    }

    method RetireAnswered()
      modifies this`active, this`deliveredRequests, this`committedResponses, this`responseProposals, this`totalCompleted
      ensures active == old(active) - Elements(Ids(old(responseProposals)))
      ensures deliveredRequests == old(deliveredRequests) - Elements(Ids(old(responseProposals)))
      ensures committedResponses == old(committedResponses + responseProposals) && responseProposals == []
      ensures totalCompleted == old(totalCompleted) + |old(responseProposals)|
    {
      hide Ids, Elements;
      Empties(responseProposals);
      for i := 0 to |responseProposals|
        invariant responseProposals == old(responseProposals)
        invariant active == old(active) - Elements(Ids(responseProposals[..i]))
        invariant deliveredRequests == old(deliveredRequests) - Elements(Ids(responseProposals[..i]))
        invariant committedResponses == old(committedResponses) + responseProposals[..i]
        invariant totalCompleted == old(totalCompleted) + i
      {
        OneMore(responseProposals, i);
        active := active - {responseProposals[i].correlationId};
        deliveredRequests := deliveredRequests - {responseProposals[i].correlationId};
        committedResponses := committedResponses + [responseProposals[i]];
        totalCompleted := totalCompleted + 1;
      }
      responseProposals := [];
    }

    /** The publication loops, in source order. */
    method Publish()
      requires requestPopCount <= |committedRequests| && responsePopCount <= |committedResponses|
      modifies this
      ensures State() == old(State()).Xfer()
    {
      hide Ids, Elements;
      DeliverPopped();
      var responsePops := Min(responsePopCount, |committedResponses|);
      committedResponses := committedResponses[responsePops..];
      responsePopCount := 0;
      AdmitRequests();
      RetireAnswered();
    }

    method DoXfer()
      requires State().Placed()
      modifies this
      ensures State() == old(State()).Xfer()
      ensures State().Placed()
    {
      hide Channel.Placed, Channel.Xfer;
      XferStaysPlaced(State());
      PopsInRange(State());
      Publish();
    }

    method Validate() returns (ok: bool)
      ensures ok <==> State().Validates()
    {
      if |active| > maxInFlight || |active| + |requestProposals| > maxInFlight {
        return false;
      }
      var rest := deliveredRequests;
      while rest != {}
        invariant rest <= deliveredRequests && deliveredRequests - rest <= active
        decreases rest
      {
        var correlationId :| correlationId in rest;
        if correlationId !in active {
          return false;
        }
        rest := rest - {correlationId};
      }
      for i := 0 to |committedRequests|
        invariant forall j :: 0 <= j < i ==> committedRequests[j].correlationId in active
      {
        if committedRequests[i].correlationId !in active {
          return false;
        }
      }
      for i := 0 to |responseProposals|
        invariant forall j :: 0 <= j < i ==>
          responseProposals[j].correlationId in active && responseProposals[j].correlationId in deliveredRequests
      {
        if responseProposals[i].correlationId !in active || responseProposals[i].correlationId !in deliveredRequests {
          return false;
        }
      }
      return true;
    }
  }

  /** `std::any_of` on correlation ids. */
  method AnyOf<T>(s: seq<Envelope<T>>, correlationId: nat) returns (found: bool)
    ensures found <==> correlationId in Ids(s)
  {
    for i := 0 to |s|
      invariant forall j :: 0 <= j < i ==> s[j].correlationId != correlationId
    {
      if s[i].correlationId == correlationId {
        assert Ids(s)[i] == correlationId;
        return true;
      }
    }
    return false;
  }

  lemma {:induction false} OneMore<T>(s: seq<Envelope<T>>, i: nat)
    requires i < |s|
    ensures s[..i + 1] == s[..i] + [s[i]]
    ensures Elements(Ids(s[..i + 1])) == Elements(Ids(s[..i])) + {s[i].correlationId}
  {
    assert s[..i + 1] == s[..i] + [s[i]];
    IdsConcat(s[..i], [s[i]]);
  }

  lemma {:induction false} Empties<T>(s: seq<Envelope<T>>)
    ensures s[..0] == [] && Elements(Ids(s[..0])) == {} && s[..|s|] == s
  {
  }
}

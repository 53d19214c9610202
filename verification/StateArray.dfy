/** `StateArray<T>`: cells with read ports, write ports and a slot table. */
module StateArrays {
  import opened Lists
  import opened Wrappers

  const INT32: nat := 0x8000_0000

  type Int32 = i: int | -0x8000_0000 <= i < 0x8000_0000

  datatype Failure = IndexOutOfBounds | ReadPortOutOfBounds | ReadPortReused
                   | WritePortOutOfBounds | WritePortReused | WriteConflict

  datatype Proposal<T> = Proposal(index: nat, value: T)

  datatype Op<T> = Read(at: Int32, readPort: Int32) | Write(to: Int32, value: T, enable: bool, writePort: Int32)

  /** `static_cast<int32_t>` of a size. */
  function Narrow(n: nat): Int32 {
    var low := n % (2 * INT32);
    if low < INT32 then low else low - 2 * INT32
  }

  /** Narrowing keeps a size modulo 2^32, and small sizes as they are. */
  lemma {:induction false} NarrowWraps(n: nat)
    ensures (Narrow(n) - n) % 0x1_0000_0000 == 0 && (n < INT32 ==> Narrow(n) == n)
  {
    var q := n / 0x1_0000_0000;
    assert Narrow(n) - n == -q * 0x1_0000_0000 || Narrow(n) - n == (-q - 1) * 0x1_0000_0000;
  }

  /** Writes `value` at the first `k` positions. */
  function Reset<A>(s: seq<A>, positions: seq<nat>, k: nat, value: A): (r: seq<A>)
    requires k <= |positions| && forall i :: 0 <= i < |positions| ==> positions[i] < |s|
    ensures |r| == |s|
    ensures forall e :: 0 <= e < |s| ==> r[e] == if e in positions[..k] then value else s[e]
  {
    if k == 0 then s else
      assert positions[..k] == positions[..k - 1] + [positions[k - 1]];
      Reset(s, positions, k - 1, value)[positions[k - 1] := value]
  }

  function Indices<T>(ps: seq<Proposal<T>>): (r: seq<nat>)
    ensures |r| == |ps| && forall i :: 0 <= i < |ps| ==> r[i] == ps[i].index
  {
    seq(|ps|, i requires 0 <= i < |ps| => ps[i].index)
  }

  ghost predicate Within<T>(ps: seq<Proposal<T>>, n: nat) {
    forall i :: 0 <= i < |ps| ==> ps[i].index < n
  }

  /** The commit loop over the first `k` proposals. */
  function Apply<T>(s: seq<T>, ps: seq<Proposal<T>>, k: nat): (r: seq<T>)
    requires k <= |ps| && Within(ps, |s|)
    ensures |r| == |s|
  {
    if k == 0 then s else Apply(s, ps, k - 1)[ps[k - 1].index := ps[k - 1].value]
  }

  datatype Cells<T> = Cells(
    zero: T,
    committed: seq<T>,
    readPorts: seq<Option<nat>>,
    writePorts: seq<bool>,
    slots: seq<int>,
    proposals: seq<Proposal<T>>,
    touchedRead: seq<nat>,
    touchedWrite: seq<nat>,
    committedWrites: nat,
    failure: Option<Failure>)
  {
    function Fail(f: Failure): Cells<T> { this.(failure := Some(f)) }

    function Read(index: Int32, port: Int32): (Cells<T>, T) {
      if index < 0 || index >= |committed| then (Fail(IndexOutOfBounds), zero)
      else if port < 0 || port >= |readPorts| then (Fail(ReadPortOutOfBounds), zero)
      else if readPorts[port].Some? && readPorts[port].value != index then (Fail(ReadPortReused), zero)
      else (this.(touchedRead := if readPorts[port].None? then touchedRead + [port] else touchedRead,
                  readPorts := readPorts[port := Some(index as nat)]), committed[index])
    }

    function Write(index: Int32, value: T, enable: bool, port: Int32): Cells<T>
      requires |slots| == |committed|
    {
      if !enable then this
      else if index < 0 || index >= |committed| then Fail(IndexOutOfBounds)
      else if port < 0 || port >= |writePorts| then Fail(WritePortOutOfBounds)
      else if writePorts[port] then Fail(WritePortReused)
      else if slots[index] >= 0 then Fail(WriteConflict)
      else this.(writePorts := writePorts[port := true], touchedWrite := touchedWrite + [port],
                 slots := slots[index := Narrow(|proposals|)], proposals := proposals + [Proposal(index, value)])
    }

    /** A recorded failure discards the writes; the tables are cleared either way. */
    ghost function Xfer(): Cells<T>
      requires Valid()
    {
      ValidRanges(this);
      this.(committed := if failure.None? then Apply(committed, proposals, |proposals|) else committed,
            committedWrites := committedWrites + if failure.None? then |proposals| else 0,
            slots := Reset(slots, Indices(proposals), |proposals|, -1),
            readPorts := Reset(readPorts, touchedRead, |touchedRead|, None),
            writePorts := Reset(writePorts, touchedWrite, |touchedWrite|, false),
            proposals := [], touchedRead := [], touchedWrite := [])
    }

    /** The slot table and the proposal list point at each other. */
    ghost predicate SlotsAgree() {
      && |slots| == |committed|
      && (forall k :: 0 <= k < |proposals| ==>
            proposals[k].index < |committed| && proposals[k].index < INT32 && slots[proposals[k].index] == k)
      && forall e :: 0 <= e < |slots| ==>
           slots[e] == -1 || (0 <= slots[e] < |proposals| && proposals[slots[e]].index == e)
    }

    /** The touched lists hold exactly the ports in use, each once. */
    ghost predicate PortsAgree() {
      && (forall p :: 0 <= p < |readPorts| ==> (readPorts[p].Some? <==> p in touchedRead))
      && (forall p :: 0 <= p < |readPorts| && readPorts[p].Some? ==> readPorts[p].value < |committed|)
      && (forall p :: 0 <= p < |writePorts| ==> (writePorts[p] <==> p in touchedWrite))
      && (forall i :: 0 <= i < |touchedRead| ==> touchedRead[i] < |readPorts|)
      && (forall i :: 0 <= i < |touchedWrite| ==> touchedWrite[i] < |writePorts|)
      && (forall i, j :: 0 <= i < j < |touchedRead| ==> touchedRead[i] != touchedRead[j])
      && (forall i, j :: 0 <= i < j < |touchedWrite| ==> touchedWrite[i] != touchedWrite[j])
      && |touchedWrite| == |proposals|
    }

    ghost predicate Valid() { SlotsAgree() && PortsAgree() }

    /** Nothing proposed and every table entry clear, as `reset` fills them. */
    ghost predicate Clear() {
      && proposals == [] && touchedRead == [] && touchedWrite == [] && |slots| == |committed|
      && (forall e :: 0 <= e < |slots| ==> slots[e] == -1)
      && (forall p :: 0 <= p < |readPorts| ==> readPorts[p] == None)
      && (forall p :: 0 <= p < |writePorts| ==> !writePorts[p])
    }
  }

  function Fresh<T>(zero: T, entries: nat, readPorts: nat, writePorts: nat): Cells<T> {
    Cells(zero, seq(entries, _ => zero), seq(readPorts, _ => None), seq(writePorts, _ => false), seq(entries, _ => -1),
          [], [], [], 0, None)
  }

  lemma {:induction false} ValidRanges<T>(c: Cells<T>)
    requires c.Valid()
    ensures Within(c.proposals, |c.committed|) && |c.slots| == |c.committed|
    ensures forall i :: 0 <= i < |Indices(c.proposals)| ==> Indices(c.proposals)[i] < |c.slots|
    ensures forall i :: 0 <= i < |c.touchedRead| ==> c.touchedRead[i] < |c.readPorts|
    ensures forall i :: 0 <= i < |c.touchedWrite| ==> c.touchedWrite[i] < |c.writePorts|
  {
  }

  // ----- Steps -----

  /** Distinct numbers below `n` are at most `n`. */
  lemma {:induction false} Pigeonhole(s: set<nat>, n: nat)
    requires forall x :: x in s ==> x < n
    ensures |s| <= n
  {
    if n > 0 {
      var t := s - {n - 1};
      Pigeonhole(t, n - 1);
      assert s == if n - 1 in s then t + {n - 1} else t;
    } else {
      assert s == {};
    }
  }

  /** A new write always gets a slot that the 32-bit table can hold. */
  lemma {:induction false} SlotFits<T>(c: Cells<T>, index: Int32)
    requires c.Valid() && 0 <= index < |c.committed| && c.slots[index] < 0
    ensures Narrow(|c.proposals|) == |c.proposals|
  {
    hide Cells.PortsAgree, Cells.SlotsAgree;
    var s := Indices(c.proposals) + [index as nat];
    IndicesDistinct(c, index);
    IndicesBounded(c, index, s);
    DistinctSize(s);
  }

  lemma {:induction false} IndicesDistinct<T>(c: Cells<T>, index: Int32)
    requires c.SlotsAgree() && 0 <= index < |c.committed| && c.slots[index] < 0
    ensures AllDistinct(Indices(c.proposals) + [index as nat])
  {
    var s := Indices(c.proposals) + [index as nat];
    forall i, j | 0 <= i < j < |s| ensures s[i] != s[j] {
      assert c.slots[c.proposals[i].index] == i;
      if j < |c.proposals| { assert c.slots[c.proposals[j].index] == j; }
    }
  }

  lemma {:induction false} IndicesBounded<T>(c: Cells<T>, index: Int32, s: seq<nat>)
    requires c.SlotsAgree() && 0 <= index && s == Indices(c.proposals) + [index as nat]
    ensures |Elements(s)| <= INT32
  {
    forall x | x in Elements(s) ensures x < INT32 {
      var i :| 0 <= i < |s| && s[i] == x;
      if i < |c.proposals| { assert c.proposals[i].index < INT32; }
    }
    Pigeonhole(Elements(s), INT32);
  }

  lemma {:induction false} ReadValid<T>(c: Cells<T>, index: Int32, port: Int32)
    requires c.Valid()
    ensures c.Read(index, port).0.Valid()
  {
  }

  lemma {:induction false} WriteValid<T>(c: Cells<T>, index: Int32, value: T, enable: bool, port: Int32)
    requires c.Valid()
    ensures c.Write(index, value, enable, port).Valid()
  {
    hide Narrow;
    if enable && 0 <= index < |c.committed| && c.slots[index] < 0 {
      SlotFits(c, index);
    }
  }

  /** Clearing only what was touched clears everything. */
  lemma {:induction false} XferClears<T>(c: Cells<T>)
    requires c.Valid()
    ensures c.Xfer().Clear() && c.Xfer().Valid() && |c.Xfer().committed| == |c.committed|
  {
    ValidRanges(c);
    var d, touched := c.Xfer(), Indices(c.proposals);
    assert touched[..|touched|] == touched;
    assert c.touchedRead[..|c.touchedRead|] == c.touchedRead && c.touchedWrite[..|c.touchedWrite|] == c.touchedWrite;
    forall e | 0 <= e < |c.slots| ensures d.slots[e] == -1 {
      if c.slots[e] != -1 { assert touched[c.slots[e]] == e; }
    }
  }

  // ----- One epoch -----

  ghost function Do<T>(c: Cells<T>, op: Op<T>): (r: Cells<T>)
    requires c.Valid()
    ensures r.Valid()
  {
    match op
    case Read(at, port) => ReadValid(c, at, port); c.Read(at, port).0
    case Write(to, value, enable, port) => WriteValid(c, to, value, enable, port); c.Write(to, value, enable, port)
  }

  /** The first `k` operations of an epoch. */
  ghost function Work<T>(c: Cells<T>, ops: seq<Op<T>>, k: nat): (r: Cells<T>)
    requires c.Valid() && k <= |ops|
    ensures r.Valid()
  {
    if k == 0 then c else Do(Work(c, ops, k - 1), ops[k - 1])
  }

  ghost function Epoch<T>(c: Cells<T>, ops: seq<Op<T>>): Cells<T>
    requires c.Valid()
  {
    Work(c, ops, |ops|).Xfer()
  }

  predicate Enabled<T>(op: Op<T>) { op.Write? && op.enable }

  /** An operation whose index and port exist. */
  predicate OpInRange<T>(c: Cells<T>, op: Op<T>) {
    match op
    case Read(at, port) => 0 <= at < |c.committed| && 0 <= port < |c.readPorts|
    case Write(to, _, enable, port) => enable ==> 0 <= to < |c.committed| && 0 <= port < |c.writePorts|
  }

  /** Two operations one epoch can serve: a read port selects one address, a write port and a cell
      take one write. */
  predicate Compatible<T>(a: Op<T>, b: Op<T>) {
    && (a.Read? && b.Read? && a.readPort == b.readPort ==> a.at == b.at)
    && (Enabled(a) && Enabled(b) ==> a.to != b.to && a.writePort != b.writePort)
  }

  ghost predicate Legal<T>(c: Cells<T>, ops: seq<Op<T>>, k: nat)
    requires k <= |ops|
  {
    && (forall i :: 0 <= i < k ==> OpInRange(c, ops[i]))
    && forall i, j :: 0 <= i < j < k ==> Compatible(ops[i], ops[j])
  }

  // ----- What an epoch's operations ask for, without the tables -----

  /** The address the first `k` operations select on a read port. */
  function Address<T>(ops: seq<Op<T>>, k: nat, port: int): Option<int>
    requires k <= |ops|
  {
    if k == 0 then None
    else if ops[k - 1].Read? && ops[k - 1].readPort == port then Some(ops[k - 1].at)
    else Address(ops, k - 1, port)
  }

  predicate Used<T>(ops: seq<Op<T>>, k: nat, port: int)
    requires k <= |ops|
  {
    k > 0 && ((Enabled(ops[k - 1]) && ops[k - 1].writePort == port) || Used(ops, k - 1, port))
  }

  /** The value the first `k` operations write to a cell. */
  function Written<T>(ops: seq<Op<T>>, k: nat, to: int): Option<T>
    requires k <= |ops|
  {
    if k == 0 then None
    else if Enabled(ops[k - 1]) && ops[k - 1].to == to then Some(ops[k - 1].value)
    else Written(ops, k - 1, to)
  }

  /** Whether operation `k` is served after the first `k`. */
  predicate Served<T>(c: Cells<T>, ops: seq<Op<T>>, k: nat)
    requires k < |ops|
  {
    var op := ops[k];
    && OpInRange(c, op)
    && (op.Read? ==> Address(ops, k, op.readPort) in {None, Some(op.at as int)})
    && (Enabled(op) ==> !Used(ops, k, op.writePort) && Written(ops, k, op.to).None?)
  }

  ghost predicate AllServed<T>(c: Cells<T>, ops: seq<Op<T>>, k: nat)
    requires k <= |ops|
  {
    forall i :: 0 <= i < k ==> Served(c, ops, i)
  }

  /** The tables of a failure-free state say exactly what the operations asked for. */
  ghost predicate Reflects<T>(c: Cells<T>, d: Cells<T>, ops: seq<Op<T>>, k: nat)
    requires k <= |ops|
  {
    && d.committed == c.committed && |d.slots| == |d.committed|
    && |d.readPorts| == |c.readPorts| && |d.writePorts| == |c.writePorts|
    && (forall p :: 0 <= p < |d.readPorts| ==> d.readPorts[p] == Address(ops, k, p))
    && (forall p :: 0 <= p < |d.writePorts| ==> (d.writePorts[p] <==> Used(ops, k, p)))
    && (forall e :: 0 <= e < |d.slots| ==> (d.slots[e] >= 0 <==> Written(ops, k, e).Some?))
    && forall i :: 0 <= i < |d.proposals| ==> Written(ops, k, d.proposals[i].index) == Some(d.proposals[i].value)
  }

  lemma {:induction false} ReadReflects<T>(c: Cells<T>, d: Cells<T>, ops: seq<Op<T>>, k: nat)
    requires k < |ops| && ops[k].Read? && d.Valid() && d.failure.None? && Reflects(c, d, ops, k)
    ensures Do(d, ops[k]).failure.None? <==> Served(c, ops, k)
    ensures Do(d, ops[k]).failure.None? ==> Reflects(c, Do(d, ops[k]), ops, k + 1)
  {
    hide Cells.SlotsAgree, Cells.PortsAgree, Used, Written;
    NotWriting(ops, k);
  }

  lemma {:induction false} NotWriting<T>(ops: seq<Op<T>>, k: nat)
    requires k < |ops| && !Enabled(ops[k])
    ensures forall p :: Used(ops, k + 1, p) == Used(ops, k, p)
    ensures forall e :: Written(ops, k + 1, e) == Written(ops, k, e)
  {
  }

  lemma {:induction false} WriteReflects<T>(c: Cells<T>, d: Cells<T>, ops: seq<Op<T>>, k: nat)
    requires k < |ops| && ops[k].Write? && d.Valid() && d.failure.None? && Reflects(c, d, ops, k)
    ensures Do(d, ops[k]).failure.None? <==> Served(c, ops, k)
    ensures Do(d, ops[k]).failure.None? ==> Reflects(c, Do(d, ops[k]), ops, k + 1)
  {
    hide Cells.PortsAgree, Narrow;
    var op := ops[k];
    if op.enable && 0 <= op.to < |d.committed| && d.slots[op.to] < 0 {
      SlotFits(d, op.to);
    }
  }

  lemma {:induction false} Sticky<T>(d: Cells<T>, op: Op<T>)
    requires d.Valid() && d.failure.Some?
    ensures Do(d, op).failure.Some?
  {
  }

  /** From clear tables: no failure is recorded exactly while every operation is served. */
  lemma {:induction false} WorkReflects<T>(c: Cells<T>, ops: seq<Op<T>>, k: nat)
    requires c.Valid() && c.Clear() && c.failure.None? && k <= |ops|
    ensures Work(c, ops, k).failure.None? <==> AllServed(c, ops, k)
    ensures Work(c, ops, k).failure.None? ==> Reflects(c, Work(c, ops, k), ops, k)
  {
    hide Do, Served, Cells.Valid;
    if k > 0 {
      hide Reflects;
      WorkReflects(c, ops, k - 1);
      var d := Work(c, ops, k - 1);
      if d.failure.Some? {
        Sticky(d, ops[k - 1]);
      } else if ops[k - 1].Read? {
        ReadReflects(c, d, ops, k - 1);
      } else {
        WriteReflects(c, d, ops, k - 1);
      }
    }
  }

  // ----- Served in sequence means compatible pair by pair -----

  lemma {:induction false} AddressFrom<T>(ops: seq<Op<T>>, k: nat, port: int) returns (i: nat)
    requires k <= |ops| && Address(ops, k, port).Some?
    ensures i < k && ops[i].Read? && ops[i].readPort == port && Address(ops, k, port) == Some(ops[i].at as int)
  {
    if ops[k - 1].Read? && ops[k - 1].readPort == port { i := k - 1; } else { i := AddressFrom(ops, k - 1, port); }
  }

  lemma {:induction false} AddressHas<T>(ops: seq<Op<T>>, k: nat, i: nat)
    requires i < k <= |ops| && ops[i].Read?
    ensures Address(ops, k, ops[i].readPort).Some?
    decreases k
  {
    if i < k - 1 { AddressHas(ops, k - 1, i); }
  }

  lemma {:induction false} UsedFrom<T>(ops: seq<Op<T>>, k: nat, port: int) returns (i: nat)
    requires k <= |ops| && Used(ops, k, port)
    ensures i < k && Enabled(ops[i]) && ops[i].writePort == port
  {
    if Enabled(ops[k - 1]) && ops[k - 1].writePort == port { i := k - 1; } else { i := UsedFrom(ops, k - 1, port); }
  }

  lemma {:induction false} UsedHas<T>(ops: seq<Op<T>>, k: nat, i: nat)
    requires i < k <= |ops| && Enabled(ops[i])
    ensures Used(ops, k, ops[i].writePort) && Written(ops, k, ops[i].to).Some?
    decreases k
  {
    if i < k - 1 { UsedHas(ops, k - 1, i); }
  }

  lemma {:induction false} WrittenFrom<T>(ops: seq<Op<T>>, k: nat, to: int) returns (i: nat)
    requires k <= |ops| && Written(ops, k, to).Some?
    ensures i < k && Enabled(ops[i]) && ops[i].to == to && Written(ops, k, to) == Some(ops[i].value)
  {
    if Enabled(ops[k - 1]) && ops[k - 1].to == to { i := k - 1; } else { i := WrittenFrom(ops, k - 1, to); }
  }

  lemma {:induction false} ServedCompatible<T>(c: Cells<T>, ops: seq<Op<T>>, k: nat, i: nat)
    requires i < k < |ops| && Served(c, ops, k)
    requires forall a, b :: 0 <= a < b < k ==> Compatible(ops[a], ops[b])
    ensures Compatible(ops[i], ops[k])
  {
    hide Address, Used, Written;
    if ops[i].Read? && ops[k].Read? && ops[i].readPort == ops[k].readPort {
      AddressHas(ops, k, i);
      var j := AddressFrom(ops, k, ops[k].readPort);
      if i < j { assert Compatible(ops[i], ops[j]); }
      if j < i { assert Compatible(ops[j], ops[i]); }
    }
    if Enabled(ops[i]) { UsedHas(ops, k, i); }
  }

  lemma {:induction false} CompatibleServed<T>(c: Cells<T>, ops: seq<Op<T>>, k: nat)
    requires k < |ops| && OpInRange(c, ops[k]) && forall i :: 0 <= i < k ==> Compatible(ops[i], ops[k])
    ensures Served(c, ops, k)
  {
    hide Address, Used, Written;
    var op := ops[k];
    if op.Read? && Address(ops, k, op.readPort).Some? { var i := AddressFrom(ops, k, op.readPort); }
    if Enabled(op) && Used(ops, k, op.writePort) { var i := UsedFrom(ops, k, op.writePort); }
    if Enabled(op) && Written(ops, k, op.to).Some? { var i := WrittenFrom(ops, k, op.to); }
  }

  lemma {:induction false} ServedIsLegal<T>(c: Cells<T>, ops: seq<Op<T>>, k: nat)
    requires k <= |ops|
    ensures AllServed(c, ops, k) <==> Legal(c, ops, k)
  {
    hide Served, Compatible, OpInRange;
    if k > 0 {
      ServedIsLegal(c, ops, k - 1);
      if AllServed(c, ops, k) {
        ServedInRange(c, ops, k - 1);
        forall i | 0 <= i < k - 1 ensures Compatible(ops[i], ops[k - 1]) {
          ServedCompatible(c, ops, k - 1, i);
        }
      }
      if Legal(c, ops, k) {
        CompatibleServed(c, ops, k - 1);
      }
    }
  }

  lemma {:induction false} ServedInRange<T>(c: Cells<T>, ops: seq<Op<T>>, k: nat)
    requires k < |ops| && Served(c, ops, k)
    ensures OpInRange(c, ops[k])
  {
  }

  /** An epoch records a failure exactly when some operation is out of range or two of them need the
      same port or cell. */
  lemma {:induction false} FailsExactlyWhenIllegal<T>(c: Cells<T>, ops: seq<Op<T>>)
    requires c.Valid() && c.Clear() && c.failure.None?
    ensures Work(c, ops, |ops|).failure.None? <==> Legal(c, ops, |ops|)
  {
    WorkReflects(c, ops, |ops|);
    ServedIsLegal(c, ops, |ops|);
  }

  // ----- Commit -----

  lemma {:induction false} ApplyAt<T>(s: seq<T>, ps: seq<Proposal<T>>, k: nat, e: nat, i: nat)
    requires k <= |ps| && Within(ps, |s|) && AllDistinct(Indices(ps)) && e < |s|
    ensures i < k && ps[i].index == e ==> Apply(s, ps, k)[e] == ps[i].value
    ensures (forall j :: 0 <= j < k ==> ps[j].index != e) ==> Apply(s, ps, k)[e] == s[e]
  {
    if k > 0 {
      ApplyAt(s, ps, k - 1, e, i);
      if i < k - 1 && ps[i].index == e { assert Indices(ps)[i] != Indices(ps)[k - 1]; }
    }
  }

  /** Applying the writes in any order gives the same cells. */
  lemma {:induction false} ApplyOrderFree<T>(s: seq<T>, ps: seq<Proposal<T>>, qs: seq<Proposal<T>>)
    requires Within(ps, |s|) && Within(qs, |s|) && AllDistinct(Indices(ps)) && AllDistinct(Indices(qs))
    requires multiset(ps) == multiset(qs)
    ensures Apply(s, ps, |ps|) == Apply(s, qs, |qs|)
  {
    forall e | 0 <= e < |s| ensures Apply(s, ps, |ps|)[e] == Apply(s, qs, |qs|)[e] {
      if i :| 0 <= i < |ps| && ps[i].index == e {
        ApplyShared(s, ps, qs, e, i);
      } else if j :| 0 <= j < |qs| && qs[j].index == e {
        ApplyShared(s, qs, ps, e, j);
      } else {
        ApplyAt(s, ps, |ps|, e, |ps|);
        ApplyAt(s, qs, |qs|, e, |qs|);
      }
    }
  }

  lemma {:induction false} ApplyShared<T>(s: seq<T>, ps: seq<Proposal<T>>, qs: seq<Proposal<T>>, e: nat, i: nat)
    requires Within(ps, |s|) && Within(qs, |s|) && AllDistinct(Indices(ps)) && AllDistinct(Indices(qs))
    requires multiset(ps) == multiset(qs) && e < |s| && i < |ps| && ps[i].index == e
    ensures Apply(s, ps, |ps|)[e] == Apply(s, qs, |qs|)[e]
  {
    assert ps[i] in multiset(qs);
    var j :| 0 <= j < |qs| && qs[j] == ps[i];
    ApplyAt(s, ps, |ps|, e, i);
    ApplyAt(s, qs, |qs|, e, j);
  }

  lemma {:induction false} SlotsOnce<T>(c: Cells<T>)
    requires c.Valid()
    ensures Within(c.proposals, |c.committed|) && AllDistinct(Indices(c.proposals))
  {
    forall i, j | 0 <= i < j < |c.proposals| ensures c.proposals[i].index != c.proposals[j].index {
      assert c.slots[c.proposals[i].index] == i && c.slots[c.proposals[j].index] == j;
    }
  }

  /** After a legal epoch each cell holds what the one write to it said, or what it held before. */
  lemma {:induction false} EpochAssigns<T>(c: Cells<T>, ops: seq<Op<T>>, e: nat)
    requires c.Valid() && c.Clear() && c.failure.None? && Legal(c, ops, |ops|) && e < |c.committed|
    ensures |Epoch(c, ops).committed| == |c.committed|
    ensures Epoch(c, ops).committed[e] == match Written(ops, |ops|, e) case Some(v) => v case None => c.committed[e]
  {
    hide Written, Address, Used, Apply, Work, Legal;
    FailsExactlyWhenIllegal(c, ops);
    WorkReflects(c, ops, |ops|);
    var d := Work(c, ops, |ops|);
    XferClears(d);
    SlotsOnce(d);
    if d.slots[e] >= 0 {
      ApplyAt(d.committed, d.proposals, |d.proposals|, e, d.slots[e]);
    } else {
      forall j | 0 <= j < |d.proposals| ensures d.proposals[j].index != e {
        assert d.slots[d.proposals[j].index] == j;
      }
      ApplyAt(d.committed, d.proposals, |d.proposals|, e, |d.proposals|);
    }
  }

  /** An illegal epoch changes no cell; its tables are cleared all the same. */
  lemma {:induction false} IllegalEpochDiscards<T>(c: Cells<T>, ops: seq<Op<T>>)
    requires c.Valid() && c.Clear() && c.failure.None?
    ensures Epoch(c, ops).Clear() && Epoch(c, ops).Valid()
    ensures !Legal(c, ops, |ops|) ==> Epoch(c, ops).committed == c.committed && Epoch(c, ops).failure.Some?
  {
    hide Cells.Valid, Legal, Do;
    FailsExactlyWhenIllegal(c, ops);
    XferClears(Work(c, ops, |ops|));
    SnapshotStays(c, ops, |ops|);
  }

  /** Work never changes a cell, so every served read sees the committed snapshot. */
  lemma {:induction false} SnapshotStays<T>(c: Cells<T>, ops: seq<Op<T>>, k: nat)
    requires c.Valid() && k <= |ops|
    ensures Work(c, ops, k).committed == c.committed && Work(c, ops, k).zero == c.zero
  {
    hide Do, Cells.Valid;
    if k > 0 {
      SnapshotStays(c, ops, k - 1);
      DoKeeps(Work(c, ops, k - 1), ops[k - 1]);
    }
  }

  lemma {:induction false} DoKeeps<T>(c: Cells<T>, op: Op<T>)
    requires c.Valid()
    ensures Do(c, op).committed == c.committed && Do(c, op).zero == c.zero
  {
    hide Cells.PortsAgree, Narrow;
  }

  lemma {:induction false} ReadsSnapshot<T>(c: Cells<T>, ops: seq<Op<T>>, k: nat)
    requires c.Valid() && c.Clear() && c.failure.None? && Legal(c, ops, |ops|) && k < |ops| && ops[k].Read?
    ensures 0 <= ops[k].at < |c.committed|
    ensures Work(c, ops, k).Read(ops[k].at, ops[k].readPort).1 == c.committed[ops[k].at]
  {
    hide Cells.Valid, Cells.Clear, Served, Compatible;
    WorkReflects(c, ops, k + 1);
    ServedIsLegal(c, ops, k + 1);
    WorkReflects(c, ops, k);
    ServedIsLegal(c, ops, k);
    SnapshotStays(c, ops, k);
    assert OpInRange(c, ops[k]);
  }

  // ----- The order of an epoch's operations does not matter -----

  lemma {:induction false} LegalPermuted<T>(c: Cells<T>, a: seq<Op<T>>, b: seq<Op<T>>)
    requires multiset(a) == multiset(b) && Legal(c, a, |a|)
    ensures Legal(c, b, |b|)
  {
    hide Compatible, OpInRange;
    forall i | 0 <= i < |b| ensures OpInRange(c, b[i]) {
      assert b[i] in multiset(a);
      var k :| 0 <= k < |a| && a[k] == b[i];
    }
    forall i, j | 0 <= i < j < |b| ensures Compatible(b[i], b[j]) {
      var k, l := PairIn(a, b, i, j);
      if k < l { assert Compatible(a[k], a[l]); } else { assert Compatible(a[l], a[k]); Swap(a[l], a[k]); }
    }
  }

  lemma {:induction false} Swap<T>(x: Op<T>, y: Op<T>)
    requires Compatible(x, y)
    ensures Compatible(y, x)
  {
  }

  /** Two places of one list have two places of any rearrangement. */
  lemma {:induction false} PairIn<T>(a: seq<T>, b: seq<T>, i: nat, j: nat) returns (k: nat, l: nat)
    requires multiset(a) == multiset(b) && i < j < |b|
    ensures k < |a| && l < |a| && k != l && a[k] == b[i] && a[l] == b[j]
  {
    assert b[i] in multiset(a);
    k :| 0 <= k < |a| && a[k] == b[i];
    var rest, others := a[..k] + a[k + 1..], b[..i] + b[i + 1..];
    WithoutOne(a, k);
    WithoutOne(b, i);
    assert others[j - 1] == b[j];
    assert b[j] in multiset(rest);
    var m :| 0 <= m < |rest| && rest[m] == b[j];
    l := if m < k then m else m + 1;
  }

  lemma {:induction false} WrittenPermuted<T>(c: Cells<T>, a: seq<Op<T>>, b: seq<Op<T>>, e: int)
    requires multiset(a) == multiset(b) && Legal(c, b, |b|) && Written(a, |a|, e).Some?
    ensures Written(b, |b|, e) == Written(a, |a|, e)
  {
    var i := WrittenFrom(a, |a|, e);
    assert a[i] in multiset(b);
    var j :| 0 <= j < |b| && b[j] == a[i];
    UsedHas(b, |b|, j);
    var k := WrittenFrom(b, |b|, e);
    forall l, m | 0 <= l < m < |b| && Enabled(b[l]) && Enabled(b[m]) ensures b[l].to != b[m].to {
      assert Compatible(b[l], b[m]);
    }
  }

  /** Any rearrangement of a legal epoch is legal and commits the same cells. */
  lemma {:induction false} EpochOrderFree<T>(c: Cells<T>, a: seq<Op<T>>, b: seq<Op<T>>)
    requires c.Valid() && c.Clear() && c.failure.None?
    requires multiset(a) == multiset(b) && Legal(c, a, |a|)
    ensures Legal(c, b, |b|) && Epoch(c, a).committed == Epoch(c, b).committed
  {
    hide Epoch, Written, Legal, Cells.Valid, Cells.Clear;
    LegalPermuted(c, a, b);
    if |c.committed| == 0 { EpochSize(c, a); EpochSize(c, b); }
    forall e | 0 <= e < |c.committed|
      ensures |Epoch(c, a).committed| == |c.committed| && |Epoch(c, b).committed| == |c.committed|
      ensures Epoch(c, a).committed[e] == Epoch(c, b).committed[e]
    {
      EpochAssigns(c, a, e);
      EpochAssigns(c, b, e);
      if Written(a, |a|, e).Some? { WrittenPermuted(c, a, b, e); }
      if Written(b, |b|, e).Some? { WrittenPermuted(c, b, a, e); }
    }
    if |c.committed| > 0 { assert |Epoch(c, a).committed| == |c.committed| by { EpochAssigns(c, a, 0); } }
    EpochSize(c, a);
    EpochSize(c, b);
  }

  lemma {:induction false} EpochSize<T>(c: Cells<T>, ops: seq<Op<T>>)
    requires c.Valid()
    ensures |Epoch(c, ops).committed| == |c.committed|
  {
    XferClears(Work(c, ops, |ops|));
    SnapshotStays(c, ops, |ops|);
  }

  // ----- What an epoch reports -----

  /** What is wrong with operation `k` after the first `k`, if it cannot be served. */
  function Defect<T>(c: Cells<T>, ops: seq<Op<T>>, k: nat): Failure
    requires k < |ops|
  {
    match ops[k]
    case Read(at, port) =>
      if at < 0 || at >= |c.committed| then IndexOutOfBounds
      else if port < 0 || port >= |c.readPorts| then ReadPortOutOfBounds else ReadPortReused
    case Write(to, _, _, port) =>
      if to < 0 || to >= |c.committed| then IndexOutOfBounds
      else if port < 0 || port >= |c.writePorts| then WritePortOutOfBounds
      else if Used(ops, k, port) then WritePortReused else WriteConflict
  }

  /** The first operation that cannot be served records its defect, and a refused read yields the zero
      value. */
  lemma {:induction false} FirstDefect<T>(c: Cells<T>, ops: seq<Op<T>>, k: nat)
    requires c.Valid() && c.Clear() && c.failure.None? && k < |ops| && Legal(c, ops, k)
    ensures Legal(c, ops, k + 1) ==> Work(c, ops, k + 1).failure.None?
    ensures !Legal(c, ops, k + 1) ==> Work(c, ops, k + 1).failure == Some(Defect(c, ops, k))
    ensures !Legal(c, ops, k + 1) && ops[k].Read? ==> Work(c, ops, k).Read(ops[k].at, ops[k].readPort).1 == c.zero
  {
    hide Cells.Valid, Cells.Clear, Legal, Work, Written;
    WorkReflects(c, ops, k);
    ServedIsLegal(c, ops, k);
    WorkReflects(c, ops, k + 1);
    ServedIsLegal(c, ops, k + 1);
    var d := Work(c, ops, k);
    WorkUnfolds(c, ops, k);
    ZeroStays(c, ops, k);
    DefectRecorded(c, d, ops, k);
  }

  lemma {:induction false} WorkUnfolds<T>(c: Cells<T>, ops: seq<Op<T>>, k: nat)
    requires c.Valid() && k < |ops|
    ensures Work(c, ops, k + 1) == Do(Work(c, ops, k), ops[k])
  {
    hide Do;
  }

  lemma {:induction false} ZeroStays<T>(c: Cells<T>, ops: seq<Op<T>>, k: nat)
    requires c.Valid() && k <= |ops|
    ensures Work(c, ops, k).zero == c.zero
  {
    hide Cells.Valid, Narrow;
    if k > 0 { ZeroStays(c, ops, k - 1); }
  }

  lemma {:induction false} DefectRecorded<T>(c: Cells<T>, d: Cells<T>, ops: seq<Op<T>>, k: nat)
    requires k < |ops| && d.Valid() && d.failure.None? && Reflects(c, d, ops, k)
    ensures Do(d, ops[k]).failure.Some? ==> Do(d, ops[k]).failure == Some(Defect(c, ops, k))
    ensures Do(d, ops[k]).failure.Some? && ops[k].Read? ==> d.Read(ops[k].at, ops[k].readPort).1 == d.zero
  {
    hide Cells.Valid, Narrow, Address, Written, Used;
  }

  /** How many writes the first `k` operations make. */
  function Writes<T>(ops: seq<Op<T>>, k: nat): nat
    requires k <= |ops|
  {
    if k == 0 then 0 else Writes(ops, k - 1) + if Enabled(ops[k - 1]) then 1 else 0
  }

  lemma {:induction false} WritesProposed<T>(c: Cells<T>, ops: seq<Op<T>>, k: nat)
    requires c.Valid() && c.Clear() && c.failure.None? && k <= |ops| && Legal(c, ops, k)
    ensures |Work(c, ops, k).proposals| == Writes(ops, k) && Work(c, ops, k).committedWrites == c.committedWrites
  {
    hide Cells.Valid, Legal, Narrow;
    if k > 0 {
      LegalBefore(c, ops, k);
      WritesProposed(c, ops, k - 1);
      WorkReflects(c, ops, k);
      ServedIsLegal(c, ops, k);
      WorkReflects(c, ops, k - 1);
      ServedIsLegal(c, ops, k - 1);
    }
  }

  lemma {:induction false} LegalBefore<T>(c: Cells<T>, ops: seq<Op<T>>, k: nat)
    requires 0 < k <= |ops| && Legal(c, ops, k)
    ensures Legal(c, ops, k - 1)
  {
  }

  /** A legal epoch counts its enabled writes; an illegal one counts nothing. */
  lemma {:induction false} WritesCounted<T>(c: Cells<T>, ops: seq<Op<T>>)
    requires c.Valid() && c.Clear() && c.failure.None?
    ensures Epoch(c, ops).committedWrites == c.committedWrites + if Legal(c, ops, |ops|) then Writes(ops, |ops|) else 0
  {
    hide Cells.Valid, Cells.Clear, Legal, Work, Reset, Apply;
    FailsExactlyWhenIllegal(c, ops);
    if Legal(c, ops, |ops|) { WritesProposed(c, ops, |ops|); }
    CountStays(c, ops, |ops|);
  }

  lemma {:induction false} CountStays<T>(c: Cells<T>, ops: seq<Op<T>>, k: nat)
    requires c.Valid() && k <= |ops|
    ensures Work(c, ops, k).committedWrites == c.committedWrites
  {
    hide Cells.Valid, Narrow;
    if k > 0 { CountStays(c, ops, k - 1); }
  }

  // ----- The runtime object -----

  class StateArray<T> {
    const zero: T
    const committed: array<T>
    const readPortAddress: array<Option<nat>>
    const writePortUsed: array<bool>
    const proposalSlotByEntry: array<int>
    var proposals: seq<Proposal<T>>
    var touchedReadPorts: seq<nat>
    var touchedWritePorts: seq<nat>
    var committedWrites: nat
    var failure: Option<Failure>

    ghost function Tables(): set<object> { {committed, readPortAddress, writePortUsed, proposalSlotByEntry} }

    /** The four tables are four arrays. */
    ghost predicate Separate() { |Tables()| == 4 }

    function State(): Cells<T>
      reads this, committed, readPortAddress, writePortUsed, proposalSlotByEntry
    {
      Cells(zero, committed[..], readPortAddress[..], writePortUsed[..], proposalSlotByEntry[..],
            proposals, touchedReadPorts, touchedWritePorts, committedWrites, failure)
    }

    constructor (zero: T, entries: nat, readPorts: nat, writePorts: nat)
      ensures State() == Fresh(zero, entries, readPorts, writePorts)
      ensures State().Valid() && State().Clear() && Separate() && fresh(Tables())
    {
      this.zero := zero;
      committed := new T[entries](_ => zero);
      readPortAddress := new Option<nat>[readPorts](_ => None);
      writePortUsed := new bool[writePorts](_ => false);
      proposalSlotByEntry := new int[entries](_ => -1);
      proposals, touchedReadPorts, touchedWritePorts := [], [], [];
      committedWrites, failure := 0, None;
      new;
      assert State() == Fresh(zero, entries, readPorts, writePorts);
    }

    method Read(index: Int32, port: Int32) returns (value: T)
      requires Separate() && State().Valid()
      modifies readPortAddress, this`touchedReadPorts, this`failure
      ensures (State(), value) == old(State()).Read(index, port)
      ensures State().Valid()
    {
      ReadValid(State(), index, port);
      if index < 0 || index >= committed.Length {
        failure := Some(IndexOutOfBounds);
        return zero;
      }
      if port < 0 || port >= readPortAddress.Length {
        failure := Some(ReadPortOutOfBounds);
        return zero;
      }
      if readPortAddress[port].Some? && readPortAddress[port].value != index {
        failure := Some(ReadPortReused);
        return zero;
      }
      if readPortAddress[port].None? {
        touchedReadPorts := touchedReadPorts + [port];
      }
      readPortAddress[port] := Some(index);
      return committed[index];
    }

    method ProposeWrite(index: Int32, value: T, enable: bool, port: Int32)
      requires Separate() && State().Valid()
      modifies writePortUsed, proposalSlotByEntry, this`proposals, this`touchedWritePorts, this`failure
      ensures State() == old(State()).Write(index, value, enable, port)
      ensures State().Valid()
    {
      WriteValid(State(), index, value, enable, port);
      if !enable {
        return;
      }
      if index < 0 || index >= committed.Length {
        failure := Some(IndexOutOfBounds);
        return;
      }
      if port < 0 || port >= writePortUsed.Length {
        failure := Some(WritePortOutOfBounds);
        return;
      }
      if writePortUsed[port] {
        failure := Some(WritePortReused);
        return;
      }
      if proposalSlotByEntry[index] >= 0 {
        failure := Some(WriteConflict);
        return;
      }
      writePortUsed[port] := true;
      touchedWritePorts := touchedWritePorts + [port];
      proposalSlotByEntry[index] := Narrow(|proposals|);
      proposals := proposals + [Proposal(index, value)];
    }

    method CommitWrites()
      requires Separate() && Within(proposals, committed.Length)
      modifies committed, this`committedWrites
      ensures committed[..] == Apply(old(committed[..]), proposals, |proposals|)
      ensures committedWrites == old(committedWrites) + |proposals|
    {
      committedWrites := committedWrites + |proposals|;
      for i := 0 to |proposals|
        invariant committedWrites == old(committedWrites) + |proposals|
        invariant committed[..] == Apply(old(committed[..]), proposals, i)
      {
        committed[proposals[i].index] := proposals[i].value;
      }
    }

    /** Commit unless a failure was recorded, then clear what was touched. */
    method DoXfer()
      requires Separate() && State().Valid()
      modifies this, committed, readPortAddress, writePortUsed, proposalSlotByEntry
      ensures State() == old(State()).Xfer()
      ensures State().Valid() && State().Clear()
    {
      hide Cells.Valid, Cells.Clear, Apply, Reset;
      XferClears(State());
      ValidRanges(State());
      if failure.None? {
        CommitWrites();
      }
      ResetTable(proposalSlotByEntry, Indices(proposals), -1);
      proposals := [];
      ResetTable(readPortAddress, touchedReadPorts, None);
      ResetTable(writePortUsed, touchedWritePorts, false);
      touchedReadPorts, touchedWritePorts := [], [];
    }
  }

  method ResetTable<A>(table: array<A>, positions: seq<nat>, value: A)
    requires forall i :: 0 <= i < |positions| ==> positions[i] < table.Length
    modifies table
    ensures table[..] == Reset(old(table[..]), positions, |positions|, value)
  {
    for i := 0 to |positions|
      invariant table[..] == Reset(old(table[..]), positions, i, value)
    {
      table[positions[i]] := value;
    }
  }
}

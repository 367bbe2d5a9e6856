/** Gate lists: the triples (kind, q1, q2) produced by the decomposition,
    their relabelling onto the qubits of a larger simulation
    (`change_gates`) and their dispatch to the simulator's gate methods
    (`apply_gates`). The simulator is not modelled: dispatch produces the
    sequence of calls it would receive. */
module Gates {
  import opened Options

  /** A gate: its one-letter kind, its first qubit and, for a CNOT, its
      second qubit. */
  datatype Gate = Gate(kind: string, q1: int, q2: Option<int>)

  /** Python list indexing: a negative index counts from the end. */
  predicate ValidIndex(qs: seq<int>, i: int) {
    -|qs| <= i < |qs|
  }

  function PyIndex(qs: seq<int>, i: int): (r: int)
    requires ValidIndex(qs, i)
    ensures r in qs
  {
    if i < 0 then qs[|qs| + i] else qs[i]
  }

  /** Every qubit index of every gate can be looked up in qs. */
  predicate IndicesValid(gates: seq<Gate>, qs: seq<int>) {
    forall k :: 0 <= k < |gates| ==>
      ValidIndex(qs, gates[k].q1) && (gates[k].q2.Some? ==> ValidIndex(qs, gates[k].q2.value))
  }

  /** One gate moved onto the listed qubits: the kind and the number of
      qubits are kept, and every qubit it names is one of the list. */
  function Relabel(g: Gate, qs: seq<int>): (r: Gate)
    requires ValidIndex(qs, g.q1) && (g.q2.Some? ==> ValidIndex(qs, g.q2.value))
    ensures r.kind == g.kind && r.q2.Some? == g.q2.Some?
    ensures r.q1 in qs && (r.q2.Some? ==> r.q2.value in qs)
  {
    Gate(g.kind, PyIndex(qs, g.q1), if g.q2.Some? then Some(PyIndex(qs, g.q2.value)) else None)
  }

  /** change_gates: a gate on (i, j) now acts on (qs[i], qs[j]); the kind
      and the absence of a second qubit are kept. */
  function ChangeGates(gates: seq<Gate>, qs: seq<int>): (r: seq<Gate>)
    requires IndicesValid(gates, qs)
    ensures |r| == |gates|
    ensures forall k :: 0 <= k < |gates| ==>
      r[k].kind == gates[k].kind
      && r[k].q1 == PyIndex(qs, gates[k].q1)
      && r[k].q2.Some? == gates[k].q2.Some?
      && (gates[k].q2.Some? ==> r[k].q2.value == PyIndex(qs, gates[k].q2.value))
  {
    seq(|gates|, k requires 0 <= k < |gates| => Relabel(gates[k], qs))
  }

  /** Indices 0, 1, ..., n - 1. */
  function Range(n: nat): (r: seq<int>)
    ensures |r| == n && forall k :: 0 <= k < n ==> r[k] == k
  {
    seq(n, k requires 0 <= k < n => k)
  }

  /** Relabelling by the identity list changes nothing, when the indices
      are the list's own (non-negative) positions. */
  lemma {:induction false} ChangeGatesIdentity(gates: seq<Gate>, n: nat)
    requires forall k :: 0 <= k < |gates| ==>
      0 <= gates[k].q1 < n && (gates[k].q2.Some? ==> 0 <= gates[k].q2.value < n)
    ensures IndicesValid(gates, Range(n))
    ensures ChangeGates(gates, Range(n)) == gates
  {
    var r := ChangeGates(gates, Range(n));
    forall k | 0 <= k < |gates|
      ensures r[k] == gates[k]
    {
    }
  }

  /** qs2 looked up at each entry of qs1. */
  function Compose(qs1: seq<int>, qs2: seq<int>): (r: seq<int>)
    requires forall k :: 0 <= k < |qs1| ==> ValidIndex(qs2, qs1[k])
    ensures |r| == |qs1|
    ensures forall k :: 0 <= k < |qs1| ==> r[k] == PyIndex(qs2, qs1[k])
  {
    seq(|qs1|, k requires 0 <= k < |qs1| => PyIndex(qs2, qs1[k]))
  }

  /** Relabelling twice is relabelling once by the composed list. */
  lemma {:induction false} ChangeGatesCompose(gates: seq<Gate>, qs1: seq<int>, qs2: seq<int>)
    requires IndicesValid(gates, qs1)
    requires forall k :: 0 <= k < |qs1| ==> ValidIndex(qs2, qs1[k])
    ensures IndicesValid(ChangeGates(gates, qs1), qs2)
    ensures IndicesValid(gates, Compose(qs1, qs2))
    ensures ChangeGates(ChangeGates(gates, qs1), qs2) == ChangeGates(gates, Compose(qs1, qs2))
  {
    var once := ChangeGates(gates, qs1);
    var q := Compose(qs1, qs2);
    forall k | 0 <= k < |gates|
      ensures ValidIndex(qs2, once[k].q1) && (once[k].q2.Some? ==> ValidIndex(qs2, once[k].q2.value))
    {
      ComposeAt(qs1, qs2, gates[k].q1);
      if gates[k].q2.Some? {
        ComposeAt(qs1, qs2, gates[k].q2.value);
      }
    }
    var twice := ChangeGates(once, qs2);
    var direct := ChangeGates(gates, q);
    forall k | 0 <= k < |gates|
      ensures twice[k] == direct[k]
    {
      ComposeAt(qs1, qs2, gates[k].q1);
      if gates[k].q2.Some? {
        ComposeAt(qs1, qs2, gates[k].q2.value);
      }
    }
  }

  /** Looking up the composed list is two lookups, negative indices
      included. */
  lemma {:induction false} ComposeAt(qs1: seq<int>, qs2: seq<int>, i: int)
    requires forall k :: 0 <= k < |qs1| ==> ValidIndex(qs2, qs1[k])
    requires ValidIndex(qs1, i)
    ensures ValidIndex(qs2, PyIndex(qs1, i))
    ensures PyIndex(Compose(qs1, qs2), i) == PyIndex(qs2, PyIndex(qs1, i))
  {
  }

  // ---------------------------------------------------------------------
  // apply_gates

  /** A call into the simulator. */
  datatype SimCall =
    | ApplyCnot(control: int, target: Option<int>)
    | ApplyHadamard(qubit: int)
    | ApplyPhase(qubit: int)
    | ApplyZ(qubit: int)
    | ApplyX(qubit: int)
    | ApplyY(qubit: int)

  /** The simulator method a gate kind selects, if the kind is known. */
  function Dispatch(g: Gate): (r: Option<SimCall>)
    ensures r.Some? <==> g.kind in {"c", "h", "p", "z", "x", "y"}
  {
    if g.kind == "c" then Some(ApplyCnot(g.q1, g.q2))
    else if g.kind == "h" then Some(ApplyHadamard(g.q1))
    else if g.kind == "p" then Some(ApplyPhase(g.q1))
    else if g.kind == "z" then Some(ApplyZ(g.q1))
    else if g.kind == "x" then Some(ApplyX(g.q1))
    else if g.kind == "y" then Some(ApplyY(g.q1))
    else None
  }

  /** What apply_gates does to the simulator: the calls made, in order,
      and whether it returned or raised on an unknown kind after them. */
  datatype Outcome = Outcome(calls: seq<SimCall>, failed: bool)

  predicate KnownKind(g: Gate) {
    Dispatch(g).Some?
  }

  /** apply_gates: one call per gate, in list order; at the first gate of
      unknown kind the loop raises, and the calls already made stay
      made. */
  function ApplyGates(gates: seq<Gate>): (r: Outcome)
    ensures !r.failed <==> forall k :: 0 <= k < |gates| ==> KnownKind(gates[k])
    ensures !r.failed ==> |r.calls| == |gates|
    ensures r.failed ==> |r.calls| < |gates| && !KnownKind(gates[|r.calls|])
    ensures forall k :: 0 <= k < |r.calls| ==> KnownKind(gates[k]) && Dispatch(gates[k]) == Some(r.calls[k])
    decreases |gates|
  {
    if gates == [] then Outcome([], false)
    else
      match Dispatch(gates[0])
      case None => Outcome([], true)
      case Some(call) =>
        var rest := ApplyGates(gates[1..]);
        Outcome([call] + rest.calls, rest.failed)
  }

  /** The simulator call for a relabelled gate is the original call with
      its qubits relabelled. */
  function RelabelCall(c: SimCall, qs: seq<int>): SimCall
    requires match c
      case ApplyCnot(a, b) => ValidIndex(qs, a) && (b.Some? ==> ValidIndex(qs, b.value))
      case _ => ValidIndex(qs, c.qubit)
  {
    match c
    case ApplyCnot(a, b) => ApplyCnot(PyIndex(qs, a), if b.Some? then Some(PyIndex(qs, b.value)) else None)
    case ApplyHadamard(q) => ApplyHadamard(PyIndex(qs, q))
    case ApplyPhase(q) => ApplyPhase(PyIndex(qs, q))
    case ApplyZ(q) => ApplyZ(PyIndex(qs, q))
    case ApplyX(q) => ApplyX(PyIndex(qs, q))
    case ApplyY(q) => ApplyY(PyIndex(qs, q))
  }

  /** Applying relabelled gates makes the same calls, relabelled, and fails
      at the same place: change_gates followed by apply_gates runs the
      decomposition on the chosen qubits. */
  lemma {:induction false} ApplyChangedGates(gates: seq<Gate>, qs: seq<int>)
    requires IndicesValid(gates, qs)
    ensures ApplyGates(ChangeGates(gates, qs)).failed == ApplyGates(gates).failed
    ensures |ApplyGates(ChangeGates(gates, qs)).calls| == |ApplyGates(gates).calls|
    ensures forall k :: 0 <= k < |ApplyGates(gates).calls| ==>
      ApplyGates(ChangeGates(gates, qs)).calls[k] == RelabelCall(ApplyGates(gates).calls[k], qs)
    decreases |gates|
  {
    if gates != [] {
      var changed := ChangeGates(gates, qs);
      assert changed[1..] == ChangeGates(gates[1..], qs);
      ApplyChangedGates(gates[1..], qs);
      var a := ApplyGates(gates);
      var b := ApplyGates(changed);
      match Dispatch(gates[0])
      case None =>
        assert Dispatch(changed[0]).None?;
      case Some(call) =>
        assert Dispatch(changed[0]) == Some(RelabelCall(call, qs));
        assert a.calls == [call] + ApplyGates(gates[1..]).calls;
        assert b.calls == [RelabelCall(call, qs)] + ApplyGates(changed[1..]).calls;
    }
  }
}

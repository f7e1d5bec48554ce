/**
 The `Signed` sign policy of the encrypted-integer layer.

 The integer types of the runtime are generic over a sign policy, which decides
 three things: which comparison circuit to request from the mux-circuit library,
 which multiplier to append to the circuit graph, and how a value changes width
 (`resize_config`). This module models the signed policy. The policy is a unit
 marker, so its three operations are static members of a one-constructor
 datatype.

 The comparison and multiplication circuits are built by external libraries
 whose code is not part of this model: the comparison is represented by a
 descriptor of the circuit that is requested, and the multipliers are passed in
 as function parameters.
 */
module SignedInt {

  /** Index of a node in the circuit graph. */
  type NodeIndex = nat

  /** A node of the circuit graph, reduced to the nodes it reads from. */
  datatype Node = Node(inputs: seq<NodeIndex>)

  /** The circuit graph: an append-only arena of nodes addressed by index. */
  datatype FheCircuit = FheCircuit(nodes: seq<Node>)

  /** Every node reads only from nodes inserted before it, so the graph is acyclic. */
  ghost predicate WellFormed(g: FheCircuit) {
    forall i, j :: 0 <= i < |g.nodes| && 0 <= j < |g.nodes[i].inputs| ==> g.nodes[i].inputs[j] < i
  }

  /** Every index in `refs` names a node of `g`. */
  ghost predicate RefsIn(g: FheCircuit, refs: seq<NodeIndex>) {
    forall k :: 0 <= k < |refs| ==> refs[k] < |g.nodes|
  }

  /** `g'` is `g` with zero or more nodes appended. */
  ghost predicate Extends(g': FheCircuit, g: FheCircuit) {
    |g.nodes| <= |g'.nodes| && g'.nodes[..|g.nodes|] == g.nodes
  }

  /**
   An external multiplier: given the graph and the operand bits (low bit first),
   it appends a multiplication circuit and returns the new graph with two lists of
   output nodes.
   */
  type Multiplier = (FheCircuit, seq<NodeIndex>, seq<NodeIndex>) -> (FheCircuit, seq<NodeIndex>, seq<NodeIndex>)

  /**
   What a well-behaved multiplier is assumed to do: on a well-formed graph and
   operands that name its nodes, it only appends nodes, keeps the graph
   well-formed, and returns nodes of the new graph. This is an assumption about
   code outside the model, stated so that callers can rely on it explicitly.
   */
  ghost predicate AppendsOnly(mul: Multiplier) {
    forall g, a, b ::
      WellFormed(g) && RefsIn(g, a) && RefsIn(g, b) ==>
        && WellFormed(mul(g, a, b).0)
        && Extends(mul(g, a, b).0, g)
        && RefsIn(mul(g, a, b).0, mul(g, a, b).1)
        && RefsIn(mul(g, a, b).0, mul(g, a, b).2)
  }

  /** The external circuit-building routines a sign policy chooses between. */
  datatype CircuitLibrary = CircuitLibrary(intMultiply: Multiplier, uintMultiply: Multiplier)

  /** A request for a circuit of the mux-circuit library. */
  datatype MuxCircuit =
    | CompareOrMaybeEqual(width: nat, signed: bool, gt: bool, eq: bool)

  /** How a resize copies bits: `keep` low bits are copied, `extend` bits are filled. */
  datatype ResizeConfiguration = ResizeConfiguration(keep: nat, extend: nat, signExtend: bool)

  /** `a.min(b)` on `usize`. */
  function Min(a: nat, b: nat): (r: nat)
    ensures r <= a && r <= b
    ensures r == a || r == b
  {
    if a <= b then a else b
  }

  /** `a.saturating_sub(b)` on `usize`: the difference, or 0 when `b` is larger. */
  function SaturatingSub(a: nat, b: nat): (r: nat)
    ensures a <= b ==> r == 0
    ensures b <= a ==> b + r == a
  {
    if a <= b then 0 else a - b
  }

  /** The signed sign policy (a unit marker). */
  datatype Signed = Signed {

    /** The signed policy asks the library for the signed comparison circuit of the given width. */
    static function GenCompareCircuit(maxLen: nat, gt: bool, eq: bool): (c: MuxCircuit)
      ensures c.signed
      ensures c.width == maxLen && c.gt == gt && c.eq == eq
    {
      CompareOrMaybeEqual(maxLen, true, gt, eq)
    }

    /**
     The signed policy appends the signed integer multiplier. When that
     multiplier is well-behaved, the graph only grows, stays acyclic and the
     returned nodes belong to it.
     */
    static function AppendMultiply(lib: CircuitLibrary, g: FheCircuit, a: seq<NodeIndex>, b: seq<NodeIndex>)
      : (r: (FheCircuit, seq<NodeIndex>, seq<NodeIndex>))
      ensures r == lib.intMultiply(g, a, b)
      ensures AppendsOnly(lib.intMultiply) && WellFormed(g) && RefsIn(g, a) && RefsIn(g, b) ==>
                WellFormed(r.0) && Extends(r.0, g) && RefsIn(r.0, r.1) && RefsIn(r.0, r.2)
    {
      lib.intMultiply(g, a, b)
    }

    /**
     How a signed value of `oldSize` bits becomes one of `newSize` bits: the
     low bits below the smaller width's sign bit are kept, and the rest of the
     new width, including its sign bit, is filled from the old sign bit. Both
     widths must be at least 1, otherwise the `usize` subtraction underflows.
     */
    static function ResizeConfig(oldSize: nat, newSize: nat): (r: ResizeConfiguration)
      requires Min(newSize, oldSize) >= 1
      ensures r.signExtend
      ensures r.keep + r.extend == newSize
      ensures r.keep < oldSize && r.keep < newSize
      ensures r.extend >= 1
      ensures newSize <= oldSize ==> r.keep == newSize - 1 && r.extend == 1
      ensures oldSize <= newSize ==> r.keep == oldSize - 1 && r.extend == newSize - oldSize + 1
    {
      ResizeConfiguration(Min(newSize, oldSize) - 1, SaturatingSub(newSize, oldSize) + 1, true)
    }
  }

  /** Keeping the width re-copies every non-sign bit and re-emits the sign bit. */
  lemma ResizeConfigSameWidth(n: nat)
    requires n >= 1
    ensures Signed.ResizeConfig(n, n) == ResizeConfiguration(n - 1, 1, true)
  {
  }

  /**
   The components of the triple never exceed the largest `usize`, whatever its
   width (`usizeMax` is 2^64 - 1 for a 64-bit `usize`), so the `+ 1` is safe.
   */
  lemma ResizeConfigFitsUsize(oldSize: nat, newSize: nat, usizeMax: nat)
    requires 1 <= oldSize <= usizeMax && 1 <= newSize <= usizeMax
    ensures Signed.ResizeConfig(oldSize, newSize).keep < usizeMax
    ensures Signed.ResizeConfig(oldSize, newSize).extend <= usizeMax
  {
  }

  /** The three values of the triple are determined by the widths alone. */
  lemma ResizeConfigUnique(oldSize: nat, newSize: nat, c: ResizeConfiguration)
    requires 1 <= oldSize && 1 <= newSize
    requires c.signExtend && c.keep + c.extend == newSize
    requires oldSize <= newSize ==> c.keep == oldSize - 1
    requires newSize <= oldSize ==> c.extend == 1
    ensures c == Signed.ResizeConfig(oldSize, newSize)
  {
  }

  /** Different comparison requests give different circuit descriptors: no flag is dropped. */
  lemma GenCompareCircuitInjective(w1: nat, gt1: bool, eq1: bool, w2: nat, gt2: bool, eq2: bool)
    requires Signed.GenCompareCircuit(w1, gt1, eq1) == Signed.GenCompareCircuit(w2, gt2, eq2)
    ensures w1 == w2 && gt1 == gt2 && eq1 == eq2
  {
  }
}

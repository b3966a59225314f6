// Circuits as explicit data: an ordered sequence of gate-application records over
// qubits 0 .. n-1, with the single-qubit layers and the phase flip on all-ones that
// both the oracle and the diffuser use.

module Gates {

  datatype Gate =
    | X(q: nat)
    | H(q: nat)
    | MCX(controls: seq<nat>, target: nat)

  /** list(range(k)) */
  function Range(k: nat): seq<nat>
  {
    seq(k, i requires 0 <= i => i)
  }

  predicate ActsWithin(g: Gate, n: nat)
  {
    match g
    case X(q) => q < n
    case H(q) => q < n
    case MCX(cs, t) => t < n && forall j :: 0 <= j < |cs| ==> cs[j] < n
  }

  /** Every qubit index the circuit mentions exists in an n-qubit register. */
  predicate WithinRegister(c: seq<Gate>, n: nat)
  {
    forall i :: 0 <= i < |c| ==> ActsWithin(c[i], n)
  }

  /** h(range(n)): one H record per qubit, in qubit order. */
  function HAll(n: nat): seq<Gate>
  {
    seq(n, i requires 0 <= i => H(i))
  }

  /** x(range(n)): one X record per qubit, in qubit order. */
  function XAll(n: nat): seq<Gate>
  {
    seq(n, i requires 0 <= i => X(i))
  }

  /** h(n-1); mcx(list(range(n-1)), n-1); h(n-1): a phase flip of the all-ones state. */
  function PhaseFlipOnes(n: nat): seq<Gate>
    requires 1 <= n
  {
    [H(n - 1), MCX(Range(n - 1), n - 1), H(n - 1)]
  }

  function Reverse<T>(s: seq<T>): seq<T>
  {
    seq(|s|, i requires 0 <= i < |s| => s[|s| - 1 - i])
  }

  lemma ReverseAppend<T>(a: seq<T>, b: seq<T>)
    ensures Reverse(a + b) == Reverse(b) + Reverse(a)
  {
  }

  lemma {:induction false} ReversePermutes<T>(s: seq<T>)
    ensures multiset(Reverse(s)) == multiset(s)
  {
    if s != [] {
      ReversePermutes(s[1..]);
      assert Reverse(s) == Reverse(s[1..]) + [s[0]];
      assert s == [s[0]] + s[1..];
    }
  }

  /** The marking core targets the top qubit, controls on exactly the qubits below it,
      has no controls for a single qubit, stays in the register and reads the same backwards. */
  lemma PhaseFlipOnesShape(n: nat)
    requires 1 <= n
    ensures PhaseFlipOnes(n)[1].target == n - 1 && n - 1 !in PhaseFlipOnes(n)[1].controls
    ensures forall q :: q in PhaseFlipOnes(n)[1].controls <==> 0 <= q < n - 1
    ensures PhaseFlipOnes(n)[1].controls == [] <==> n == 1
    ensures WithinRegister(PhaseFlipOnes(n), n)
    ensures Reverse(PhaseFlipOnes(n)) == PhaseFlipOnes(n)
  {
    var cs := Range(n - 1);
    forall q | 0 <= q < n - 1
      ensures q in cs
    {
      assert cs[q] == q;
    }
  }

  /** The gates of one layer act on pairwise distinct qubits, so their order within the layer is immaterial. */
  lemma LayersDistinct(n: nat)
    ensures WithinRegister(HAll(n), n) && WithinRegister(XAll(n), n)
    ensures forall i, j :: 0 <= i < j < n ==> HAll(n)[i].q != HAll(n)[j].q && XAll(n)[i].q != XAll(n)[j].q
  {
  }
}

// simulate_grover_vs_classical: one trial per simulated size (enumerate, pick a target,
// scan for it, assemble the Grover circuit) and the per-size bookkeeping of the four
// result lists. Sampling, wall-clock timing, printing and plotting are not modelled;
// the iteration count, the random choice and the elapsed times are parameters.

module Simulation {
  import opened Gates
  import opened BitStrings
  import opened Operators
  import Search

  datatype Option<T> = None | Some(value: T)

  /** One instruction of the Grover circuit: a plain gate, a labelled sub-circuit applied
      to the listed qubits (grover.append(gate, range(n))), or measure_all. */
  datatype Instruction =
    | Apply(gate: Gate)
    | Block(name: string, body: seq<Gate>, qargs: seq<nat>)
    | MeasureAll

  /** range(3, 9): the sizes that are simulated. */
  const SimulateFrom: nat := 3
  const SimulateTo: nat := 9
  /** range(3, 16): the sizes that are tabulated. */
  const TotalFrom: nat := 3
  const TotalTo: nat := 16

  /** One simulated size: enumerate the search space, take the entry at index pick as target,
      scan for it, and build the circuit H-all, (Oracle, Diffusion) * iterations, measure_all. */
  method RunTrial(n: nat, pick: nat, iterations: nat) returns (target: string, found: int, grover: seq<Instruction>)
    requires 1 <= n && pick < Pow2(n)
    ensures target == SearchSpace(n)[pick] && |target| == n && IsBitString(target)
    ensures found == pick
    ensures WithinRegister(Oracle(n, target), n) && WithinRegister(Diffuser(n), n)
    ensures |grover| == n + 2 * iterations + 1
    ensures forall i :: 0 <= i < n ==> grover[i] == Apply(H(i))
    ensures forall j :: 0 <= j < iterations ==>
      grover[n + 2 * j] == Block("Oracle", Oracle(n, target), Range(n)) &&
      grover[n + 2 * j + 1] == Block("Diffusion", Diffuser(n), Range(n))
    ensures grover[n + 2 * iterations] == MeasureAll
  {
    var items := SearchSpace(n);
    SearchSpaceEntries(n);
    target := items[pick];
    OracleWithinRegister(n, target);
    DiffuserShape(n);

    found := Search.ClassicalSearch(target, items);
    assert target !in items[..pick];

    grover := [];
    for i := 0 to n
      invariant |grover| == i
      invariant forall k :: 0 <= k < i ==> grover[k] == Apply(H(k))
    {
      grover := grover + [Apply(H(i))];
    }
    var oracle := OracleOperator(n, target);
    var diffuser := DiffusionOperator(n);

    for j := 0 to iterations
      invariant |grover| == n + 2 * j
      invariant forall i :: 0 <= i < n ==> grover[i] == Apply(H(i))
      invariant forall m :: 0 <= m < j ==>
        grover[n + 2 * m] == Block("Oracle", oracle, Range(n)) &&
        grover[n + 2 * m + 1] == Block("Diffusion", diffuser, Range(n))
    {
      grover := grover + [Block("Oracle", oracle, Range(n))];
      grover := grover + [Block("Diffusion", diffuser, Range(n))];
    }
    grover := grover + [MeasureAll];
  }

  /** The loop over range(3, 16): the theoretical step counts for every size, and for the
      simulated sizes the elapsed times of the classical scan and of the Grover run;
      None for the sizes that are skipped. */
  method SimulateGroverVsClassical(
    iterations: nat -> nat, pick: nat -> nat, classicalElapsed: nat -> real, quantumElapsed: nat -> real)
    returns (classicalTimes: seq<Option<real>>, groverTimes: seq<Option<real>>,
             groverSteps: seq<nat>, classicalSteps: seq<nat>)
    ensures |classicalTimes| == |groverTimes| == |groverSteps| == |classicalSteps| == TotalTo - TotalFrom
    ensures forall j :: 0 <= j < |classicalSteps| ==>
      classicalSteps[j] == Pow2(j + TotalFrom) && groverSteps[j] == iterations(j + TotalFrom)
    ensures forall j :: 0 <= j < |classicalTimes| ==>
      (classicalTimes[j].None? <==> j + TotalFrom >= SimulateTo) &&
      (groverTimes[j].None? <==> j + TotalFrom >= SimulateTo)
    ensures forall j :: 0 <= j < |classicalTimes| && j + TotalFrom < SimulateTo ==>
      classicalTimes[j] == Some(classicalElapsed(j + TotalFrom)) &&
      groverTimes[j] == Some(quantumElapsed(j + TotalFrom))
  {
    classicalTimes, groverTimes, groverSteps, classicalSteps := [], [], [], [];
    for n := TotalFrom to TotalTo
      invariant |classicalTimes| == |groverTimes| == |groverSteps| == |classicalSteps| == n - TotalFrom
      invariant forall j :: 0 <= j < n - TotalFrom ==>
        classicalSteps[j] == Pow2(j + TotalFrom) && groverSteps[j] == iterations(j + TotalFrom)
      invariant forall j :: 0 <= j < n - TotalFrom ==>
        (classicalTimes[j].None? <==> j + TotalFrom >= SimulateTo) &&
        (groverTimes[j].None? <==> j + TotalFrom >= SimulateTo)
      invariant forall j :: 0 <= j < n - TotalFrom && j + TotalFrom < SimulateTo ==>
        classicalTimes[j] == Some(classicalElapsed(j + TotalFrom)) &&
        groverTimes[j] == Some(quantumElapsed(j + TotalFrom))
    {
      var size := Pow2(n);
      classicalSteps := classicalSteps + [size];
      var numIterations := iterations(n);
      groverSteps := groverSteps + [numIterations];

      if SimulateFrom <= n < SimulateTo {
        var target, found, grover := RunTrial(n, pick(n) % size, numIterations);
        classicalTimes := classicalTimes + [Some(classicalElapsed(n))];
        groverTimes := groverTimes + [Some(quantumElapsed(n))];
      } else {
        classicalTimes := classicalTimes + [None];
        groverTimes := groverTimes + [None];
      }
    }
  }
}

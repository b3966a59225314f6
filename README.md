# Grover search comparator: a Dafny model

This project models the deterministic core of `Groover.py`, a script that compares a
classical linear search with a simulated Grover search circuit over problem sizes of
3 to 15 qubits. The model covers five pieces:

- **`classical_search`**: a scan that returns the index of the first element equal to the
  target, or -1 (module `Search`).
- **The search space** `[f"{i:0{n}b}" for i in range(2 ** n)]`: Python's binary format
  with zero padding, written out as digits plus padding (module `BitStrings`).
- **Circuits as data**: an ordered sequence of gate records `X(q)`, `H(q)` and
  `MCX(controls, target)` (module `Gates`).
  - `h(range(n))` and `x(range(n))` become `n` single-qubit records on qubits `0 .. n-1`.
  - The shared marking core is `H(n-1)`, then `MCX([0 .. n-2], n-1)`, then `H(n-1)`.
- **`oracle_operator` and `diffusion_operator`**: methods that build their gate lists step by
  step, each proved equal to a specification function (`Oracle`, `Diffuser`) (module `Operators`).
  - Lemmas give the structure of these lists.
  - A classical reading of the oracle's X layer on bit strings maps the target to all ones and
    is an involution. Qubit `q` is character `|s| - 1 - q`, as in the source's `reversed(target)`.
- **`simulate_grover_vs_classical`**: one trial per simulated size, then the loop that fills
  the four result lists (module `Simulation`). A trial enumerates the space, picks a target,
  scans for it and assembles H-all, then (Oracle, Diffusion) repeated `num_iterations` times,
  then `measure_all`.

The following are parameters of the model:

- the iteration count `int(np.floor(np.pi / 4 * np.sqrt(N)))`, as a function `iterations: nat -> nat`;
- `random.choice`, as an arbitrary index (`pick(n) % 2 ** n`);
- the elapsed times, as opaque `real` values per size.

Two points where the code says something different from a natural reading of it:

- The diffuser is not literally its own reverse. `h(range(n))` lists `H(0) .. H(n-1)`, and
  reversed that is `H(n-1) .. H(0)`. `DiffuserPalindromeIffOneQubit` proves that the reversed
  record sequence equals the original exactly when `n == 1`. `DiffuserMirror` proves the
  palindrome that does hold: the reverse has the same layers in the same order, and each
  single-qubit layer is permuted over distinct qubits.
- With width 0, `f"{0:00b}"` is `"0"`, so the enumeration for `n = 0` is `["0"]`, whose entry
  has length 1 (`SearchSpaceWidthZero`). The width lemmas therefore assume `n >= 1`. The script
  only uses `n` from 3 to 8.

## Model

| member | source | states |
|---|---|---|
| `Search.ClassicalSearch` | Groover.py:8-12 | returns -1 exactly when no element equals the target; otherwise an in-range index holding the target with no earlier match |
| `BitStrings.FormatBinaryDenotes` | Groover.py:55 | `FormatBinary(i, w)` is `f"{i:0{w}b}"`: the binary digits of `i`, left-padded with `'0'` to width `w`, never truncated; for `n >= 1` and `i < 2^n`, `f"{i:0{n}b}"` is exactly `n` characters, all `'0'`/`'1'`, and read as binary it is `i` |
| `BitStrings.FormatBinaryRoundTrip` | Groover.py:55 | formatting the value of a non-empty binary string at its own width gives the string back |
| `BitStrings.ValueInjective` | Groover.py:55 | two binary strings of equal length with the same value are equal |
| `BitStrings.SearchSpaceEntries` | Groover.py:48-55 | `SearchSpace(n)` is the comprehension `[f"{i:0{n}b}" for i in range(2 ** n)]`; for `n >= 1` it has `2^n` entries; entry `i` has length `n`, is binary and denotes `i`; entries are pairwise distinct |
| `BitStrings.SearchSpaceComplete` | Groover.py:55 | every `n`-bit string occurs in the enumeration, at the index it denotes |
| `BitStrings.SearchSpaceWidthZero` | Groover.py:55 | with `n = 0` the enumeration is `["0"]`, one entry of length 1 |
| `Gates.PhaseFlipOnesShape` | Groover.py:19-21 | `PhaseFlipOnes(n)` is the core `H(n-1)`, `MCX(list(range(n-1)), n-1)`, `H(n-1)` written at lines 19-21 and again at 31-33; the marking core targets qubit `n-1`, controls on exactly the qubits below it and never on its target, has no controls when `n = 1`, stays in the register and reads the same backwards |
| `Gates.LayersDistinct` | Groover.py:29-35 | `HAll(n)` and `XAll(n)` are the broadcasts `h(range(n))` and `x(range(n))` (lines 29-30, 34-35, and 66 for the Grover circuit), one record per qubit in qubit order; each such layer stays in the register and acts on pairwise distinct qubits |
| `Operators.FlipPrefix` | Groover.py:16-18 | every record the X loop emits for the first `k` characters of `reversed(target)` is an `X` on a qubit below `k` whose character is `'0'` |
| `Operators.FlipPrefixExactly` | Groover.py:16-18 | every qubit below `k` whose character of `reversed(target)` is `'0'` gets an X record, and the records come in strictly increasing qubit order (each qubit once) |
| `Operators.FlipPrefixCount` | Groover.py:16-18 | the X loop emits one record per `'0'` in the part of the target it has read |
| `Operators.AppendH` | Groover.py:29 | `h(range(n))` appends `H(0) .. H(n-1)` to the circuit |
| `Operators.AppendX` | Groover.py:30 | `x(range(n))` appends `X(0) .. X(n-1)` to the circuit |
| `Operators.OracleOperator` | Groover.py:14-24 | builds the X layer for the target's `'0'` bits, the marking core on qubit `n-1`, and then the same X layer again |
| `Operators.OracleShape` | Groover.py:14-24 | `Oracle(n, t)` is `FlipLayer(t)`, then `PhaseFlipOnes(n)`, then `FlipLayer(t)`, the circuit lines 14-24 build; it has `3 + 2 * (number of '0' in target)` records; its first and last blocks are the same X layer around the marking core; qubit `q` gets X iff `q < len(target)` and `target[len-1-q] == '0'` |
| `Operators.OracleWithinRegister` | Groover.py:14-24 | with `n >= 1` and `len(target) <= n`, every qubit index in the oracle lies in `[0, n)` |
| `Operators.FlipPrefixRun` | Groover.py:16-18 | classically, the first `k` steps of the X loop flip exactly the characters among the last `k` where the target has `'0'` |
| `Operators.FlipLayerRun` | Groover.py:16-18 | `FlipLayer(t)` is the whole X loop over `reversed(t)`, emitted at lines 16-18 and again at 22-24; classically, the whole X layer flips exactly the characters where the target has `'0'` |
| `Operators.XLayerMarksTarget` | Groover.py:16-18 | the oracle's X layer maps the target bit string to all ones |
| `Operators.XLayerOnesOnlyForTarget` | Groover.py:16-24 | among bit strings of the target's width, only the target is mapped to all ones, so the marking core can only mark the target |
| `Operators.XLayerInvolution` | Groover.py:22-24 | applying the X layer a second time, as the source does after the core, restores any bit string |
| `Operators.DiffusionOperator` | Groover.py:27-35 | builds H-all, X-all, the marking core, X-all, H-all, with no dependence on any target |
| `Operators.DiffuserShape` | Groover.py:27-35 | `Diffuser(n)` is `HAll(n)`, `XAll(n)`, `PhaseFlipOnes(n)`, `XAll(n)`, `HAll(n)`, the circuit lines 27-35 build; it has `4n + 3` records, all within the register, with the marking core in the middle |
| `Operators.DiffuserMirror` | Groover.py:29-35 | read backwards, the diffuser has the same layers in the same order, each single-qubit layer permuted |
| `Operators.DiffuserPalindromeIffOneQubit` | Groover.py:29-35 | the literal record sequence equals its own reverse exactly when `n = 1` |
| `Simulation.RunTrial` | Groover.py:55-74 | the target is entry `pick` of the enumeration and the scan finds exactly `pick`, never -1; the oracle and diffuser stay in the register; the circuit is `n` H records, then `num_iterations` pairs with Oracle first and Diffusion second, then a measurement |
| `Simulation.SimulateGroverVsClassical` | Groover.py:39-83 | after the loop over `range(3, 16)` all four lists have 13 entries; `classical_steps[j] == 2^(j+3)` and `grover_steps[j]` is the iteration count for `j+3`; both time entries are `None` exactly when `j+3 >= 9`, and otherwise hold that size's elapsed times |

## Left out

- Quantum semantics: `to_gate`, unitaries, amplitudes and the `Sampler` run with 1024 shots
  (Groover.py:25, 36, 75-79). They are complex floating point inside a simulation library
  that is not part of this model. The oracle and diffuser are modelled as gate lists only.
  The bit-string view of the X layer is the only semantic statement made.
- The iteration count `int(np.floor(np.pi / 4 * np.sqrt(N)))` (Groover.py:50) is
  floating point. It is an uninterpreted parameter, so example values such as 2 for `n = 3`
  are not proved.
- `random.choice` (Groover.py:56) is an arbitrary index, not a uniform distribution.
- Wall-clock timing (Groover.py:59-62, 75-80) becomes opaque per-size values.
- Printing and all plotting (Groover.py:54, 84, 87-98) are I/O.
- `Shor.py` evaluates two closed-form floating-point curves and plots them. It contains no
  algorithmic logic, so Shor.py is not part of this model.
- `Operators.OracleOperator`: requires `n >= 1`. With zero qubits, `h(n_qubits - 1)` names no
  existing qubit and the circuit library rejects it; that library failure is not modelled.
- `Operators.DiffusionOperator`: requires `n >= 1`, for the same reason.
- Qubit-index checking by the circuit library is not modelled as an error. A target longer than
  `n` yields X records outside the register. `OracleWithinRegister` states when that cannot happen.

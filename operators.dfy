// oracle_operator and diffusion_operator, built gate by gate into a sequence of records,
// and the classical bit-string view of the oracle's X layer.

module Operators {
  import opened Gates
  import opened BitStrings

  /** The X records the oracle's loop emits for the first k characters of reversed(t):
      X(i) exactly when reversed(t)[i], that is t[|t| - 1 - i], is '0'. */
  function FlipPrefix(t: string, k: nat): (r: seq<Gate>)
    requires k <= |t|
    ensures forall j :: 0 <= j < |r| ==> r[j].X? && r[j].q < k && t[|t| - 1 - r[j].q] == '0'
  {
    if k == 0 then []
    else FlipPrefix(t, k - 1) + (if t[|t| - k] == '0' then [X(k - 1)] else [])
  }

  /** The whole X layer of the oracle for target t. */
  function FlipLayer(t: string): seq<Gate>
  {
    FlipPrefix(t, |t|)
  }

  /** The oracle's gate sequence: X layer, marking core, the same X layer again. */
  function Oracle(n: nat, t: string): seq<Gate>
    requires 1 <= n
  {
    FlipLayer(t) + PhaseFlipOnes(n) + FlipLayer(t)
  }

  /** The diffuser's gate sequence: H all, X all, marking core, X all, H all. */
  function Diffuser(n: nat): seq<Gate>
    requires 1 <= n
  {
    HAll(n) + XAll(n) + PhaseFlipOnes(n) + XAll(n) + HAll(n)
  }

  /** circuit.h(range(n)) */
  method AppendH(c: seq<Gate>, n: nat) returns (r: seq<Gate>)
    ensures r == c + HAll(n)
  {
    r := c;
    for i := 0 to n
      invariant r == c + HAll(i)
    {
      r := r + [H(i)];
    }
  }

  /** circuit.x(range(n)) */
  method AppendX(c: seq<Gate>, n: nat) returns (r: seq<Gate>)
    ensures r == c + XAll(n)
  {
    r := c;
    for i := 0 to n
      invariant r == c + XAll(i)
    {
      r := r + [X(i)];
    }
  }

  /** oracle_operator(n_qubits, target_state), before to_gate. */
  method OracleOperator(n: nat, target: string) returns (oracle: seq<Gate>)
    requires 1 <= n
    ensures oracle == Oracle(n, target)
  {
    oracle := [];
    for i := 0 to |target|
      invariant oracle == FlipPrefix(target, i)
    {
      if target[|target| - 1 - i] == '0' {
        oracle := oracle + [X(i)];
      }
    }
    oracle := oracle + [H(n - 1)];
    oracle := oracle + [MCX(Range(n - 1), n - 1)];
    oracle := oracle + [H(n - 1)];
    ghost var core := oracle;
    for i := 0 to |target|
      invariant oracle == core + FlipPrefix(target, i)
    {
      if target[|target| - 1 - i] == '0' {
        oracle := oracle + [X(i)];
      }
    }
  }

  /** diffusion_operator(n_qubits), before to_gate. */
  method DiffusionOperator(n: nat) returns (diffuser: seq<Gate>)
    requires 1 <= n
    ensures diffuser == Diffuser(n)
  {
    diffuser := AppendH([], n);
    diffuser := AppendX(diffuser, n);
    diffuser := diffuser + [H(n - 1)];
    diffuser := diffuser + [MCX(Range(n - 1), n - 1)];
    diffuser := diffuser + [H(n - 1)];
    diffuser := AppendX(diffuser, n);
    diffuser := AppendH(diffuser, n);
  }

  // ---------------------------------------------------------------------------
  // Which qubits the oracle flips

  /** The X layer flips qubit q exactly when q < |t| and reversed(t)[q] is '0',
      each such qubit once and in increasing qubit order. */
  lemma {:induction false} FlipPrefixExactly(t: string, k: nat)
    requires k <= |t|
    ensures forall q: nat :: q < k && t[|t| - 1 - q] == '0' ==> X(q) in FlipPrefix(t, k)
    ensures forall i, j :: 0 <= i < j < |FlipPrefix(t, k)| ==> FlipPrefix(t, k)[i].q < FlipPrefix(t, k)[j].q
  {
    if k > 0 {
      FlipPrefixExactly(t, k - 1);
    }
  }

  /** The X layer has one record per '0' character of the target. */
  lemma {:induction false} FlipPrefixCount(t: string, k: nat)
    requires k <= |t|
    ensures |FlipPrefix(t, k)| == multiset(t[|t| - k..])['0']
  {
    if k > 0 {
      FlipPrefixCount(t, k - 1);
      assert t[|t| - k..] == [t[|t| - k]] + t[|t| - k + 1..];
    }
  }

  /** The oracle is the X layer, the marking core and the same X layer again: 3 + 2 * (number of '0') records. */
  lemma OracleShape(n: nat, t: string)
    requires 1 <= n
    ensures var z := multiset(t)['0'];
      |Oracle(n, t)| == 3 + 2 * z &&
      Oracle(n, t)[..z] == Oracle(n, t)[z + 3..] == FlipLayer(t) &&
      Oracle(n, t)[z..z + 3] == PhaseFlipOnes(n)
    ensures forall q: nat :: X(q) in FlipLayer(t) <==> q < |t| && t[|t| - 1 - q] == '0'
  {
    FlipPrefixCount(t, |t|);
    assert t[|t| - |t|..] == t;
    FlipPrefixExactly(t, |t|);
  }

  /** With a target no longer than the register every record names an existing qubit. */
  lemma OracleWithinRegister(n: nat, t: string)
    requires 1 <= n && |t| <= n
    ensures WithinRegister(Oracle(n, t), n)
  {
    PhaseFlipOnesShape(n);
  }

  // ---------------------------------------------------------------------------
  // The X layer read classically, on bit strings in qubit order (qubit q is character |s| - 1 - q)

  function FlipBit(c: char): char
  {
    if c == '0' then '1' else if c == '1' then '0' else c
  }

  predicate IsXLayer(layer: seq<Gate>, width: nat)
  {
    forall i :: 0 <= i < |layer| ==> layer[i].X? && layer[i].q < width
  }

  /** X on qubit q flips the character that stands for it. */
  function ApplyX(s: string, q: nat): string
    requires q < |s|
  {
    s[|s| - 1 - q := FlipBit(s[|s| - 1 - q])]
  }

  /** The bit string after the X records of layer, first record first. */
  function RunXLayer(layer: seq<Gate>, s: string): (r: string)
    requires IsXLayer(layer, |s|)
    ensures |r| == |s|
  {
    if layer == [] then s
    else ApplyX(RunXLayer(layer[..|layer| - 1], s), layer[|layer| - 1].q)
  }

  function Ones(k: nat): string
  {
    seq(k, _ => '1')
  }

  /** Character by character: the X layer of t flips exactly the positions where t has '0'. */
  lemma {:induction false} FlipPrefixRun(t: string, s: string, k: nat)
    requires |s| == |t| && k <= |t|
    ensures IsXLayer(FlipPrefix(t, k), |s|)
    ensures forall p :: 0 <= p < |s| ==>
      RunXLayer(FlipPrefix(t, k), s)[p] == if |t| - k <= p && t[p] == '0' then FlipBit(s[p]) else s[p]
  {
    if k > 0 {
      FlipPrefixRun(t, s, k - 1);
      var before, layer := FlipPrefix(t, k - 1), FlipPrefix(t, k);
      var mid, out := RunXLayer(before, s), RunXLayer(layer, s);
      if t[|t| - k] == '0' {
        assert layer[..|layer| - 1] == before;
        assert out == ApplyX(mid, k - 1);
      } else {
        assert layer == before;
      }
      forall p | 0 <= p < |s|
        ensures out[p] == if |t| - k <= p && t[p] == '0' then FlipBit(s[p]) else s[p]
      {
        assert mid[p] == if |t| - (k - 1) <= p && t[p] == '0' then FlipBit(s[p]) else s[p];
      }
    }
  }

  lemma FlipLayerRun(t: string, s: string)
    requires |s| == |t|
    ensures IsXLayer(FlipLayer(t), |s|)
    ensures forall p :: 0 <= p < |s| ==>
      RunXLayer(FlipLayer(t), s)[p] == if t[p] == '0' then FlipBit(s[p]) else s[p]
  {
    FlipPrefixRun(t, s, |t|);
  }

  /** The X layer maps the target bit string to all ones. */
  lemma XLayerMarksTarget(t: string)
    requires IsBitString(t)
    ensures IsXLayer(FlipLayer(t), |t|)
    ensures RunXLayer(FlipLayer(t), t) == Ones(|t|)
  {
    FlipLayerRun(t, t);
  }

  /** Among bit strings of the target's width, only the target is mapped to all ones. */
  lemma XLayerOnesOnlyForTarget(t: string, s: string)
    requires IsBitString(t) && IsBitString(s) && |s| == |t|
    ensures IsXLayer(FlipLayer(t), |s|)
    ensures RunXLayer(FlipLayer(t), s) == Ones(|t|) <==> s == t
  {
    FlipLayerRun(t, s);
    if RunXLayer(FlipLayer(t), s) == Ones(|t|) {
      forall p | 0 <= p < |s|
        ensures s[p] == t[p]
      {
        assert RunXLayer(FlipLayer(t), s)[p] == '1';
      }
    }
  }

  /** Applying the X layer twice gives back any bit string of the target's width. */
  lemma XLayerInvolution(t: string, s: string)
    requires |s| == |t|
    ensures IsXLayer(FlipLayer(t), |s|)
    ensures RunXLayer(FlipLayer(t), RunXLayer(FlipLayer(t), s)) == s
  {
    FlipLayerRun(t, s);
    FlipLayerRun(t, RunXLayer(FlipLayer(t), s));
  }

  // ---------------------------------------------------------------------------
  // Shape of the diffuser

  /** 4n + 3 records, all within the register; the same for every target. */
  lemma DiffuserShape(n: nat)
    requires 1 <= n
    ensures |Diffuser(n)| == 4 * n + 3
    ensures WithinRegister(Diffuser(n), n)
    ensures Diffuser(n)[2 * n..2 * n + 3] == PhaseFlipOnes(n)
  {
    PhaseFlipOnesShape(n);
    LayersDistinct(n);
    var d := Diffuser(n);
    forall i | 0 <= i < |d|
      ensures ActsWithin(d[i], n)
    {
      if 2 * n <= i < 2 * n + 3 {
        assert d[i] == PhaseFlipOnes(n)[i - 2 * n];
      }
    }
  }

  /** Read backwards, the diffuser is the same layers in the same order, each single-qubit layer
      listed in reverse qubit order: a reordering of gates on distinct qubits. */
  lemma DiffuserMirror(n: nat)
    requires 1 <= n
    ensures Reverse(Diffuser(n))
      == Reverse(HAll(n)) + Reverse(XAll(n)) + PhaseFlipOnes(n) + Reverse(XAll(n)) + Reverse(HAll(n))
    ensures multiset(Reverse(HAll(n))) == multiset(HAll(n))
    ensures multiset(Reverse(XAll(n))) == multiset(XAll(n))
  {
    var h, x, c := HAll(n), XAll(n), PhaseFlipOnes(n);
    ReverseAppend(h + x + c + x, h);
    ReverseAppend(h + x + c, x);
    ReverseAppend(h + x, c);
    ReverseAppend(h, x);
    PhaseFlipOnesShape(n);
    ReversePermutes(h);
    ReversePermutes(x);
  }

  /** As a literal record sequence the diffuser equals its own reverse only for a single qubit. */
  lemma DiffuserPalindromeIffOneQubit(n: nat)
    requires 1 <= n
    ensures Reverse(Diffuser(n)) == Diffuser(n) <==> n == 1
  {
    var d := Diffuser(n);
    if n == 1 {
      DiffuserMirror(1);
      assert Reverse(HAll(1)) == HAll(1);
      assert Reverse(XAll(1)) == XAll(1);
    } else {
      assert d[0] == H(0);
      assert Reverse(d)[0] == d[|d| - 1] == H(n - 1);
    }
  }
}

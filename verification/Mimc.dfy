/** The native sponge: the loops of the `MiMC` trait. */
module Mimc {
  import opened Field
  import opened MimcSpec

  method PermuteFeistel(p: Params, state: seq<Fr>, numOutputs: nat) returns (outputs: seq<Fr>)
    ensures outputs == MimcSpec.PermuteFeistel(p, state, numOutputs)
  {
    var r, c := AbsorbInputs(p, state);
    outputs := SqueezeOutputs(p, r, c, numOutputs);
  }

  /** The first loop of `permute_feistel`. */
  method AbsorbInputs(p: Params, state: seq<Fr>) returns (r: Fr, c: Fr)
    ensures State(r, c) == Absorb(p, EMPTY, state)
  {
    r, c := 0, 0;
    for i := 0 to |state|
      invariant State(r, c) == Absorb(p, EMPTY, state[..i])
    {
      assert state[..i + 1][..i] == state[..i];
      r := Add(r, state[i]);
      r, c := Feistel(p, r, c);
    }
    assert state[..|state|] == state;
  }

  /** The rest of it: the rate is the first output, and every further one follows a permutation. */
  method SqueezeOutputs(p: Params, rate: Fr, capacity: Fr, numOutputs: nat) returns (outputs: seq<Fr>)
    ensures outputs == Squeeze(p, State(rate, capacity), numOutputs)
  {
    var r, c := rate, capacity;
    outputs := [r];
    ghost var all := Squeeze(p, State(r, c), numOutputs);
    ghost var done: seq<Fr> := [];
    assert [] + all == all;
    if numOutputs > 1 {
      for i := 1 to numOutputs
        invariant outputs == done + [r] && |done| == i - 1
        invariant all == done + Squeeze(p, State(r, c), numOutputs - (i - 1))
      {
        SqueezeMoves(p, done, State(r, c), numOutputs - (i - 1), all);
        done := outputs;
        r, c := Feistel(p, r, c);
        outputs := outputs + [r];
      }
    }
  }

  method Feistel(p: Params, left: Fr, right: Fr) returns (l: Fr, r: Fr)
    ensures State(l, r) == MimcSpec.Feistel(p, State(left, right))
  {
    var xL: Fr, xR: Fr := left, right;
    for i := 0 to p.Rounds()
      invariant State(xL, xR) == AfterRounds(p, State(left, right), i)
    {
      var t := if i == 0 then Add(p.k, xL) else Add(Add(p.k, xL), p.keys[i]);
      var tn := RaiseToExponent(p, t);
      RoundStep(p, State(left, right), i, xL, xR, tn);
      xL, xR := if i < p.Rounds() - 1 then Add(xR, tn) else xL, if i < p.Rounds() - 1 then xL else Add(xR, tn);
    }
    l, r := xL, xR;
  }

  /** `tn *= t`, once for every unit of the exponent. */
  method RaiseToExponent(p: Params, t: Fr) returns (tn: Fr)
    ensures tn == Power(t, p.exponent) == Exp(t, p.exponent) % MODULUS
  {
    tn := 1;
    for n := 0 to p.exponent
      invariant tn == Power(t, n)
    {
      tn := Mul(tn, t);
    }
    PowerIsModular(t, p.exponent);
  }
}

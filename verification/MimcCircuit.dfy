/** The circuit form of the sponge: the same loops on variables of a constraint system. What a
    loop has computed is stated for every assignment that satisfies the constraints so far. */
module MimcCircuit {
  import opened Field
  import opened MimcSpec
  import opened Constraints

  datatype MimcVar = MimcVar(numOutputs: nat, exponent: nat, k: FpVar, roundKeys: seq<FpVar>) {

    function Rounds(): nat {
      |roundKeys|
    }

    predicate Allocated(n: nat) {
      Below(k, n) && AllBelow(roundKeys, n)
    }

    lemma AllocatedMonotone(m: nat, n: nat)
      requires Allocated(m) && m <= n
      ensures Allocated(n)
    {
      BelowMonotone(k, m, n);
      AllBelowMonotone(roundKeys, m, n);
    }

    /** The parameters as an assignment sees them. */
    function At(w: Assignment): Params
    {
      Params(exponent, Eval(k, w), EvalAll(roundKeys, w))
    }

    // `feistel`

    ghost predicate HoldsPower(cs: seq<Constraint>, t: FpVar, n: nat, tn: FpVar) {
      forall w :: AllHold(cs, w) ==> Eval(tn, w) == Power(Eval(t, w), n)
    }

    ghost predicate HoldsRounds(cs: seq<Constraint>, left: FpVar, right: FpVar, i: nat, xL: FpVar, xR: FpVar)
      requires i <= Rounds()
    {
      forall w :: AllHold(cs, w) ==> Halves(xL, xR, w) == AfterRounds(At(w), Halves(left, right, w), i)
    }

    /** In every assignment that satisfies `cs`, the sponge permutation takes the variables
        `left`, `right` to `l`, `r`. */
    ghost predicate HoldsFeistel(cs: seq<Constraint>, left: FpVar, right: FpVar, l: FpVar, r: FpVar)
    {
      forall w :: AllHold(cs, w) ==> Halves(l, r, w) == MimcSpec.Feistel(At(w), Halves(left, right, w))
    }

    lemma NextRound(before: seq<Constraint>, cs: seq<Constraint>, left: FpVar, right: FpVar, i: nat,
                    xL: FpVar, xR: FpVar, t: FpVar, tn: FpVar)
      requires i < Rounds() && before <= cs
      requires HoldsRounds(before, left, right, i, xL, xR)
      requires t == if i == 0 then AddVars(k, xL) else AddVars(AddVars(k, xL), roundKeys[i])
      requires HoldsPower(cs, t, exponent, tn)
      ensures HoldsRounds(cs, left, right, i + 1, if i < Rounds() - 1 then AddVars(xR, tn) else xL,
                                                  if i < Rounds() - 1 then xL else AddVars(xR, tn))
    {
      HoldEarlier(before, cs);
      forall w | AllHold(cs, w)
        ensures AfterRounds(At(w), Halves(left, right, w), i + 1)
             == if i < Rounds() - 1 then Halves(AddVars(xR, tn), xL, w) else Halves(xL, AddVars(xR, tn), w)
      {
        assert Eval(t, w) == Add(Add(At(w).k, Eval(xL, w)), RoundKey(At(w), i));
        RoundStep(At(w), Halves(left, right, w), i, Eval(xL, w), Eval(xR, w), Eval(tn, w));
      }
    }

    /** `tn = &tn * &t`, once for every unit of the exponent. */
    method RaiseToExponent(cs: ConstraintSystem, t: FpVar) returns (tn: FpVar)
      requires cs.Valid() && Below(t, cs.wires)
      modifies cs
      ensures cs.Valid() && old(cs.wires) <= cs.wires && Below(tn, cs.wires)
      ensures GatesAdded(old(cs.constraints), old(cs.wires), cs.constraints)
      ensures HoldsPower(cs.constraints, t, exponent, tn)
    {
      tn := Constant(1);
      for n := 0 to exponent
        invariant cs.Valid() && old(cs.wires) <= cs.wires && Below(tn, cs.wires)
        invariant GatesAdded(old(cs.constraints), old(cs.wires), cs.constraints)
        invariant HoldsPower(cs.constraints, t, n, tn)
      {
        BelowMonotone(t, old(cs.wires), cs.wires);
        ghost var before := cs.constraints;
        tn := cs.Multiply(tn, t);
        HoldEarlier(before, cs.constraints);
      }
    }

    method Feistel(cs: ConstraintSystem, left: FpVar, right: FpVar) returns (l: FpVar, r: FpVar)
      requires cs.Valid() && Allocated(cs.wires) && Below(left, cs.wires) && Below(right, cs.wires)
      modifies cs
      ensures cs.Valid() && old(cs.wires) <= cs.wires && Below(l, cs.wires) && Below(r, cs.wires)
      ensures GatesAdded(old(cs.constraints), old(cs.wires), cs.constraints)
      ensures HoldsFeistel(cs.constraints, left, right, l, r)
    {
      var xL, xR := left, right;
      for i := 0 to Rounds()
        invariant cs.Valid() && old(cs.wires) <= cs.wires && Below(xL, cs.wires) && Below(xR, cs.wires)
        invariant GatesAdded(old(cs.constraints), old(cs.wires), cs.constraints)
        invariant HoldsRounds(cs.constraints, left, right, i, xL, xR)
      {
        AllocatedMonotone(old(cs.wires), cs.wires);
        var t := if i == 0 then AddVars(k, xL) else AddVars(AddVars(k, xL), roundKeys[i]);
        ghost var before, wires := cs.constraints, cs.wires;
        var tn := RaiseToExponent(cs, t);
        NextRound(before, cs.constraints, left, right, i, xL, xR, t, tn);
        BelowMonotone(xL, wires, cs.wires);
        BelowMonotone(xR, wires, cs.wires);
        xL, xR := if i < Rounds() - 1 then AddVars(xR, tn) else xL, if i < Rounds() - 1 then xL else AddVars(xR, tn);
      }
      l, r := xL, xR;
    }

    // `generate_constraints`

    ghost predicate HoldsAbsorbed(cs: seq<Constraint>, state: seq<FpVar>, r: FpVar, c: FpVar)
    {
      forall w :: AllHold(cs, w) ==> Halves(r, c, w) == Absorb(At(w), EMPTY, EvalAll(state, w))
    }

    lemma AbsorbedNext(before: seq<Constraint>, cs: seq<Constraint>, state: seq<FpVar>, x: FpVar,
                       r: FpVar, c: FpVar, r': FpVar, c': FpVar)
      requires before <= cs
      requires HoldsAbsorbed(before, state, r, c)
      requires HoldsFeistel(cs, AddVars(r, x), c, r', c')
      ensures HoldsAbsorbed(cs, state + [x], r', c')
    {
      HoldEarlier(before, cs);
      forall w | AllHold(cs, w)
        ensures Halves(r', c', w) == Absorb(At(w), EMPTY, EvalAll(state + [x], w))
      {
        var values := EvalAll(state + [x], w);
        assert values[..|state|] == EvalAll(state, w);
        assert Halves(AddVars(r, x), c, w) == MimcSpec.State(Add(Eval(r, w), Eval(x, w)), Eval(c, w));
      }
    }

    /** What the outputs still to come are, `done` being those already given out. */
    ghost predicate HoldsSqueezed(cs: seq<Constraint>, rate: FpVar, capacity: FpVar,
                                  done: seq<FpVar>, r: FpVar, c: FpVar)
      requires (done == [] || |done| < numOutputs)
    {
      forall w :: AllHold(cs, w) ==>
        Squeeze(At(w), Halves(rate, capacity, w), numOutputs)
        == EvalAll(done, w) + Squeeze(At(w), Halves(r, c, w), numOutputs - |done|)
    }

    lemma SqueezedNext(before: seq<Constraint>, cs: seq<Constraint>, rate: FpVar, capacity: FpVar,
                       done: seq<FpVar>, r: FpVar, c: FpVar, r': FpVar, c': FpVar)
      requires before <= cs && |done| + 1 < numOutputs
      requires HoldsSqueezed(before, rate, capacity, done, r, c)
      requires HoldsFeistel(cs, r, c, r', c')
      ensures HoldsSqueezed(cs, rate, capacity, done + [r], r', c')
    {
      HoldEarlier(before, cs);
      forall w | AllHold(cs, w)
        ensures Squeeze(At(w), Halves(rate, capacity, w), numOutputs)
             == EvalAll(done + [r], w) + Squeeze(At(w), Halves(r', c', w), numOutputs - |done| - 1)
      {
        EvalAllSnoc(done, r, w);
        SqueezeMoves(At(w), EvalAll(done, w), Halves(r, c, w), numOutputs - |done|,
                     Squeeze(At(w), Halves(rate, capacity, w), numOutputs));
      }
    }

    lemma SqueezedLast(cs: seq<Constraint>, rate: FpVar, capacity: FpVar, done: seq<FpVar>, r: FpVar, c: FpVar)
      requires (if numOutputs <= 1 then done == [] else |done| == numOutputs - 1)
      requires HoldsSqueezed(cs, rate, capacity, done, r, c)
      ensures forall w :: AllHold(cs, w) ==>
                EvalAll(done + [r], w) == Squeeze(At(w), Halves(rate, capacity, w), numOutputs)
    {
      forall w | AllHold(cs, w)
        ensures EvalAll(done + [r], w) == Squeeze(At(w), Halves(rate, capacity, w), numOutputs)
      {
        EvalAllSnoc(done, r, w);
      }
    }

    lemma AllEvaluated(cs: seq<Constraint>, state: seq<FpVar>, rate: FpVar, capacity: FpVar, outputs: seq<FpVar>)
      requires HoldsAbsorbed(cs, state, rate, capacity)
      requires forall w :: AllHold(cs, w) ==>
                 EvalAll(outputs, w) == Squeeze(At(w), Halves(rate, capacity, w), numOutputs)
      ensures HoldsPermuted(cs, state, outputs)
    {
    }

    /** In every assignment that satisfies `cs`, the outputs are the native sponge's outputs on the
        assigned inputs, with the assigned keys. */
    ghost predicate HoldsPermuted(cs: seq<Constraint>, state: seq<FpVar>, outputs: seq<FpVar>)
    {
      forall w :: AllHold(cs, w) ==> EvalAll(outputs, w) == PermuteFeistel(At(w), EvalAll(state, w), numOutputs)
    }

    /** Whatever is assigned to the inputs, the gates have a solution, and in it the outputs are the
        native ones. */
    lemma SpongeHasWitness(before: seq<Constraint>, n: nat, cs: seq<Constraint>, m: nat,
                           state: seq<FpVar>, outputs: seq<FpVar>, w: Assignment) returns (w': Assignment)
      requires Allocated(n) && AllBelow(state, n)
      requires Ordered(before, n) && Ordered(cs, m) && GatesAdded(before, n, cs)
      requires HoldsPermuted(cs, state, outputs)
      requires AllHold(before, w) && m <= |w| && n <= |w|
      ensures AllHold(cs, w') && AgreeBelow(w, w', n)
      ensures EvalAll(outputs, w') == PermuteFeistel(At(w), EvalAll(state, w), numOutputs)
    {
      w' := GatesExtendSolution(before, n, cs, m, w);
      EvalAgrees(k, w, w', n);
      AllEvalAgree(roundKeys, w, w', n);
      AllEvalAgree(state, w, w', n);
    }

    method GenerateConstraints(cs: ConstraintSystem, state: seq<FpVar>) returns (outputs: seq<FpVar>)
      requires cs.Valid() && Allocated(cs.wires) && AllBelow(state, cs.wires)
      modifies cs
      ensures cs.Valid() && old(cs.wires) <= cs.wires
      ensures AllBelow(outputs, cs.wires) && |outputs| >= 1
      ensures GatesAdded(old(cs.constraints), old(cs.wires), cs.constraints)
      ensures HoldsPermuted(cs.constraints, state, outputs)
    {
      var r, c := AbsorbInputs(cs, state);
      AllocatedMonotone(old(cs.wires), cs.wires);
      ghost var before := cs.constraints;
      outputs := SqueezeOutputs(cs, r, c);
      HoldEarlier(before, cs.constraints);
      AllEvaluated(cs.constraints, state, r, c, outputs);
    }

    /** The first loop of `generate_constraints`. */
    method AbsorbInputs(cs: ConstraintSystem, state: seq<FpVar>) returns (r: FpVar, c: FpVar)
      requires cs.Valid() && Allocated(cs.wires) && AllBelow(state, cs.wires)
      modifies cs
      ensures cs.Valid() && old(cs.wires) <= cs.wires && Below(r, cs.wires) && Below(c, cs.wires)
      ensures GatesAdded(old(cs.constraints), old(cs.wires), cs.constraints)
      ensures HoldsAbsorbed(cs.constraints, state, r, c)
    {
      r, c := Constant(0), Constant(0);
      for i := 0 to |state|
        invariant cs.Valid() && old(cs.wires) <= cs.wires && Below(r, cs.wires) && Below(c, cs.wires)
        invariant GatesAdded(old(cs.constraints), old(cs.wires), cs.constraints)
        invariant HoldsAbsorbed(cs.constraints, state[..i], r, c)
      {
        BelowMonotone(state[i], old(cs.wires), cs.wires);
        AllocatedMonotone(old(cs.wires), cs.wires);
        ghost var before, r0, c0 := cs.constraints, r, c;
        r := AddVars(r, state[i]);
        r, c := Feistel(cs, r, c);
        AbsorbedNext(before, cs.constraints, state[..i], state[i], r0, c0, r, c);
        assert state[..i + 1] == state[..i] + [state[i]];
      }
      assert state[..|state|] == state;
    }

    /** The rest of `generate_constraints`: the rate is the first output, and every further one
        follows a permutation. */
    method SqueezeOutputs(cs: ConstraintSystem, rate: FpVar, capacity: FpVar) returns (outputs: seq<FpVar>)
      requires cs.Valid() && Allocated(cs.wires) && Below(rate, cs.wires) && Below(capacity, cs.wires)
      modifies cs
      ensures cs.Valid() && old(cs.wires) <= cs.wires
      ensures AllBelow(outputs, cs.wires) && |outputs| >= 1
      ensures GatesAdded(old(cs.constraints), old(cs.wires), cs.constraints)
      ensures forall w :: AllHold(cs.constraints, w) ==>
                EvalAll(outputs, w) == Squeeze(At(w), Halves(rate, capacity, w), numOutputs)
    {
      var r, c := rate, capacity;
      outputs := [r];
      ghost var done: seq<FpVar> := [];
      if numOutputs > 1 {
        for i := 1 to numOutputs
          invariant cs.Valid() && old(cs.wires) <= cs.wires && Below(r, cs.wires) && Below(c, cs.wires)
          invariant GatesAdded(old(cs.constraints), old(cs.wires), cs.constraints)
          invariant AllBelow(outputs, cs.wires) && outputs == done + [r] && |done| == i - 1
          invariant HoldsSqueezed(cs.constraints, rate, capacity, done, r, c)
        {
          AllocatedMonotone(old(cs.wires), cs.wires);
          ghost var before, wires, r0, c0 := cs.constraints, cs.wires, r, c;
          r, c := Feistel(cs, r, c);
          SqueezedNext(before, cs.constraints, rate, capacity, done, r0, c0, r, c);
          AllBelowMonotone(outputs, wires, cs.wires);
          done := outputs;
          outputs := outputs + [r];
        }
      }
      SqueezedLast(cs.constraints, rate, capacity, done, r, c);
    }
  }

  function Halves(r: FpVar, c: FpVar, w: Assignment): State {
    State(Eval(r, w), Eval(c, w))
  }

  lemma EvalAllSnoc(vars: seq<FpVar>, v: FpVar, w: Assignment)
    ensures EvalAll(vars + [v], w) == EvalAll(vars, w) + [Eval(v, w)]
  {
  }

  lemma AllEvalAgree(vars: seq<FpVar>, w: Assignment, w': Assignment, n: nat)
    requires AllBelow(vars, n) && AgreeBelow(w, w', n)
    ensures EvalAll(vars, w) == EvalAll(vars, w')
  {
    forall i | 0 <= i < |vars|
      ensures Eval(vars[i], w) == Eval(vars[i], w')
    {
      EvalAgrees(vars[i], w, w', n);
    }
  }

  lemma AllBelowMonotone(vars: seq<FpVar>, m: nat, n: nat)
    requires AllBelow(vars, m) && m <= n
    ensures AllBelow(vars, n)
  {
    forall i | 0 <= i < |vars|
      ensures Below(vars[i], n)
    {
      BelowMonotone(vars[i], m, n);
    }
  }
}

/** Rank-1 constraints over the field, with bytes and bits given their value semantics.

    A wire is a number; an assignment gives every wire a field element. Sums and multiples of wires
    are linear combinations and emit nothing; the product of two that are not constant emits one
    gate with a fresh output wire. */
module Constraints {
  import opened Bytes
  import opened Field
  import opened PackingSpec

  type Assignment = seq<Fr>

  datatype FpVar =
    | Constant(value: Fr)
    | Wire(index: nat)
    | Sum(a: FpVar, b: FpVar)
    | Scaled(factor: Fr, a: FpVar)

  function WireValue(w: Assignment, n: nat): Fr {
    if n < |w| then w[n] else 0
  }

  function Eval(v: FpVar, w: Assignment): Fr {
    match v
    case Constant(value) => value
    case Wire(index) => WireValue(w, index)
    case Sum(a, b) => Add(Eval(a, w), Eval(b, w))
    case Scaled(factor, a) => Mul(factor, Eval(a, w))
  }

  function EvalAll(vars: seq<FpVar>, w: Assignment): (values: seq<Fr>)
    ensures |values| == |vars|
    ensures forall i | 0 <= i < |vars| :: values[i] == Eval(vars[i], w)
  {
    seq(|vars|, i requires 0 <= i < |vars| => Eval(vars[i], w))
  }

  /** All wires of `v` are numbered below `n`. */
  predicate Below(v: FpVar, n: nat) {
    match v
    case Constant(_) => true
    case Wire(index) => index < n
    case Sum(a, b) => Below(a, n) && Below(b, n)
    case Scaled(_, a) => Below(a, n)
  }

  predicate AllBelow(vars: seq<FpVar>, n: nat) {
    forall i | 0 <= i < |vars| :: Below(vars[i], n)
  }

  lemma {:induction false} BelowMonotone(v: FpVar, m: nat, n: nat)
    requires Below(v, m) && m <= n
    ensures Below(v, n)
  {
    match v
    case Constant(_) =>
    case Wire(_) =>
    case Sum(a, b) =>
      BelowMonotone(a, m, n);
      BelowMonotone(b, m, n);
    case Scaled(_, a) =>
      BelowMonotone(a, m, n);
  }

  ghost predicate AgreeBelow(w: Assignment, w': Assignment, n: nat) {
    forall i | 0 <= i < n :: WireValue(w, i) == WireValue(w', i)
  }

  lemma {:induction false} EvalAgrees(v: FpVar, w: Assignment, w': Assignment, n: nat)
    requires Below(v, n) && AgreeBelow(w, w', n)
    ensures Eval(v, w) == Eval(v, w')
  {
    match v
    case Constant(_) =>
    case Wire(_) =>
    case Sum(a, b) =>
      EvalAgrees(a, w, w', n);
      EvalAgrees(b, w, w', n);
    case Scaled(_, a) =>
      EvalAgrees(a, w, w', n);
  }

  /** The sum of two variables; two constants give a constant. */
  function AddVars(a: FpVar, b: FpVar): FpVar {
    if a.Constant? && b.Constant? then Constant(Add(a.value, b.value)) else Sum(a, b)
  }

  datatype Constraint =
    | Product(a: FpVar, b: FpVar, out: nat)
    | Packed(bits: seq<bool>, out: nat)
    | PublicInput(expected: FpVar, out: nat)
    | BytesEqual(x: byte, y: byte)

  predicate Holds(c: Constraint, w: Assignment) {
    match c
    case Product(a, b, out) => Mul(Eval(a, w), Eval(b, w)) == WireValue(w, out)
    case Packed(bits, out) => WireValue(w, out) == Pack(bits)
    case PublicInput(expected, out) => WireValue(w, out) == Eval(expected, w)
    case BytesEqual(x, y) => x == y
  }

  predicate AllHold(cs: seq<Constraint>, w: Assignment) {
    forall i | 0 <= i < |cs| :: Holds(cs[i], w)
  }

  /** The constraints that do not mention a wire. */
  predicate BytesAgree(cs: seq<Constraint>) {
    forall i | 0 <= i < |cs| && cs[i].BytesEqual? :: cs[i].x == cs[i].y
  }

  /** `later` is `cs` followed by multiplication gates whose outputs are numbered from `n`. */
  predicate GatesAdded(cs: seq<Constraint>, n: nat, later: seq<Constraint>) {
    cs <= later && forall i | |cs| <= i < |later| :: later[i].Product? && n <= later[i].out
  }

  lemma HoldEarlier(cs: seq<Constraint>, later: seq<Constraint>)
    requires cs <= later
    ensures forall w :: AllHold(later, w) ==> AllHold(cs, w)
  {
    forall w | AllHold(later, w)
      ensures AllHold(cs, w)
    {
      assert forall i | 0 <= i < |cs| :: later[i] == cs[i];
    }
  }

  /** Every constraint but the byte comparisons defines a wire of its own from earlier wires. */
  predicate Ordered(cs: seq<Constraint>, n: nat)
    decreases |cs|
  {
    if cs == [] then true
    else
      var before, c := cs[..|cs| - 1], cs[|cs| - 1];
      match c
      case Product(a, b, out) => out < n && Below(a, out) && Below(b, out) && Ordered(before, out)
      case Packed(_, out) => out < n && Ordered(before, out)
      case PublicInput(expected, out) => out < n && Below(expected, out) && Ordered(before, out)
      case BytesEqual(_, _) => Ordered(before, n)
  }

  function DefinedValue(c: Constraint, w: Assignment): Fr
    requires !c.BytesEqual?
  {
    match c
    case Product(a, b, _) => Mul(Eval(a, w), Eval(b, w))
    case Packed(bits, _) => Pack(bits)
    case PublicInput(expected, _) => Eval(expected, w)
  }

  /** Solves the constraints one after the other, starting from the values of `w`. */
  function Complete(cs: seq<Constraint>, w: Assignment): (w': Assignment)
    ensures |w'| == |w|
    decreases |cs|
  {
    if cs == [] then w
    else
      var w1 := Complete(cs[..|cs| - 1], w);
      var c := cs[|cs| - 1];
      if c.BytesEqual? || c.out >= |w1| then w1 else w1[c.out := DefinedValue(c, w1)]
  }

  predicate Defines(cs: seq<Constraint>, n: nat) {
    exists i | 0 <= i < |cs| :: !cs[i].BytesEqual? && cs[i].out == n
  }

  lemma {:induction false} HoldAgrees(cs: seq<Constraint>, n: nat, w: Assignment, w': Assignment)
    requires Ordered(cs, n) && AgreeBelow(w, w', n)
    ensures forall i | 0 <= i < |cs| :: Holds(cs[i], w) == Holds(cs[i], w')
    decreases |cs|
  {
    if cs != [] {
      var before, c := cs[..|cs| - 1], cs[|cs| - 1];
      match c {
        case Product(a, b, out) =>
          EvalAgrees(a, w, w', out);
          EvalAgrees(b, w, w', out);
          HoldAgrees(before, out, w, w');
        case Packed(_, out) =>
          HoldAgrees(before, out, w, w');
        case PublicInput(expected, out) =>
          EvalAgrees(expected, w, w', out);
          HoldAgrees(before, out, w, w');
        case BytesEqual(_, _) =>
          HoldAgrees(before, n, w, w');
      }
      assert forall i | 0 <= i < |before| :: cs[i] == before[i];
    }
  }

  /** A satisfying assignment exists for any values of the wires that nothing defines: the
      completion satisfies every constraint, as soon as the byte comparisons hold. */
  lemma {:induction false} CompletionSatisfies(cs: seq<Constraint>, n: nat, w: Assignment)
    requires Ordered(cs, n) && n <= |w| && BytesAgree(cs)
    ensures AllHold(cs, Complete(cs, w))
    ensures forall k | 0 <= k < |w| && !Defines(cs, k) :: Complete(cs, w)[k] == w[k]
    decreases |cs|
  {
    if cs != [] {
      var before, c := cs[..|cs| - 1], cs[|cs| - 1];
      assert cs == before + [c];
      assert BytesAgree(before);
      CompletionSatisfies(before, if c.BytesEqual? then n else c.out, w);
      DefinesMore(before, c);
      if c.BytesEqual? {
        assert Holds(c, Complete(before, w));
      } else {
        CompletionStep(before, c, Complete(before, w));
      }
    }
  }

  lemma DefinesMore(before: seq<Constraint>, c: Constraint)
    ensures forall k :: Defines(before, k) ==> Defines(before + [c], k)
    ensures !c.BytesEqual? ==> Defines(before + [c], c.out)
  {
    var cs := before + [c];
    assert cs[|before|] == c;
    forall k | Defines(before, k)
      ensures Defines(cs, k)
    {
      var i :| 0 <= i < |before| && !before[i].BytesEqual? && before[i].out == k;
      assert cs[i] == before[i];
    }
  }

  lemma CompletionStep(before: seq<Constraint>, c: Constraint, w: Assignment)
    requires !c.BytesEqual? && c.out < |w| && Ordered(before, c.out) && AllHold(before, w)
    requires c.Product? ==> Below(c.a, c.out) && Below(c.b, c.out)
    requires c.PublicInput? ==> Below(c.expected, c.out)
    ensures AllHold(before + [c], w[c.out := DefinedValue(c, w)])
  {
    var w' := w[c.out := DefinedValue(c, w)];
    assert AgreeBelow(w, w', c.out);
    HoldAgrees(before, c.out, w, w');
    DefinedHolds(c, w, w');
  }

  lemma DefinedHolds(c: Constraint, w1: Assignment, w2: Assignment)
    requires !c.BytesEqual? && c.out < |w1| && w2 == w1[c.out := DefinedValue(c, w1)]
    requires c.Product? ==> Below(c.a, c.out) && Below(c.b, c.out)
    requires c.PublicInput? ==> Below(c.expected, c.out)
    ensures Holds(c, w2)
  {
    assert AgreeBelow(w1, w2, c.out);
    match c
    case Product(a, b, out) =>
      EvalAgrees(a, w1, w2, out);
      EvalAgrees(b, w1, w2, out);
    case Packed(_, _) =>
    case PublicInput(expected, out) =>
      EvalAgrees(expected, w1, w2, out);
  }

  /** Only one: assignments that satisfy the constraints and agree on the undefined wires agree. */
  lemma {:induction false} SolutionIsUnique(cs: seq<Constraint>, n: nat, w: Assignment, w': Assignment)
    requires Ordered(cs, n) && AllHold(cs, w) && AllHold(cs, w')
    requires forall k | 0 <= k < n && !Defines(cs, k) :: WireValue(w, k) == WireValue(w', k)
    ensures AgreeBelow(w, w', n)
    decreases |cs|
  {
    if cs != [] {
      var before, c := cs[..|cs| - 1], cs[|cs| - 1];
      assert forall i | 0 <= i < |before| :: cs[i] == before[i];
      assert Holds(c, w) && Holds(c, w');
      if c.BytesEqual? {
        assert forall k :: Defines(cs, k) ==> Defines(before, k);
        SolutionIsUnique(before, n, w, w');
      } else {
        assert forall k :: Defines(cs, k) ==> Defines(before, k) || k == c.out;
        SolutionIsUnique(before, c.out, w, w');
        OnlyEarlier(before, c.out);
        match c {
          case Product(a, b, out) =>
            EvalAgrees(a, w, w', out);
            EvalAgrees(b, w, w', out);
          case Packed(_, _) =>
          case PublicInput(expected, out) =>
            EvalAgrees(expected, w, w', out);
        }
      }
    }
  }

  lemma {:induction false} OnlyEarlier(cs: seq<Constraint>, n: nat)
    requires Ordered(cs, n)
    ensures forall k | n <= k :: !Defines(cs, k)
    decreases |cs|
  {
    if cs != [] {
      var before, c := cs[..|cs| - 1], cs[|cs| - 1];
      var bound := if c.BytesEqual? then n else c.out;
      OnlyEarlier(before, bound);
      forall k | n <= k
        ensures !Defines(cs, k)
      {
        if Defines(cs, k) {
          var i :| 0 <= i < |cs| && !cs[i].BytesEqual? && cs[i].out == k;
          assert i < |before| ==> cs[i] == before[i];
          assert Defines(before, k);
        }
      }
    }
  }

  /** Added gates never rule out a solution: every assignment that satisfies the constraints before
      them extends to one that satisfies all, with the earlier wires unchanged. */
  lemma GatesExtendSolution(cs: seq<Constraint>, n: nat, later: seq<Constraint>, m: nat, w: Assignment)
    returns (w': Assignment)
    requires Ordered(cs, n) && Ordered(later, m) && GatesAdded(cs, n, later)
    requires AllHold(cs, w) && m <= |w| && n <= |w|
    ensures AllHold(later, w') && AgreeBelow(w, w', n)
  {
    w' := Complete(later, w);
    forall i | 0 <= i < |later| && later[i].BytesEqual?
      ensures later[i].x == later[i].y
    {
      assert Holds(cs[i], w);
    }
    CompletionSatisfies(later, m, w);
    HoldEarlier(cs, later);
    assert forall i | 0 <= i < |cs| :: cs[i] == later[i];
    assert forall k | 0 <= k < n && !Defines(cs, k) :: !Defines(later, k);
    SolutionIsUnique(cs, n, w, w');
  }

  /** The shared constraint system that gadgets add to. */
  class ConstraintSystem {
    var wires: nat
    var constraints: seq<Constraint>

    constructor ()
      ensures wires == 0 && constraints == []
    {
      wires := 0;
      constraints := [];
    }

    ghost predicate Valid()
      reads this
    {
      Ordered(constraints, wires)
    }

    /** The product of two variables: a constant factor only scales, anything else is one gate. */
    method Multiply(a: FpVar, b: FpVar) returns (v: FpVar)
      requires Valid() && Below(a, wires) && Below(b, wires)
      modifies this
      ensures Valid() && Below(v, wires)
      ensures a.Constant? || b.Constant? ==> wires == old(wires) && constraints == old(constraints)
      ensures !a.Constant? && !b.Constant? ==>
                v == Wire(old(wires)) && wires == old(wires) + 1
                && constraints == old(constraints) + [Product(a, b, old(wires))]
      ensures forall w :: AllHold(constraints, w) ==> Eval(v, w) == Mul(Eval(a, w), Eval(b, w))
    {
      if a.Constant? && b.Constant? {
        v := Constant(Mul(a.value, b.value));
      } else if a.Constant? {
        v := Scaled(a.value, b);
      } else if b.Constant? {
        v := Scaled(b.value, a);
        forall w
          ensures Eval(v, w) == Mul(Eval(a, w), Eval(b, w))
        {
          MulComm(b.value, Eval(a, w));
        }
      } else {
        v := Wire(wires);
        Define(Product(a, b, wires));
      }
    }

    /** `Boolean::le_bits_to_fp`, for chunks below the bit length of the field. */
    method PackBits(bits: seq<bool>) returns (v: FpVar)
      requires Valid() && |bits| < FIELD_BITS
      modifies this
      ensures Valid() && v == Wire(old(wires)) && wires == old(wires) + 1
      ensures constraints == old(constraints) + [Packed(bits, old(wires))]
    {
      v := Wire(wires);
      Define(Packed(bits, wires));
    }

    /** `new_input` followed by `enforce_equal` with the variable it must equal. */
    method NewInput(expected: FpVar) returns (index: nat)
      requires Valid() && Below(expected, wires)
      modifies this
      ensures Valid() && index == old(wires) && wires == old(wires) + 1
      ensures constraints == old(constraints) + [PublicInput(expected, old(wires))]
    {
      index := wires;
      Define(PublicInput(expected, wires));
    }

    /** `enforce_equal` on two bytes. */
    method EnforceBytesEqual(x: byte, y: byte)
      requires Valid()
      modifies this
      ensures Valid() && wires == old(wires)
      ensures constraints == old(constraints) + [BytesEqual(x, y)]
    {
      constraints := constraints + [BytesEqual(x, y)];
      assert constraints[..|constraints| - 1] == old(constraints);
    }

    method Define(c: Constraint)
      requires Valid() && !c.BytesEqual? && c.out == wires
      requires c.Product? ==> Below(c.a, wires) && Below(c.b, wires)
      requires c.PublicInput? ==> Below(c.expected, wires)
      modifies this
      ensures Valid() && wires == old(wires) + 1 && constraints == old(constraints) + [c]
    {
      constraints := constraints + [c];
      wires := wires + 1;
      assert constraints[..|constraints| - 1] == old(constraints);
    }
  }
}

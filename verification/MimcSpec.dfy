/** The MiMC Feistel sponge as a network of crossing rounds, and its inverse. The table of round
    keys, the number of rounds and the exponent are parameters. */
module MimcSpec {
  import opened Field

  datatype Params = Params(exponent: nat, k: Fr, keys: seq<Fr>) {
    /** One round for every key of the table. */
    function Rounds(): nat {
      |keys|
    }
  }

  /** The rate and the capacity of the sponge: the two halves of the Feistel network. */
  datatype State = State(r: Fr, c: Fr)

  function Power(t: Fr, n: nat): Fr {
    if n == 0 then 1 else Mul(Power(t, n - 1), t)
  }

  /** The power of a natural number. */
  function Exp(t: nat, n: nat): nat {
    if n == 0 then 1 else Exp(t, n - 1) * t
  }

  lemma {:induction false} ReducedBase(t: nat, n: nat)
    ensures Exp(t % MODULUS, n) % MODULUS == Exp(t, n) % MODULUS
  {
    if n > 0 {
      var p, q, x := Exp(t, n - 1), Exp(t % MODULUS, n - 1), t % MODULUS;
      ReducedBase(t, n - 1);
      ReducedFactor(q, x);
      ReducedFactor(p, x);
      ReducedFactor(t, p);
      assert x * p == p * x && t * p == p * t;
    }
  }

  lemma NextPower(x: Fr, t: Fr, p: nat)
    requires x == p % MODULUS
    ensures Mul(x, t) == (p * t) % MODULUS
  {
    MulIsModular(x, t, x * t);
    ReducedFactor(p, t);
  }

  /** The power in the field is the power of the number, modulo the order. */
  lemma {:induction false} PowerIsModular(t: Fr, n: nat)
    ensures Power(t, n) == Exp(t, n) % MODULUS
  {
    if n > 0 {
      PowerIsModular(t, n - 1);
      NextPower(Power(t, n - 1), t, Exp(t, n - 1));
    }
  }

  /** The first round has no round key. */
  function RoundKey(p: Params, i: nat): Fr
    requires i < p.Rounds()
  {
    if i == 0 then 0 else p.keys[i]
  }

  function RoundFunction(p: Params, i: nat, x: Fr): Fr
    requires i < p.Rounds()
  {
    Power(Add(Add(p.k, x), RoundKey(p, i)), p.exponent)
  }

  /** One round: the right half is masked, then the halves change places. */
  function Cross(p: Params, i: nat, s: State): State
    requires i < p.Rounds()
  {
    State(Add(s.c, RoundFunction(p, i, s.r)), s.r)
  }

  function Uncross(p: Params, i: nat, s: State): State
    requires i < p.Rounds()
  {
    State(s.c, Sub(s.r, RoundFunction(p, i, s.c)))
  }

  function Network(p: Params, s: State, n: nat): State
    requires n <= p.Rounds()
    decreases n
  {
    if n == 0 then s else Cross(p, n - 1, Network(p, s, n - 1))
  }

  function UndoNetwork(p: Params, s: State, n: nat): State
    requires n <= p.Rounds()
    decreases n
  {
    if n == 0 then s else UndoNetwork(p, Uncross(p, n - 1, s), n - 1)
  }

  function Swap(s: State): State {
    State(s.c, s.r)
  }

  /** The last round does not exchange the halves, so the network's last exchange is taken back. */
  function Feistel(p: Params, s: State): State
  {
    if p.Rounds() == 0 then s else Swap(Network(p, s, p.Rounds()))
  }

  /** The halves after `i` rounds of the loop, the last of which does not exchange them. */
  function AfterRounds(p: Params, s: State, i: nat): State
    requires i <= p.Rounds()
  {
    if 0 < i == p.Rounds() then Feistel(p, s) else Network(p, s, i)
  }

  lemma RoundStep(p: Params, s: State, i: nat, xL: Fr, xR: Fr, tn: Fr)
    requires i < p.Rounds()
    requires State(xL, xR) == AfterRounds(p, s, i) && tn == RoundFunction(p, i, xL)
    ensures AfterRounds(p, s, i + 1) == if i < p.Rounds() - 1 then State(Add(xR, tn), xL) else State(xL, Add(xR, tn))
  {
  }

  // The network as a recurrence on numbers.

  /** The term one but last, plus a power. */
  function NextTerm(c: Fr, base: nat, n: nat): Fr {
    (c + Exp(base, n)) % MODULUS
  }

  /** The two halves are consecutive terms: the base of the power is the last term, plus the constant and
      the key of the round; the first round has no key. */
  function Term(p: Params, s: State, i: nat): Fr
    requires i <= p.Rounds() + 1
  {
    if i == 0 then s.c
    else if i == 1 then s.r
    else NextTerm(Term(p, s, i - 2), p.k + Term(p, s, i - 1) + (if i == 2 then 0 else p.keys[i - 2]), p.exponent)
  }

  lemma BaseIsNumeric(k: Fr, x: Fr, key: Fr, base: nat)
    requires base == k + x + key
    ensures Add(Add(k, x), key) == base % MODULUS
  {
    AddIsModular(k, x, k + x);
    NextResidue(k + x, Add(k, x), key, base);
  }

  lemma MaskIsNumeric(t: Fr, n: nat, base: nat)
    requires t == base % MODULUS
    ensures Power(t, n) == Exp(base, n) % MODULUS
  {
    PowerIsModular(t, n);
    ReducedBase(base, n);
  }

  lemma RoundIsNumeric(c: Fr, t: Fr, base: nat, n: nat)
    requires t == base % MODULUS
    ensures Add(c, Power(t, n)) == NextTerm(c, base, n)
  {
    MaskIsNumeric(t, n, base);
    NextResidue(Exp(base, n), Power(t, n), c, c + Exp(base, n));
    AddComm(c, Power(t, n));
  }

  lemma CrossIsNumeric(p: Params, i: nat, s: State, base: nat)
    requires i < p.Rounds() && base == p.k + s.r + RoundKey(p, i)
    ensures Cross(p, i, s) == State(NextTerm(s.c, base, p.exponent), s.r)
  {
    BaseIsNumeric(p.k, s.r, RoundKey(p, i), base);
    RoundIsNumeric(s.c, Add(Add(p.k, s.r), RoundKey(p, i)), base, p.exponent);
  }

  lemma {:induction false} NetworkIsRecurrence(p: Params, s: State, n: nat)
    requires n <= p.Rounds()
    ensures Network(p, s, n) == State(Term(p, s, n + 1), Term(p, s, n))
  {
    if n > 0 {
      NetworkIsRecurrence(p, s, n - 1);
      CrossIsNumeric(p, n - 1, Network(p, s, n - 1), p.k + Term(p, s, n) + RoundKey(p, n - 1));
    }
  }

  function Recurrence(p: Params, s: State): State {
    if p.Rounds() == 0 then s else State(Term(p, s, p.Rounds()), Term(p, s, p.Rounds() + 1))
  }

  /** The permutation computes the last two terms, in this order. */
  lemma FeistelIsRecurrence(p: Params, s: State)
    ensures Feistel(p, s) == Recurrence(p, s)
  {
    NetworkIsRecurrence(p, s, p.Rounds());
  }

  function UndoFeistel(p: Params, s: State): State
  {
    if p.Rounds() == 0 then s else UndoNetwork(p, Swap(s), p.Rounds())
  }

  lemma CrossInverts(p: Params, i: nat, s: State)
    requires i < p.Rounds()
    ensures Uncross(p, i, Cross(p, i, s)) == s
    ensures Cross(p, i, Uncross(p, i, s)) == s
  {
    AddSub(s.c, RoundFunction(p, i, s.r));
    SubAdd(s.r, RoundFunction(p, i, s.c));
  }

  lemma {:induction false} UndoAfterNetwork(p: Params, s: State, n: nat)
    requires n <= p.Rounds()
    ensures UndoNetwork(p, Network(p, s, n), n) == s
    decreases n
  {
    if n > 0 {
      CrossInverts(p, n - 1, Network(p, s, n - 1));
      UndoAfterNetwork(p, s, n - 1);
    }
  }

  lemma {:induction false} NetworkAfterUndo(p: Params, s: State, n: nat)
    requires n <= p.Rounds()
    ensures Network(p, UndoNetwork(p, s, n), n) == s
    decreases n
  {
    if n > 0 {
      CrossInverts(p, n - 1, s);
      NetworkAfterUndo(p, Uncross(p, n - 1, s), n - 1);
    }
  }

  /** The permutation is a bijection on pairs of field elements, whatever the rounds, the exponent
      and the keys. */
  lemma FeistelIsBijection(p: Params, s: State)
    ensures UndoFeistel(p, Feistel(p, s)) == s
    ensures Feistel(p, UndoFeistel(p, s)) == s
  {
    UndoAfterNetwork(p, s, p.Rounds());
    NetworkAfterUndo(p, Swap(s), p.Rounds());
  }

  // The sponge.

  const EMPTY: State := State(0, 0)

  function AbsorbOne(p: Params, s: State, x: Fr): State
  {
    Feistel(p, State(Add(s.r, x), s.c))
  }

  function Absorb(p: Params, s: State, inputs: seq<Fr>): State
    decreases |inputs|
  {
    if inputs == [] then s
    else AbsorbOne(p, Absorb(p, s, inputs[..|inputs| - 1]), inputs[|inputs| - 1])
  }

  /** The rate of the state, and of the states that follow it. */
  function Squeeze(p: Params, s: State, n: nat): (outputs: seq<Fr>)
    ensures |outputs| == if n <= 1 then 1 else n
    decreases n
  {
    if n <= 1 then [s.r] else [s.r] + Squeeze(p, Feistel(p, s), n - 1)
  }

  /** One output more is given out. */
  lemma SqueezeMoves(p: Params, done: seq<Fr>, s: State, n: nat, all: seq<Fr>)
    requires n > 1 && all == done + Squeeze(p, s, n)
    ensures all == (done + [s.r]) + Squeeze(p, Feistel(p, s), n - 1)
  {
    Regrouped(done, s.r, Squeeze(p, Feistel(p, s), n - 1), Squeeze(p, s, n));
  }

  lemma Regrouped(done: seq<Fr>, r: Fr, tail: seq<Fr>, rest: seq<Fr>)
    requires rest == [r] + tail
    ensures done + rest == (done + [r]) + tail
  {
  }

  function PermuteFeistel(p: Params, inputs: seq<Fr>, numOutputs: nat): (outputs: seq<Fr>)
    ensures |outputs| >= 1
  {
    Squeeze(p, Absorb(p, EMPTY, inputs), numOutputs)
  }

  /** The sponge over time: turn `i` adds the input with this number to the rate, as long as there is
      one, and permutes. */
  function Turns(p: Params, inputs: seq<Fr>, i: nat): State {
    if i == 0 then State(0, 0)
    else
      var s := Turns(p, inputs, i - 1);
      Recurrence(p, State(if i <= |inputs| then (s.r + inputs[i - 1]) % MODULUS else s.r, s.c))
  }

  lemma {:induction false} AbsorbIsTurns(p: Params, inputs: seq<Fr>, i: nat)
    requires i <= |inputs|
    ensures Absorb(p, EMPTY, inputs[..i]) == Turns(p, inputs, i)
  {
    if i > 0 {
      var s := Turns(p, inputs, i - 1);
      AbsorbIsTurns(p, inputs, i - 1);
      assert inputs[..i][..i - 1] == inputs[..i - 1];
      TurnAbsorbs(p, s, inputs[i - 1]);
    }
  }

  lemma TurnAbsorbs(p: Params, s: State, x: Fr)
    ensures AbsorbOne(p, s, x) == Recurrence(p, State((s.r + x) % MODULUS, s.c))
  {
    AddIsModular(s.r, x, s.r + x);
    FeistelIsRecurrence(p, State(Add(s.r, x), s.c));
  }

  lemma {:induction false} SqueezeIsTurns(p: Params, inputs: seq<Fr>, i: nat, n: nat, j: nat)
    requires |inputs| <= i && j < |Squeeze(p, Turns(p, inputs, i), n)|
    ensures Squeeze(p, Turns(p, inputs, i), n)[j] == Turns(p, inputs, i + j).r
    decreases n
  {
    if n > 1 && j > 0 {
      FeistelIsRecurrence(p, Turns(p, inputs, i));
      assert Turns(p, inputs, i + 1) == Feistel(p, Turns(p, inputs, i));
      SqueezeIsTurns(p, inputs, i + 1, n - 1, j - 1);
    }
  }

  /** Output `j` is the rate after one turn for every input and `j` more; there is always an output. */
  lemma SpongeIsTurns(p: Params, inputs: seq<Fr>, numOutputs: nat)
    ensures |PermuteFeistel(p, inputs, numOutputs)| == if numOutputs <= 1 then 1 else numOutputs
    ensures forall j | 0 <= j < |PermuteFeistel(p, inputs, numOutputs)| ::
              PermuteFeistel(p, inputs, numOutputs)[j] == Turns(p, inputs, |inputs| + j).r
  {
    AbsorbIsTurns(p, inputs, |inputs|);
    assert inputs[..|inputs|] == inputs;
    forall j | 0 <= j < |PermuteFeistel(p, inputs, numOutputs)|
      ensures PermuteFeistel(p, inputs, numOutputs)[j] == Turns(p, inputs, |inputs| + j).r
    {
      SqueezeIsTurns(p, inputs, |inputs|, numOutputs, j);
    }
  }

  lemma {:induction false} AbsorbConcat(p: Params, s: State, xs: seq<Fr>, ys: seq<Fr>)
    ensures Absorb(p, s, xs + ys) == Absorb(p, Absorb(p, s, xs), ys)
    decreases |ys|
  {
    if ys == [] {
      assert xs + ys == xs;
    } else {
      var front := ys[..|ys| - 1];
      assert (xs + ys)[..|xs + ys| - 1] == xs + front;
      AbsorbConcat(p, s, xs, front);
    }
  }

  lemma AbsorbOneInjective(p: Params, s: State, t: State, x: Fr, y: Fr)
    requires AbsorbOne(p, s, x) == AbsorbOne(p, t, y)
    ensures State(Add(s.r, x), s.c) == State(Add(t.r, y), t.c)
  {
    FeistelIsBijection(p, State(Add(s.r, x), s.c));
    FeistelIsBijection(p, State(Add(t.r, y), t.c));
  }

  /** For a fixed input, absorbing is injective in the state it starts from. */
  lemma {:induction false} AbsorbKeepsApart(p: Params, s: State, t: State, inputs: seq<Fr>)
    requires s != t
    ensures Absorb(p, s, inputs) != Absorb(p, t, inputs)
    decreases |inputs|
  {
    if inputs != [] {
      var last := inputs[|inputs| - 1];
      var s', t' := Absorb(p, s, inputs[..|inputs| - 1]), Absorb(p, t, inputs[..|inputs| - 1]);
      AbsorbKeepsApart(p, s, t, inputs[..|inputs| - 1]);
      if AbsorbOne(p, s', last) == AbsorbOne(p, t', last) {
        AbsorbOneInjective(p, s', t', last, last);
        AddComm(s'.r, last);
        AddComm(t'.r, last);
        AddCancels(last, s'.r, t'.r);
      }
    }
  }

  /** Inputs of the same length that differ in exactly one element leave the sponge in different
      states, from any start. */
  lemma OneDifferenceSeparates(p: Params, s: State, xs: seq<Fr>, ys: seq<Fr>, j: nat)
    requires |xs| == |ys| && j < |xs|
    requires xs[j] != ys[j] && forall i | 0 <= i < |xs| && i != j :: xs[i] == ys[i]
    ensures Absorb(p, s, xs) != Absorb(p, s, ys)
  {
    var before := Absorb(p, s, xs[..j]);
    var rest := xs[j + 1..];
    assert xs[..j] == ys[..j] && rest == ys[j + 1..];
    if AbsorbOne(p, before, xs[j]) == AbsorbOne(p, before, ys[j]) {
      AbsorbOneInjective(p, before, before, xs[j], ys[j]);
      AddCancels(before.r, xs[j], ys[j]);
    }
    AbsorbThree(p, s, xs, j);
    AbsorbThree(p, s, ys, j);
    AbsorbKeepsApart(p, AbsorbOne(p, before, xs[j]), AbsorbOne(p, before, ys[j]), rest);
  }

  lemma AbsorbThree(p: Params, s: State, xs: seq<Fr>, j: nat)
    requires j < |xs|
    ensures Absorb(p, s, xs) == Absorb(p, AbsorbOne(p, Absorb(p, s, xs[..j]), xs[j]), xs[j + 1..])
  {
    assert xs == xs[..j + 1] + xs[j + 1..];
    AbsorbConcat(p, s, xs[..j + 1], xs[j + 1..]);
    assert xs[..j + 1][..j] == xs[..j];
  }
}

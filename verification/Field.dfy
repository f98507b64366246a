/** The BN254 scalar field, as residues modulo its order. */
module Field {
  import opened Sequences

  const MODULUS: nat := 21888242871839275222246405745257275088548364400416034343698204186575808495617
  /** The parameter `u` of the BN254 curve. */
  const CURVE: nat := 4965661367192848881
  /** `MODULUS` lies between 2^253 and 2^254. */
  const FIELD_BITS: nat := 254

  type Fr = x: nat | x < MODULUS

  function Add(a: Fr, b: Fr): Fr {
    if a + b >= MODULUS then a + b - MODULUS else a + b
  }

  function Sub(a: Fr, b: Fr): Fr {
    if a >= b then a - b else a + MODULUS - b
  }

  /** The order is that of the Barreto-Naehrig curve with this parameter. */
  lemma OrderOfCurve()
    ensures MODULUS == 36 * CURVE * CURVE * CURVE * CURVE + 36 * CURVE * CURVE * CURVE + 18 * CURVE * CURVE + 6 * CURVE + 1
  {
  }

  /** The product, by repeated addition. */
  function Mul(a: Fr, b: Fr): Fr {
    if b == 0 then 0 else Add(Mul(a, b - 1), a)
  }

  lemma AddSub(a: Fr, b: Fr)
    ensures Sub(Add(a, b), b) == a
  {
  }

  lemma SubAdd(a: Fr, b: Fr)
    ensures Add(b, Sub(a, b)) == a && Add(Sub(a, b), b) == a
  {
  }

  lemma AddComm(a: Fr, b: Fr)
    ensures Add(a, b) == Add(b, a)
  {
  }

  lemma AddCancels(a: Fr, b: Fr, c: Fr)
    ensures Add(a, b) == Add(a, c) ==> b == c
  {
  }

  lemma {:induction false} MulOne(a: Fr)
    ensures Mul(1, a) == a
  {
    if a > 0 {
      MulOne(a - 1);
    }
  }

  lemma AddResidues(m: nat, n: nat)
    ensures Add(m % MODULUS, n % MODULUS) == (m + n) % MODULUS
  {
  }

  lemma NextResidue(p: nat, x: Fr, a: Fr, q: nat)
    requires x == p % MODULUS && q == p + a
    ensures Add(x, a) == q % MODULUS
  {
    AddResidues(p, a);
  }

  lemma AddIsModular(a: Fr, b: Fr, sum: nat)
    requires sum == a + b
    ensures Add(a, b) == sum % MODULUS
  {
  }

  lemma {:induction false} MulIsTimes(a: Fr, b: Fr, times: nat)
    requires times == Times(a, b)
    ensures Mul(a, b) == times % MODULUS
    decreases b
  {
    if b > 0 {
      MulIsTimes(a, b - 1, times - a);
      NextResidue(times - a, Mul(a, b - 1), a, times);
    }
  }

  /** The product is that of the numbers, modulo the order of the field. */
  lemma MulIsModular(a: Fr, b: Fr, product: nat)
    requires product == a * b
    ensures Mul(a, b) == product % MODULUS
  {
    TimesIsProduct(a, b);
    MulIsTimes(a, b, product);
  }

  lemma {:induction false} MultipleOfModulus(q: nat, y: nat)
    ensures (q * MODULUS + y) % MODULUS == y % MODULUS
  {
    if q > 0 {
      MultipleOfModulus(q - 1, y);
      assert q * MODULUS == (q - 1) * MODULUS + MODULUS;
    }
  }

  /** A factor may be reduced before multiplying. */
  lemma ReducedFactor(a: nat, b: nat)
    ensures ((a % MODULUS) * b) % MODULUS == (a * b) % MODULUS
  {
    var q, x := a / MODULUS, a % MODULUS;
    assert a == q * MODULUS + x;
    Distributes(q, x, b);
    MultipleOfModulus(q * b, x * b);
  }

  lemma Distributes(q: nat, x: nat, b: nat)
    ensures (q * MODULUS + x) * b == (q * b) * MODULUS + x * b
  {
  }

  lemma MulComm(a: Fr, b: Fr)
    ensures Mul(a, b) == Mul(b, a)
  {
    var product := a * b;
    assert product == b * a;
    MulIsModular(a, b, product);
    MulIsModular(b, a, product);
  }
}

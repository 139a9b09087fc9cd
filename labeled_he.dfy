/**
 * The labeled homomorphic encryption backend that the controllers call
 * (he_encrypt, he_decrypt, he_eval_add, he_eval_sub, he_eval_mult and
 * he_eval_mult_3 of LabeledHE/labeled_he.h), at the level of plaintexts.
 *
 * The backend's own source is not part of this model. What is modelled is
 * the construction the controllers rely on: a labeled ciphertext of m is a
 * pair (a, beta) where b is the blinding value derived from the label,
 * a = m - b mod 2^msgsize and beta is a Joye-Libert encryption of b. A
 * multiplication turns pairs into one Joye-Libert ciphertext of
 * m1*m2 - b1*b2 (or m1*m2*m3 - b1*b2*b3), which the label holder decrypts by
 * adding the product of the blinding values back. Each operation states what
 * its result decrypts to. The controller proofs, the integral accumulator's
 * fold with EvalAdd included, use those contracts and no operation's body.
 *
 * A Joye-Libert ciphertext is represented by an integer congruent to its
 * plaintext modulo 2^msgsize. Its randomness, the modulus N and the
 * rerandomisation parameter y have no effect on plaintexts and are carried
 * only where the source passes them.
 */
module LabeledHe {
  import opened ModArith

  /** The C type uint32_t. */
  newtype uint32 = x: int | 0 <= x < 0x1_0000_0000

  function Pow2(k: nat): (p: nat)
    ensures p >= 1
  {
    if k == 0 then 1 else 2 * Pow2(k - 1)
  }

  /** The plaintext space 2^msgsize (`ptspace` in the driver): 1 for an
      empty message, doubling with every further bit. */
  function PtSpace(msgsize: uint32): (p: nat)
    ensures p >= 1
    ensures msgsize == 0 ==> p == 1
  {
    Pow2(msgsize as nat)
  }

  /** Each further bit of message size doubles the plaintext space. */
  lemma PtSpaceDoubles(msgsize: uint32)
    requires msgsize >= 1
    ensures PtSpace(msgsize) == 2 * PtSpace(msgsize - 1)
  {
  }

  /** A Joye-Libert ciphertext: the single mpz_t of products, the integral
      accumulator, the control output and the encrypted cross terms. */
  datatype JlCt = JlCt(m: int)

  /** A labeled ciphertext, the he_ct pair of the source. */
  datatype HeCt = HeCt(a: int, beta: JlCt)

  // The additively homomorphic Joye-Libert layer.

  /** joye_libert_encrypt: whatever the message size, the ciphertext
      decrypts to x reduced into the plaintext space. */
  function JlEncrypt(x: int): (c: JlCt)
    ensures forall msgsize: uint32 :: JlDecrypt(c, msgsize) == x % PtSpace(msgsize)
  {
    JlCt(x)
  }

  function JlDecrypt(c: JlCt, msgsize: uint32): int
  {
    c.m % PtSpace(msgsize)
  }

  /** Multiplying two ciphertexts modulo N adds their plaintexts. */
  function JlAdd(c1: JlCt, c2: JlCt): JlCt
  {
    JlCt(c1.m + c2.m)
  }

  /** Dividing two ciphertexts modulo N subtracts their plaintexts. */
  function JlSub(c1: JlCt, c2: JlCt): JlCt
  {
    JlCt(c1.m - c2.m)
  }

  /** Raising a ciphertext to the public power k scales its plaintext. */
  function JlScale(c: JlCt, k: int): JlCt
  {
    JlCt(k * c.m)
  }

  // The labeled layer.

  /** The blinding value b of a labeled ciphertext, which the label holder
      recomputes from the label and which beta encrypts. */
  function Blind(c: HeCt): int
  {
    c.beta.m
  }

  /** The plaintext a labeled ciphertext stands for. */
  function Plaintext(c: HeCt, msgsize: uint32): int
  {
    (c.a + Blind(c)) % PtSpace(msgsize)
  }

  /** he_encrypt: `b` is the blinding value the pseudorandom stream yields
      for the label, returned to the caller as the source's `b` out-parameter. */
  function Encrypt(m: int, b: int, msgsize: uint32): (c: HeCt)
    ensures Blind(c) == b
    ensures Plaintext(c, msgsize) == m % PtSpace(msgsize)
  {
    var p := PtSpace(msgsize);
    ModAddLeft(m - b, b, p);
    HeCt((m - b) % p, JlEncrypt(b))
  }

  /** he_decrypt: the plaintext of a product-level ciphertext, given the
      product `b` of the blinding values of its factors. */
  function Decrypt(c: JlCt, b: int, msgsize: uint32): (u: int)
    ensures 0 <= u < PtSpace(msgsize)
  {
    (c.m + b) % PtSpace(msgsize)
  }

  /** he_eval_add on two product-level ciphertexts: whatever keys b1 and b2
      the summands decrypt under, the sum decrypts under b1 + b2 to the sum
      of what they decrypt to, modulo 2^msgsize. */
  function EvalAdd(c1: JlCt, c2: JlCt, n: int): (r: JlCt)
    ensures forall b1: int, b2: int, b: int, msgsize: uint32
              {:trigger Decrypt(r, b, msgsize), Decrypt(c1, b1, msgsize), Decrypt(c2, b2, msgsize)} ::
              b == b1 + b2 ==>
              Decrypt(r, b, msgsize) == (Decrypt(c1, b1, msgsize) + Decrypt(c2, b2, msgsize)) % PtSpace(msgsize)
  {
    JlAddDecrypts(c1, c2);
    JlAdd(c1, c2)
  }

  /** he_eval_sub on two labeled ciphertexts: the result is labeled by the
      difference of the blinding values. */
  function EvalSub(c1: HeCt, c2: HeCt, n: int, msgsize: uint32): (r: HeCt)
    ensures Blind(r) == Blind(c1) - Blind(c2)
    ensures Plaintext(r, msgsize) == (Plaintext(c1, msgsize) - Plaintext(c2, msgsize)) % PtSpace(msgsize)
  {
    var p := PtSpace(msgsize);
    var r := HeCt((c1.a - c2.a) % p, JlSub(c1.beta, c2.beta));
    SubPlaintext(c1, c2, r, p, msgsize);
    r
  }

  /** he_eval_mult: Enc(a1*a2) * beta2^a1 * beta1^a2, an encryption of
      m1*m2 - b1*b2. The randomness state is not modelled. */
  function EvalMult(c1: HeCt, c2: HeCt, y: int, n: int, msgsize: uint32): (r: JlCt)
    ensures Decrypt(r, Blind(c1) * Blind(c2), msgsize)
         == (Plaintext(c1, msgsize) * Plaintext(c2, msgsize)) % PtSpace(msgsize)
  {
    var p := PtSpace(msgsize);
    MultExpansion(c1.a, c2.a, Blind(c1), Blind(c2), p);
    JlAdd(JlAdd(JlEncrypt((c1.a * c2.a) % p), JlScale(c2.beta, c1.a)), JlScale(c1.beta, c2.a))
  }

  /** The cross terms handed to he_eval_mult_3 encrypt the pairwise products
      of the blinding values of its three operands, in the order
      (1,2), (1,3), (2,3). */
  predicate CrossTermsMatch(c1: HeCt, c2: HeCt, c3: HeCt, beta12: JlCt, beta13: JlCt, beta23: JlCt,
                            msgsize: uint32)
  {
    var p := PtSpace(msgsize);
    && JlDecrypt(beta12, msgsize) == (Blind(c1) * Blind(c2)) % p
    && JlDecrypt(beta13, msgsize) == (Blind(c1) * Blind(c3)) % p
    && JlDecrypt(beta23, msgsize) == (Blind(c2) * Blind(c3)) % p
  }

  /** he_eval_mult_3: an encryption of m1*m2*m3 - b1*b2*b3, built from the
      three `a` parts, the three betas and the three cross terms. It decrypts
      correctly when the cross terms match the operands. */
  function EvalMult3(c1: HeCt, c2: HeCt, c3: HeCt, beta12: JlCt, beta13: JlCt, beta23: JlCt,
                     y: int, n: int, msgsize: uint32): (r: JlCt)
    ensures CrossTermsMatch(c1, c2, c3, beta12, beta13, beta23, msgsize) ==>
              Decrypt(r, Blind(c1) * Blind(c2) * Blind(c3), msgsize)
              == (Plaintext(c1, msgsize) * Plaintext(c2, msgsize) * Plaintext(c3, msgsize)) % PtSpace(msgsize)
  {
    var p := PtSpace(msgsize);
    var a1, a2, a3 := c1.a, c2.a, c3.a;
    var r := JlAdd(JlAdd(JlAdd(JlAdd(JlAdd(JlAdd(
               JlEncrypt((a1 * a2 * a3) % p),
               JlScale(c3.beta, a1 * a2)),
               JlScale(c2.beta, a1 * a3)),
               JlScale(c1.beta, a2 * a3)),
               JlScale(beta23, a1)),
               JlScale(beta13, a2)),
               JlScale(beta12, a3));
    if CrossTermsMatch(c1, c2, c3, beta12, beta13, beta23, msgsize) then
      Mult3Expansion(a1, a2, a3, Blind(c1), Blind(c2), Blind(c3), beta12.m, beta13.m, beta23.m, p);
      r
    else
      r
  }

  /** Adding Joye-Libert ciphertexts adds what they decrypt to, for every
      pair of keys. */
  lemma JlAddDecrypts(c1: JlCt, c2: JlCt)
    ensures forall b1: int, b2: int, b: int, msgsize: uint32
              {:trigger Decrypt(JlAdd(c1, c2), b, msgsize), Decrypt(c1, b1, msgsize), Decrypt(c2, b2, msgsize)} ::
              b == b1 + b2 ==>
              Decrypt(JlAdd(c1, c2), b, msgsize) == (Decrypt(c1, b1, msgsize) + Decrypt(c2, b2, msgsize)) % PtSpace(msgsize)
  {
    forall b1: int, b2: int, b: int, msgsize: uint32 | b == b1 + b2
      ensures Decrypt(JlAdd(c1, c2), b, msgsize)
              == (Decrypt(c1, b1, msgsize) + Decrypt(c2, b2, msgsize)) % PtSpace(msgsize)
    {
      JlAddDecryptsAt(c1, c2, b1, b2, msgsize);
    }
  }

  lemma JlAddDecryptsAt(c1: JlCt, c2: JlCt, b1: int, b2: int, msgsize: uint32)
    ensures Decrypt(JlAdd(c1, c2), b1 + b2, msgsize)
         == (Decrypt(c1, b1, msgsize) + Decrypt(c2, b2, msgsize)) % PtSpace(msgsize)
  {
    var p := PtSpace(msgsize);
    var x, y := c1.m + b1, c2.m + b2;
    assert Decrypt(JlAdd(c1, c2), b1 + b2, msgsize) == (x + y) % p;
    assert Decrypt(c1, b1, msgsize) == x % p && Decrypt(c2, b2, msgsize) == y % p;
    ModAddBoth(x, y, p);
  }

  /** Decryption depends on the blinding product only modulo 2^msgsize, so
      the label holder may reduce it as the driver does. */
  lemma DecryptBlindCong(c: JlCt, b: int, b': int, msgsize: uint32)
    requires b % PtSpace(msgsize) == b' % PtSpace(msgsize)
    ensures Decrypt(c, b, msgsize) == Decrypt(c, b', msgsize)
  {
    var p := PtSpace(msgsize);
    AddCong(b, b', c.m, p);
    assert b + c.m == c.m + b && b' + c.m == c.m + b';
  }

  // Correctness of the operations.

  lemma SubExpansion(a1: int, a2: int, b1: int, b2: int, p: int)
    requires p > 0
    ensures ((a1 - a2) % p + (b1 - b2)) % p == ((a1 + b1) % p - (a2 + b2) % p) % p
  {
    var x1, x2 := a1 + b1, a2 + b2;
    ModAddLeft(a1 - a2, b1 - b2, p);
    assert a1 - a2 + (b1 - b2) == x1 - x2;
    ModAddLeft(x1, -(x2 % p), p);
    ModOfMod(x2, p);
    AddScaledCong(x1, -1, x2 % p, x2, p);
  }

  lemma SubPlaintext(c1: HeCt, c2: HeCt, r: HeCt, p: int, msgsize: uint32)
    requires p == PtSpace(msgsize)
    requires r == HeCt((c1.a - c2.a) % p, JlSub(c1.beta, c2.beta))
    ensures Plaintext(r, msgsize) == (Plaintext(c1, msgsize) - Plaintext(c2, msgsize)) % p
  {
    var a1, a2, b1, b2 := c1.a, c2.a, Blind(c1), Blind(c2);
    assert Plaintext(r, msgsize) == ((a1 - a2) % p + (b1 - b2)) % p;
    assert Plaintext(c1, msgsize) - Plaintext(c2, msgsize) == (a1 + b1) % p - (a2 + b2) % p;
    SubExpansion(a1, a2, b1, b2, p);
  }

  lemma MultExpansion(a1: int, a2: int, b1: int, b2: int, p: int)
    requires p > 0
    ensures ((a1 * a2) % p + a1 * b2 + a2 * b1 + b1 * b2) % p == (((a1 + b1) % p) * ((a2 + b2) % p)) % p
  {
    var cross := a1 * b2 + a2 * b1 + b1 * b2;
    ModAddLeft(a1 * a2, cross, p);
    ExpandProduct(a1, b1, a2, b2);
    ModMulBoth(a1 + b1, a2 + b2, p);
  }

  lemma ExpandProduct(a1: int, b1: int, a2: int, b2: int)
    ensures (a1 + b1) * (a2 + b2) == a1 * a2 + (a1 * b2 + a2 * b1 + b1 * b2)
  {
  }

  lemma Mult3Expansion(a1: int, a2: int, a3: int, b1: int, b2: int, b3: int,
                      x12: int, x13: int, x23: int, p: int)
    requires p > 0
    requires x12 % p == (b1 * b2) % p && x13 % p == (b1 * b3) % p && x23 % p == (b2 * b3) % p
    ensures ((a1 * a2 * a3) % p + a1 * a2 * b3 + a1 * a3 * b2 + a2 * a3 * b1
             + a1 * x23 + a2 * x13 + a3 * x12 + b1 * b2 * b3) % p
         == (((a1 + b1) % p) * ((a2 + b2) % p) * ((a3 + b3) % p)) % p
  {
    var pairs := a1 * a2 * b3 + a1 * a3 * b2 + a2 * a3 * b1;
    var cubes := b1 * b2 * b3;
    // Replace each encrypted cross term by the product it stands for.
    AddScaledCong((a1 * a2 * a3) % p + pairs + a2 * x13 + a3 * x12 + cubes, a1, x23, b2 * b3, p);
    AddScaledCong((a1 * a2 * a3) % p + pairs + a1 * (b2 * b3) + a3 * x12 + cubes, a2, x13, b1 * b3, p);
    AddScaledCong((a1 * a2 * a3) % p + pairs + a1 * (b2 * b3) + a2 * (b1 * b3) + cubes, a3, x12, b1 * b2, p);
    // Drop the reduction of the first summand.
    var rest := pairs + a1 * (b2 * b3) + a2 * (b1 * b3) + a3 * (b1 * b2) + cubes;
    ModAddLeft(a1 * a2 * a3, rest, p);
    assert (a1 + b1) * (a2 + b2) == a1 * a2 + a1 * b2 + b1 * a2 + b1 * b2;
    assert a1 * a2 * a3 + rest == (a1 + b1) * (a2 + b2) * (a3 + b3);
    ModMulThree(a1 + b1, a2 + b2, a3 + b3, p);
  }
}

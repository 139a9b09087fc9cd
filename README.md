# Encrypted P, PI and PID controllers over labeled homomorphic encryption

This project models the encrypted controllers of LabeledHomomorphicControl
and the integer side of its PID driver, and proves that they compute the
right thing at the plaintext level.

- **The controllers** (`labeled_he_control.cpp`/`.h`). `Labeled_he_p_control`,
  `Labeled_he_pi_control` and `Labeled_he_pid_control` keep their gains as
  labeled ciphertexts. They never see a plaintext. The PI and PID controllers
  keep an encrypted integral accumulator and an `is_valid` flag. The first
  `iterate` seeds the accumulator and every later call adds to it. The PID
  controller also caches the previous error ciphertext. It adds
  Kd·(e − e_prev)·t⁻¹ to the output from the second call on.
- **The driver** (`pid_test.cpp`). Each cycle it encrypts the timestep, the
  inverse timestep and the error, and forms six cross terms from the
  blinding values. It calls the PID controller. It then computes the same
  P + I + D polynomial over the blinding values, modulo ptspace = 2^msgsize,
  which is the key `he_decrypt` needs. Finally it decrypts and maps the
  result back to a signed integer.

The backend (`he_encrypt`, `he_decrypt`, `he_eval_add`, `he_eval_sub`,
`he_eval_mult`, `he_eval_mult_3`) lives in `LabeledHE/labeled_he.h`, and
that library is not part of this model. In its place, module `LabeledHe` is
a plaintext-level reference construction: labeled homomorphic encryption
over an additively homomorphic Joye–Libert layer.

- A labeled ciphertext of m is a pair (a, beta), with a = m − b mod 2^msgsize
  and beta an encryption of the blinding value b.
- A product of labeled ciphertexts is a single Joye–Libert ciphertext. It
  decrypts to the product of the plaintexts once the product of the blinding
  values is added back.
- Each backend operation is proved to decrypt to the sum, difference,
  product or triple product of its operands. The controller proofs use these
  properties and no operation's definition. That includes the integral
  invariant: the accumulator is the fold of the contributions with
  `he_eval_add`, under the modulus N each call passed.

Files:

- `mod_arith.dfy`: congruence lemmas modulo a positive modulus. Dafny's `%`
  is Euclidean, like GMP's `mpz_mod`.
- `labeled_he.dfy`: the backend reference construction and its correctness
  lemmas.
- `labeled_he_control.dfy`: the three controller classes.
- `pid_test.dfy`: the driver's blinding mirror, its cross terms, the signed
  decode, and the driver loop. The loop is proved to recover the plaintext
  P + I + D control law at every cycle.

## Model

| member | source | states |
|---|---|---|
| LabeledHe.PtSpace | pid_test.cpp:38 | ptspace is positive and is 1 when msgsize is 0 |
| LabeledHe.PtSpaceDoubles | pid_test.cpp:38 | Each further bit of msgsize doubles ptspace, so with the base case ptspace is 2^msgsize |
| LabeledHe.JlEncrypt | pid_test.cpp:165-184 | For every msgsize, the Joye–Libert encryption of a cross term decrypts to that cross term mod 2^msgsize |
| LabeledHe.Encrypt | pid_test.cpp:135-147 | The ciphertext carries the returned blinding value b and decrypts to m mod 2^msgsize |
| LabeledHe.Decrypt | pid_test.cpp:225 | Decryption gives a value in [0, 2^msgsize) |
| LabeledHe.EvalSub | labeled_he_control.cpp:286 | The difference is labeled by b1 − b2 and decrypts to (m1 − m2) mod 2^msgsize |
| LabeledHe.EvalMult | labeled_he_control.cpp:138 | The two-operand product decrypts, under b1·b2, to m1·m2 mod 2^msgsize |
| LabeledHe.EvalMult3 | labeled_he_control.cpp:141 | When the three cross terms encrypt b1·b2, b1·b3 and b2·b3, the triple product decrypts, under b1·b2·b3, to m1·m2·m3 mod 2^msgsize |
| LabeledHe.EvalAdd | labeled_he_control.cpp:149 | For all keys b1, b2 and every msgsize, the sum decrypts under b1 + b2 to the sum of what the summands decrypt to, mod 2^msgsize |
| LabeledHe.DecryptBlindCong | pid_test.cpp:218-225 | Decryption depends on the blinding key only modulo 2^msgsize, so reducing it as the driver does is harmless |
| LabeledHeControl.AccumulateDecrypts | labeled_he_control.cpp:142-150 | After n calls, seed then he_eval_add, the accumulator decrypts under the summed keys to the sum of the n contributions mod 2^msgsize |
| LabeledHeControl.PiIntegralDecrypts | labeled_he_control.cpp:142-150 | For a PI controller that has been called at least once, the integral decrypts under the summed keys to the sum of all contributions so far, mod 2^msgsize |
| LabeledHeControl.PidIntegralDecrypts | labeled_he_control.cpp:260-268 | The same for a PID controller |
| LabeledHeControl.PControl.constructor | labeled_he_control.cpp:18-30 | Every field takes its argument |
| LabeledHeControl.PControl.SetCkp | labeled_he_control.cpp:33-37 | Sets c_kp and changes no other field |
| LabeledHeControl.PControl.SetY | labeled_he_control.cpp:39-42 | Sets y and changes no other field |
| LabeledHeControl.PControl.SetN | labeled_he_control.cpp:44-47 | Sets N and changes no other field |
| LabeledHeControl.PControl.SetMsgsize | labeled_he_control.cpp:49-52 | Sets msgsize and changes no other field |
| LabeledHeControl.PControl.Iterate | labeled_he_control.cpp:55-60 | The output decrypts, under b_e·b_kp, to e·Kp mod 2^msgsize; no field changes |
| LabeledHeControl.PiControl.constructor | labeled_he_control.cpp:79-96 | Gains and parameters take their arguments; the integral is 0 and the flag is clear |
| LabeledHeControl.PiControl.SetCkp | labeled_he_control.cpp:98-102 | Sets c_kp; integral and flag unchanged |
| LabeledHeControl.PiControl.SetCki | labeled_he_control.cpp:104-108 | Sets c_ki; integral and flag unchanged |
| LabeledHeControl.PiControl.SetY | labeled_he_control.cpp:110-113 | Sets y; integral and flag unchanged |
| LabeledHeControl.PiControl.SetN | labeled_he_control.cpp:115-118 | Sets N; integral and flag unchanged |
| LabeledHeControl.PiControl.SetMsgsize | labeled_he_control.cpp:120-123 | Sets msgsize; integral and flag unchanged |
| LabeledHeControl.PiControl.Iterate | labeled_he_control.cpp:125-154 | The first call seeds the integral with Ki·e·t and sets the flag; later calls add Ki·e·t; the flag never clears; the output is Kp·e plus the updated integral; the integral is always the fold of all contributions |
| LabeledHeControl.PidControl.constructor | labeled_he_control.cpp:177-199 | Gains and parameters take their arguments; integral and previous error are zero; the flag is clear |
| LabeledHeControl.PidControl.SetCkp | labeled_he_control.cpp:201-205 | Sets c_kp; integral, flag and previous error unchanged |
| LabeledHeControl.PidControl.SetCki | labeled_he_control.cpp:207-211 | Sets c_ki; integral, flag and previous error unchanged |
| LabeledHeControl.PidControl.SetCkd | labeled_he_control.cpp:213-217 | Sets c_kd; integral, flag and previous error unchanged |
| LabeledHeControl.PidControl.SetY | labeled_he_control.cpp:219-222 | Sets y; integral, flag and previous error unchanged |
| LabeledHeControl.PidControl.SetN | labeled_he_control.cpp:224-227 | Sets N; integral, flag and previous error unchanged |
| LabeledHeControl.PidControl.SetMsgsize | labeled_he_control.cpp:229-232 | Sets msgsize; integral, flag and previous error unchanged |
| LabeledHeControl.PidControl.Iterate | labeled_he_control.cpp:234-294 | The integral step is the PI one. With the flag clear before the call, the output is the PI output. Otherwise it adds mult_3(Kd, e − prev, t_inv) with cross terms (betade, betadt_inv, betat_inve). Either way the cached error becomes this call's error |
| PidTest.HalfPtSpace | pid_test.cpp:39 | half_ptspace is positive and is exactly half of ptspace |
| PidTest.EncodeError | pid_test.cpp:143-144 | The encoded error lies in [0, ptspace) and is congruent to the error |
| PidTest.SignedDecode | pid_test.cpp:228-235 | For u_bar in [0, ptspace) the result lies in [−ptspace/2, ptspace/2); it is always congruent to u_bar |
| PidTest.SignedDecodeInvertsEncode | pid_test.cpp:228-235 | Decoding undoes the reduction into [0, ptspace) for every value of the signed range |
| PidTest.CrossTerm | pid_test.cpp:159-181 | A cross term lies in [0, ptspace) and is congruent to the product of its two blinding values |
| PidTest.DriverCrossTermsMatch | pid_test.cpp:154-184 | The six cross terms the driver encrypts are exactly the pairwise blinding products each mult_3 call needs, in the parameter order (1,2), (1,3), (2,3) |
| PidTest.MirrorBlinding | pid_test.cpp:194-222 | The step-by-step reduced mirror gives exactly b_int + b_ki·b_e·b_t and b_kp·b_e + b_int + b_kd·b_delta_e·b_t_inv, both reduced into [0, ptspace) |
| PidTest.IntegralCycle | pid_test.cpp:194-203 | b_int keeps tracking the blinding sum of the integral, and the accumulator decrypts under it to the plaintext running integral |
| PidTest.OutputCycle | pid_test.cpp:149-225 | The output decrypts under b_u to the P + I + D law of the cycle; on the first cycle b_delta_e = 0 matches the suppressed derivative |
| PidTest.Cycle | pid_test.cpp:135-245 | One pass of the loop recovers the plaintext control law and keeps the driver's b_int and b_e_prev in step with the controller's state |
| PidTest.RunSession | pid_test.cpp:112-249 | Output i is the signed decoding of (Kp·e_i + Σ_{j≤i} Ki·e_j·t_j + Kd·(e_i − e_{i−1})·t_inv_i) mod ptspace, with no derivative at i = 0 |

## Left out

- The backend library `LabeledHE/labeled_he.h` and `joye_libert_journal/joye_libert.h` are not part of this model. Their operations are modelled by the reference construction described above. Ciphertexts are represented by plaintext representatives, so encryption randomness, rerandomisation, the modulus N and the parameter y have no effect; they are carried only where the source passes them.
- The `gmp_randstate_t state` field of each controller is omitted. It only feeds rerandomisation.
- The default constructors are omitted; only the parametrized constructors are modelled. The default constructors of the PI and PID controllers leave `msgsize` uninitialised, and the P controller's sets it to 0.
- `is_valid` is a `bool`. The source's `uint8_t` only ever holds 0 or 1.
- The keyed pseudorandom stream (HC-128) that derives blinding values from labels is replaced by inputs: each `Sample` carries the blinding values `he_encrypt` returned for that cycle. Label bookkeeping, including the reuse of labels across cycles, is not modelled, and nothing is claimed about label freshness or security.
- Floating point, timing and I/O in the driver are left out: the clock, `usleep`, scaling the float timestep and error into integers, the `mpf_t` rescaling of the output, the plant update and console output. The scaled integers are inputs.
- The unused `b_t_prev` of the driver and the commented-out `delta_tau` line of the PID controller are left out.
- `p_test.cpp` is not modelled. Its integer logic repeats what `pid_test.cpp` does for the proportional term.
- PidTest.HalfPtSpace: requires msgsize ≥ 1. With msgsize = 0 the driver's `msgsize-1` wraps around as a 32-bit unsigned value, and that case is not modelled. The driver itself sets msgsize to 32.
- PidTest.SignedDecode: requires msgsize ≥ 1, because it uses half_ptspace (see PidTest.HalfPtSpace).
- PidTest.Cycle: requires msgsize ≥ 1, because it decodes with PidTest.SignedDecode.
- PidTest.RunSession: requires msgsize ≥ 1, because it decodes with PidTest.SignedDecode.
- The parameter order of he_eval_mult_3's three cross terms, products (1,2), (1,3) and (2,3) of the operands' blinding values, is inferred from its two call sites (labeled_he_control.cpp:141 and 287). The library that defines it is not part of this model.
- LabeledHe.EvalMult3: the decryption property holds only when the cross terms match the operands. Mismatched cross terms give an unspecified plaintext.

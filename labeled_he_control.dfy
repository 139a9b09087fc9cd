/**
 * The encrypted P, PI and PID controllers. Each keeps its gains as labeled
 * ciphertexts together with the public parameters y, N and msgsize; the PI
 * and PID controllers also keep an encrypted integral accumulator and a
 * validity flag, and the PID controller caches the previous error
 * ciphertext. `iterate` never sees a plaintext: it only forwards its inputs
 * to the backend operations of module LabeledHe.
 *
 * The state machine shared by PI and PID has two states: before the first
 * call the flag is clear and the accumulator (the integer 0) is never read;
 * the first call seeds the accumulator and sets the flag; every later call
 * adds to the accumulator. Nothing clears the flag again.
 */
module LabeledHeControl {
  import opened ModArith
  import opened LabeledHe

  /** The integral accumulator after the contributions `cs`, oldest first:
      the first contribution seeds it and each later one is added to it with
      he_eval_add, under the modulus `ns` holds for that call. */
  function Accumulate(cs: seq<JlCt>, ns: seq<int>): JlCt
    requires cs != [] && |ns| == |cs|
  {
    if |cs| == 1 then cs[0]
    else EvalAdd(Accumulate(cs[..|cs| - 1], ns[..|ns| - 1]), cs[|cs| - 1], ns[|ns| - 1])
  }

  /** The sum of what each contribution decrypts to under its own blinding
      product. */
  function SumDecryptions(cs: seq<JlCt>, bs: seq<int>, msgsize: uint32): int
    requires |cs| == |bs|
  {
    if cs == [] then 0
    else SumDecryptions(cs[..|cs| - 1], bs[..|bs| - 1], msgsize) + Decrypt(cs[|cs| - 1], bs[|bs| - 1], msgsize)
  }

  function Sum(bs: seq<int>): int
  {
    if bs == [] then 0 else Sum(bs[..|bs| - 1]) + bs[|bs| - 1]
  }

  /** After n calls the accumulator decrypts, under the sum of the n blinding
      products, to the sum of the n contributions modulo 2^msgsize. */
  lemma {:induction false} AccumulateDecrypts(cs: seq<JlCt>, ns: seq<int>, bs: seq<int>, msgsize: uint32)
    requires |cs| == |bs| == |ns| && cs != []
    ensures Decrypt(Accumulate(cs, ns), Sum(bs), msgsize) == SumDecryptions(cs, bs, msgsize) % PtSpace(msgsize)
    decreases |cs|
  {
    var p := PtSpace(msgsize);
    var k := |cs| - 1;
    var last := Decrypt(cs[k], bs[k], msgsize);
    if k == 0 {
      assert cs[..0] == [] && bs[..0] == [];
      ModUnique(last, 0, last, p);
    } else {
      var front := SumDecryptions(cs[..k], bs[..k], msgsize);
      var acc := Accumulate(cs[..k], ns[..k]);
      AccumulateDecrypts(cs[..k], ns[..k], bs[..k], msgsize);
      assert Decrypt(EvalAdd(acc, cs[k], ns[k]), Sum(bs[..k]) + bs[k], msgsize)
          == (Decrypt(acc, Sum(bs[..k]), msgsize) + last) % p;
      ModAddLeft(front, last, p);
    }
  }

  /** After any number of calls, a PI controller's integral decrypts, under
      the sum of the blinding products of its contributions, to the sum of
      what the contributions decrypt to, modulo 2^msgsize. */
  lemma PiIntegralDecrypts(c: PiControl, bs: seq<int>)
    requires c.Valid() && c.isValid && |bs| == |c.contributions|
    ensures Decrypt(c.integral, Sum(bs), c.msgsize)
         == SumDecryptions(c.contributions, bs, c.msgsize) % PtSpace(c.msgsize)
  {
    AccumulateDecrypts(c.contributions, c.moduli, bs, c.msgsize);
  }

  /** The same for the integral of a PID controller. */
  lemma PidIntegralDecrypts(c: PidControl, bs: seq<int>)
    requires c.Valid() && c.isValid && |bs| == |c.contributions|
    ensures Decrypt(c.integral, Sum(bs), c.msgsize)
         == SumDecryptions(c.contributions, bs, c.msgsize) % PtSpace(c.msgsize)
  {
    AccumulateDecrypts(c.contributions, c.moduli, bs, c.msgsize);
  }

  /** Labeled_he_p_control: a stateless proportional controller. */
  class PControl {
    var ckp: HeCt
    var y: int
    var n: int
    var msgsize: uint32

    constructor (ckpSet: HeCt, ySet: int, nSet: int, msgsizeSet: uint32)
      ensures ckp == ckpSet && y == ySet && n == nSet && msgsize == msgsizeSet
    {
      ckp := ckpSet;
      y := ySet;
      n := nSet;
      msgsize := msgsizeSet;
    }

    method SetCkp(ckpSet: HeCt)
      modifies this`ckp
      ensures ckp == ckpSet
    {
      ckp := ckpSet;
    }

    method SetY(ySet: int)
      modifies this`y
      ensures y == ySet
    {
      y := ySet;
    }

    method SetN(nSet: int)
      modifies this`n
      ensures n == nSet
    {
      n := nSet;
    }

    method SetMsgsize(msgsizeSet: uint32)
      modifies this`msgsize
      ensures msgsize == msgsizeSet
    {
      msgsize := msgsizeSet;
    }

    /** One control step: the output decrypts to e*Kp under the product of the
        blinding values of the error and the gain. Changes nothing. */
    method Iterate(ce: HeCt) returns (cu: JlCt)
      ensures Decrypt(cu, Blind(ce) * Blind(ckp), msgsize)
           == (Plaintext(ce, msgsize) * Plaintext(ckp, msgsize)) % PtSpace(msgsize)
    {
      cu := EvalMult(ce, ckp, y, n, msgsize);
    }
  }

  /** Labeled_he_pi_control: a proportional-integral controller with an
      encrypted integral accumulator. */
  class PiControl {
    var ckp: HeCt
    var cki: HeCt
    var integral: JlCt
    var y: int
    var n: int
    var msgsize: uint32
    var isValid: bool
    /** The integral contributions Ki*e*t of all calls so far, oldest first. */
    ghost var contributions: seq<JlCt>
    /** The modulus N each of those calls passed to he_eval_add. */
    ghost var moduli: seq<int>

    ghost predicate Valid()
      reads this
    {
      && (isValid <==> contributions != [])
      && |moduli| == |contributions|
      && (isValid ==> integral == Accumulate(contributions, moduli))
    }

    constructor (ckpSet: HeCt, ckiSet: HeCt, ySet: int, nSet: int, msgsizeSet: uint32)
      ensures Valid() && !isValid && integral == JlCt(0)
      ensures ckp == ckpSet && cki == ckiSet && y == ySet && n == nSet && msgsize == msgsizeSet
    {
      ckp := ckpSet;
      cki := ckiSet;
      integral := JlCt(0);
      y := ySet;
      n := nSet;
      msgsize := msgsizeSet;
      isValid := false;
      contributions := [];
      moduli := [];
    }

    method SetCkp(ckpSet: HeCt)
      requires Valid()
      modifies this`ckp
      ensures Valid() && ckp == ckpSet
    {
      ckp := ckpSet;
    }

    method SetCki(ckiSet: HeCt)
      requires Valid()
      modifies this`cki
      ensures Valid() && cki == ckiSet
    {
      cki := ckiSet;
    }

    method SetY(ySet: int)
      requires Valid()
      modifies this`y
      ensures Valid() && y == ySet
    {
      y := ySet;
    }

    method SetN(nSet: int)
      requires Valid()
      modifies this`n
      ensures Valid() && n == nSet
    {
      n := nSet;
    }

    method SetMsgsize(msgsizeSet: uint32)
      requires Valid()
      modifies this`msgsize
      ensures Valid() && msgsize == msgsizeSet
    {
      msgsize := msgsizeSet;
    }

    /** One control step. The contribution Ki*e*t seeds the accumulator on
        the first call and is added to it afterwards; the output is the
        proportional term plus the updated accumulator. */
    method Iterate(ct: HeCt, ce: HeCt, betaIt: JlCt, betaIe: JlCt, betaTe: JlCt) returns (cu: JlCt)
      requires Valid()
      modifies this`integral, this`isValid, this`contributions, this`moduli
      ensures Valid() && isValid
      ensures var ci := EvalMult3(cki, ce, ct, betaIe, betaIt, betaTe, y, n, msgsize);
              && contributions == old(contributions) + [ci] && moduli == old(moduli) + [n]
              && integral == (if old(isValid) then EvalAdd(old(integral), ci, n) else ci)
      ensures cu == EvalAdd(EvalMult(ckp, ce, y, n, msgsize), integral, n)
    {
      var cp := EvalMult(ckp, ce, y, n, msgsize);
      var ci := EvalMult3(cki, ce, ct, betaIe, betaIt, betaTe, y, n, msgsize);
      if !isValid {
        integral := ci;
        isValid := true;
      } else {
        integral := EvalAdd(integral, ci, n);
      }
      contributions := contributions + [ci];
      moduli := moduli + [n];
      assert contributions[..|contributions| - 1] == old(contributions);
      assert moduli[..|moduli| - 1] == old(moduli);
      cu := EvalAdd(cp, integral, n);
    }
  }

  /** Labeled_he_pid_control: the PI controller plus a derivative term
      computed from the error ciphertext of the previous call. */
  class PidControl {
    var ckp: HeCt
    var cki: HeCt
    var ckd: HeCt
    var prevError: HeCt
    var integral: JlCt
    var y: int
    var n: int
    var msgsize: uint32
    var isValid: bool
    /** The integral contributions Ki*e*t of all calls so far, oldest first. */
    ghost var contributions: seq<JlCt>
    /** The modulus N each of those calls passed to he_eval_add. */
    ghost var moduli: seq<int>

    ghost predicate Valid()
      reads this
    {
      && (isValid <==> contributions != [])
      && |moduli| == |contributions|
      && (isValid ==> integral == Accumulate(contributions, moduli))
    }

    constructor (ckpSet: HeCt, ckiSet: HeCt, ckdSet: HeCt, ySet: int, nSet: int, msgsizeSet: uint32)
      ensures Valid() && !isValid && integral == JlCt(0) && prevError == HeCt(0, JlCt(0))
      ensures ckp == ckpSet && cki == ckiSet && ckd == ckdSet
      ensures y == ySet && n == nSet && msgsize == msgsizeSet
    {
      ckp := ckpSet;
      cki := ckiSet;
      ckd := ckdSet;
      prevError := HeCt(0, JlCt(0));
      integral := JlCt(0);
      y := ySet;
      n := nSet;
      msgsize := msgsizeSet;
      isValid := false;
      contributions := [];
      moduli := [];
    }

    method SetCkp(ckpSet: HeCt)
      requires Valid()
      modifies this`ckp
      ensures Valid() && ckp == ckpSet
    {
      ckp := ckpSet;
    }

    method SetCki(ckiSet: HeCt)
      requires Valid()
      modifies this`cki
      ensures Valid() && cki == ckiSet
    {
      cki := ckiSet;
    }

    method SetCkd(ckdSet: HeCt)
      requires Valid()
      modifies this`ckd
      ensures Valid() && ckd == ckdSet
    {
      ckd := ckdSet;
    }

    method SetY(ySet: int)
      requires Valid()
      modifies this`y
      ensures Valid() && y == ySet
    {
      y := ySet;
    }

    method SetN(nSet: int)
      requires Valid()
      modifies this`n
      ensures Valid() && n == nSet
    {
      n := nSet;
    }

    method SetMsgsize(msgsizeSet: uint32)
      requires Valid()
      modifies this`msgsize
      ensures Valid() && msgsize == msgsizeSet
    {
      msgsize := msgsizeSet;
    }

    /** One control step. The integral part is that of the PI controller. On
        the first call (flag clear before the call) no derivative is added;
        afterwards Kd*(e - e_prev)*t_inv is added to the output. Either way
        the cache ends up holding this call's error. */
    method Iterate(ct: HeCt, ctInv: HeCt, ce: HeCt, betaIt: JlCt, betaIe: JlCt, betaTe: JlCt,
                   betaDtInv: JlCt, betaDe: JlCt, betaTInvE: JlCt) returns (cu: JlCt)
      requires Valid()
      modifies this`integral, this`isValid, this`prevError, this`contributions, this`moduli
      ensures Valid() && isValid && prevError == ce
      ensures var ci := EvalMult3(cki, ce, ct, betaIe, betaIt, betaTe, y, n, msgsize);
              && contributions == old(contributions) + [ci] && moduli == old(moduli) + [n]
              && integral == (if old(isValid) then EvalAdd(old(integral), ci, n) else ci)
      ensures var piOut := EvalAdd(EvalMult(ckp, ce, y, n, msgsize), integral, n);
              var deltaE := EvalSub(ce, old(prevError), n, msgsize);
              cu == if old(isValid)
                    then EvalAdd(piOut, EvalMult3(ckd, deltaE, ctInv, betaDe, betaDtInv, betaTInvE, y, n, msgsize), n)
                    else piOut
    {
      var preIsValid := isValid;
      var cp := EvalMult(ckp, ce, y, n, msgsize);
      var ci := EvalMult3(cki, ce, ct, betaIe, betaIt, betaTe, y, n, msgsize);
      if !isValid {
        integral := ci;
        isValid := true;
      } else {
        integral := EvalAdd(integral, ci, n);
      }
      contributions := contributions + [ci];
      moduli := moduli + [n];
      assert contributions[..|contributions| - 1] == old(contributions);
      assert moduli[..|moduli| - 1] == old(moduli);
      cu := EvalAdd(cp, integral, n);
      if !preIsValid {
        prevError := ce;
      } else {
        var deltaE := EvalSub(ce, prevError, n, msgsize);
        var cd := EvalMult3(ckd, deltaE, ctInv, betaDe, betaDtInv, betaTInvE, y, n, msgsize);
        cu := EvalAdd(cu, cd, n);
        prevError := ce;
      }
    }
  }
}

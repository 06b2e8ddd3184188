/** Powers of natural numbers. */
module Powers {

  function Power(b: nat, n: nat): nat {
    if n == 0 then 1 else b * Power(b, n - 1)
  }

  lemma {:induction false} PowerPositive(b: nat, n: nat)
    requires b > 0
    ensures Power(b, n) > 0
  {
    if n > 0 {
      PowerPositive(b, n - 1);
    }
  }
}

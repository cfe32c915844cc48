module Powers {

  /** 2^k. */
  function Power(k: nat): (r: nat)
    ensures r >= 1
  {
    if k == 0 then 1 else 2 * Power(k - 1)
  }

  lemma {:induction false} PowerGrows(j: nat, k: nat)
    requires j < k
    ensures Power(j) < Power(k)
  {
    if j < k - 1 {
      PowerGrows(j, k - 1);
    }
  }
}

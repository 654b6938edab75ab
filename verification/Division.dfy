/** Division with remainder by a positive number, for indices that wrap and frames that fall into
    segments. The functions name the products and quotients so that proofs can keep them closed. */
module Division {
  function Multiple(q: nat, n: nat): nat {
    q * n
  }

  function Quotient(k: nat, n: nat): nat
    requires n > 0
  {
    k / n
  }

  function Remainder(k: nat, n: nat): (r: nat)
    requires n > 0
    ensures r < n
  {
    k % n
  }

  lemma MultipleNext(q: nat, n: nat)
    ensures Multiple(q + 1, n) == Multiple(q, n) + n
  {
  }

  lemma {:induction false} MultipleMonotone(a: nat, b: nat, n: nat)
    requires a <= b
    ensures Multiple(a, n) <= Multiple(b, n)
    decreases b - a
  {
    hide Multiple;
    if a < b {
      MultipleNext(a, n);
      MultipleMonotone(a + 1, b, n);
    }
  }

  lemma Divided(k: nat, n: nat)
    requires n > 0
    ensures k == Multiple(Quotient(k, n), n) + Remainder(k, n)
  {
  }

  /** Quotient and remainder are determined by the multiple next below. */
  lemma DividedOnce(k: nat, n: nat, q: nat, r: nat)
    requires n > 0 && k == Multiple(q, n) + r && r < n
    ensures Quotient(k, n) == q && Remainder(k, n) == r
  {
    hide Multiple, Quotient, Remainder;
    Divided(k, n);
    var p := Quotient(k, n);
    MultipleNext(p, n);
    MultipleNext(q, n);
    if p < q {
      MultipleMonotone(p + 1, q, n);
    } else if q < p {
      MultipleMonotone(q + 1, p, n);
    }
  }
}

/** Products as a named function, so that proofs about offsets stay linear. */
module Products {
  function Times(n: nat, k: nat): nat { n * k }

  lemma TimesNext(n: nat, k: nat)
    ensures Times(n + 1, k) == Times(n, k) + k && Times(0, k) == 0
  {}

  lemma TimesMonotone(m: nat, n: nat, k: nat)
    requires m <= n
    ensures Times(m, k) <= Times(n, k)
  {}

  lemma TimesAdd(m: nat, n: nat, k: nat)
    ensures Times(m + n, k) == Times(m, k) + Times(n, k)
    ensures Times(1, k) == k && Times(0, k) == 0
  {}
}

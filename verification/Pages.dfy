/** Memory pages. */
module Pages {

  const PAGE: nat := 4096

  /** ELF_PAGESTART. */
  function PageStart(n: nat): (r: nat)
    ensures r <= n < r + PAGE && r % PAGE == 0
  {
    n / PAGE * PAGE
  }

  /** ELF_PAGEOFFSET. */
  function PageOffset(n: nat): (r: nat)
    ensures r < PAGE && PageStart(n) + r == n
  {
    n % PAGE
  }

  /** ELF_PAGEALIGN to a page. */
  function PageAlign(n: nat): (r: nat)
    ensures n <= r < n + PAGE && r % PAGE == 0
  {
    (n + PAGE - 1) / PAGE * PAGE
  }
}

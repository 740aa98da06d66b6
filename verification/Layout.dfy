/** Sizes in the layout of nodes. */
module Layout {

  /** Bytes of a node before its key. */
  const NODESIZE: nat := 8

  /** Bytes of a page number, which stands for data on overflow pages. */
  const PGNO_BYTES: nat := 8

  /** Nodes are padded to even length. */
  function Even(n: nat): nat {
    (n + 1) / 2 * 2
  }
}

/** The bytes of a page: mdb_node_add, mdb_node_del and mdb_update_key.

    Slots grow upwards behind the page header, nodes downwards from the end of
    the page.  A node is an 8 byte header (low and high half of the data size or
    page number, flags, key size), the key, and the data. */
module SlottedPage {
  import opened Basics
  import opened Layout
  import opened SplitPoint
  import Tree
  import TreePut

  const PAGEHDRSZ: nat := 16
  const WORD: nat := 0x1_0000

  /** A node; `body` is what follows the key on the page. */
  datatype Cell = Cell(lo: nat, hi: nat, flags: nat, key: seq<Byte>, body: seq<Byte>)

  /** F_BIGDATA */
  predicate IsBig(flags: nat) {
    flags % 2 == 1
  }

  /** Bytes after the key, as told by the header. */
  function BodySize(leaf: bool, lo: nat, hi: nat, flags: nat): nat {
    if !leaf then 0 else if IsBig(flags) then PGNO_BYTES else lo + WORD * hi
  }

  predicate CellOk(leaf: bool, c: Cell) {
    && c.lo < WORD && c.hi < WORD && c.flags < WORD && |c.key| < WORD
    && |c.body| == BodySize(leaf, c.lo, c.hi, c.flags)
  }

  /** Bytes of the node, padded to even length. */
  function Size(c: Cell): nat {
    Even(NODESIZE + |c.key| + |c.body|)
  }

  function Word(v: nat): (w: seq<Byte>)
    requires v < WORD
    ensures |w| == 2 && v == w[0] as int + 256 * w[1] as int
  {
    [v % 256, v / 256]
  }

  function Header(c: Cell): (h: seq<Byte>)
    requires c.lo < WORD && c.hi < WORD && c.flags < WORD && |c.key| < WORD
    ensures |h| == NODESIZE
  {
    Word(c.lo) + Word(c.hi) + Word(c.flags) + Word(|c.key|)
  }

  /** The bytes of a node. */
  function Bytes(leaf: bool, c: Cell): (b: seq<Byte>)
    requires CellOk(leaf, c)
    ensures |b| == NODESIZE + |c.key| + |c.body| <= Size(c)
  {
    Header(c) + c.key + c.body
  }

  // ----- what a page holds -----

  /** Cell c lies at offset p. */
  ghost predicate LiesAt(d: seq<Byte>, p: nat, leaf: bool, c: Cell) {
    && CellOk(leaf, c) && p + Size(c) <= |d|
    && forall k :: 0 <= k < |Bytes(leaf, c)| ==> d[p + k] == Bytes(leaf, c)[k]
  }

  function Sizes(cells: seq<Cell>): seq<nat> {
    seq(|cells|, i requires 0 <= i < |cells| => Size(cells[i]))
  }

  ghost predicate Disjoint(p: nat, c: Cell, q: nat, e: Cell) {
    p + Size(c) <= q || q + Size(e) <= p
  }

  /** Every cell is in place in [upper, |d|). */
  ghost predicate InPlace(d: seq<Byte>, ptrs: seq<nat>, upper: nat, leaf: bool, cells: seq<Cell>) {
    && |ptrs| == |cells|
    && forall i :: 0 <= i < |cells| ==> upper <= ptrs[i] && LiesAt(d, ptrs[i], leaf, cells[i])
  }

  /** No two overlap. */
  ghost predicate Apart(ptrs: seq<nat>, cells: seq<Cell>) {
    && |ptrs| == |cells|
    && forall i, j :: 0 <= i < j < |cells| ==> Disjoint(ptrs[i], cells[i], ptrs[j], cells[j])
  }

  /** There are no gaps between them. */
  ghost predicate Packed(psize: nat, upper: nat, cells: seq<Cell>) {
    upper + Sum(Sizes(cells)) == psize
  }

  /** memmove of [from, to) by `shift` bytes. */
  function Moved(d: seq<Byte>, from: nat, to: nat, shift: int): (r: seq<Byte>)
    requires from <= to <= |d| && 0 <= from + shift && to + shift <= |d|
    ensures |r| == |d|
  {
    seq(|d|, k requires 0 <= k < |d| => if from + shift <= k < to + shift then d[k - shift] else d[k])
  }

  // ----- adding -----

  /** A cell that stays is still in place. */
  lemma {:induction false} Unmoved(d: seq<Byte>, d': seq<Byte>, p: nat, leaf: bool, c: Cell)
    requires LiesAt(d, p, leaf, c) && |d'| == |d| && forall k :: p <= k < p + Size(c) ==> d'[k] == d[k]
    ensures LiesAt(d', p, leaf, c)
  {
  }

  /** Position before an insertion at i. */
  function Skip(i: nat, j: nat): nat
    requires j != i
  {
    if j < i then j else j - 1
  }

  lemma {:induction false} InPlaceAfterAdd(d: seq<Byte>, ptrs: seq<nat>, upper: nat, leaf: bool, cells: seq<Cell>,
                                           i: nat, c: Cell, d': seq<Byte>, ofs: nat)
    requires InPlace(d, ptrs, upper, leaf, cells) && upper <= |d| == |d'| && i <= |cells|
    requires ofs + Size(c) == upper && LiesAt(d', ofs, leaf, c)
    requires forall k :: upper <= k < |d| ==> d'[k] == d[k]
    ensures InPlace(d', WithNew(ptrs, ofs, i), ofs, leaf, WithNew(cells, c, i))
  {
    var ptrs', cells' := WithNew(ptrs, ofs, i), WithNew(cells, c, i);
    forall j | 0 <= j < |cells'| ensures ofs <= ptrs'[j] && LiesAt(d', ptrs'[j], leaf, cells'[j]) {
      if j != i {
        var o := Skip(i, j);
        Unmoved(d, d', ptrs[o], leaf, cells[o]);
      }
    }
  }

  lemma {:induction false} ApartAfterAdd(ptrs: seq<nat>, upper: nat, cells: seq<Cell>, i: nat, c: Cell, ofs: nat)
    requires Apart(ptrs, cells) && i <= |cells| && ofs + Size(c) == upper
    requires forall j :: 0 <= j < |cells| ==> upper <= ptrs[j]
    ensures Apart(WithNew(ptrs, ofs, i), WithNew(cells, c, i))
  {
    var ptrs', cells' := WithNew(ptrs, ofs, i), WithNew(cells, c, i);
    forall j, k | 0 <= j < k < |cells'| ensures Disjoint(ptrs'[j], cells'[j], ptrs'[k], cells'[k]) {
      if j != i && k != i {
        assert Disjoint(ptrs[Skip(i, j)], cells[Skip(i, j)], ptrs[Skip(i, k)], cells[Skip(i, k)]);
      }
    }
  }

  lemma {:induction false} InsertedIs(p: seq<nat>, q: seq<nat>, i: nat, x: nat)
    requires i <= |p| && |q| == |p| + 1 && q[i] == x
    requires (forall j :: 0 <= j < i ==> q[j] == p[j]) && forall j :: i < j < |q| ==> q[j] == p[j - 1]
    ensures q == WithNew(p, x, i)
  {
  }

  lemma {:induction false} SumAround(sizes: seq<nat>, size: nat, i: nat)
    requires i <= |sizes|
    ensures Sum(WithNew(sizes, size, i)) == Sum(sizes) + size
  {
    SumAppend(sizes[..i] + [size], sizes[i..]);
    SumAppend(sizes[..i], [size]);
    SumSplit(sizes, i);
    assert [size][..0] == [];
  }

  lemma {:induction false} PackedAfterAdd(psize: nat, upper: nat, cells: seq<Cell>, i: nat, c: Cell)
    requires Packed(psize, upper, cells) && i <= |cells| && Size(c) <= upper
    ensures Packed(psize, upper - Size(c), WithNew(cells, c, i))
  {
    assert Sizes(WithNew(cells, c, i)) == WithNew(Sizes(cells), Size(c), i);
    SumAround(Sizes(cells), Size(c), i);
  }

  lemma {:induction false} Added(d: seq<Byte>, ptrs: seq<nat>, upper: nat, leaf: bool, cells: seq<Cell>, i: nat,
                                 c: Cell, d': seq<Byte>, ofs: nat)
    requires InPlace(d, ptrs, upper, leaf, cells) && Apart(ptrs, cells) && Packed(|d|, upper, cells)
    requires upper <= |d| == |d'| && i <= |cells| && ofs + Size(c) == upper && LiesAt(d', ofs, leaf, c)
    requires forall k :: upper <= k < |d| ==> d'[k] == d[k]
    ensures InPlace(d', WithNew(ptrs, ofs, i), ofs, leaf, WithNew(cells, c, i))
            && Apart(WithNew(ptrs, ofs, i), WithNew(cells, c, i))
    ensures Packed(|d|, ofs, WithNew(cells, c, i))
  {
    InPlaceAfterAdd(d, ptrs, upper, leaf, cells, i, c, d', ofs);
    ApartAfterAdd(ptrs, upper, cells, i, c, ofs);
    PackedAfterAdd(|d|, upper, cells, i, c);
  }

  // ----- removing -----

  /** Slots after the removal of slot i: those below its node move up. */
  function SlotsAfterDel(ptrs: seq<nat>, i: nat, sz: nat): seq<nat>
    requires i < |ptrs|
  {
    seq(|ptrs| - 1, j requires 0 <= j < |ptrs| - 1 =>
      SlotAfterDel(ptrs[Unskip(i, j)], ptrs[i], sz))
  }

  /** A cell in the moved range has moved with it. */
  lemma {:induction false} MovedAlong(d: seq<Byte>, from: nat, to: nat, shift: int, p: nat, leaf: bool, c: Cell)
    requires from <= to <= |d| && 0 <= from + shift && to + shift <= |d|
    requires LiesAt(d, p, leaf, c) && from <= p && p + Size(c) <= to
    ensures LiesAt(Moved(d, from, to, shift), p + shift, leaf, c)
  {
    var d' := Moved(d, from, to, shift);
    forall k | 0 <= k < |Bytes(leaf, c)| ensures d'[p + shift + k] == Bytes(leaf, c)[k] {
      assert d'[p + shift + k] == d[p + k];
    }
  }

  /** Where a slot points after the removal. */
  function SlotAfterDel(p: nat, at: nat, sz: nat): nat {
    if p < at then p + sz else p
  }

  /** Position before a removal at i. */
  function Unskip(i: nat, j: nat): (o: nat)
    ensures o != i
  {
    if j < i then j else j + 1
  }

  /** Cells do not overlap, whichever comes first. */
  lemma {:induction false} ApartPair(ptrs: seq<nat>, cells: seq<Cell>, i: nat, o: nat)
    requires Apart(ptrs, cells) && i < |cells| && o < |cells| && o != i
    ensures Disjoint(ptrs[o], cells[o], ptrs[i], cells[i])
  {
    if i < o {
      assert Disjoint(ptrs[i], cells[i], ptrs[o], cells[o]);
    }
  }

  /** Where cell o lies after the removal of cell i. */
  lemma {:induction false} CellAfterDel(d: seq<Byte>, ptrs: seq<nat>, upper: nat, leaf: bool, cells: seq<Cell>, i: nat,
                                        o: nat)
    requires InPlace(d, ptrs, upper, leaf, cells) && Apart(ptrs, cells) && i < |cells| && o < |cells| && o != i
    ensures var sz := Size(cells[i]);
            && upper <= ptrs[i] && ptrs[i] + sz <= |d|
            && upper + sz <= SlotAfterDel(ptrs[o], ptrs[i], sz)
            && LiesAt(Moved(d, upper, ptrs[i], sz), SlotAfterDel(ptrs[o], ptrs[i], sz), leaf, cells[o])
  {
    var sz := Size(cells[i]);
    assert LiesAt(d, ptrs[i], leaf, cells[i]) && LiesAt(d, ptrs[o], leaf, cells[o]);
    ApartPair(ptrs, cells, i, o);
    if ptrs[o] < ptrs[i] {
      MovedAlong(d, upper, ptrs[i], sz, ptrs[o], leaf, cells[o]);
    } else {
      Unmoved(d, Moved(d, upper, ptrs[i], sz), ptrs[o], leaf, cells[o]);
    }
  }

  lemma {:induction false} InPlaceAfterDel(d: seq<Byte>, ptrs: seq<nat>, upper: nat, leaf: bool, cells: seq<Cell>,
                                           i: nat)
    requires InPlace(d, ptrs, upper, leaf, cells) && Apart(ptrs, cells) && i < |cells|
    ensures var sz := Size(cells[i]);
            && upper <= ptrs[i] && ptrs[i] + sz <= |d|
            && InPlace(Moved(d, upper, ptrs[i], sz), SlotsAfterDel(ptrs, i, sz), upper + sz, leaf, Dropped(cells, i))
  {
    assert LiesAt(d, ptrs[i], leaf, cells[i]);
    var sz := Size(cells[i]);
    forall j | 0 <= j < |cells| - 1
      ensures upper + sz <= SlotsAfterDel(ptrs, i, sz)[j]
      ensures LiesAt(Moved(d, upper, ptrs[i], sz), SlotsAfterDel(ptrs, i, sz)[j], leaf, Dropped(cells, i)[j])
    {
      CellAfterDel(d, ptrs, upper, leaf, cells, i, Unskip(i, j));
    }
  }

  lemma {:induction false} ApartAfterDel(ptrs: seq<nat>, cells: seq<Cell>, i: nat)
    requires Apart(ptrs, cells) && i < |cells|
    ensures Apart(SlotsAfterDel(ptrs, i, Size(cells[i])), Dropped(cells, i))
  {
    var ptrs', cells' := SlotsAfterDel(ptrs, i, Size(cells[i])), Dropped(cells, i);
    forall j, k | 0 <= j < k < |cells'| ensures Disjoint(ptrs'[j], cells'[j], ptrs'[k], cells'[k]) {
      var o, q := Unskip(i, j), Unskip(i, k);
      ApartPair(ptrs, cells, i, o);
      ApartPair(ptrs, cells, i, q);
      assert Disjoint(ptrs[o], cells[o], ptrs[q], cells[q]);
    }
  }

  lemma {:induction false} PackedAfterDel(psize: nat, upper: nat, cells: seq<Cell>, i: nat)
    requires Packed(psize, upper, cells) && i < |cells|
    ensures Packed(psize, upper + Size(cells[i]), Dropped(cells, i))
  {
    assert Sizes(cells) == WithNew(Sizes(Dropped(cells, i)), Size(cells[i]), i);
    SumAround(Sizes(Dropped(cells, i)), Size(cells[i]), i);
  }

  // ----- replacing a key -----

  /** How much longer the node of a branch page becomes. */
  function Growth(was: seq<Byte>, key: seq<Byte>): int {
    Even(|key|) - Even(|was|)
  }

  /** Where a slot points after the node at offset `at` has grown by delta. */
  function SlotAfterUpdate(p: nat, at: nat, delta: int): int {
    if p <= at then p - delta else p
  }

  /** Key size and key written into the node at offset q. */
  ghost predicate KeyStored(m: seq<Byte>, q: nat, key: seq<Byte>, d': seq<Byte>) {
    && q + NODESIZE + |key| <= |m| == |d'| && |key| < WORD
    && (forall k :: 0 <= k < q + 6 ==> d'[k] == m[k]) && (forall k :: q + NODESIZE + |key| <= k < |m| ==> d'[k] == m[k])
    && d'[q + 6] == Word(|key|)[0] && d'[q + 7] == Word(|key|)[1]
    && forall k :: 0 <= k < |key| ==> d'[q + NODESIZE + k] == key[k]
  }

  /** The header at offset p moved down with all below it, then the key stored. */
  ghost predicate KeyWritten(d: seq<Byte>, upper: nat, p: nat, delta: int, key: seq<Byte>, d': seq<Byte>) {
    && upper <= p && p + NODESIZE <= |d| && 0 <= upper - delta && p - delta + NODESIZE <= |d|
    && KeyStored(Moved(d, upper, p + NODESIZE, -delta), p - delta, key, d')
  }

  lemma {:induction false} HeaderAt(c: Cell, key: seq<Byte>)
    requires c.lo < WORD && c.hi < WORD && c.flags < WORD && |c.key| < WORD && |key| < WORD
    ensures Header(c.(key := key)) == Header(c)[..6] + Word(|key|)
  {
  }

  /** The node with the stored key. */
  lemma {:induction false} StoredCell(m: seq<Byte>, q: nat, c: Cell, key: seq<Byte>, d': seq<Byte>)
    requires KeyStored(m, q, key, d') && CellOk(false, c) && q + Size(c.(key := key)) <= |m|
    requires forall k :: 0 <= k < 6 ==> m[q + k] == Header(c)[k]
    ensures LiesAt(d', q, false, c.(key := key))
  {
    HeaderAt(c, key);
    var b := Bytes(false, c.(key := key));
    forall k | 0 <= k < |b| ensures d'[q + k] == b[k] {
      if k >= NODESIZE {
        assert b[k] == key[k - NODESIZE];
      } else if k < 6 {
        assert b[k] == Header(c)[k];
      }
    }
  }

  /** The updated cell. */
  lemma {:induction false} OwnAfterUpdate(d: seq<Byte>, upper: nat, p: nat, c: Cell, key: seq<Byte>, d': seq<Byte>)
    requires LiesAt(d, p, false, c) && KeyWritten(d, upper, p, Growth(c.key, key), key, d')
    ensures LiesAt(d', p - Growth(c.key, key), false, c.(key := key))
  {
    var delta := Growth(c.key, key);
    var q, m := p - delta, Moved(d, upper, p + NODESIZE, -delta);
    forall k | 0 <= k < 6 ensures m[q + k] == Header(c)[k] {
      assert d[p + k] == Bytes(false, c)[k];
    }
    GrowthIsSize(c, key);
    StoredCell(m, q, c, key, d');
  }

  /** A cell below the updated one. */
  lemma {:induction false} LowerAfterUpdate(d: seq<Byte>, upper: nat, p: nat, delta: int, key: seq<Byte>,
                                            d': seq<Byte>, o: nat, e: Cell)
    requires KeyWritten(d, upper, p, delta, key, d')
    requires upper <= o && LiesAt(d, o, false, e) && o + Size(e) <= p
    ensures LiesAt(d', o - delta, false, e)
  {
    MovedAlong(d, upper, p + NODESIZE, -delta, o, false, e);
    Unmoved(Moved(d, upper, p + NODESIZE, -delta), d', o - delta, false, e);
  }

  /** A cell above the updated one. */
  lemma {:induction false} UpperAfterUpdate(d: seq<Byte>, upper: nat, p: nat, delta: int, key: seq<Byte>,
                                            d': seq<Byte>, o: nat, e: Cell)
    requires KeyWritten(d, upper, p, delta, key, d')
    requires LiesAt(d, o, false, e) && p + NODESIZE - delta + |key| <= o && p + NODESIZE <= o
    ensures LiesAt(d', o, false, e)
  {
    var m := Moved(d, upper, p + NODESIZE, -delta);
    Unmoved(d, m, o, false, e);
    Unmoved(m, d', o, false, e);
  }

  /** Another cell. */
  lemma {:induction false} OtherAfterUpdate(d: seq<Byte>, upper: nat, p: nat, c: Cell, key: seq<Byte>, d': seq<Byte>,
                                            o: nat, e: Cell)
    requires LiesAt(d, p, false, c) && KeyWritten(d, upper, p, Growth(c.key, key), key, d')
    requires upper <= o && LiesAt(d, o, false, e) && Disjoint(o, e, p, c)
    ensures SlotAfterUpdate(o, p, Growth(c.key, key)) >= upper - Growth(c.key, key)
    ensures LiesAt(d', SlotAfterUpdate(o, p, Growth(c.key, key)), false, e)
  {
    if o <= p {
      LowerAfterUpdate(d, upper, p, Growth(c.key, key), key, d', o, e);
    } else {
      UpperAfterUpdate(d, upper, p, Growth(c.key, key), key, d', o, e);
    }
  }

  function SlotsAfterUpdate(ptrs: seq<nat>, i: nat, delta: int): seq<int>
    requires i < |ptrs|
  {
    seq(|ptrs|, j requires 0 <= j < |ptrs| => SlotAfterUpdate(ptrs[j], ptrs[i], delta))
  }

  lemma {:induction false} InPlaceAfterUpdate(d: seq<Byte>, ptrs: seq<nat>, upper: nat, cells: seq<Cell>, i: nat,
                                              key: seq<Byte>, d': seq<Byte>, ptrs': seq<nat>)
    requires InPlace(d, ptrs, upper, false, cells) && Apart(ptrs, cells) && i < |cells|
    requires KeyWritten(d, upper, ptrs[i], Growth(cells[i].key, key), key, d')
    requires ptrs' == SlotsAfterUpdate(ptrs, i, Growth(cells[i].key, key))
    ensures InPlace(d', ptrs', upper - Growth(cells[i].key, key), false, cells[i := cells[i].(key := key)])
  {
    var delta, cells' := Growth(cells[i].key, key), cells[i := cells[i].(key := key)];
    assert LiesAt(d, ptrs[i], false, cells[i]);
    forall j | 0 <= j < |cells'| ensures upper - delta <= ptrs'[j] && LiesAt(d', ptrs'[j], false, cells'[j]) {
      assert LiesAt(d, ptrs[j], false, cells[j]);
      if j == i {
        OwnAfterUpdate(d, upper, ptrs[i], cells[i], key, d');
      } else {
        ApartPair(ptrs, cells, i, j);
        OtherAfterUpdate(d, upper, ptrs[i], cells[i], key, d', ptrs[j], cells[j]);
      }
    }
  }

  lemma {:induction false} GrowthIsSize(c: Cell, key: seq<Byte>)
    requires c.body == []
    ensures Size(c.(key := key)) == Size(c) + Growth(c.key, key)
  {
  }

  lemma {:induction false} ApartAfterUpdate(ptrs: seq<nat>, cells: seq<Cell>, i: nat, key: seq<Byte>, ptrs': seq<nat>)
    requires Apart(ptrs, cells) && i < |cells| && forall j :: 0 <= j < |cells| ==> cells[j].body == []
    requires ptrs' == SlotsAfterUpdate(ptrs, i, Growth(cells[i].key, key))
    ensures Apart(ptrs', cells[i := cells[i].(key := key)])
  {
    var cells' := cells[i := cells[i].(key := key)];
    GrowthIsSize(cells[i], key);
    forall j, k | 0 <= j < k < |cells'| ensures Disjoint(ptrs'[j], cells'[j], ptrs'[k], cells'[k]) {
      assert Disjoint(ptrs[j], cells[j], ptrs[k], cells[k]);
      if j != i {
        ApartPair(ptrs, cells, i, j);
      }
      if k != i {
        ApartPair(ptrs, cells, i, k);
      }
    }
  }

  lemma {:induction false} PackedAfterUpdate(psize: nat, upper: nat, cells: seq<Cell>, i: nat, key: seq<Byte>)
    requires Packed(psize, upper, cells) && i < |cells| && cells[i].body == [] && Growth(cells[i].key, key) <= upper
    ensures Packed(psize, upper - Growth(cells[i].key, key), cells[i := cells[i].(key := key)])
  {
    var c, c' := cells[i], cells[i].(key := key);
    GrowthIsSize(c, key);
    PackedAfterDel(psize, upper, cells, i);
    assert cells[i := c'] == WithNew(Dropped(cells, i), c', i);
    PackedAfterAdd(psize, upper + Size(c), Dropped(cells, i), i, c');
  }

  /** Everything stays within the page. */
  lemma {:induction false} UpdateBounds(d: seq<Byte>, ptrs: seq<nat>, upper: nat, cells: seq<Cell>, i: nat,
                                        key: seq<Byte>)
    requires InPlace(d, ptrs, upper, false, cells) && i < |cells| && Growth(cells[i].key, key) <= upper
    ensures var delta := Growth(cells[i].key, key);
            && upper <= ptrs[i] && ptrs[i] + NODESIZE <= |d| && ptrs[i] - delta + NODESIZE + |key| <= |d|
            && forall j :: 0 <= j < |ptrs| ==> 0 <= SlotAfterUpdate(ptrs[j], ptrs[i], delta)
  {
    assert LiesAt(d, ptrs[i], false, cells[i]);
  }

  lemma {:induction false} Updated(d: seq<Byte>, ptrs: seq<nat>, upper: nat, cells: seq<Cell>, i: nat, key: seq<Byte>,
                                   d': seq<Byte>, ptrs': seq<nat>)
    requires InPlace(d, ptrs, upper, false, cells) && Apart(ptrs, cells) && Packed(|d|, upper, cells) && i < |cells|
    requires KeyWritten(d, upper, ptrs[i], Growth(cells[i].key, key), key, d')
    requires ptrs' == SlotsAfterUpdate(ptrs, i, Growth(cells[i].key, key))
    ensures var upper', cells' := upper - Growth(cells[i].key, key), cells[i := cells[i].(key := key)];
            upper' >= 0 && InPlace(d', ptrs', upper', false, cells') && Apart(ptrs', cells')
                && Packed(|d|, upper', cells')
  {
    assert forall j :: 0 <= j < |cells| ==> LiesAt(d, ptrs[j], false, cells[j]) && cells[j].body == [];
    InPlaceAfterUpdate(d, ptrs, upper, cells, i, key, d', ptrs');
    ApartAfterUpdate(ptrs, cells, i, key, ptrs');
    PackedAfterUpdate(|d|, upper, cells, i, key);
  }

  // ----- making nodes -----

  /** The node of a leaf record: data too long for a node leaves only the number
      of its first overflow page (`ovpg`, 8 bytes) behind. */
  function LeafCell(key: seq<Byte>, data: seq<Byte>, flags: nat, ovpg: seq<Byte>, nodeMax: nat): Cell {
    var lo, hi := |data| % WORD, |data| / WORD;
    if NODESIZE + |key| + |data| > nodeMax then Cell(lo, hi, if IsBig(flags) then flags else flags + 1, key, ovpg)
    else Cell(lo, hi, flags, key, data)
  }

  lemma {:induction false} LeafCellOk(key: seq<Byte>, data: seq<Byte>, flags: nat, ovpg: seq<Byte>, nodeMax: nat)
    requires |key| < WORD && |data| < WORD * WORD && flags < WORD && !IsBig(flags) && |ovpg| == PGNO_BYTES
    ensures var c := LeafCell(key, data, flags, ovpg, nodeMax);
            && CellOk(true, c) && c.lo + WORD * c.hi == |data|
            && (IsBig(c.flags) <==> NODESIZE + |key| + |data| > nodeMax)
  {
  }

  /** The node of a branch: a 48 bit page number spread over three words. */
  function BranchCell(key: seq<Byte>, pgno: nat): Cell {
    Cell(pgno % WORD, pgno / WORD % WORD, pgno / WORD / WORD, key, [])
  }

  /** NODEPGNO */
  function PageNumber(c: Cell): nat {
    c.lo + WORD * (c.hi + WORD * c.flags)
  }

  lemma {:induction false} PageNumberRoundTrip(key: seq<Byte>, pgno: nat)
    requires |key| < WORD && pgno < WORD * WORD * WORD
    ensures CellOk(false, BranchCell(key, pgno)) && PageNumber(BranchCell(key, pgno)) == pgno
  {
    var rest := pgno / WORD;
    assert pgno == rest * WORD + pgno % WORD;
    assert rest == rest / WORD * WORD + rest % WORD;
  }

  /** The number stands in the first six bytes of the node, the lowest byte first. */
  lemma {:induction false} PageNumberBytes(key: seq<Byte>, pgno: nat)
    requires |key| < WORD && pgno < WORD * WORD * WORD
    ensures CellOk(false, BranchCell(key, pgno))
    ensures var b := Bytes(false, BranchCell(key, pgno));
            pgno == b[0] as int + 0x100 * b[1] as int + 0x1_0000 * b[2] as int + 0x100_0000 * b[3] as int
                    + 0x1_0000_0000 * b[4] as int + 0x100_0000_0000 * b[5] as int
  {
    PageNumberRoundTrip(key, pgno);
    var c := BranchCell(key, pgno);
    var b, h := Bytes(false, c), Header(c);
    assert forall k :: 0 <= k < NODESIZE ==> b[k] == h[k];
    assert h[0] == Word(c.lo)[0] && h[1] == Word(c.lo)[1] && h[2] == Word(c.hi)[0] && h[3] == Word(c.hi)[1];
    assert h[4] == Word(c.flags)[0] && h[5] == Word(c.flags)[1];
    assert pgno == c.lo + 0x1_0000 * c.hi + 0x1_0000_0000 * c.flags;
  }

  // ----- sizes as the trees count them -----

  function SlotSizes(cells: seq<Cell>): seq<nat> {
    seq(|cells|, i requires 0 <= i < |cells| => Size(cells[i]) + 2)
  }

  lemma {:induction false} SlotSizesSum(cells: seq<Cell>)
    ensures Sum(SlotSizes(cells)) == Sum(Sizes(cells)) + 2 * |cells|
  {
    if cells != [] {
      var rest := cells[..|cells| - 1];
      SlotSizesSum(rest);
      assert SlotSizes(cells)[..|rest|] == SlotSizes(rest) && Sizes(cells)[..|rest|] == Sizes(rest);
    }
  }

  /** SIZELEFT is what an empty page has less the nodes and their slots. */
  lemma {:induction false} FreeSpace(psize: nat, upper: nat, cells: seq<Cell>)
    requires Packed(psize, upper, cells)
    ensures upper - (PAGEHDRSZ + 2 * |cells|) == psize - PAGEHDRSZ - Sum(SlotSizes(cells))
  {
    SlotSizesSum(cells);
  }

  /** A node and its slot take the bytes the tree operations reckon with. */
  lemma {:induction false} SizesAgree(key: seq<Byte>, data: seq<Byte>, flags: nat, ovpg: seq<Byte>, rank: int,
                                      pgno: nat)
    requires |ovpg| == PGNO_BYTES
    ensures Size(LeafCell(key, data, flags, ovpg, Tree.nodeMax)) + 2
            == Tree.EntryBytes(TreePut.NewEntry(Tree.Key(rank, |key|), data))
    ensures Size(BranchCell(key, pgno)) + 2 == Tree.KeyBytes(Tree.Key(rank, |key|))
  {
  }

  // ----- the page -----

  lemma {:induction false} WordAt(d: seq<Byte>, p: nat, leaf: bool, c: Cell)
    requires LiesAt(d, p, leaf, c)
    ensures d[p] as int + 256 * d[p + 1] as int == c.lo && d[p + 2] as int + 256 * d[p + 3] as int == c.hi
    ensures d[p + 4] as int + 256 * d[p + 5] as int == c.flags && d[p + 6] as int + 256 * d[p + 7] as int == |c.key|
  {
    var b := Bytes(leaf, c);
    assert forall k :: 0 <= k < NODESIZE ==> d[p + k] == b[k] == Header(c)[k];
    assert Header(c)[0] == Word(c.lo)[0] && Header(c)[1] == Word(c.lo)[1];
    assert Header(c)[2] == Word(c.hi)[0] && Header(c)[3] == Word(c.hi)[1];
    assert Header(c)[4] == Word(c.flags)[0] && Header(c)[5] == Word(c.flags)[1];
    assert Header(c)[6] == Word(|c.key|)[0] && Header(c)[7] == Word(|c.key|)[1];
  }

  class Page {
    const leaf: bool
    const data: array<Byte>
    const ptrs: array<nat>
    var lower: nat
    var upper: nat
    ghost var cells: seq<Cell>

    ghost predicate Valid()
      reads this, data, ptrs
    {
      && lower == PAGEHDRSZ + 2 * |cells| <= upper <= data.Length == PAGEHDRSZ + 2 * ptrs.Length
      && InPlace(data[..], ptrs[..|cells|], upper, leaf, cells) && Apart(ptrs[..|cells|], cells)
      && Packed(data.Length, upper, cells)
    }

    constructor (leaf: bool, slots: nat)
      ensures Valid() && cells == [] && this.leaf == leaf && data.Length == PAGEHDRSZ + 2 * slots && fresh(data)
              && fresh(ptrs)
    {
      this.leaf := leaf;
      data := new Byte[PAGEHDRSZ + 2 * slots](_ => 0);
      ptrs := new nat[slots](_ => 0);
      lower, upper := PAGEHDRSZ, PAGEHDRSZ + 2 * slots;
      cells := [];
    }

    /** NUMKEYS */
    method NumKeys() returns (n: nat)
      requires Valid()
      ensures n == |cells|
    {
      n := (lower - PAGEHDRSZ) / 2;
    }

    /** The size of the node in slot i, read from its header. */
    method NodeSize(i: nat) returns (sz: nat)
      requires Valid() && i < |cells|
      ensures sz == Size(cells[i])
    {
      var p := ptrs[i];
      assert ptrs[..|cells|][i] == p;
      assert LiesAt(data[..], p, leaf, cells[i]);
      WordAt(data[..], p, leaf, cells[i]);
      sz := NODESIZE + data[p + 6] as int + 256 * data[p + 7] as int;
      if leaf {
        var flags := data[p + 4] as int + 256 * data[p + 5] as int;
        if flags % 2 == 1 {
          sz := sz + PGNO_BYTES;
        } else {
          sz := sz + data[p] as int + 256 * data[p + 1] as int + WORD * (data[p + 2] as int + 256 * data[p + 3] as int);
        }
      }
      sz := Even(sz);
    }

    /** Store a word. */
    method StoreWord(p: nat, v: nat)
      requires p + 2 <= data.Length && v < WORD
      modifies data
      ensures data[p] == Word(v)[0] && data[p + 1] == Word(v)[1]
      ensures forall k :: 0 <= k < data.Length && k != p && k != p + 1 ==> data[k] == old(data[k])
    {
      data[p], data[p + 1] := v % 256, v / 256;
    }

    /** memcpy */
    method StoreBytes(p: nat, b: seq<Byte>)
      requires p + |b| <= data.Length
      modifies data
      ensures forall k :: 0 <= k < |b| ==> data[p + k] == b[k]
      ensures forall k :: 0 <= k < data.Length && !(p <= k < p + |b|) ==> data[k] == old(data[k])
    {
      forall k | 0 <= k < |b| {
        data[p + k] := b[k];
      }
    }

    /** Write the header of a node. */
    method WriteHeader(ofs: nat, c: Cell)
      requires CellOk(leaf, c) && ofs + NODESIZE <= data.Length
      modifies data
      ensures forall k :: 0 <= k < NODESIZE ==> data[ofs + k] == Header(c)[k]
      ensures forall k :: 0 <= k < data.Length && !(ofs <= k < ofs + NODESIZE) ==> data[k] == old(data[k])
    {
      StoreWord(ofs + 6, |c.key|);
      StoreWord(ofs + 4, c.flags);
      StoreWord(ofs, c.lo);
      StoreWord(ofs + 2, c.hi);
      assert Header(c) == [Word(c.lo)[0], Word(c.lo)[1], Word(c.hi)[0], Word(c.hi)[1],
                           Word(c.flags)[0], Word(c.flags)[1], Word(|c.key|)[0], Word(|c.key|)[1]];
    }

    /** Write header, key and data of a new node. */
    method WriteCell(ofs: nat, c: Cell)
      requires CellOk(leaf, c) && ofs + Size(c) <= data.Length
      modifies data
      ensures LiesAt(data[..], ofs, leaf, c)
      ensures forall k :: 0 <= k < data.Length && !(ofs <= k < ofs + Size(c)) ==> data[k] == old(data[k])
    {
      WriteHeader(ofs, c);
      StoreBytes(ofs + NODESIZE, c.key);
      StoreBytes(ofs + NODESIZE + |c.key|, c.body);
    }

    /** Move the slots from i on up by one and fill slot i. */
    method InsertSlot(n: nat, i: nat, ofs: nat)
      requires i <= n < ptrs.Length
      modifies ptrs
      ensures ptrs[..n + 1] == WithNew(old(ptrs[..n]), ofs, i)
    {
      var k := n;
      while k > i
        invariant i <= k <= n
        invariant forall j :: 0 <= j < k ==> ptrs[j] == old(ptrs[j])
        invariant forall j :: k < j <= n ==> ptrs[j] == old(ptrs[j - 1])
      {
        ptrs[k] := ptrs[k - 1];
        k := k - 1;
      }
      ptrs[i] := ofs;
      InsertedIs(old(ptrs[..n]), ptrs[..n + 1], i, ofs);
    }

    /** The second half of mdb_node_add: slot and bytes. */
    method Place(i: nat, c: Cell, ofs: nat)
      requires Valid() && i <= |cells| && CellOk(leaf, c) && ofs + Size(c) == upper && lower + 2 <= ofs
      modifies data, ptrs
      ensures InPlace(data[..], ptrs[..|cells| + 1], ofs, leaf, WithNew(cells, c, i))
      ensures Apart(ptrs[..|cells| + 1], WithNew(cells, c, i)) && Packed(data.Length, ofs, WithNew(cells, c, i))
    {
      ghost var d, p := data[..], ptrs[..|cells|];
      var n := NumKeys();
      InsertSlot(n, i, ofs);
      WriteCell(ofs, c);
      Added(d, p, upper, leaf, cells, i, c, data[..], ofs);
    }

    /** mdb_node_add: succeeds exactly if node and slot fit into the free space;
        the page then holds the new node at index i. */
    method NodeAdd(i: nat, c: Cell) returns (ok: bool)
      requires Valid() && i <= |cells| && CellOk(leaf, c)
      modifies this`lower, this`upper, this`cells, data, ptrs
      ensures Valid() && (ok <==> Size(c) + 2 <= old(upper - lower))
      ensures ok ==> cells == WithNew(old(cells), c, i) && lower == old(lower) + 2 && upper == old(upper) - Size(c)
      ensures !ok ==> cells == old(cells) && lower == old(lower) && upper == old(upper) && data[..] == old(data[..])
    {
      var size := Even(NODESIZE + |c.key| + |c.body|);
      if size > upper - lower - 2 {
        return false;
      }
      var ofs := upper - size;
      Place(i, c, ofs);
      upper, lower := ofs, lower + 2;
      cells := WithNew(cells, c, i);
      return true;
    }

    /** Drop slot i; slots of nodes that move up are adjusted. */
    method RemoveSlot(n: nat, i: nat, sz: nat)
      requires i < n <= ptrs.Length
      modifies ptrs
      ensures ptrs[..n - 1] == SlotsAfterDel(old(ptrs[..n]), i, sz)
    {
      var ptr := ptrs[i];
      var k, j := 0, 0;
      while k < n
        invariant 0 <= k <= n && j == if k <= i then k else k - 1
        invariant forall l :: 0 <= l < j ==> ptrs[l] == SlotAfterDel(old(ptrs[..n])[Unskip(i, l)], old(ptrs[i]), sz)
        invariant forall l :: k <= l < n ==> ptrs[l] == old(ptrs[l])
      {
        if k != i {
          ptrs[j] := if ptrs[k] < ptr then ptrs[k] + sz else ptrs[k];
          j := j + 1;
        }
        k := k + 1;
      }
    }

    /** memmove within the page */
    method MoveBytes(from: nat, to: nat, shift: int)
      requires from <= to <= data.Length && 0 <= from + shift && to + shift <= data.Length
      modifies data
      ensures data[..] == Moved(old(data[..]), from, to, shift)
    {
      forall k | from + shift <= k < to + shift {
        data[k] := data[k - shift];
      }
    }

    /** mdb_node_del */
    method NodeDel(i: nat)
      requires Valid() && i < |cells|
      modifies this`lower, this`upper, this`cells, data, ptrs
      ensures Valid() && cells == Dropped(old(cells), i)
      ensures lower == old(lower) - 2 && upper == old(upper) + Size(old(cells[i]))
    {
      ghost var d, p := data[..], ptrs[..|cells|];
      var n := NumKeys();
      var sz := NodeSize(i);
      var ptr := ptrs[i];
      InPlaceAfterDel(d, p, upper, leaf, cells, i);
      ApartAfterDel(p, cells, i);
      PackedAfterDel(data.Length, upper, cells, i);
      CloseGap(n, i, ptr, sz);
      lower, upper := lower - 2, upper + sz;
      cells := Dropped(cells, i);
    }

    /** The slots and the bytes without node i. */
    method CloseGap(n: nat, i: nat, ptr: nat, sz: nat)
      requires i < n <= ptrs.Length && upper <= ptr && ptr + sz <= data.Length
      modifies data, ptrs
      ensures ptrs[..n - 1] == SlotsAfterDel(old(ptrs[..n]), i, sz)
      ensures data[..] == Moved(old(data[..]), upper, ptr, sz)
    {
      RemoveSlot(n, i, sz);
      MoveBytes(upper, ptr, sz);
    }

    /** Adjust the slots of nodes at or below the node of slot i. */
    method ShiftSlots(n: nat, i: nat, delta: int)
      requires i < n <= ptrs.Length
      requires forall j :: 0 <= j < n ==> 0 <= SlotAfterUpdate(ptrs[..n][j], ptrs[..n][i], delta)
      modifies ptrs
      ensures ptrs[..n] == SlotsAfterUpdate(old(ptrs[..n]), i, delta)
    {
      ghost var p := ptrs[..n];
      var ptr := ptrs[i];
      var k := 0;
      while k < n
        invariant 0 <= k <= n
        invariant forall j :: 0 <= j < k ==> ptrs[j] == SlotAfterUpdate(p[j], ptr, delta)
        invariant forall j :: k <= j < n ==> ptrs[j] == p[j]
      {
        assert 0 <= SlotAfterUpdate(p[k], ptr, delta);
        if ptrs[k] <= ptr {
          ptrs[k] := ptrs[k] - delta;
        }
        k := k + 1;
      }
    }

    /** Key size and key of the node at offset q. */
    method StoreKey(q: nat, key: seq<Byte>)
      requires q + NODESIZE + |key| <= data.Length && |key| < WORD
      modifies data
      ensures KeyStored(old(data[..]), q, key, data[..])
    {
      StoreWord(q + 6, |key|);
      StoreBytes(q + NODESIZE, key);
    }

    /** Move the header with everything below it, then store the key. */
    method RewriteKey(ptr: nat, delta: int, key: seq<Byte>)
      requires upper <= ptr && ptr + NODESIZE <= data.Length && 0 <= upper - delta
      requires ptr - delta + NODESIZE + |key| <= data.Length && |key| < WORD
      modifies data
      ensures KeyWritten(old(data[..]), upper, ptr, delta, key, data[..])
    {
      MoveBytes(upper, ptr + NODESIZE, -delta);
      StoreKey(ptr - delta, key);
    }

    /** The key size of the node in slot i, read from its header. */
    method KeySize(i: nat) returns (n: nat)
      requires Valid() && i < |cells|
      ensures n == |cells[i].key|
    {
      var p := ptrs[i];
      assert ptrs[..|cells|][i] == p;
      assert LiesAt(data[..], p, leaf, cells[i]);
      WordAt(data[..], p, leaf, cells[i]);
      n := data[p + 6] as int + 256 * data[p + 7] as int;
    }

    /** The second half of mdb_update_key: slots and bytes. */
    method Rewrite(i: nat, key: seq<Byte>, delta: int)
      requires Valid() && !leaf && i < |cells| && |key| < WORD && delta == Growth(cells[i].key, key) <= upper - lower
      modifies data, ptrs
      ensures var cells' := cells[i := cells[i].(key := key)];
              && InPlace(data[..], ptrs[..|cells|], upper - delta, leaf, cells')
              && Apart(ptrs[..|cells|], cells') && Packed(data.Length, upper - delta, cells')
    {
      var ptr := ptrs[i];
      ghost var d, p := data[..], ptrs[..|cells|];
      assert p[i] == ptr;
      UpdateBounds(d, p, upper, cells, i, key);
      var n := NumKeys();
      ShiftSlots(n, i, delta);
      RewriteKey(ptr, delta, key);
      Updated(d, p, upper, cells, i, key, data[..], ptrs[..|cells|]);
    }

    /** mdb_update_key on a branch page.  If the page has no room for the longer
        key nothing changes: the caller deletes the node and splits the page. */
    method UpdateKey(i: nat, key: seq<Byte>) returns (ok: bool)
      requires Valid() && !leaf && i < |cells| && |key| < WORD
      modifies this`lower, this`upper, this`cells, data, ptrs
      ensures Valid() && lower == old(lower)
      ensures ok <==> Growth(old(cells[i].key), key) <= old(upper - lower)
      ensures ok ==> cells == old(cells[i := cells[i].(key := key)])
      ensures ok ==> upper == old(upper) - Growth(old(cells[i].key), key)
      ensures !ok ==> cells == old(cells) && upper == old(upper) && data[..] == old(data[..])
    {
      var size := KeySize(i);
      var delta := Even(|key|) - Even(size);
      if delta > 0 && upper - lower < delta {
        return false;
      }
      Rewrite(i, key, delta);
      upper := upper - delta;
      cells := cells[i := cells[i].(key := key)];
      return true;
    }
  }
}

/** Items of progressive AC scans as bits, by a Huffman table (jcphuff.c, emit_symbol and
    emit_bits), and reading them back. */
module AcBits {
  import opened Shifts
  import opened ProbabilityTable
  import opened BitStrings
  import opened CodeLengths
  import opened DerivedTable
  import opened DecodingTable
  import opened SymbolDecoding
  import opened EobRuns

  /** A table: what is sent of it, and the codes that derive from it. */
  datatype Table = Table(code: seq<nat>, size: seq<nat>, bits: seq<nat>, huffval: seq<int>)

  predicate ValidTable(t: Table) {
    && WellShaped(t.bits, t.huffval) && Legal(t.bits, t.huffval, 255) && Derived(t.bits, t.huffval, t.code, t.size)
    && |t.code| == |t.size| == 256
  }

  predicate Coded(t: Table, item: Item)
    requires |t.size| == 256
  {
    item.Symbol? ==> item.s < 256 && t.size[item.s] > 0
  }

  predicate AllCoded(t: Table, items: seq<Item>)
    requires |t.size| == 256
  {
    forall i :: 0 <= i < |items| ==> Coded(t, items[i])
  }

  function OneItem(t: Table, item: Item): seq<Bit>
    requires |t.code| == |t.size| == 256 && Coded(t, item)
  {
    match item
    case Symbol(s) => CodeWord(t.code, t.size, s)
    case Raw(bit) => [bit]
  }

  function ItemBits(t: Table, items: seq<Item>): seq<Bit>
    requires |t.code| == |t.size| == 256 && AllCoded(t, items)
  {
    if items == [] then [] else OneItem(t, items[0]) + ItemBits(t, items[1..])
  }

  lemma {:induction false} ItemBitsAppend(t: Table, items: seq<Item>, item: Item)
    requires |t.code| == |t.size| == 256 && AllCoded(t, items + [item])
    ensures AllCoded(t, items) && Coded(t, item) && ItemBits(t, items + [item]) == ItemBits(t, items) + OneItem(t, item)
  {
    var all := items + [item];
    assert all[|items|] == item && forall i :: 0 <= i < |items| ==> all[i] == items[i];
    if items != [] {
      assert all[1..] == items[1..] + [item];
      ItemBitsAppend(t, items[1..], item);
    } else {
      assert all[1..] == [];
    }
  }

  /** The bits ahead are those of the items. */
  predicate Holds(t: Table, items: seq<Item>, bits: seq<Bit>) {
    |t.code| == |t.size| == 256 && AllCoded(t, items) && ItemBits(t, items) <= bits
  }

  /** A symbol ahead: its code word, and what is behind it. */
  lemma {:induction false} SymbolHeld(t: Table, items: seq<Item>, bits: seq<Bit>) returns (p: nat)
    requires ValidTable(t) && Holds(t, items, bits) && items != [] && items[0].Symbol?
    ensures Nondecreasing(Sizes(t.bits, LONGEST)) && p < |Sizes(t.bits, LONGEST)| <= 256
    ensures t.huffval[p] == items[0].s && Ahead(Sizes(t.bits, LONGEST), p, bits)
    ensures Holds(t, items[1..], Behind(bits, Sizes(t.bits, LONGEST)[p]))
  {
    hide CodeNumber, Space, CodeAt, BitsOf;
    var s, sizes := items[0].s, Sizes(t.bits, LONGEST);
    SizesOrdered(t.bits, LONGEST);
    assert Coded(t, items[0]);
    var list := t.huffval[..|sizes|];
    assert s in list;
    p :| 0 <= p < |list| && list[p] == s;
    CodeIsNumber(sizes, p, t.code[s]);
    hide ItemBits;
    HeldNext(t, items, bits, sizes[p]);
  }

  lemma {:induction false} BitHeld(t: Table, items: seq<Item>, bits: seq<Bit>)
    requires Holds(t, items, bits) && items != [] && items[0].Raw?
    ensures bits != [] && bits[0] == items[0].bit && Holds(t, items[1..], Behind(bits, 1))
  {
    assert Coded(t, items[0]);
    hide ItemBits;
    HeldNext(t, items, bits, 1);
  }

  lemma {:induction false} HeldNext(t: Table, items: seq<Item>, bits: seq<Bit>, n: nat)
    requires Holds(t, items, bits) && items != [] && Coded(t, items[0]) && n == |OneItem(t, items[0])|
    ensures n <= |bits| && OneItem(t, items[0]) <= bits && Holds(t, items[1..], bits[n..])
  {
    var first, more := OneItem(t, items[0]), ItemBits(t, items[1..]);
    assert ItemBits(t, items) == first + more;
    assert bits[..n] == first;
  }
}

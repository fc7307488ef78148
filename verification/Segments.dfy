/** Segment descriptors of include/simplix/segment.h. The bit fields of a base address or a
    limit do not overlap, so `|` and `<<` on them are written as sums of products. */
module Segments {
  import opened Common

  datatype Descriptor = Descriptor(
    limit0: nat, base0: nat, base16: nat, kind: nat, limit16: nat, g: bool, base24: nat)

  /** BUILD_4KB_SEG_DESC */
  function Build(base: nat, limit: nat, kind: nat): Descriptor
  {
    Descriptor(
      (limit / 0x1000) % 0x1_0000,
      base % 0x1_0000,
      (base / 0x1_0000) % 0x100,
      kind,
      (limit / 0x1000_0000) % 0x10,
      true,
      (base / 0x100_0000) % 0x100)
  }

  /** SEG_ADDR */
  function Addr(d: Descriptor): nat
  {
    d.base24 * 0x100_0000 + d.base16 * 0x1_0000 + d.base0
  }

  /** SEG_SIZE */
  function Size(d: Descriptor): nat
  {
    var limit := d.limit16 * 0x1_0000 + d.limit0;
    if d.g then limit * 0x1000 else limit
  }

  /** A descriptor decodes to the address it was built from, and to its limit rounded down to
      a multiple of 4 KiB. */
  lemma BuildDecodes(base: nat, limit: nat, kind: nat)
    requires base < WORD && limit < WORD
    ensures Addr(Build(base, limit, kind)) == base
    ensures Size(Build(base, limit, kind)) == limit / 0x1000 * 0x1000
    ensures limit % 0x1000 == 0 ==> Size(Build(base, limit, kind)) == limit
    ensures var d := Build(base, limit, kind);
            && d.base0 < 0x1_0000 && d.base16 < 0x100 && d.base24 < 0x100 && d.limit0 < 0x1_0000 && d.limit16 < 0x10
            && d.base0 + 0x1_0000 * d.base16 + 0x100_0000 * d.base24 == base
            && d.limit0 + 0x1_0000 * d.limit16 == limit / 0x1000 && d.g && d.kind == kind
  {
    AddrDecodes(base);
    var pages := limit / 0x1000;
    assert limit / 0x1000_0000 == pages / 0x1_0000;
    assert pages / 0x1_0000 < 0x10;
  }

  lemma AddrDecodes(base: nat)
    requires base < WORD
    ensures (base / 0x100_0000) % 0x100 * 0x100_0000 + (base / 0x1_0000) % 0x100 * 0x1_0000 + base % 0x1_0000 == base
  {
    var high := base / 0x1_0000;
    assert base / 0x100_0000 == high / 0x100;
    assert high / 0x100 < 0x100;
  }
}

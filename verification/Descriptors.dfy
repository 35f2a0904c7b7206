/** Translation-table descriptors (src/arch/arm64/mm/mmu/{attr,desc,table_desc,page_desc,block_desc}.rs)
    and the virtual memory layout they serve (src/mm/layout.rs, src/mm/mod.rs). */
module Descriptors {
  import opened Bits

  const PAGE_SIZE: nat := 4096
  const ENTRIES: nat := 512
  const ADDR_LIMIT: nat := 0x1_0000_0000_0000
  const ADDR_MASK: u64 := 0x0000_ffff_ffff_f000

  const EXECUTE_NEVER: u64 := 0x40_0000_0000_0000
  const ACCESS_FLAG: u64 := 0x400
  const SHAREABILITY: u64 := 0x300
  const ATTR_INDEX: u64 := 0x1C

  datatype Shareability = NonShareable | OuterShareable | InnerShareable
  datatype MemAttr = DeviceNgnRnE | NormalNonCacheable | NormalWriteBack
  datatype Level = Level0 | Level1 | Level2 | Level3
  datatype Kind = Table | Block | Page | Invalid | PanicBlock

  function ShareabilityBits(s: Shareability): u64
  {
    match s
    case NonShareable => 0x000
    case OuterShareable => 0x200
    case InnerShareable => 0x300
  }

  function MemAttrBits(m: MemAttr): u64
  {
    match m
    case DeviceNgnRnE => 0x0
    case NormalNonCacheable => 0x4
    case NormalWriteBack => 0x8
  }

  /** `Descriptor::from`; the two panicking cases become `PanicBlock`. */
  function Classify(value: u64, level: Level): Kind
  {
    var tag := And(value, 3);
    if tag == 3 then (if level.Level3? then Page else Table)
    else if tag == 1 then (if level.Level0? || level.Level3? then PanicBlock else Block)
    else Invalid
  }

  function OutputAddress(value: u64): nat
  {
    And(value, ADDR_MASK)
  }

  // ----- the setters, on plain words -----

  function WithBits(value: nat, flag: u64, on: bool): nat
  {
    if on then Or(value, flag) else And(value, Not(flag))
  }

  function WithField(value: nat, mask: u64, bits: u64): nat
  {
    Or(And(value, Not(mask)), bits)
  }

  /** A page or block descriptor under construction: one word, changed in place by the setters. */
  class EntryDescriptor {
    var value: nat

    constructor Page(outputAddr: nat)
      requires outputAddr % PAGE_SIZE == 0
      ensures value == Or(outputAddr, 3)
    {
      value := Or(outputAddr, 3);
    }

    constructor BlockLevel1(outputAddr: nat)
      requires outputAddr % GIB == 0
      ensures value == Or(outputAddr, 1)
    {
      value := Or(outputAddr, 1);
    }

    method SetExecuteNever(xn: bool)
      modifies this
      ensures value == WithBits(old(value), EXECUTE_NEVER, xn)
    {
      if xn { value := Or(value, EXECUTE_NEVER); } else { value := And(value, Not(EXECUTE_NEVER)); }
    }

    method SetAccessed(accessed: bool)
      modifies this
      ensures value == WithBits(old(value), ACCESS_FLAG, accessed)
    {
      if accessed { value := Or(value, ACCESS_FLAG); } else { value := And(value, Not(ACCESS_FLAG)); }
    }

    method SetShareability(attr: Shareability)
      modifies this
      ensures value == WithField(old(value), SHAREABILITY, ShareabilityBits(attr))
    {
      value := And(value, Not(SHAREABILITY));
      value := Or(value, ShareabilityBits(attr));
    }

    method SetMemAttrIndex(index: MemAttr)
      modifies this
      ensures value == WithField(old(value), ATTR_INDEX, MemAttrBits(index))
    {
      value := And(value, Not(ATTR_INDEX));
      value := Or(value, MemAttrBits(index));
    }
  }

  const GIB: nat := 0x4000_0000

  /** The descriptor left by the four setters applied to a fresh word, in the order the code calls them. */
  function Configured(tagged: nat, xn: bool, mem: MemAttr): nat
  {
    var a := WithField(tagged, SHAREABILITY, ShareabilityBits(InnerShareable));
    var b := WithBits(a, ACCESS_FLAG, true);
    var c := WithBits(b, EXECUTE_NEVER, xn);
    WithField(c, ATTR_INDEX, MemAttrBits(mem))
  }

  // ----- words as an upper part and twelve low bits -----

  lemma OrJoin(h: nat, l: nat, h': nat, l': nat)
    requires l < 0x1000 && l' < 0x1000
    ensures Or(0x1000 * h + l, 0x1000 * h' + l') == 0x1000 * Or(h, h') + Or(l, l') && Or(l, l') < 0x1000
  {
    hide And, Or, Shl;
    Pow2Of12();
    ShlIsTimes(h, 12);
    ShlIsTimes(h', 12);
    ShlIsTimes(Or(h, h'), 12);
    OrSplit(12, h, l, h', l');
    OrBound(l, l', 12);
  }

  lemma AndJoin(h: nat, l: nat, h': nat, l': nat)
    requires l < 0x1000 && l' < 0x1000
    ensures And(0x1000 * h + l, 0x1000 * h' + l') == 0x1000 * And(h, h') + And(l, l') && And(l, l') < 0x1000
  {
    hide And, Or, Shl;
    Pow2Of12();
    ShlIsTimes(h, 12);
    ShlIsTimes(h', 12);
    ShlIsTimes(And(h, h'), 12);
    AndSplit(12, h, l, h', l');
    AndBound(l, l');
  }

  lemma OrParts(d: nat, e: nat)
    ensures Or(d, e) / 0x1000 == Or(d / 0x1000, e / 0x1000)
    ensures Or(d, e) % 0x1000 == Or(d % 0x1000, e % 0x1000)
  {
    hide And, Or, Shl;
    OrJoin(d / 0x1000, d % 0x1000, e / 0x1000, e % 0x1000);
  }

  lemma AndParts(d: nat, e: nat)
    ensures And(d, e) / 0x1000 == And(d / 0x1000, e / 0x1000)
    ensures And(d, e) % 0x1000 == And(d % 0x1000, e % 0x1000)
  {
    hide And, Or, Shl;
    AndJoin(d / 0x1000, d % 0x1000, e / 0x1000, e % 0x1000);
  }

  /** Clearing and setting bits below bit 12 leaves the upper part alone. */
  lemma FieldParts(d: u64, mask: u64, bits: u64)
    requires mask < 0x1000 && bits < 0x1000
    ensures WithField(d, mask, bits) / 0x1000 == d / 0x1000
    ensures WithField(d, mask, bits) % 0x1000 == Or(And(d % 0x1000, 0xFFF - mask), bits)
  {
    hide And, Or, Shl;
    var cleared := And(d, Not(mask));
    AndParts(d, Not(mask));
    OrParts(cleared, bits);
    AndAllOnes(d / 0x1000, Not(mask) / 0x1000);
    OrZero(d / 0x1000);
  }

  lemma AndAllOnes(x: nat, ones: nat)
    requires ones == 0xF_FFFF_FFFF_FFFF && x <= ones
    ensures And(x, ones) == x
  {
    hide And, Or, Shl;
    Pow2Of52();
    AndLowMask(x, 52);
  }

  /** `& ADDR_MASK` keeps bits 12 to 47 and nothing else. */
  lemma OutputAddressIsField(d: u64)
    ensures OutputAddress(d) == d / 0x1000 % 0x10_0000_0000 * 0x1000
  {
    hide And, Or, Shl;
    AndJoin(d / 0x1000, d % 0x1000, 0xF_FFFF_FFFF, 0);
    OrZero(d % 0x1000);
    AndLow36(d / 0x1000, 0xF_FFFF_FFFF);
  }

  lemma AndLow36(x: nat, mask: nat)
    requires mask == 0xF_FFFF_FFFF
    ensures And(x, mask) == x % 0x10_0000_0000
  {
    hide And, Or, Shl;
    Pow2Of36();
    ShlIsTimes(x / 0x10_0000_0000, 36);
    AndKeepsLow(36, x / 0x10_0000_0000, x % 0x10_0000_0000);
  }

  lemma OrHigh36(x: nat, h: nat)
    ensures Or(x, 0x10_0000_0000 * h) % 0x10_0000_0000 == x % 0x10_0000_0000
  {
    hide And, Or, Shl;
    Pow2Of36();
    ShlIsTimes(x / 0x10_0000_0000, 36);
    ShlIsTimes(h, 36);
    ShlIsTimes(Or(x / 0x10_0000_0000, h), 36);
    OrKeepsLow(36, x / 0x10_0000_0000, x % 0x10_0000_0000, h);
  }

  lemma AndHigh36(x: nat, h: nat)
    ensures And(x, 0x10_0000_0000 * h + 0xF_FFFF_FFFF) % 0x10_0000_0000 == x % 0x10_0000_0000
  {
    hide And, Or, Shl;
    Pow2Of36();
    ShlIsTimes(x / 0x10_0000_0000, 36);
    ShlIsTimes(h, 36);
    ShlIsTimes(And(x / 0x10_0000_0000, h), 36);
    AndLowField(36, x / 0x10_0000_0000, x % 0x10_0000_0000, h);
  }

  lemma FieldArithmetic(pa: nat, tag: nat)
    requires pa % PAGE_SIZE == 0 && tag < 4
    ensures (pa + tag) / 0x1000 == pa / 0x1000 && (pa + tag) % 0x1000 == tag && (pa + tag) % 4 == tag
    ensures pa / 0x1000 % 0x10_0000_0000 * 0x1000 == pa % ADDR_LIMIT
  {
  }

  lemma TagOf(d: nat)
    ensures And(d, 3) == d % 4
  {
    hide And, Or, Shl;
    assert Pow2(2) == 4;
    ShlIsTimes(d / 4, 2);
    AndKeepsLow(2, d / 4, d % 4);
  }

  // ----- what an encoded descriptor means -----

  /** A table descriptor decodes to the table it was built from, and is read as a table at every
      level that can hold one. */
  lemma TableDescriptorDecodes(pa: u64)
    requires pa % PAGE_SIZE == 0 && pa < ADDR_LIMIT
    ensures Or(pa, 3) == pa + 3 && OutputAddress(pa + 3) == pa
    ensures Classify(pa + 3, Level0) == Classify(pa + 3, Level1) == Classify(pa + 3, Level2) == Table
  {
    hide And, Or, Shl;
    OrLowTag(pa, 3);
    FieldArithmetic(pa, 3);
    TagOf(pa + 3);
    OutputAddressIsField(pa + 3);
  }

  lemma OrLowTag(pa: nat, tag: nat)
    requires pa % PAGE_SIZE == 0 && tag < PAGE_SIZE
    ensures Or(pa, tag) == pa + tag
  {
    hide And, Or, Shl;
    OrJoin(pa / 0x1000, 0, 0, tag);
    OrZero(pa / 0x1000);
    OrZero(tag);
  }

  /** The execute-never flag lives above the address field. */
  lemma XnPart(d: u64, xn: bool)
    ensures var e := WithBits(d, EXECUTE_NEVER, xn);
            e < U64_LIMIT && e % 0x1000 == d % 0x1000
            && e / 0x1000 % 0x10_0000_0000 == d / 0x1000 % 0x10_0000_0000
  {
    hide And, Or, Shl;
    if xn { SetXn(d); } else { ClearXn(d); }
  }

  lemma SetXn(d: u64)
    ensures var e := Or(d, EXECUTE_NEVER);
            e < U64_LIMIT && e % 0x1000 == d % 0x1000
            && e / 0x1000 % 0x10_0000_0000 == d / 0x1000 % 0x10_0000_0000
  {
    hide And, Or, Shl;
    OrJoin(d / 0x1000, d % 0x1000, 0x400_0000_0000, 0);
    OrZero(d % 0x1000);
    OrHigh36(d / 0x1000, 0x40);
    Or52(d / 0x1000, 0x400_0000_0000);
  }

  lemma Or52(x: nat, y: nat)
    requires x < 0x10_0000_0000_0000 && y < 0x10_0000_0000_0000
    ensures Or(x, y) < 0x10_0000_0000_0000
  {
    hide And, Or, Shl;
    Pow2Of52();
    OrBound(x, y, 52);
  }

  lemma ClearXn(d: u64)
    ensures var e := And(d, Not(EXECUTE_NEVER));
            e < U64_LIMIT && e % 0x1000 == d % 0x1000
            && e / 0x1000 % 0x10_0000_0000 == d / 0x1000 % 0x10_0000_0000
  {
    hide And, Or, Shl;
    AndJoin(d / 0x1000, d % 0x1000, 0xFFBF * 0x10_0000_0000 + 0xF_FFFF_FFFF, 0xFFF);
    AndBound(d, Not(EXECUTE_NEVER));
    AndLow12(d % 0x1000, 0xFFF);
    AndHigh36(d / 0x1000, 0xFFBF);
  }

  lemma AndLow12(x: nat, mask: nat)
    requires mask == 0xFFF && x <= mask
    ensures And(x, mask) == x
  {
    hide And, Or, Shl;
    Pow2Of12();
    AndLowMask(x, 12);
  }

  /** Shareability and the access flag change the low twelve bits only. */
  lemma FrontSetters(v: u64, tag: nat)
    requires v % 0x1000 == tag && (tag == 1 || tag == 3)
    ensures var b := WithBits(WithField(v, SHAREABILITY, ShareabilityBits(InnerShareable)), ACCESS_FLAG, true);
            b < U64_LIMIT && b / 0x1000 == v / 0x1000 && b % 0x1000 == tag + 0x700
  {
    hide And, Or, Shl;
    var a := WithField(v, SHAREABILITY, ShareabilityBits(InnerShareable));
    FieldParts(v, SHAREABILITY, ShareabilityBits(InnerShareable));
    ShareabilityLow(tag);
    OrParts(a, ACCESS_FLAG);
    OrZero(a / 0x1000);
    AccessLow(tag);
  }

  /** The four setters never disturb the address: whatever they are given, bits 12 to 47 of the
      finished descriptor are those of the address it was built from, and the tag survives. */
  lemma ConfiguredEntry(pa: u64, tag: nat, xn: bool, mem: MemAttr)
    requires pa % PAGE_SIZE == 0 && (tag == 1 || tag == 3)
    ensures Or(pa, tag) == pa + tag
    ensures var d := Configured(pa + tag, xn, mem);
            d < U64_LIMIT && And(d, 3) == tag && OutputAddress(d) == pa % ADDR_LIMIT
            && d % 0x1000 == tag + ACCESS_FLAG + SHAREABILITY + MemAttrBits(mem)
  {
    hide And, Or, Shl;
    OrLowTag(pa, tag);
    FieldArithmetic(pa, tag);
    var v := pa + tag;
    FrontSetters(v, tag);
    var b := WithBits(WithField(v, SHAREABILITY, ShareabilityBits(InnerShareable)), ACCESS_FLAG, true);
    XnPart(b, xn);
    var c := WithBits(b, EXECUTE_NEVER, xn);
    FieldParts(c, ATTR_INDEX, MemAttrBits(mem));
    var d := WithField(c, ATTR_INDEX, MemAttrBits(mem));
    AttrLow(tag, mem);
    TagOf(d);
    OutputAddressIsField(d);
  }

  // The low twelve bits, setter by setter.

  lemma OrNibble(h: nat, l: nat, h': nat, l': nat)
    requires l < 16 && l' < 16
    ensures Or(16 * h + l, 16 * h' + l') == 16 * Or(h, h') + Or(l, l')
  {
    hide And, Or, Shl;
    assert Pow2(4) == 16;
    ShlIsTimes(h, 4);
    ShlIsTimes(h', 4);
    ShlIsTimes(Or(h, h'), 4);
    OrSplit(4, h, l, h', l');
  }

  lemma AndNibble(h: nat, l: nat, h': nat, l': nat)
    requires l < 16 && l' < 16
    ensures And(16 * h + l, 16 * h' + l') == 16 * And(h, h') + And(l, l')
  {
    hide And, Or, Shl;
    assert Pow2(4) == 16;
    ShlIsTimes(h, 4);
    ShlIsTimes(h', 4);
    ShlIsTimes(And(h, h'), 4);
    AndSplit(4, h, l, h', l');
  }

  lemma SmallTags(tag: nat)
    requires tag == 1 || tag == 3
    ensures And(tag, 0xF) == tag && And(tag, 3) == tag
    ensures Or(tag, 0) == tag && Or(tag, 4) == tag + 4 && Or(tag, 8) == tag + 8
  {
    hide And, Or;
    TagMasks(tag);
    TagFour(tag);
    TagEight(tag);
    OrZero(tag);
  }

  lemma TagMasks(tag: nat)
    requires tag == 1 || tag == 3
    ensures And(tag, 0xF) == tag && And(tag, 3) == tag
  {
    hide Or;
  }

  lemma TagFour(tag: nat)
    requires tag == 1 || tag == 3
    ensures Or(tag, 4) == tag + 4
  {
    hide And;
  }

  lemma TagEight(tag: nat)
    requires tag == 1 || tag == 3
    ensures Or(tag, 8) == tag + 8
  {
    hide And;
  }

  lemma SmallNibbles()
    ensures Or(3, 4) == 7 && And(7, 0xF) == 7
  {
  }

  lemma ShareabilityLow(tag: nat)
    requires tag == 1 || tag == 3
    ensures Or(And(tag, 0xFFF - SHAREABILITY), 0x300) == tag + 0x300
  {
    hide And, Or, Shl;
    AndNibble(0, tag, 0xCF, 0xF);
    SmallTags(tag);
    OrZero(0xCF);
    OrNibble(0, tag, 0x30, 0);
    OrZero(tag);
    OrZero(0x30);
  }

  lemma AccessLow(tag: nat)
    requires tag < 16
    ensures Or(tag + 0x300, ACCESS_FLAG) == tag + 0x700
  {
    hide And, Or, Shl;
    OrNibble(0x30, tag, 0x40, 0);
    OrNibble(0x3, 0, 0x4, 0);
    OrZero(tag);
    OrZero(0);
    SmallNibbles();
  }

  lemma AttrLow(tag: nat, mem: MemAttr)
    requires tag == 1 || tag == 3
    ensures Or(And(tag + 0x700, 0xFFF - ATTR_INDEX), MemAttrBits(mem)) == tag + 0x700 + MemAttrBits(mem)
  {
    hide And, Or, Shl;
    AndNibble(0x70, tag, 0xFE, 3);
    AndNibble(7, 0, 0xF, 0xE);
    SmallTags(tag);
    SmallNibbles();
    OrZero(0xE);
    OrNibble(0x70, tag, 0, MemAttrBits(mem));
    OrZero(0x70);
  }

  // ----- addresses that fit the field -----

  lemma XnExact(d: u64, xn: bool)
    requires d < ADDR_LIMIT
    ensures WithBits(d, EXECUTE_NEVER, xn) == d + (if xn then EXECUTE_NEVER else 0)
  {
    hide And, Or, Shl;
    var x := d / 0x1000;
    Pow2Of36();
    ShlIsTimes(0, 36);
    if xn {
      OrJoin(x, d % 0x1000, 0x400_0000_0000, 0);
      OrZero(d % 0x1000);
      ShlIsTimes(0x40, 36);
      ShlIsTimes(Or(0, 0x40), 36);
      OrKeepsLow(36, 0, x, 0x40);
      OrZero(0x40);
    } else {
      AndJoin(x, d % 0x1000, 0xFFBF * 0x10_0000_0000 + 0xF_FFFF_FFFF, 0xFFF);
      AndLow12(d % 0x1000, 0xFFF);
      ShlIsTimes(0xFFBF, 36);
      ShlIsTimes(And(0, 0xFFBF), 36);
      AndLowField(36, 0, x, 0xFFBF);
      OrZero(0xFFBF);
    }
  }

  function EntryAttrs(tag: nat, xn: bool, mem: MemAttr): nat
  {
    (if xn then EXECUTE_NEVER else 0) + tag + ACCESS_FLAG + SHAREABILITY + MemAttrBits(mem)
  }

  /** For an output address below 2^48 the finished descriptor is the address plus fixed attributes. */
  lemma ExactEntry(pa: u64, tag: nat, xn: bool, mem: MemAttr)
    requires pa % PAGE_SIZE == 0 && pa < ADDR_LIMIT && (tag == 1 || tag == 3)
    ensures Configured(pa + tag, xn, mem) == pa + EntryAttrs(tag, xn, mem)
  {
    hide And, Or, Shl;
    FieldArithmetic(pa, tag);
    var v := pa + tag;
    var a := WithField(v, SHAREABILITY, ShareabilityBits(InnerShareable));
    FieldParts(v, SHAREABILITY, ShareabilityBits(InnerShareable));
    ShareabilityLow(tag);
    assert a == pa + tag + 0x300;
    var b := WithBits(a, ACCESS_FLAG, true);
    OrParts(a, ACCESS_FLAG);
    OrZero(a / 0x1000);
    AccessLow(tag);
    assert b == pa + tag + 0x700;
    XnExact(b, xn);
    var c := WithBits(b, EXECUTE_NEVER, xn);
    FieldParts(c, ATTR_INDEX, MemAttrBits(mem));
    assert c / 0x1000 == pa / 0x1000 + (if xn then 0x400_0000_0000 else 0) && c % 0x1000 == tag + 0x700;
    AttrLow(tag, mem);
  }
}

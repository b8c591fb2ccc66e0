/** Message tags: a 64-bit word that packs label, flags, item count and word count.

    A raw tag is the bit pattern of the word, a number below 2^64; labels are signed. */
module MsgTag {
  import opened Bits
  import opened Numbers

  function ShiftLeft16(lbl: int): nat { (Pattern(lbl) * 65536) % TWO64 }

  /** `l4_msgtag`. */
  function Tag(lbl: int, words: nat, items: nat, flags: nat): nat {
    Or(Or(Or(ShiftLeft16(lbl), And(words, 0x3f)), And(items, 0x3f) * 64), And(flags, 0xf000))
  }

  function Words(raw: nat): nat { And(raw, 0x3f) }

  function Items(raw: nat): nat { And(raw / 64, 0x3f) }

  function Flags(raw: nat): nat { And(raw % 0x1_0000_0000, 0xf000) }

  /** The arithmetic shift of a signed word. */
  function Label(raw: nat): int { Signed(raw) / 65536 }

  function SetLabel(raw: nat, lbl: int): nat { Or(And(raw, 0xffff), ShiftLeft16(lbl)) }

  /** The signed number in the low 48 bits of a label. */
  function Low48(lbl: int): int {
    var l := lbl % TWO48;
    if l < TWO47 then l else l - TWO48
  }

  // ----- masks and shifts as arithmetic

  lemma Mask6(x: nat)
    ensures And(x, 0x3f) == x % 64
  {
    Powers();
    AndLowMask(x, 6);
  }

  lemma Mask16(x: nat)
    ensures And(x, 0xffff) == x % 65536
  {
    Powers();
    AndLowMask(x, 16);
  }

  lemma FlagBits(x: nat)
    ensures x % 65536 - x % 65536 % 4096 == (x / 4096 % 16) * 4096
  {
    var q, r := x / 65536, x % 65536;
    var f, l := r / 4096, r % 4096;
    DivModUnique(x, 4096, 16 * q + f, l);
    DivModUnique(16 * q + f, 16, q, f);
  }

  lemma MaskFlags(x: nat)
    ensures And(x, 0xf000) == (x / 4096 % 16) * 4096
  {
    Powers();
    AndSeesLowBits(x, 16, 0xf000);
    AndHighMask(x % 65536, 12, 16, 0xf000);
    FlagBits(x);
  }

  lemma ShiftFacts(lbl: int)
    ensures ShiftLeft16(lbl) == (lbl % TWO48) * 65536
  {
  }

  /** Four fields side by side. */
  function Fields(l: nat, f: nat, i: nat, w: nat): nat { l * 65536 + f * 4096 + i * 64 + w }

  lemma SplitFields(l: nat, f: nat, i: nat, w: nat)
    requires f < 16 && i < 64 && w < 64
    ensures var t := Fields(l, f, i, w);
            t % 64 == w && t / 64 % 64 == i && t / 4096 % 16 == f && t / 65536 == l
  {
    var t := Fields(l, f, i, w);
    DivModUnique(t, 64, l * 1024 + f * 64 + i, w);
    DivModUnique(t / 64, 64, l * 16 + f, i);
    DivModUnique(t, 4096, l * 16 + f, i * 64 + w);
    DivModUnique(l * 16 + f, 16, l, f);
    DivModUnique(t, 65536, l, f * 4096 + i * 64 + w);
  }

  lemma OrFields(l: nat, f: nat, i: nat, w: nat)
    requires f < 16 && i < 64 && w < 64
    ensures Or(Or(Or(l * 65536, w), i * 64), f * 4096) == Fields(l, f, i, w)
  {
    OrSwaps(l * 65536, w, i * 64);
    OrSwaps(Or(l * 65536, i * 64), w, f * 4096);
    OrSwaps(l * 65536, i * 64, f * 4096);
    OrSorted(l, f, i, w);
  }

  lemma OrSorted(l: nat, f: nat, i: nat, w: nat)
    requires f < 16 && i < 64 && w < 64
    ensures Or(Or(Or(l * 65536, f * 4096), i * 64), w) == Fields(l, f, i, w)
  {
    var a := l * 65536 + f * 4096;
    var b := a + i * 64;
    assert Or(l * 65536, f * 4096) == a by { OrField16(l, f * 4096); }
    assert Or(a, i * 64) == b by { assert a == (l * 16 + f) * 4096; OrField12(l * 16 + f, i * 64); }
    assert Or(b, w) == b + w by { assert b == (l * 1024 + f * 64 + i) * 64; OrField6(l * 1024 + f * 64 + i, w); }
  }

  lemma OrField16(x: nat, y: nat)
    requires y < 65536
    ensures Or(x * 65536, y) == x * 65536 + y
  {
    Powers();
    OrIsSum(x, y, 16);
  }

  lemma OrField12(x: nat, y: nat)
    requires y < 4096
    ensures Or(x * 4096, y) == x * 4096 + y
  {
    Powers();
    OrIsSum(x, y, 12);
  }

  lemma OrField6(x: nat, y: nat)
    requires y < 64
    ensures Or(x * 64, y) == x * 64 + y
  {
    Powers();
    OrIsSum(x, y, 6);
  }

  /** The fields of a tag lie side by side. */
  lemma TagLayout(lbl: int, words: nat, items: nat, flags: nat)
    ensures Tag(lbl, words, items, flags) ==
            Fields(lbl % TWO48, flags / 4096 % 16, items % 64, words % 64)
  {
    Mask6(words);
    Mask6(items);
    MaskFlags(flags);
    ShiftFacts(lbl);
    OrFields(lbl % TWO48, flags / 4096 % 16, items % 64, words % 64);
  }

  /** What the accessors read from four fields. */
  lemma ReadFields(l: nat, f: nat, i: nat, w: nat)
    requires l < TWO48 && f < 16 && i < 64 && w < 64
    ensures var t := Fields(l, f, i, w);
            && t < TWO64 && Words(t) == w && Items(t) == i && Flags(t) == f * 4096
            && Label(t) == if l < TWO47 then l else l - TWO48
  {
    var t := Fields(l, f, i, w);
    SplitFields(l, f, i, w);
    Mask6(t);
    Mask6(t / 64);
    MaskFlags(t % 0x1_0000_0000);
    LowWord(l, f, i, w);
    SignedFields(l, f * 4096 + i * 64 + w);
  }

  lemma LowWord(l: nat, f: nat, i: nat, w: nat)
    requires f < 16 && i < 64 && w < 64
    ensures Fields(l, f, i, w) % 0x1_0000_0000 / 4096 % 16 == f
  {
    var h, k := l / 65536, l % 65536;
    assert l == h * 65536 + k;
    DivModUnique(Fields(l, f, i, w), 0x1_0000_0000, h, Fields(k, f, i, w));
    SplitFields(k, f, i, w);
  }

  lemma SignedFields(l: nat, low: nat)
    requires l < TWO48 && low < 65536
    ensures Signed(l * 65536 + low) / 65536 == if l < TWO47 then l else l - TWO48
  {
  }

  /** Reading back: counts modulo 64, the four flag bits, and the label's low 48 bits. */
  lemma TagFields(lbl: int, words: nat, items: nat, flags: nat)
    ensures var t := Tag(lbl, words, items, flags);
            && t < TWO64
            && Words(t) == words % 64 && Items(t) == items % 64
            && Flags(t) == (flags / 4096 % 16) * 4096 && Label(t) == Low48(lbl)
  {
    TagLayout(lbl, words, items, flags);
    ReadFields(lbl % TWO48, flags / 4096 % 16, items % 64, words % 64);
  }

  lemma Low48Is(lbl: int)
    requires -TWO63 <= lbl < TWO63
    ensures Low48(lbl) == lbl <==> -TWO47 <= lbl < TWO47
  {
  }

  /** Everything survives packing exactly when the counts fit 6 bits and the label 48. */
  lemma TagRoundTrip(lbl: int, words: nat, items: nat, flags: nat)
    requires -TWO63 <= lbl < TWO63
    ensures var t := Tag(lbl, words, items, flags);
            && (Words(t) == words <==> words < 64)
            && (Items(t) == items <==> items < 64)
            && (Label(t) == lbl <==> -TWO47 <= lbl < TWO47)
  {
    TagFields(lbl, words, items, flags);
    Low48Is(lbl);
    SixBits(words);
    SixBits(items);
  }

  lemma SixBits(n: nat)
    ensures n % 64 == n <==> n < 64
  {
  }

  lemma RawLayout(raw: nat)
    requires raw < TWO64
    ensures raw == Fields(raw / 65536, raw / 4096 % 16, raw / 64 % 64, raw % 64)
    ensures raw % 65536 == Fields(0, raw / 4096 % 16, raw / 64 % 64, raw % 64) && raw / 65536 < TWO48
  {
    var w, i := raw % 64, raw / 64 % 64;
    var f := raw / 64 / 64 % 16;
    DivModUnique(raw, 4096, raw / 64 / 64, i * 64 + w);
    DivModUnique(raw, 65536, raw / 64 / 64 / 16, f * 4096 + i * 64 + w);
  }

  /** A new label leaves counts and flags as they are. */
  lemma SetLabelFields(raw: nat, lbl: int)
    requires raw < TWO64
    ensures var t := SetLabel(raw, lbl);
            && Words(t) == Words(raw) && Items(t) == Items(raw) && Flags(t) == Flags(raw)
            && Label(t) == Low48(lbl)
  {
    var l, f, i, w := lbl % TWO48, raw / 4096 % 16, raw / 64 % 64, raw % 64;
    Mask16(raw);
    ShiftFacts(lbl);
    OrCommutes(raw % 65536, l * 65536);
    OrField16(l, raw % 65536);
    RawLayout(raw);
    assert SetLabel(raw, lbl) == Fields(l, f, i, w);
    ReadFields(l, f, i, w);
    ReadFields(raw / 65536, f, i, w);
  }

  lemma FieldsAgain(l: nat, f: nat, i: nat, w: nat)
    requires l < TWO48 && f < 16 && i < 64 && w < 64
    ensures (if l < TWO47 then l else l - TWO48) % TWO48 == l
    ensures f * 4096 / 4096 % 16 == f && i % 64 == i && w % 64 == w
  {
  }

  lemma PackFields(l: nat, f: nat, i: nat, w: nat)
    requires l < TWO48 && f < 16 && i < 64 && w < 64
    ensures Tag(if l < TWO47 then l else l - TWO48, w, i, f * 4096) == Fields(l, f, i, w)
  {
    FieldsAgain(l, f, i, w);
    TagLayout(if l < TWO47 then l else l - TWO48, w, i, f * 4096);
  }

  /** Packing what was read from a tag, with another item count, changes only that count. */
  lemma Repacked(tag: nat, items: nat)
    requires tag < TWO64 && items < 64
    ensures var t := Tag(Label(tag), Words(tag), items, Flags(tag));
            && t < TWO64 && Items(t) == items
            && Words(t) == Words(tag) && Label(t) == Label(tag) && Flags(t) == Flags(tag)
  {
    var l, f, i, w := tag / 65536, tag / 4096 % 16, tag / 64 % 64, tag % 64;
    RawLayout(tag);
    ReadFields(l, f, i, w);
    PackFields(l, f, items, w);
    ReadFields(l, f, items, w);
  }

  /** A tag without flags, whose counts fit. */
  lemma CountedTag(lbl: int, words: nat, items: nat)
    requires words < 64 && items < 64
    ensures var t := Tag(lbl, words, items, 0);
            Words(t) == words && Items(t) == items && Flags(t) == 0 && Label(t) == Low48(lbl)
  {
    SixBits(words);
    SixBits(items);
    assert 0 / 4096 % 16 == 0;
    TagLayout(lbl, words, items, 0);
    ReadFields(lbl % TWO48, 0, items, words);
  }
}

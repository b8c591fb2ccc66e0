/** Appending flex pages to a message: two registers per page behind the untyped words,
    counted in the message tag. */
module FlexPages {
  import opened Bits
  import opened MsgTag
  import opened Numbers

  /** Constants generated from the C headers: number of message registers, the bits that
      mark a map item and a continuation, and the out-of-memory code. */
  datatype Config = Config(registers: nat, itemMap: nat, itemCont: nat, enomem: int)

  predicate Plausible(c: Config) { 1 <= c.registers <= 63 && c.enomem > 0 }

  datatype Page = Page(base: nat, fpage: nat)

  datatype Message = Message(regs: seq<nat>, tag: nat)

  function Describe(c: Config, base: nat): nat { Or(Or(base, c.itemMap), c.itemCont) }

  /** The first register of an item has the bits of the base and the two marks, and no others. */
  lemma DescribeBits(c: Config, base: nat, bits: nat)
    ensures And(Describe(c, base), bits) == 0 <==>
            And(base, bits) == 0 && And(c.itemMap, bits) == 0 && And(c.itemCont, bits) == 0
  {
    OrBits(base, c.itemMap, c.itemCont, bits);
  }

  /** The register at which the next item goes. */
  function Next(m: Message): nat { Words(m.tag) + 2 * Items(m.tag) }

  predicate Fits(c: Config, m: Message) { Next(m) + 2 <= c.registers }

  /** The tag with one more item, everything else repacked. */
  function OneMore(tag: nat): nat { Tag(Label(tag), Words(tag), Items(tag) + 1, Flags(tag)) }

  function Add(c: Config, m: Message, p: Page): Message
    requires |m.regs| == c.registers
  {
    if !Fits(c, m) then m
    else Message(m.regs[Next(m) := Describe(c, p.base)][Next(m) + 1 := p.fpage], OneMore(m.tag))
  }

  /** `l4_sndfpage_add_u`. */
  method SndFpageAdd(c: Config, regs: array<nat>, tag: nat, p: Page) returns (code: int, tag': nat)
    requires Plausible(c) && regs.Length == c.registers
    modifies regs
    ensures Message(regs[..], tag') == Add(c, Message(old(regs[..]), tag), p)
    ensures code == if Fits(c, Message(old(regs[..]), tag)) then 0 else -c.enomem
  {
    var i := Words(tag) + 2 * Items(tag);
    if i >= c.registers - 1 {
      return -c.enomem, tag;
    }
    regs[i] := Or(Or(p.base, c.itemMap), c.itemCont);
    regs[i + 1] := p.fpage;
    tag' := Tag(Label(tag), Words(tag), Items(tag) + 1, Flags(tag));
    code := 0;
  }

  // ----- runs of appends

  function AddAll(c: Config, m: Message, pages: seq<Page>): (r: Message)
    requires |m.regs| == c.registers
    ensures |r.regs| == c.registers
    decreases pages
  {
    if pages == [] then m else AddAll(c, Add(c, m, pages[0]), pages[1..])
  }

  /** How many of the pages are accepted. */
  function Accepted(c: Config, m: Message, pages: seq<Page>): nat
    requires |m.regs| == c.registers
    decreases pages
  {
    if pages == [] then 0
    else (if Fits(c, m) then 1 else 0) + Accepted(c, Add(c, m, pages[0]), pages[1..])
  }

  /** Room for another two registers, in units of items. */
  function Room(c: Config, m: Message): nat
    requires Next(m) <= c.registers
  {
    (c.registers - Next(m)) / 2
  }

  predicate Sane(c: Config, m: Message) {
    Plausible(c) && |m.regs| == c.registers && m.tag < TWO64 && Next(m) <= c.registers
  }

  lemma AddStep(c: Config, m: Message, p: Page)
    requires Sane(c, m)
    ensures var r := Add(c, m, p);
            && Sane(c, r) && Words(r.tag) == Words(m.tag) && Label(r.tag) == Label(m.tag)
            && Flags(r.tag) == Flags(m.tag)
            && (Fits(c, m) ==> Items(r.tag) == Items(m.tag) + 1 && Room(c, r) == Room(c, m) - 1)
            && (!Fits(c, m) ==> r == m && Room(c, m) == 0)
  {
    if Fits(c, m) { Repacked(m.tag, Items(m.tag) + 1); }
  }

  /** The registers from `i` on hold the first `n` pages, in order. */
  ghost predicate Stored(c: Config, regs: seq<nat>, i: nat, pages: seq<Page>, n: nat) {
    && n <= |pages| && i + 2 * n <= |regs|
    && forall k :: 0 <= k < n ==>
         regs[i + 2 * k] == Describe(c, pages[k].base) && regs[i + 2 * k + 1] == pages[k].fpage
  }

  /** `r` is `m` with the first `n` pages appended and nothing else changed. */
  ghost predicate Appended(c: Config, m: Message, r: Message, pages: seq<Page>, n: nat) {
    && |r.regs| == |m.regs|
    && Stored(c, r.regs, Next(m), pages, n)
    && r.regs[..Next(m)] == m.regs[..Next(m)]
    && r.regs[Next(m) + 2 * n..] == m.regs[Next(m) + 2 * n..]
    && Items(r.tag) == Items(m.tag) + n && Words(r.tag) == Words(m.tag)
    && Label(r.tag) == Label(m.tag) && Flags(r.tag) == Flags(m.tag)
  }

  lemma AppendedPrepends(c: Config, m: Message, r: Message, pages: seq<Page>, n: nat)
    requires Sane(c, m) && Fits(c, m) && pages != []
    requires Appended(c, Add(c, m, pages[0]), r, pages[1..], n)
    ensures Appended(c, m, r, pages, n + 1)
  {
    AddStep(c, m, pages[0]);
    AppendedAgain(c, m, Add(c, m, pages[0]), r, pages, n);
  }

  lemma AppendedAgain(c: Config, m: Message, m1: Message, r: Message, pages: seq<Page>, n: nat)
    requires pages != [] && |m.regs| == |m1.regs| && Next(m) + 2 <= |m.regs|
    requires m1.regs == m.regs[Next(m) := Describe(c, pages[0].base)][Next(m) + 1 := pages[0].fpage]
    requires Words(m1.tag) == Words(m.tag) && Items(m1.tag) == Items(m.tag) + 1
    requires Label(m1.tag) == Label(m.tag) && Flags(m1.tag) == Flags(m.tag)
    requires Appended(c, m1, r, pages[1..], n)
    ensures Appended(c, m, r, pages, n + 1)
  {
    StoredPrepends(c, r.regs, m1.regs, m.regs, Next(m), pages, n);
  }

  /** Flex-page appending: exactly as many pages as there is room for are accepted; page k
      of them lies at registers next + 2k and next + 2k + 1, and nothing else changes. */
  lemma {:induction false} Appending(c: Config, m: Message, pages: seq<Page>)
    requires Sane(c, m)
    ensures Accepted(c, m, pages) == Min(|pages|, Room(c, m))
    ensures Appended(c, m, AddAll(c, m, pages), pages, Accepted(c, m, pages))
    decreases pages
  {
    if pages != [] {
      AddStep(c, m, pages[0]);
      Appending(c, Add(c, m, pages[0]), pages[1..]);
      if Fits(c, m) {
        AppendedPrepends(c, m, AddAll(c, m, pages), pages, Accepted(c, m, pages) - 1);
      }
    }
  }

  lemma StoredPrepends(c: Config, r: seq<nat>, r1: seq<nat>, r0: seq<nat>, i: nat, pages: seq<Page>, n: nat)
    requires |r| == |r1| == |r0| && i + 2 + 2 * n <= |r| && pages != []
    requires r1 == r0[i := Describe(c, pages[0].base)][i + 1 := pages[0].fpage]
    requires Stored(c, r, i + 2, pages[1..], n)
    requires r[..i + 2] == r1[..i + 2] && r[i + 2 + 2 * n..] == r1[i + 2 + 2 * n..]
    ensures Stored(c, r, i, pages, n + 1)
    ensures r[..i] == r0[..i] && r[i + 2 * (n + 1)..] == r0[i + 2 * (n + 1)..]
  {
    assert r[i] == r[..i + 2][i] && r[i + 1] == r[..i + 2][i + 1];
    forall k | 0 <= k < n + 1
      ensures r[i + 2 * k] == Describe(c, pages[k].base) && r[i + 2 * k + 1] == pages[k].fpage
    {
      if k > 0 {
        assert pages[1..][k - 1] == pages[k];
        assert r[i + 2 + 2 * (k - 1)] == Describe(c, pages[1..][k - 1].base);
      }
    }
    assert r[..i] == r[..i + 2][..i] == r1[..i + 2][..i] == r0[..i];
  }

  /** From a tag with w words and no items exactly floor((D - w) / 2) appends succeed. */
  lemma AppendingFromWords(c: Config, m: Message, pages: seq<Page>)
    requires Sane(c, m) && Items(m.tag) == 0
    ensures Accepted(c, m, pages) == Min(|pages|, (c.registers - Words(m.tag)) / 2)
    ensures Items(AddAll(c, m, pages).tag) == Accepted(c, m, pages)
  {
    Appending(c, m, pages);
  }
}

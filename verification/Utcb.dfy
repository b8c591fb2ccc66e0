/** The message registers as objects: `Registers` moves a cursor over a byte buffer, and
    `UtcbMr` also counts the typed items among what was written. */
module Utcb {
  import opened Bytes
  import opened Marshal
  import opened MsgTag
  import opened Options
  import opened Values

  /** Machine words up to an offset, rounded up. */
  function WordsUpTo(off: nat): (n: nat)
    ensures off <= 8 * n && (n > 0 ==> 8 * (n - 1) < off)
  {
    off / 8 + if off % 8 == 0 then 0 else 1
  }

  class Registers {
    const buf: array<Byte>
    var offset: nat

    constructor (buf: array<Byte>)
      requires buf.Length <= 504
      ensures this.buf == buf && offset == 0 && Valid()
    {
      this.buf, this.offset := buf, 0;
    }

    ghost predicate Valid()
      reads this
    {
      offset <= buf.Length <= 504
    }

    ghost function View(): Regs
      reads this, buf
    {
      Regs(buf[..], offset)
    }

    /** The next aligned position, as `align_offset` computes it. */
    method Aligned(align: nat) returns (start: nat)
      requires Valid() && Alignment(align)
      ensures start == AlignUp(offset, align)
    {
      AlignOffsetIsLeast(offset, align);
      start := AlignOffset(offset, align);
    }

    method Put(align: nat, bytes: seq<Byte>) returns (e: Option<Error>)
      requires Valid() && Alignment(align)
      modifies this`offset, buf
      ensures Valid() && Written(View(), e) == Store(old(View()), align, bytes)
    {
      var start := Aligned(align);
      var end := start + |bytes|;
      if end > buf.Length {
        return Some(MsgTooLong);
      }
      ghost var before := buf[..];
      forall i | 0 <= i < |bytes| { buf[start + i] := bytes[i]; }
      assert buf[..] == before[..start] + bytes + before[end..];
      offset := end;
      e := None;
    }

    method Take(align: nat, size: nat, beyond: Error) returns (r: Result<seq<Byte>>)
      requires Valid() && Alignment(align)
      modifies this`offset
      ensures Valid() && Got(r, offset) == Load(old(View()), align, size, beyond)
    {
      var start := Aligned(align);
      var end := start + size;
      if end > buf.Length {
        return Err(beyond);
      }
      r := Ok(buf[start..end]);
      assert buf[start..end] == buf[..][start..end];
      offset := end;
    }

    method Write(l: Layout, bits: nat) returns (e: Option<Error>)
      requires Valid() && Laid(l)
      modifies this`offset, buf
      ensures Valid() && Written(View(), e) == WriteScalar(old(View()), l, bits)
    {
      e := Put(l.align, ToBytes(bits, l.size));
    }

    method Read(l: Layout) returns (r: Result<nat>)
      requires Valid() && Laid(l)
      modifies this`offset
      ensures Valid() && Got(r, offset) == ReadScalar(old(View()), l)
    {
      var b := Take(l.align, l.size, MsgTooLong);
      match b
      case Ok(bytes) => r := Ok(FromBytes(bytes));
      case Err(e) => r := Err(e);
    }

    method WriteSlice(len: Layout, elem: Layout, items: seq<nat>) returns (e: Option<Error>)
      requires Valid() && Laid(len) && Laid(elem)
      modifies this`offset, buf
      ensures Valid() && Written(View(), e) == WriteValue(old(View()), SliceV(len, elem, items))
    {
      if |items| >= Limit(len.size) {
        return Some(InvalidArg);
      }
      e := Write(len, |items|);
      if e == None {
        e := Put(elem.align, EncodeAll(items, elem.size));
      }
    }

    method ReadSlice(len: Layout, elem: Layout) returns (r: Result<seq<nat>>)
      requires Valid() && Laid(len) && Laid(elem)
      modifies this`offset
      ensures Valid() && Got(r, offset) == Values.ReadSlice(old(View()), len, elem)
    {
      var n := Read(len);
      if n.Err? {
        return Err(n.error);
      }
      var b := Take(elem.align, n.value * elem.size, OutOfBounds);
      if b.Err? {
        return Err(b.error);
      }
      r := Ok(DecodeAll(b.value, elem.size, n.value));
    }

    /** `write_str` is `write_slice` with a `usize` length and bytes. */
    method WriteStr(bytes: seq<Byte>) returns (e: Option<Error>)
      requires Valid()
      modifies this`offset, buf
      ensures Valid() && Written(View(), e) == WriteValue(old(View()), StrV(bytes))
    {
      BytesEncodeThemselves(bytes);
      e := WriteSlice(USIZE, Layout(1, 1), bytes);
    }

    method ReadStr(utf8: Encoding) returns (r: Result<seq<Byte>>)
      requires Valid()
      modifies this`offset
      ensures Valid() && Got(r, offset) == Values.ReadStr(utf8, old(View()))
    {
      StrCases(utf8, View());
      var n := Read(USIZE);
      if n.Err? {
        return Err(n.error);
      }
      r := TakeStr(utf8, n.value);
    }

    /** The bytes of a string, without one trailing zero, if they are well encoded. */
    method TakeStr(utf8: Encoding, count: nat) returns (r: Result<seq<Byte>>)
      requires Valid()
      modifies this`offset
      ensures Valid() && Got(r, offset) == StrAt(utf8, buf[..], old(offset), count)
    {
      var end := offset + count;
      if end > buf.Length {
        return Err(OutOfBounds);
      }
      var slice := buf[offset..end];
      assert slice == buf[..][offset..end];
      var usable := if |slice| > 0 && slice[|slice| - 1] == 0 then slice[..|slice| - 1] else slice;
      if !utf8(usable) {
        return Err(InvalidEncoding);
      }
      offset := end;
      r := Ok(usable);
    }

    /** Passing over a value moves the cursor as writing it would, and keeps all bytes. */
    method Skip(l: Layout) returns (e: Option<Error>)
      requires Valid() && Laid(l)
      modifies this`offset
      ensures Valid() && e == WriteScalar(old(View()), l, 0).error
      ensures offset == WriteScalar(old(View()), l, 0).regs.off
    {
      var start := Aligned(l.align);
      var end := start + l.size;
      if end > buf.Length {
        return Some(MsgTooLong);
      }
      offset := end;
      e := None;
    }

    /** An optional scalar: the value or a gap, and a flag. */
    method WriteOpt(l: Layout, opt: Option<nat>) returns (e: Option<Error>)
      requires Valid() && Laid(l)
      modifies this`offset, buf
      ensures Valid() && Written(View(), e) == WriteOption(old(View()), l, opt)
    {
      if opt.None? {
        e := Skip(l);
      } else {
        e := Write(l, opt.value);
      }
      if e == None {
        e := Write(BOOL, if opt.Some? then 1 else 0);
      }
    }

    /** The value of the flag makes no difference. */
    method ReadOpt(l: Layout) returns (r: Result<Option<nat>>)
      requires Valid() && Laid(l)
      modifies this`offset
      ensures Valid() && Got(r, offset) == ReadOption(old(View()), l)
    {
      var val := Read(l);
      if val.Err? {
        return Err(val.error);
      }
      var flag := Read(BOOL);
      r := if flag.Ok? then Ok(Some(val.value)) else Err(flag.error);
    }

    /** The least number of words that cover everything up to the cursor. */
    method Words() returns (n: nat)
      ensures offset <= 8 * n && (n > 0 ==> 8 * (n - 1) < offset)
      ensures n == WordsUpTo(offset)
    {
      n := offset / 8 + if offset % 8 == 0 then 0 else 1;
    }

    method Reset()
      requires Valid()
      modifies this`offset
      ensures Valid() && View() == Regs(old(buf[..]), 0)
    {
      offset := 0;
    }
  }

  /** The string of `count` bytes at `off`. */
  function StrAt(utf8: Encoding, buf: seq<Byte>, off: nat, count: nat): Got<seq<Byte>> {
    if off + count > |buf| then Got(Err(OutOfBounds), off)
    else
      var usable := Usable(buf[off..off + count]);
      if utf8(usable) then Got(Ok(usable), off + count) else Got(Err(InvalidEncoding), off)
  }

  /** Reading a string, case by case. */
  lemma StrCases(utf8: Encoding, r: Regs)
    ensures var n, g := ReadScalar(r, USIZE), Values.ReadStr(utf8, r);
            match n.result
            case Err(e) => g == Got(Err(e), n.off)
            case Ok(count) => g == StrAt(utf8, r.buf, n.off, count)
  {
  }

  lemma {:induction false} BytesEncodeThemselves(bytes: seq<Byte>)
    ensures EncodeAll(bytes, 1) == bytes
    decreases bytes
  {
    if bytes != [] {
      BytesEncodeThemselves(bytes[1..]);
      assert ToBytes(bytes[0], 1) == [bytes[0]];
    }
  }

  // ----- typed items

  /** What goes into a message: data, or a flex page of two words. */
  datatype Piece = Data(value: Value) | Item(description: nat, fpage: nat)

  datatype Mr = Mr(regs: Regs, items: nat)

  predicate Writable(p: Piece) { p.Data? ==> Proper(TypeOf(p.value)) }

  function ItemBytes(p: Piece): seq<Byte>
    requires p.Item?
  {
    ToBytes(p.description, 8) + ToBytes(p.fpage, 8)
  }

  function PutPiece(m: Mr, p: Piece): Mr
    requires Writable(p)
  {
    match p
    case Data(v) => Mr(WriteValue(m.regs, v).regs, m.items)
    case Item(_, _) =>
      var w := Store(m.regs, 8, ItemBytes(p));
      Mr(w.regs, if w.error == None then m.items + 1 else m.items)
  }

  /** Why a piece was not accepted. */
  function PieceError(m: Mr, p: Piece): Option<Error>
    requires Writable(p)
  {
    match p
    case Data(v) => WriteValue(m.regs, v).error
    case Item(_, _) => Store(m.regs, 8, ItemBytes(p)).error
  }

  /** The counts never run apart: every item accounts for two whole words. */
  predicate Accounted(m: Mr) { m.regs.off <= |m.regs.buf| && 16 * m.items <= m.regs.off }

  /** Untyped words. */
  function UntypedWords(m: Mr): int { WordsUpTo(m.regs.off) - 2 * m.items }

  lemma PieceAccounts(m: Mr, p: Piece)
    requires Accounted(m) && Writable(p)
    ensures Accounted(PutPiece(m, p)) && |PutPiece(m, p).regs.buf| == |m.regs.buf|
  {
    match p
    case Data(v) => WriteExtends(m.regs, v);
    case Item(_, _) => StoreFrames(m.regs, 8, ItemBytes(p));
  }

  function PutPieces(m: Mr, ps: seq<Piece>): Mr
    requires forall i :: 0 <= i < |ps| ==> Writable(ps[i])
    decreases ps
  {
    if ps == [] then m else PutPieces(PutPiece(m, ps[0]), ps[1..])
  }

  /** Word and item accounting: after any mix of data and items, successful or not, from an
      empty message of D registers, words + 2 * items is the number of registers in use,
      at most D, and the word count does not underflow. */
  lemma {:induction false} PiecesAccount(m: Mr, ps: seq<Piece>, registers: nat)
    requires Accounted(m) && |m.regs.buf| == 8 * registers
    requires forall i :: 0 <= i < |ps| ==> Writable(ps[i])
    ensures var r := PutPieces(m, ps);
            && Accounted(r) && |r.regs.buf| == 8 * registers
            && 0 <= UntypedWords(r) && UntypedWords(r) + 2 * r.items == WordsUpTo(r.regs.off) <= registers
    decreases ps
  {
    if ps != [] {
      PieceAccounts(m, ps[0]);
      PiecesAccount(PutPiece(m, ps[0]), ps[1..], registers);
    }
  }

  /** How many items of a message are accepted: those that find two whole registers free. */
  function Accepted(m: Mr, ps: seq<Piece>): nat
    requires forall i :: 0 <= i < |ps| ==> Writable(ps[i])
    decreases ps
  {
    if ps == [] then 0
    else
      var rest := Accepted(PutPiece(m, ps[0]), ps[1..]);
      if ps[0].Item? && 8 * (WordsUpTo(m.regs.off) + 2) <= |m.regs.buf| then rest + 1 else rest
  }

  lemma {:induction false} ItemsAreAccepted(m: Mr, ps: seq<Piece>)
    requires forall i :: 0 <= i < |ps| ==> Writable(ps[i])
    ensures PutPieces(m, ps).items == m.items + Accepted(m, ps)
    decreases ps
  {
    if ps != [] {
      ItemsAreAccepted(PutPiece(m, ps[0]), ps[1..]);
      if ps[0].Item? { assert AlignUp(m.regs.off, 8) == 8 * WordsUpTo(m.regs.off); }
    }
  }

  /** The example in the documentation of `UtcbMr`: a `u32`, a `bool` and a flex page, which
      has two words, by plain writes.  All three take registers and none counts as an item. */
  lemma PlainWritesAreNoItems(buf: seq<Byte>, n: nat, flag: nat, fpage: nat)
    requires |buf| >= 24
    ensures var ps := [Data(ScalarV(Layout(4, 4), n)), Data(ScalarV(BOOL, flag)), Data(ScalarV(Layout(16, 8), fpage))];
            var r := PutPieces(Mr(Regs(buf, 0), 0), ps);
            UntypedWords(r) == 3 && r.items == 0
  {
    var p1, p2, p3 := Data(ScalarV(Layout(4, 4), n)), Data(ScalarV(BOOL, flag)), Data(ScalarV(Layout(16, 8), fpage));
    var m1 := PutPiece(Mr(Regs(buf, 0), 0), p1);
    var m2 := PutPiece(m1, p2);
    assert m1.regs.off == 4 && m2.regs.off == 5 && PutPiece(m2, p3).regs.off == 24;
    assert [p1, p2, p3][1..] == [p2, p3] && [p2, p3][1..] == [p3] && [p3][1..] == [];
    assert PutPieces(m2, [p3]) == PutPiece(m2, p3);
    assert PutPieces(m1, [p2, p3]) == PutPieces(m2, [p3]);
  }

  /** The tag of a message of data and items, as the stubs build it from the two counts. */
  function TagOf(lbl: int, m: Mr): nat
    requires 0 <= UntypedWords(m)
  {
    Tag(lbl, UntypedWords(m), m.items, 0)
  }

  /** The counts of any message survive the 6-bit fields of the tag, and together they
      never announce more registers than there are. */
  lemma CountsSurvive(m: Mr, ps: seq<Piece>, registers: nat, lbl: int)
    requires Accounted(m) && |m.regs.buf| == 8 * registers && registers <= 63
    requires forall i :: 0 <= i < |ps| ==> Writable(ps[i])
    ensures var r := PutPieces(m, ps);
            && 0 <= UntypedWords(r)
            && var t := TagOf(lbl, r);
               && MsgTag.Words(t) == UntypedWords(r)
               && Items(t) == r.items == m.items + Accepted(m, ps)
               && MsgTag.Words(t) + 2 * Items(t) == WordsUpTo(r.regs.off) <= registers
               && Label(t) == Low48(lbl) && Flags(t) == 0
  {
    var r := PutPieces(m, ps);
    PiecesAccount(m, ps, registers);
    ItemsAreAccepted(m, ps);
    CountedTag(lbl, UntypedWords(r), r.items);
  }

  /** An item goes to the register after all words and items before it, the one at which
      `l4_sndfpage_add_u` would put it. */
  lemma ItemRegister(m: Mr, p: Piece)
    requires Accounted(m) && p.Item?
    ensures AlignUp(m.regs.off, 8) == 8 * (UntypedWords(m) + 2 * m.items)
  {
  }

  /** The two registers of an item: the description, then the flex page. */
  lemma {:induction false} ItemStored(m: Mr, p: Piece)
    requires Accounted(m) && p.Item? && p.description < Limit(8) && p.fpage < Limit(8)
    requires PieceError(m, p) == None
    ensures 0 <= UntypedWords(m)
    ensures var k, w := UntypedWords(m) + 2 * m.items, PutPiece(m, p).regs;
            && 8 * k + 16 == w.off <= |w.buf|
            && FromBytes(w.buf[8 * k..8 * k + 8]) == p.description
            && FromBytes(w.buf[8 * k + 8..8 * k + 16]) == p.fpage
  {
    var k, w := WordsUpTo(m.regs.off), PutPiece(m, p).regs;
    ItemRegister(m, p);
    StoreFrames(m.regs, 8, ItemBytes(p));
    NumberRoundTrip(p.description, 8);
    NumberRoundTrip(p.fpage, 8);
    Halves(w.buf, 8 * k, ToBytes(p.description, 8), ToBytes(p.fpage, 8));
  }

  lemma Halves(buf: seq<Byte>, i: nat, a: seq<Byte>, b: seq<Byte>)
    requires i + 16 <= |buf| && |a| == |b| == 8 && buf[i..i + 16] == a + b
    ensures buf[i..i + 8] == a && buf[i + 8..i + 16] == b
  {
    assert buf[i..i + 8] == buf[i..i + 16][..8] && buf[i + 8..i + 16] == buf[i..i + 16][8..];
  }

  /** Whatever comes later, what has been written stays. */
  lemma {:induction false} PiecesExtend(m: Mr, ps: seq<Piece>)
    requires m.regs.off <= |m.regs.buf| && forall i :: 0 <= i < |ps| ==> Writable(ps[i])
    ensures Extends(m.regs, PutPieces(m, ps).regs)
    decreases ps
  {
    if ps != [] {
      var m1 := PutPiece(m, ps[0]);
      match ps[0] {
        case Data(v) => WriteExtends(m.regs, v);
        case Item(_, _) => StoreExtends(m.regs, 8, ItemBytes(ps[0]));
      }
      PiecesExtend(m1, ps[1..]);
      ExtendsTransitive(m.regs, m1.regs, PutPieces(m1, ps[1..]).regs);
    }
  }

  /** An accepted item is in its two registers at the end of the message. */
  lemma {:induction false} ItemStays(m: Mr, p: Piece, later: seq<Piece>)
    requires Accounted(m) && p.Item? && p.description < Limit(8) && p.fpage < Limit(8)
    requires PieceError(m, p) == None && forall i :: 0 <= i < |later| ==> Writable(later[i])
    ensures 0 <= UntypedWords(m)
    ensures var k, w := UntypedWords(m) + 2 * m.items, PutPieces(PutPiece(m, p), later).regs;
            && 8 * k + 16 <= |w.buf|
            && FromBytes(w.buf[8 * k..8 * k + 8]) == p.description
            && FromBytes(w.buf[8 * k + 8..8 * k + 16]) == p.fpage
  {
    var k, a := WordsUpTo(m.regs.off), PutPiece(m, p);
    ItemStored(m, p);
    PiecesExtend(a, later);
    var w := PutPieces(a, later).regs;
    assert w.buf[..a.regs.off] == a.regs.buf[..a.regs.off];
    SamePiece(a.regs.buf, w.buf, a.regs.off, 8 * k, 8 * k + 8);
    SamePiece(a.regs.buf, w.buf, a.regs.off, 8 * k + 8, 8 * k + 16);
  }

  lemma SamePiece(a: seq<Byte>, b: seq<Byte>, n: nat, i: nat, j: nat)
    requires i <= j <= n <= |a| == |b| && a[..n] == b[..n]
    ensures a[i..j] == b[i..j]
  {
    assert a[i..j] == a[..n][i..j] && b[i..j] == b[..n][i..j];
  }

  class UtcbMr {
    const regs: Registers
    var items: nat

    constructor (regs: Registers)
      requires regs.Valid() && regs.offset == 0
      ensures this.regs == regs && items == 0
    {
      this.regs, this.items := regs, 0;
    }

    ghost function View(): Mr
      reads this, regs, regs.buf
    {
      Mr(regs.View(), items)
    }

    ghost predicate Valid()
      reads this, regs, regs.buf
    {
      regs.Valid() && Accounted(View())
    }

    method WriteItem(description: nat, fpage: nat) returns (e: Option<Error>)
      requires Valid()
      modifies this`items, regs`offset, regs.buf
      ensures Valid() && View() == PutPiece(old(View()), Item(description, fpage))
      ensures e == PieceError(old(View()), Item(description, fpage))
      ensures e == None <==> items == old(items) + 1
    {
      PieceAccounts(View(), Item(description, fpage));
      e := regs.Put(8, ToBytes(description, 8) + ToBytes(fpage, 8));
      if e == None {
        items := items + 1;
      }
    }

    method Words() returns (n: nat)
      requires Valid()
      ensures n == UntypedWords(View())
    {
      var all := regs.Words();
      n := all - items * 2;
    }

    method Reset()
      requires Valid()
      modifies this`items, regs`offset
      ensures Valid() && View() == Mr(Regs(old(regs.buf[..]), 0), 0)
    {
      items := 0;
      regs.Reset();
    }

    /** The `Serialiser` implementations: write a value of any supported type. */
    method WriteArg(v: Value) returns (e: Option<Error>)
      requires Valid() && Proper(TypeOf(v))
      modifies regs`offset, regs.buf
      ensures Valid() && Written(regs.View(), e) == WriteValue(old(regs.View()), v)
    {
      WriteExtends(regs.View(), v);
      match v {
        case UnitV => e := None;
        case ScalarV(l, bits) => e := regs.Write(l, bits);
        case OptionV(l, opt) => e := regs.WriteOpt(l, opt);
        case SliceV(len, elem, xs) => e := regs.WriteSlice(len, elem, xs);
        case StrV(bytes) => e := regs.WriteStr(bytes);
      }
    }

    /** Data, or a flex page as an item. */
    method WritePiece(p: Piece) returns (e: Option<Error>)
      requires Valid() && Writable(p)
      modifies this`items, regs`offset, regs.buf
      ensures Valid() && View() == PutPiece(old(View()), p) && e == PieceError(old(View()), p)
    {
      match p {
        case Data(v) => e := WriteArg(v);
        case Item(description, fpage) => e := WriteItem(description, fpage);
      }
    }

    method ReadArg(utf8: Encoding, t: Type) returns (r: Result<Value>)
      requires regs.Valid() && Proper(t)
      modifies regs`offset
      ensures regs.Valid() && Got(r, regs.offset) == ReadValue(utf8, old(regs.View()), t)
    {
      match t {
        case UnitType => r := Ok(UnitV);
        case ScalarType(l) =>
          var x := regs.Read(l);
          r := if x.Ok? then Ok(ScalarV(l, x.value)) else Err(x.error);
        case OptionType(l) =>
          var x := regs.ReadOpt(l);
          r := if x.Ok? then Ok(OptionV(l, x.value)) else Err(x.error);
        case SliceType(len, elem) =>
          var x := regs.ReadSlice(len, elem);
          r := if x.Ok? then Ok(SliceV(len, elem, x.value)) else Err(x.error);
        case StrType =>
          var x := regs.ReadStr(utf8);
          r := if x.Ok? then Ok(StrV(x.value)) else Err(x.error);
      }
    }
  }
}

/** Typed calls: the client stub writes opcode and arguments, the dispatcher reads them,
    and the result travels back the same way. */
module Ipc {
  import opened Bytes
  import opened Marshal
  import opened MsgTag
  import opened Numbers
  import opened Options
  import opened Utcb
  import opened Values

  datatype Method = Method(opcode: nat, args: seq<Type>, ret: Type)

  /** `op` is the layout of the interface's `OpType`, `i32` unless it is given. */
  datatype Interface = Interface(protocol: int, op: Layout, methods: seq<Method>)

  /** The stub writes the opcode literal as an `i32`, whatever the `OpType`. */
  const I32 := Layout(4, 4)

  predicate ProperMethod(m: Method) {
    Proper(m.ret) && forall i :: 0 <= i < |m.args| ==> Proper(m.args[i])
  }

  predicate ProperInterface(f: Interface) {
    Laid(f.op) && forall i :: 0 <= i < |f.methods| ==> ProperMethod(f.methods[i])
  }

  /** Method `i` is the first with the given opcode. */
  predicate FirstWith(methods: seq<Method>, opcode: nat, i: nat) {
    && i < |methods| && methods[i].opcode == opcode
    && forall j :: 0 <= j < i ==> methods[j].opcode != opcode
  }

  /** The first match arm for an opcode: none exactly if no method has it. */
  function Arm(methods: seq<Method>, opcode: nat): (r: Option<nat>)
    ensures r == None ==> forall j :: 0 <= j < |methods| ==> methods[j].opcode != opcode
    ensures r.Some? ==> FirstWith(methods, opcode, r.value)
    decreases methods
  {
    if methods == [] then None
    else if methods[0].opcode == opcode then Some(0)
    else match Arm(methods[1..], opcode) case None => None case Some(i) => Some(i + 1)
  }

  lemma ArmIsFirst(methods: seq<Method>, opcode: nat, i: nat)
    ensures Arm(methods, opcode) == Some(i) <==> FirstWith(methods, opcode, i)
  {
    var r := Arm(methods, opcode);
    if r.Some? && FirstWith(methods, opcode, i) {
      assert !(i < r.value) && !(r.value < i);
    }
  }

  // ----- client to server

  function RequestValues(opcode: nat, args: seq<Value>): seq<Value> { [ScalarV(I32, opcode)] + args }

  function WriteRequest(buf: seq<Byte>, opcode: nat, args: seq<Value>): Written
    requires forall i :: 0 <= i < |args| ==> Proper(TypeOf(args[i]))
  {
    WriteAll(Regs(buf, 0), RequestValues(opcode, args))
  }

  /** The tag of a message without items. */
  function TagFor(lbl: int, r: Regs): nat { Tag(lbl, WordsUpTo(r.off), 0, 0) }

  datatype Rejection = TooLong | WrongProtocol | Unreadable(error: Error) | UnknownOpcode(opcode: nat)

  datatype Decoded = Calls(index: nat, args: seq<Value>) | Rejected(why: Rejection)

  /** The decoding half of `op_dispatch`, on a machine with `registers` message registers. */
  function Decode(registers: nat, utf8: Encoding, f: Interface, tag: nat, buf: seq<Byte>): (d: Decoded)
    requires ProperInterface(f)
    ensures d.Calls? ==> d.index < |f.methods|
  {
    if Words(tag) + Items(tag) * 2 > registers then Rejected(TooLong)
    else if Label(tag) != f.protocol then Rejected(WrongProtocol)
    else
      var op := ReadScalar(Regs(buf, 0), f.op);
      match op.result
      case Err(e) => Rejected(Unreadable(e))
      case Ok(opcode) =>
        match Arm(f.methods, opcode)
        case None => Rejected(UnknownOpcode(opcode))
        case Some(i) =>
          var args := ReadAll(utf8, Regs(buf, op.off), f.methods[i].args);
          match args.result
          case Err(e) => Rejected(Unreadable(e))
          case Ok(vs) => Calls(i, vs)
  }

  /** Why a request is refused: it announces too many registers, or else it is for another
      protocol, or else its opcode cannot be read or is that of no method, or else an argument
      cannot be read. */
  lemma RefusedExactlyWhen(registers: nat, utf8: Encoding, f: Interface, tag: nat, buf: seq<Byte>)
    requires ProperInterface(f)
    ensures var d := Decode(registers, utf8, f, tag, buf);
            var sound := Words(tag) + 2 * Items(tag) <= registers && Label(tag) == f.protocol;
            var op := ReadScalar(Regs(buf, 0), f.op).result;
            && (d == Rejected(TooLong) <==> Words(tag) + 2 * Items(tag) > registers)
            && (d == Rejected(WrongProtocol) <==>
                  Words(tag) + 2 * Items(tag) <= registers && Label(tag) != f.protocol)
            && (forall n: nat :: d == Rejected(UnknownOpcode(n)) <==>
                  sound && op == Ok(n) && forall j :: 0 <= j < |f.methods| ==> f.methods[j].opcode != n)
            && (d.Calls? ==> sound && op.Ok? && FirstWith(f.methods, op.value, d.index)
                             && TypesOf(d.args) == f.methods[d.index].args)
  {
    var op := ReadScalar(Regs(buf, 0), f.op);
    if op.result.Ok? {
      var arm := Arm(f.methods, op.result.value);
      if arm.Some? {
        assert ProperMethod(f.methods[arm.value]);
        ReadTypes(utf8, Regs(buf, op.off), f.methods[arm.value].args);
      }
    }
  }

  /** Arguments have the types they are read with. */
  lemma {:induction false} ReadTypes(utf8: Encoding, r: Regs, ts: seq<Type>)
    requires forall i :: 0 <= i < |ts| ==> Proper(ts[i])
    ensures var g := ReadAll(utf8, r, ts).result; g.Ok? ==> TypesOf(g.value) == ts
    decreases ts
  {
    if ts != [] {
      var g := ReadValue(utf8, r, ts[0]);
      if g.result.Ok? {
        ReadTypes(utf8, Regs(r.buf, g.off), ts[1..]);
        ReadType(utf8, r, ts[0]);
        assert ts == [ts[0]] + ts[1..];
        var rest := ReadAll(utf8, Regs(r.buf, g.off), ts[1..]).result;
        if rest.Ok? { TypesCons(g.result.value, rest.value); }
      }
    }
  }

  lemma TypesCons(v: Value, vs: seq<Value>)
    ensures TypesOf([v] + vs) == [TypeOf(v)] + TypesOf(vs)
  {
  }

  lemma ReadType(utf8: Encoding, r: Regs, t: Type)
    requires Proper(t)
    ensures var g := ReadValue(utf8, r, t).result; g.Ok? ==> TypeOf(g.value) == t
  {
  }

  // ----- words on the wire

  /** The words announced in the tag cover everything that was written, and fit. */
  lemma WordsCover(r: Regs, registers: nat, lbl: int)
    requires r.off <= |r.buf| == 8 * registers && registers <= 63
    ensures r.off <= 8 * WordsUpTo(r.off) <= |r.buf|
    ensures Words(TagFor(lbl, r)) == WordsUpTo(r.off) && Items(TagFor(lbl, r)) == 0
    ensures Label(TagFor(lbl, r)) == Low48(lbl) && Flags(TagFor(lbl, r)) == 0
  {
    WordsBound(r.off, registers);
    CountedTag(lbl, WordsUpTo(r.off), 0);
  }

  lemma WordsBound(off: nat, registers: nat)
    requires off <= 8 * registers
    ensures off <= 8 * WordsUpTo(off) && WordsUpTo(off) <= registers
  {
  }

  /** The dispatcher's length check lets every message through that was built piece by
      piece, with items or without. */
  lemma BuiltMessagesPass(utf8: Encoding, f: Interface, m: Mr, ps: seq<Piece>, registers: nat, lbl: int, buf: seq<Byte>)
    requires ProperInterface(f) && Accounted(m) && |m.regs.buf| == 8 * registers && registers <= 63
    requires forall i :: 0 <= i < |ps| ==> Writable(ps[i])
    ensures 0 <= UntypedWords(PutPieces(m, ps))
    ensures Decode(registers, utf8, f, TagOf(lbl, PutPieces(m, ps)), buf) != Rejected(TooLong)
  {
    CountsSurvive(m, ps, registers, lbl);
  }

  /** A transport: the announced registers arrive, the others hold anything. */
  ghost predicate Delivered(sent: Regs, received: seq<Byte>) {
    Agree(sent.buf, received, 8 * WordsUpTo(sent.off))
  }

  /** The opcode a dispatcher with a narrower `OpType` sees. */
  lemma {:induction false} LowBytes(n: nat, wide: nat, narrow: nat)
    requires narrow <= wide && n < Limit(narrow)
    ensures FromBytes(ToBytes(n, wide)[..narrow]) == n
    ensures forall k :: narrow <= k < wide ==> ToBytes(n, wide)[k] == 0
    decreases wide
  {
    if narrow == 0 {
      ZeroBytes(wide);
    } else {
      LowBytes(n / 256, wide - 1, narrow - 1);
      var b, rest := ToBytes(n, wide), ToBytes(n / 256, wide - 1);
      assert b[..narrow][1..] == rest[..narrow - 1];
      assert forall k :: narrow <= k < wide ==> b[k] == rest[k - 1];
    }
  }

  lemma {:induction false} ZeroBytes(wide: nat)
    ensures forall k :: 0 <= k < wide ==> ToBytes(0, wide)[k] == 0
  {
    if wide > 0 {
      ZeroBytes(wide - 1);
      assert forall k :: 1 <= k < wide ==> ToBytes(0, wide)[k] == ToBytes(0, wide - 1)[k - 1];
    }
  }

  // ----- the cursor after the opcode

  /** The alignment of what a value of type `t` starts with. */
  function AlignOf(t: Type): (a: nat)
    requires Proper(t) && !t.UnitType?
    ensures a >= 1
  {
    match t
    case ScalarType(l) => l.align
    case OptionType(l) => l.align
    case SliceType(len, _) => len.align
    case StrType => 8
  }

  /** Where the first value that occupies space is read, if the cursor is at `off`. */
  function FirstStart(off: nat, ts: seq<Type>): Option<nat>
    requires forall i :: 0 <= i < |ts| ==> Proper(ts[i])
    decreases ts
  {
    if ts == [] then None
    else
      assert Proper(ts[0]);
      if ts[0].UnitType? then FirstStart(off, ts[1..]) else Some(AlignUp(off, AlignOf(ts[0])))
  }

  /** Two cursors that lead to the same first position read the same values. */
  lemma {:induction false} SameStartSameValues(utf8: Encoding, buf: seq<Byte>, a: nat, b: nat, ts: seq<Type>)
    requires forall i :: 0 <= i < |ts| ==> Proper(ts[i])
    requires FirstStart(a, ts) == FirstStart(b, ts)
    ensures ReadAll(utf8, Regs(buf, a), ts).result == ReadAll(utf8, Regs(buf, b), ts).result
    decreases ts
  {
    if ts != [] {
      if ts[0].UnitType? {
        SameStartSameValues(utf8, buf, a, b, ts[1..]);
      } else {
        SameStartSameValue(utf8, buf, a, b, ts[0]);
      }
    }
  }

  lemma SameStartSameScalar(buf: seq<Byte>, a: nat, b: nat, l: Layout)
    requires Laid(l) && AlignUp(a, l.align) == AlignUp(b, l.align)
    ensures var g, h := ReadScalar(Regs(buf, a), l), ReadScalar(Regs(buf, b), l);
            g.result == h.result && (g.result.Ok? ==> g.off == h.off)
  {
  }

  lemma SameStartSameCounted(buf: seq<Byte>, a: nat, b: nat, len: Layout, align: nat, size: nat)
    requires Laid(len) && align >= 1 && AlignUp(a, len.align) == AlignUp(b, len.align)
    ensures var g, h := ReadCounted(Regs(buf, a), len, align, size), ReadCounted(Regs(buf, b), len, align, size);
            g.result == h.result && (g.result.Ok? ==> g.off == h.off)
  {
    SameStartSameScalar(buf, a, b, len);
  }

  lemma SameStartSameValue(utf8: Encoding, buf: seq<Byte>, a: nat, b: nat, t: Type)
    requires Proper(t) && !t.UnitType? && AlignUp(a, AlignOf(t)) == AlignUp(b, AlignOf(t))
    ensures var g, h := ReadValue(utf8, Regs(buf, a), t), ReadValue(utf8, Regs(buf, b), t);
            g.result == h.result && (g.result.Ok? ==> g.off == h.off)
  {
    match t
    case ScalarType(l) => SameStartSameScalar(buf, a, b, l);
    case OptionType(l) => SameStartSameScalar(buf, a, b, l);
    case SliceType(len, elem) => SameStartSameCounted(buf, a, b, len, elem.align, elem.size);
    case StrType => SameStartSameCounted(buf, a, b, USIZE, 1, 1);
  }

  // ----- the request

  /** The request as the client has written it: the opcode in the first four bytes. */
  lemma RequestSplits(buf: seq<Byte>, opcode: nat, args: seq<Value>)
    requires forall i :: 0 <= i < |args| ==> Proper(TypeOf(args[i]))
    requires WriteRequest(buf, opcode, args).error == None
    ensures var first := WriteScalar(Regs(buf, 0), I32, opcode);
            && first.error == None && first.regs.off == 4 && first.regs.buf[..4] == ToBytes(opcode, 4)
            && WriteRequest(buf, opcode, args) == WriteAll(first.regs, args)
            && Extends(first.regs, WriteRequest(buf, opcode, args).regs)
  {
    var vs := RequestValues(opcode, args);
    assert vs[0] == ScalarV(I32, opcode) && vs[1..] == args;
    StoreFrames(Regs(buf, 0), 4, ToBytes(opcode, 4));
    WriteAllExtends(WriteScalar(Regs(buf, 0), I32, opcode).regs, args);
  }

  /** What lies behind the four bytes of the opcode, as far as the `OpType` reaches, is zero. */
  predicate OpcodeClear(op: Layout, buf: seq<Byte>) {
    op.size <= 4 || (op.size <= |buf| && forall k :: 4 <= k < op.size ==> buf[k] == 0)
  }

  lemma {:induction false} ZerosAbove(b: seq<Byte>, n: nat, cut: nat)
    requires cut <= |b| && b[..cut] == ToBytes(n, cut) && n < Limit(cut)
    ensures FromBytes(b) == n <==> forall k :: cut <= k < |b| ==> b[k] == 0
    decreases cut
  {
    if cut == 0 {
      AllZero(b);
    } else {
      assert b[1..][..cut - 1] == b[..cut][1..] == ToBytes(n / 256, cut - 1);
      assert b[0] == b[..cut][0] == n % 256;
      ZerosAbove(b[1..], n / 256, cut - 1);
      assert forall k :: cut <= k < |b| ==> b[k] == b[1..][k - 1];
      assert (forall k :: cut <= k < |b| ==> b[k] == 0) <==
             (forall k :: cut - 1 <= k < |b[1..]| ==> b[1..][k] == 0);
      assert (forall k :: cut <= k < |b| ==> b[k] == 0) ==>
             (forall k :: cut - 1 <= k < |b[1..]| ==> b[1..][k] == b[k + 1] == 0);
    }
  }

  lemma {:induction false} AllZero(b: seq<Byte>)
    ensures FromBytes(b) == 0 <==> forall k :: 0 <= k < |b| ==> b[k] == 0
    decreases b
  {
    if b != [] {
      AllZero(b[1..]);
      assert forall k :: 1 <= k < |b| ==> b[k] == b[1..][k - 1];
      assert forall k :: 0 <= k < |b[1..]| ==> b[1..][k] == b[k + 1];
    }
  }

  /** The dispatcher reads the opcode exactly if nothing else is in the way: always when
      the `OpType` has at most four bytes. */
  lemma {:induction false} OpcodeArrives(op: Layout, opcode: nat, buf: seq<Byte>)
    requires Laid(op) && opcode < Limit(4) && opcode < Limit(op.size)
    requires |buf| >= 4 && buf[..4] == ToBytes(opcode, 4)
    ensures ReadScalar(Regs(buf, 0), op).result == Ok(opcode) <==> OpcodeClear(op, buf)
    ensures ReadScalar(Regs(buf, 0), op).result.Ok? ==> ReadScalar(Regs(buf, 0), op).off == op.size
  {
    assert AlignUp(0, op.align) == 0;
    if op.size <= 4 {
      LowBytes(opcode, 4, op.size);
      assert buf[0..op.size] == buf[..4][..op.size];
    } else if op.size <= |buf| {
      var b := buf[0..op.size];
      assert b[..4] == buf[..4];
      ZerosAbove(b, opcode, 4);
    }
  }

  /** The conditions under which a method is called: no earlier one has its opcode, which an
      `i32` and the `OpType` can both hold, and the arguments have its parameter types. */
  ghost predicate Callable(utf8: Encoding, f: Interface, i: nat, args: seq<Value>) {
    && ProperInterface(f) && i < |f.methods|
    && FirstWith(f.methods, f.methods[i].opcode, i)
    && f.methods[i].opcode < Limit(4) && f.methods[i].opcode < Limit(f.op.size)
    && AllWellTyped(utf8, args) && TypesOf(args) == f.methods[i].args
  }

  /** The cursor behind the opcode leads both sides to the same first argument. */
  predicate InStep(f: Interface, i: nat)
    requires ProperInterface(f) && i < |f.methods|
  {
    assert ProperMethod(f.methods[i]);
    FirstStart(f.op.size, f.methods[i].args) == FirstStart(4, f.methods[i].args)
  }

  /** What the registers hold after the request has arrived in them. */
  lemma RequestHeld(utf8: Encoding, f: Interface, i: nat, args: seq<Value>, buf: seq<Byte>, received: seq<Byte>)
    requires Callable(utf8, f, i, args)
    requires var w := WriteRequest(buf, f.methods[i].opcode, args);
             w.error == None && Agree(w.regs.buf, received, w.regs.off)
    ensures |received| >= 4 && received[..4] == ToBytes(f.methods[i].opcode, 4)
    ensures ReadAll(utf8, Regs(received, 4), f.methods[i].args).result == Ok(args) <==> AllIntact(args)
  {
    var opcode := f.methods[i].opcode;
    var first, w := WriteScalar(Regs(buf, 0), I32, opcode).regs, WriteRequest(buf, opcode, args).regs;
    RequestSplits(buf, opcode, args);
    AgreeEarlier(first, w, received);
    MessageRoundTrip(utf8, first, args, received);
  }

  /** What a dispatcher does with a request of acceptable length. */
  lemma DecodeIs(registers: nat, utf8: Encoding, f: Interface, i: nat, args: seq<Value>, tag: nat, buf: seq<Byte>)
    requires ProperInterface(f) && i < |f.methods| && Arm(f.methods, f.methods[i].opcode) == Some(i)
    requires Words(tag) + Items(tag) * 2 <= registers
    ensures ProperMethod(f.methods[i])
    ensures var op := ReadScalar(Regs(buf, 0), f.op);
            Decode(registers, utf8, f, tag, buf) == Calls(i, args) <==>
            && Label(tag) == f.protocol && op.result == Ok(f.methods[i].opcode)
            && ReadAll(utf8, Regs(buf, op.off), f.methods[i].args).result == Ok(args)
  {
  }

  /** A request in the terms of the dispatcher's reads. */
  lemma RequestReads(registers: nat, utf8: Encoding, f: Interface, i: nat, args: seq<Value>,
                     buf: seq<Byte>, received: seq<Byte>)
    requires registers <= 63 && |buf| == 8 * registers
    requires Callable(utf8, f, i, args) && -TWO63 <= f.protocol < TWO63
    requires var w := WriteRequest(buf, f.methods[i].opcode, args);
             w.error == None && Delivered(w.regs, received)
    ensures ProperMethod(f.methods[i])
    ensures var w := WriteRequest(buf, f.methods[i].opcode, args);
            && Agree(w.regs.buf, received, w.regs.off)
            && (Decode(registers, utf8, f, TagFor(f.protocol, w.regs), received) == Calls(i, args) <==>
                && -TWO47 <= f.protocol < TWO47 && OpcodeClear(f.op, received)
                && ReadAll(utf8, Regs(received, f.op.size), f.methods[i].args).result == Ok(args))
  {
    var w := WriteRequest(buf, f.methods[i].opcode, args);
    RequestSplits(buf, f.methods[i].opcode, args);
    WordsCover(w.regs, registers, f.protocol);
    AgreeLess(w.regs.buf, received, w.regs.off, 8 * WordsUpTo(w.regs.off));
    RequestHeld(utf8, f, i, args, buf, received);
    OpcodeArrives(f.op, f.methods[i].opcode, received);
    ArmIsFirst(f.methods, f.methods[i].opcode, i);
    DecodeIs(registers, utf8, f, i, args, TagFor(f.protocol, w.regs), received);
    Low48Is(f.protocol);
  }

  /** The request arrives: from whatever buffer has the announced words, the dispatcher
      selects the same method with the same arguments, exactly if no string argument ends
      in a zero byte, the protocol number fits the 48 bits of a label, and an `OpType` wider
      than the opcode finds zeros behind it. */
  lemma RequestArrives(registers: nat, utf8: Encoding, f: Interface, i: nat, args: seq<Value>,
                       buf: seq<Byte>, received: seq<Byte>)
    requires registers <= 63 && |buf| == 8 * registers
    requires Callable(utf8, f, i, args) && InStep(f, i) && -TWO63 <= f.protocol < TWO63
    requires var w := WriteRequest(buf, f.methods[i].opcode, args);
             w.error == None && Delivered(w.regs, received)
    ensures var w := WriteRequest(buf, f.methods[i].opcode, args);
            Decode(registers, utf8, f, TagFor(f.protocol, w.regs), received) == Calls(i, args) <==>
            AllIntact(args) && -TWO47 <= f.protocol < TWO47 && OpcodeClear(f.op, received)
  {
    RequestReads(registers, utf8, f, i, args, buf, received);
    RequestHeld(utf8, f, i, args, buf, received);
    SameStartSameValues(utf8, received, f.op.size, 4, f.methods[i].args);
  }
}

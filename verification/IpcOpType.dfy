/** The `OpType` of an interface: which choices let every request arrive. */
module IpcOpType {
  import opened Bytes
  import opened Ipc
  import opened Marshal
  import opened Numbers
  import opened Options
  import opened Values

  // ----- requests out of step

  /** The number a value starts with: a scalar, or a length.  An absent option leaves its
      place as it is and counts as zero. */
  function NumberOf(v: Value): nat {
    match v
    case UnitV => 0
    case ScalarV(_, bits) => bits
    case OptionV(_, opt) => if opt.Some? then opt.value else 0
    case SliceV(_, _, items) => |items|
    case StrV(bytes) => |bytes|
  }

  /** The first number in the registers behind the opcode. */
  function FirstNumber(vs: seq<Value>): Option<nat>
    decreases vs
  {
    if vs == [] then None
    else if vs[0].UnitV? then FirstNumber(vs[1..])
    else Some(NumberOf(vs[0]))
  }

  /** The first number shows in its lowest byte that it is not zero. */
  predicate Marked(vs: seq<Value>) {
    FirstNumber(vs).Some? ==> FirstNumber(vs).value % 256 != 0
  }

  predicate FirstIsString(ts: seq<Type>)
    decreases ts
  {
    ts != [] && (ts[0].StrType? || (ts[0].UnitType? && FirstIsString(ts[1..])))
  }

  lemma TypesTail(vs: seq<Value>)
    requires vs != []
    ensures TypesOf(vs)[1..] == TypesOf(vs[1..]) && TypesOf(vs)[0] == TypeOf(vs[0])
  {
  }

  lemma LowByte(n: nat, size: nat)
    requires size >= 1
    ensures ToBytes(n, size)[0] == n % 256
  {
  }

  /** The first number is written where the writer's cursor leads. */
  lemma NumberWritten(r: Regs, l: Layout, n: nat)
    requires Laid(l) && r.off <= |r.buf| && WriteScalar(r, l, n).error == None
    ensures var w, p := WriteScalar(r, l, n).regs, AlignUp(r.off, l.align);
            p < w.off <= |w.buf| && w.buf[p] == n % 256
  {
    LowByte(n, l.size);
    StoreFrames(r, l.align, ToBytes(n, l.size));
    var w, p := WriteScalar(r, l, n).regs, AlignUp(r.off, l.align);
    assert w.buf[p] == w.buf[p..w.off][0];
  }

  lemma ValueWritten(r: Regs, v: Value)
    requires Proper(TypeOf(v)) && !v.UnitV? && r.off <= |r.buf| && WriteValue(r, v).error == None
    requires NumberOf(v) % 256 != 0
    ensures var w, p := WriteValue(r, v).regs, AlignUp(r.off, AlignOf(TypeOf(v)));
            p < w.off <= |w.buf| && w.buf[p] == NumberOf(v) % 256
  {
    match v
    case ScalarV(l, bits) => NumberWritten(r, l, bits);
    case OptionV(l, opt) => NumberBefore(r, l, opt.value, 1, ToBytes(1, 1));
    case SliceV(len, elem, items) => NumberBefore(r, len, |items|, elem.align, EncodeAll(items, elem.size));
    case StrV(bytes) => NumberBefore(r, USIZE, |bytes|, 1, bytes);
  }

  /** A number keeps its place when more is written behind it. */
  lemma NumberBefore(r: Regs, l: Layout, n: nat, align: nat, bytes: seq<Byte>)
    requires Laid(l) && align >= 1 && r.off <= |r.buf| && WriteScalar(r, l, n).error == None
    ensures var w, p := Store(WriteScalar(r, l, n).regs, align, bytes).regs, AlignUp(r.off, l.align);
            p < w.off <= |w.buf| && w.buf[p] == n % 256
  {
    var w := WriteScalar(r, l, n).regs;
    NumberWritten(r, l, n);
    StoreExtends(w, align, bytes);
    KeepsByte(w, Store(w, align, bytes).regs, AlignUp(r.off, l.align));
  }

  lemma KeepsByte(r: Regs, r': Regs, p: nat)
    requires Extends(r, r') && p < r.off
    ensures p < r'.off && r'.buf[p] == r.buf[p]
  {
    assert r'.buf[p] == r'.buf[..r.off][p] && r.buf[p] == r.buf[..r.off][p];
  }

  lemma {:induction false} FirstNumberWritten(r: Regs, vs: seq<Value>)
    requires forall i :: 0 <= i < |vs| ==> Proper(TypeOf(vs[i]))
    requires r.off <= |r.buf| && WriteAll(r, vs).error == None && FirstNumber(vs).Some? && Marked(vs)
    ensures var w, p := WriteAll(r, vs).regs, FirstStart(r.off, TypesOf(vs));
            p.Some? && p.value < w.off <= |w.buf| && w.buf[p.value] == FirstNumber(vs).value % 256
    decreases vs
  {
    var w := WriteValue(r, vs[0]);
    TypesTail(vs);
    if vs[0].UnitV? {
      FirstNumberWritten(r, vs[1..]);
    } else {
      ValueWritten(r, vs[0]);
      WriteExtends(r, vs[0]);
      WriteAllExtends(w.regs, vs[1..]);
      KeepsByte(w.regs, WriteAll(r, vs).regs, AlignUp(r.off, AlignOf(TypeOf(vs[0]))));
    }
  }

  /** A number that is read comes from where the reader's cursor leads. */
  lemma NumberRead(r: Regs, l: Layout)
    requires Laid(l) && ReadScalar(r, l).result.Ok?
    ensures var p := AlignUp(r.off, l.align);
            p < |r.buf| && ReadScalar(r, l).result.value % 256 == r.buf[p]
  {
    var p := AlignUp(r.off, l.align);
    assert r.buf[p..p + l.size][0] == r.buf[p];
  }

  lemma {:induction false} CountRead(b: seq<Byte>, size: nat, count: nat)
    requires |b| == count * size
    ensures |DecodeAll(b, size, count)| == count
    decreases count
  {
    if count > 0 {
      assert count * size == size + (count - 1) * size && (count - 1) * size >= 0;
      CountRead(b[size..], size, count - 1);
    }
  }

  lemma ValueRead(utf8: Encoding, r: Regs, v: Value)
    requires Proper(TypeOf(v)) && (v.ScalarV? || v.OptionV? || v.SliceV?)
    requires ReadValue(utf8, r, TypeOf(v)).result == Ok(v)
    ensures var p := AlignUp(r.off, AlignOf(TypeOf(v)));
            p < |r.buf| && r.buf[p] == NumberOf(v) % 256
  {
    match v
    case ScalarV(l, _) => NumberRead(r, l);
    case OptionV(l, _) => NumberRead(r, l);
    case SliceV(len, elem, _) =>
      NumberRead(r, len);
      var g := ReadCounted(r, len, elem.align, elem.size).result.value;
      CountRead(g.1, elem.size, g.0);
  }

  lemma {:induction false} FirstNumberRead(utf8: Encoding, r: Regs, vs: seq<Value>)
    requires forall i :: 0 <= i < |vs| ==> Proper(TypeOf(vs[i]))
    requires ReadAll(utf8, r, TypesOf(vs)).result == Ok(vs)
    requires FirstNumber(vs).Some? && !FirstIsString(TypesOf(vs))
    ensures var p := FirstStart(r.off, TypesOf(vs));
            p.Some? && p.value < |r.buf| && r.buf[p.value] == FirstNumber(vs).value % 256
    decreases vs
  {
    var g := ReadValue(utf8, r, TypeOf(vs[0]));
    TypesTail(vs);
    ReadAllSplits(utf8, r, vs, g.off);
    if vs[0].UnitV? {
      FirstNumberRead(utf8, r, vs[1..]);
    } else {
      ValueRead(utf8, r, vs[0]);
    }
  }

  lemma {:induction false} OutOfStep(op: nat, ts: seq<Type>)
    requires op >= 1 && forall i :: 0 <= i < |ts| ==> Proper(ts[i])
    requires FirstStart(op, ts) != FirstStart(4, ts)
    ensures FirstStart(op, ts).Some? && FirstStart(4, ts).Some?
    ensures op <= 4 ==> op <= FirstStart(op, ts).value < 4 && !FirstIsString(ts)
    ensures op > 4 ==> 4 <= FirstStart(4, ts).value < op
    decreases ts
  {
    assert Proper(ts[0]);
    if ts[0].UnitType? { OutOfStep(op, ts[1..]); } else { Starts(op, AlignOf(ts[0])); }
  }

  lemma Starts(op: nat, a: nat)
    requires a >= 1
    ensures AlignUp(op, a) == AlignUp(4, a)
            || (if op <= 4 then op <= AlignUp(op, a) < 4 else 4 <= AlignUp(4, a) < op)
  {
    if op <= 4 <= AlignUp(op, a) { AlignUpBetween(op, 4, a); }
    if 4 <= op <= AlignUp(4, a) { AlignUpBetween(4, op, a); }
  }

  /** Out of step, a narrower `OpType` finds a zero byte of the opcode where the mark should
      be, and a wider one takes the mark for a part of the opcode. */
  lemma OutOfStepMisreads(utf8: Encoding, f: Interface, i: nat, args: seq<Value>, buf: seq<Byte>, received: seq<Byte>)
    requires Callable(utf8, f, i, args) && !InStep(f, i) && Marked(args)
    requires var w := WriteRequest(buf, f.methods[i].opcode, args);
             w.error == None && Agree(w.regs.buf, received, w.regs.off)
    ensures ProperMethod(f.methods[i])
    ensures !OpcodeClear(f.op, received)
            || ReadAll(utf8, Regs(received, f.op.size), f.methods[i].args).result != Ok(args)
  {
    var opcode, ts := f.methods[i].opcode, f.methods[i].args;
    assert ProperMethod(f.methods[i]);
    OutOfStep(f.op.size, ts);
    StartHasNumber(args, 4);
    if f.op.size <= 4 {
      var p := FirstStart(f.op.size, ts).value;
      RequestHeld(utf8, f, i, args, buf, received);
      LowBytes(opcode, 4, f.op.size);
      assert received[p] == received[..4][p] == 0;
      if ReadAll(utf8, Regs(received, f.op.size), ts).result == Ok(args) {
        FirstNumberRead(utf8, Regs(received, f.op.size), args);
      }
    } else {
      var p := FirstStart(4, ts).value;
      MarkArrives(utf8, opcode, args, buf, received);
      assert received[p] != 0;
    }
  }

  lemma {:induction false} StartHasNumber(vs: seq<Value>, off: nat)
    requires forall i :: 0 <= i < |vs| ==> Proper(TypeOf(vs[i]))
    ensures FirstStart(off, TypesOf(vs)).Some? <==> FirstNumber(vs).Some?
    decreases vs
  {
    if vs != [] {
      TypesTail(vs);
      StartHasNumber(vs[1..], off);
    }
  }

  lemma MarkArrives(utf8: Encoding, opcode: nat, args: seq<Value>, buf: seq<Byte>, received: seq<Byte>)
    requires AllWellTyped(utf8, args) && FirstNumber(args).Some? && Marked(args)
    requires var w := WriteRequest(buf, opcode, args);
             w.error == None && Agree(w.regs.buf, received, w.regs.off)
    ensures var p := FirstStart(4, TypesOf(args));
            p.Some? && p.value < |received| && received[p.value] == FirstNumber(args).value % 256
  {
    var first, w := WriteScalar(Regs(buf, 0), I32, opcode).regs, WriteRequest(buf, opcode, args).regs;
    RequestSplits(buf, opcode, args);
    FirstNumberWritten(first, args);
    var p := FirstStart(4, TypesOf(args)).value;
    assert received[p] == received[..w.off][p] == w.buf[..w.off][p] == w.buf[p];
  }

  /** The exact condition on the interface, for every `OpType`: a request whose first number
      shows a mark arrives if and only if, besides what `RequestArrives` asks for, the two
      sides are in step. */
  lemma RequestArrivesExactlyWhen(registers: nat, utf8: Encoding, f: Interface, i: nat, args: seq<Value>,
                                  buf: seq<Byte>, received: seq<Byte>)
    requires registers <= 63 && |buf| == 8 * registers
    requires Callable(utf8, f, i, args) && Marked(args) && -TWO63 <= f.protocol < TWO63
    requires var w := WriteRequest(buf, f.methods[i].opcode, args);
             w.error == None && Delivered(w.regs, received)
    ensures var w := WriteRequest(buf, f.methods[i].opcode, args);
            Decode(registers, utf8, f, TagFor(f.protocol, w.regs), received) == Calls(i, args) <==>
            && AllIntact(args) && -TWO47 <= f.protocol < TWO47
            && InStep(f, i) && OpcodeClear(f.op, received)
  {
    if InStep(f, i) {
      RequestArrives(registers, utf8, f, i, args, buf, received);
    } else {
      RequestReads(registers, utf8, f, i, args, buf, received);
      OutOfStepMisreads(utf8, f, i, args, buf, received);
    }
  }

  // ----- interfaces

  /** A request that can be sent: it fits, and nothing in it is lost on the way. */
  ghost predicate Sent(registers: nat, utf8: Encoding, f: Interface, i: nat, args: seq<Value>,
                       buf: seq<Byte>, received: seq<Byte>)
  {
    && |buf| == 8 * registers && Callable(utf8, f, i, args) && AllIntact(args)
    && var w := WriteRequest(buf, f.methods[i].opcode, args);
       w.error == None && Delivered(w.regs, received)
  }

  ghost predicate Arrives(registers: nat, utf8: Encoding, f: Interface, i: nat, args: seq<Value>,
                          buf: seq<Byte>, received: seq<Byte>)
    requires Callable(utf8, f, i, args)
  {
    var w := WriteRequest(buf, f.methods[i].opcode, args);
    Decode(registers, utf8, f, TagFor(f.protocol, w.regs), received) == Calls(i, args)
  }

  ghost predicate AllArrive(registers: nat, utf8: Encoding, f: Interface, i: nat) {
    forall args, buf, received ::
      Sent(registers, utf8, f, i, args, buf, received) ==> Arrives(registers, utf8, f, i, args, buf, received)
  }

  // ----- an `OpType` wider than the opcode

  /** What lies before the first value is not written. */
  lemma ValueSpares(r: Regs, v: Value, p: nat)
    requires Proper(TypeOf(v)) && !v.UnitV? && r.off <= p < |r.buf| && WriteValue(r, v).error == None
    requires p < AlignUp(r.off, AlignOf(TypeOf(v)))
    ensures var w := WriteValue(r, v).regs; |w.buf| == |r.buf| && p < w.off && w.buf[p] == r.buf[p]
  {
    match v
    case ScalarV(l, bits) => StoreSpares(r, l.align, ToBytes(bits, l.size), p);
    case OptionV(l, opt) => OptionSpares(r, l, opt, p);
    case SliceV(len, elem, items) => CountedSpares(r, len, |items|, elem.align, EncodeAll(items, elem.size), p);
    case StrV(bytes) => CountedSpares(r, USIZE, |bytes|, 1, bytes, p);
  }

  lemma CountedSpares(r: Regs, len: Layout, n: nat, align: nat, bytes: seq<Byte>, p: nat)
    requires Laid(len) && align >= 1 && p < |r.buf| && p < AlignUp(r.off, len.align)
    requires WriteCounted(r, len, n, align, bytes).error == None
    ensures var w := WriteCounted(r, len, n, align, bytes).regs;
            |w.buf| == |r.buf| && p < w.off && w.buf[p] == r.buf[p]
  {
    var w := WriteScalar(r, len, n).regs;
    StoreSpares(r, len.align, ToBytes(n, len.size), p);
    StoreExtends(w, align, bytes);
    KeepsByte(w, Store(w, align, bytes).regs, p);
  }

  lemma OptionSpares(r: Regs, l: Layout, opt: Option<nat>, p: nat)
    requires Laid(l) && p < |r.buf| && p < AlignUp(r.off, l.align) && WriteOption(r, l, opt).error == None
    ensures var w := WriteOption(r, l, opt).regs;
            |w.buf| == |r.buf| && p < w.off && w.buf[p] == r.buf[p]
  {
    var w := match opt case None => SkipScalar(r, l) case Some(bits) => WriteScalar(r, l, bits);
    var flag := ToBytes(if opt.Some? then 1 else 0, 1);
    StoreSpares(r, l.align, ToBytes(if opt.Some? then opt.value else 0, l.size), p);
    StoreExtends(w.regs, 1, flag);
    KeepsByte(w.regs, Store(w.regs, 1, flag).regs, p);
  }

  lemma StoreSpares(r: Regs, align: nat, bytes: seq<Byte>, p: nat)
    requires align >= 1 && p < AlignUp(r.off, align) && Store(r, align, bytes).error == None
    ensures var w := Store(r, align, bytes).regs;
            |w.buf| == |r.buf| && p < w.off <= |w.buf| && w.buf[p] == r.buf[p]
  {
  }

  lemma {:induction false} MessageSpares(r: Regs, vs: seq<Value>, p: nat)
    requires forall i :: 0 <= i < |vs| ==> Proper(TypeOf(vs[i]))
    requires r.off <= p < |r.buf| && WriteAll(r, vs).error == None
    requires FirstStart(r.off, TypesOf(vs)).Some? ==> p < FirstStart(r.off, TypesOf(vs)).value
    ensures var w := WriteAll(r, vs).regs; |w.buf| == |r.buf| && w.buf[p] == r.buf[p]
    decreases vs
  {
    if vs != [] {
      TypesTail(vs);
      if vs[0].UnitV? {
        MessageSpares(r, vs[1..], p);
      } else {
        var w := WriteValue(r, vs[0]);
        ValueSpares(r, vs[0], p);
        WriteExtends(r, vs[0]);
        WriteAllExtends(w.regs, vs[1..]);
        KeepsByte(w.regs, WriteAll(r, vs).regs, p);
      }
    }
  }

  /** Behind an opcode that both sides step over alike lies nothing of the first argument. */
  lemma {:induction false} StartsBehind(op: nat, ts: seq<Type>)
    requires forall i :: 0 <= i < |ts| ==> Proper(ts[i])
    requires FirstStart(op, ts).Some?
    ensures op <= FirstStart(op, ts).value
    decreases ts
  {
    assert Proper(ts[0]);
    if ts[0].UnitType? { StartsBehind(op, ts[1..]); }
  }

  /** From registers whose fifth byte is not zero, a request with nothing there leaves it so. */
  lemma StaleByteStays(utf8: Encoding, f: Interface, i: nat, args: seq<Value>, buf: seq<Byte>)
    requires Callable(utf8, f, i, args) && InStep(f, i) && f.op.size > 4
    requires |buf| > 4 && WriteRequest(buf, f.methods[i].opcode, args).error == None
    ensures var w := WriteRequest(buf, f.methods[i].opcode, args).regs;
            |w.buf| == |buf| && w.buf[4] == buf[4]
  {
    var opcode := f.methods[i].opcode;
    var first := WriteScalar(Regs(buf, 0), I32, opcode).regs;
    RequestSplits(buf, opcode, args);
    StoreFrames(Regs(buf, 0), 4, ToBytes(opcode, 4));
    assert first.buf[4] == first.buf[4..][0] == buf[4..][0];
    assert ProperMethod(f.methods[i]);
    if FirstStart(f.op.size, TypesOf(args)).Some? { StartsBehind(f.op.size, TypesOf(args)); }
    MessageSpares(first, args, 4);
  }

  /** The same request from registers that hold a one behind the opcode. */
  lemma StaleByteMisleads(registers: nat, utf8: Encoding, f: Interface, i: nat, args: seq<Value>,
                          buf: seq<Byte>, received: seq<Byte>)
    requires registers <= 63 && -TWO63 <= f.protocol < TWO63 && f.op.size > 4 && InStepAt(f, i)
    requires Sent(registers, utf8, f, i, args, buf, received)
    ensures |buf| > 4
    ensures var stale := buf[4 := 1];
            var sent := WriteRequest(stale, f.methods[i].opcode, args).regs.buf;
            && Sent(registers, utf8, f, i, args, stale, sent)
            && !Arrives(registers, utf8, f, i, args, stale, sent)
  {
    var opcode := f.methods[i].opcode;
    RequestSplits(buf, opcode, args);
    var stale := buf[4 := 1];
    MessageRoom(Regs(buf, 0), Regs(stale, 0), RequestValues(opcode, args));
    var w := WriteRequest(stale, opcode, args).regs;
    StaleByteStays(utf8, f, i, args, stale);
    WordsBound(w.off, registers);
    RequestArrives(registers, utf8, f, i, args, stale, w.buf);
  }

  predicate InStepAt(f: Interface, i: nat) { ProperInterface(f) && i < |f.methods| && InStep(f, i) }

  /** All requests of a method arrive if and only if the `OpType` of its interface has at
      most four bytes and the method is in step, provided one request with a mark can be sent. */
  lemma InStepIsExact(registers: nat, utf8: Encoding, f: Interface, i: nat,
                      sample: seq<Value>, buf: seq<Byte>, received: seq<Byte>)
    requires registers <= 63 && -TWO47 <= f.protocol < TWO47
    requires Sent(registers, utf8, f, i, sample, buf, received) && Marked(sample)
    ensures AllArrive(registers, utf8, f, i) <==> f.op.size <= 4 && InStep(f, i)
  {
    if !InStep(f, i) {
      RequestArrivesExactlyWhen(registers, utf8, f, i, sample, buf, received);
      assert !Arrives(registers, utf8, f, i, sample, buf, received);
    } else if f.op.size > 4 {
      StaleByteMisleads(registers, utf8, f, i, sample, buf, received);
    } else {
      forall args, b, r | Sent(registers, utf8, f, i, args, b, r) ensures Arrives(registers, utf8, f, i, args, b, r) {
        RequestArrives(registers, utf8, f, i, args, b, r);
      }
    }
  }

  // ----- an interface out of step

  /** A method with a `bool` in an interface with a two-byte `OpType`. */
  const Signals := Interface(0, Layout(2, 2), [Method(1, [ScalarType(BOOL)], UnitType)])

  const Empty: seq<Byte> := [0, 0, 0, 0, 0, 0, 0, 0]

  /** Opcode 1 and `true`. */
  const SignalTrue: seq<Byte> := [1, 0, 0, 0, 1, 0, 0, 0]

  lemma Ones()
    ensures ToBytes(1, 1) == [1] && ToBytes(1, 4) == [1, 0, 0, 0]
  {
    assert ToBytes(0, 1) == [0];
    assert ToBytes(0, 2) == [0, 0];
    assert ToBytes(0, 3) == [0, 0, 0];
  }

  lemma Limits()
    ensures Limit(1) == 256 && Limit(2) == 65536 && Limit(4) == 0x1_0000_0000
  {
    assert Limit(3) == 256 * Limit(2);
  }

  lemma TrueIsWritten()
    ensures WriteRequest(Empty, 1, [ScalarV(BOOL, 1)]) == Written(Regs(SignalTrue, 5), None)
  {
    var args := [ScalarV(BOOL, 1)];
    var vs := RequestValues(1, args);
    var first: seq<Byte> := [1, 0, 0, 0, 0, 0, 0, 0];
    Ones();
    assert WriteScalar(Regs(Empty, 0), I32, 1) == Written(Regs(first, 4), None);
    assert WriteScalar(Regs(first, 4), BOOL, 1) == Written(Regs(SignalTrue, 5), None);
    assert vs[0] == ScalarV(I32, 1) && vs[1..] == args && args[1..] == [];
    assert WriteAll(Regs(SignalTrue, 5), []) == Written(Regs(SignalTrue, 5), None);
    assert WriteAll(Regs(first, 4), args) == Written(Regs(SignalTrue, 5), None);
  }

  /** The call with `true` can be sent, and the dispatcher does not get it. */
  lemma TrueDoesNotArrive(utf8: Encoding)
    ensures var args := [ScalarV(BOOL, 1)];
            && Sent(1, utf8, Signals, 0, args, Empty, SignalTrue) && Marked(args) && !InStepAt(Signals, 0)
            && !Arrives(1, utf8, Signals, 0, args, Empty, SignalTrue) && !AllArrive(1, utf8, Signals, 0)
  {
    var args := [ScalarV(BOOL, 1)];
    TrueIsWritten();
    Limits();
    assert TypesOf(args) == [ScalarType(BOOL)];
    assert Callable(utf8, Signals, 0, args);
    assert Delivered(Regs(SignalTrue, 5), SignalTrue);
    assert FirstStart(2, [ScalarType(BOOL)]) == Some(2) && FirstStart(4, [ScalarType(BOOL)]) == Some(4);
    RequestArrivesExactlyWhen(1, utf8, Signals, 0, args, Empty, SignalTrue);
    assert !Arrives(1, utf8, Signals, 0, args, Empty, SignalTrue);
  }

  // ----- the second method of an interface

  const TwoSignals := Interface(0, I32, [Method(0, [], UnitType), Method(1, [ScalarType(BOOL)], UnitType)])

  /** A call of it is decoded as one. */
  lemma SecondMethodIsCalled(utf8: Encoding)
    ensures var w := WriteRequest(Empty, 1, [ScalarV(BOOL, 1)]);
            Decode(1, utf8, TwoSignals, TagFor(0, w.regs), SignalTrue) == Calls(1, [ScalarV(BOOL, 1)])
  {
    var args := [ScalarV(BOOL, 1)];
    TrueIsWritten();
    Limits();
    assert TypesOf(args) == [ScalarType(BOOL)];
    assert Callable(utf8, TwoSignals, 1, args);
    assert Delivered(Regs(SignalTrue, 5), SignalTrue);
    RequestArrives(1, utf8, TwoSignals, 1, args, Empty, SignalTrue);
  }
}

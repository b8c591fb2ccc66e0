/** A remote call from end to end, and the stubs that carry it out on the registers. */
module IpcCall {
  import opened Bits
  import opened Bytes
  import opened Ipc
  import opened IpcErrors
  import opened Marshal
  import opened MsgTag
  import opened Numbers
  import opened Options
  import opened Utcb
  import opened Values

  // ----- the reply

  /** What the client makes of a reply: the kernel reports a failure, the label an error, or
      the registers are read. */
  datatype Reception = KernelError | Failed(fault: Fault) | Reads(result: Result<Value>)

  function Receive(utf8: Encoding, c: Codes, errorBit: nat, tag: nat, buf: seq<Byte>, t: Type): Reception
    requires Proper(t)
  {
    if And(Flags(tag), errorBit) != 0 then KernelError
    else if Label(tag) < 0 then Failed(FromIpc(c, Label(tag)))
    else Reads(ReadValue(utf8, Regs(buf, 0), t).result)
  }

  /** When the client reads its registers: the kernel reports no error and the label none. */
  lemma ReceivesExactlyWhen(utf8: Encoding, c: Codes, errorBit: nat, tag: nat, buf: seq<Byte>, t: Type)
    requires Proper(t)
    ensures var r := Receive(utf8, c, errorBit, tag, buf, t);
            && (r.KernelError? <==> And(Flags(tag), errorBit) != 0)
            && (r.Failed? <==> And(Flags(tag), errorBit) == 0 && Label(tag) < 0)
            && (r.Reads? ==> r.result == ReadValue(utf8, Regs(buf, 0), t).result)
  {
  }

  /** A result the server could write is what the client reads, unless it is a string that
      ends in a zero byte. */
  lemma ReplyArrives(registers: nat, utf8: Encoding, c: Codes, errorBit: nat, v: Value,
                     buf: seq<Byte>, received: seq<Byte>)
    requires registers <= 63 && |buf| == 8 * registers && WellTyped(utf8, v)
    requires var w := WriteValue(Regs(buf, 0), v); w.error == None && Delivered(w.regs, received)
    ensures var w := WriteValue(Regs(buf, 0), v);
            Receive(utf8, c, errorBit, TagFor(0, w.regs), received, TypeOf(v)) == Reads(Ok(v)) <==> Intact(v)
  {
    var w := WriteValue(Regs(buf, 0), v);
    WriteExtends(Regs(buf, 0), v);
    WordsCover(w.regs, registers, 0);
    AgreeLess(w.regs.buf, received, w.regs.off, 8 * WordsUpTo(w.regs.off));
    ValueRoundTrip(utf8, Regs(buf, 0), v, received);
  }

  // ----- both ways

  /** The kernel as a function of what was sent and how many words were announced. */
  type Transport = (seq<Byte>, nat) -> seq<Byte>

  ghost predicate Faithful(carry: Transport) {
    forall buf, n: nat :: 8 * n <= |buf| ==> Agree(buf, carry(buf, n), 8 * n)
  }

  /** What a method of the server gives back. */
  datatype Answer = Yields(value: Value) | Raises(fault: Fault)

  /** The server's methods, by index. */
  type Handler = (nat, seq<Value>) -> Answer

  ghost predicate AnswersInType(utf8: Encoding, f: Interface, h: Handler) {
    forall i: nat, args :: i < |f.methods| && h(i, args).Yields? ==>
      WellTyped(utf8, h(i, args).value) && TypeOf(h(i, args).value) == f.methods[i].ret
  }

  /** What `op_dispatch` returns: the tag of a reply, or an error. */
  datatype Dispatched = Replies(tag: nat) | Fails(fault: Fault)

  /** The server's half: decode, call, write the result from the start of the registers. */
  ghost function Serve(registers: nat, utf8: Encoding, c: Codes, f: Interface, h: Handler, tag: nat, inbox: seq<Byte>)
    : (Regs, Dispatched)
    requires ProperInterface(f) && AnswersInType(utf8, f, h)
  {
    match Decode(registers, utf8, f, tag, inbox)
    case Rejected(why) => (Regs(inbox, 0), Fails(RejectionFault(c, why)))
    case Calls(k, vs) =>
      match h(k, vs)
      case Raises(fault) => (Regs(inbox, 0), Fails(fault))
      case Yields(v) =>
        assert v == h(k, vs).value;
        var reply := WriteValue(Regs(inbox, 0), v);
        (reply.regs,
         if reply.error.Some? then Fails(MarshalFault(c, reply.error.value)) else Replies(TagFor(0, reply.regs)))
  }

  /** A reply announces success by the label zero, and all words that were written. */
  lemma RepliesAreSuccesses(registers: nat, utf8: Encoding, c: Codes, f: Interface, h: Handler, tag: nat, inbox: seq<Byte>)
    requires registers <= 63 && |inbox| == 8 * registers && ProperInterface(f) && AnswersInType(utf8, f, h)
    ensures var (reply, d) := Serve(registers, utf8, c, f, h, tag, inbox);
            d.Replies? ==> Label(d.tag) == 0 && Flags(d.tag) == 0 && Items(d.tag) == 0
                           && reply.off <= 8 * Words(d.tag) < reply.off + 8
  {
    var (reply, d) := Serve(registers, utf8, c, f, h, tag, inbox);
    if d.Replies? {
      var called := Decode(registers, utf8, f, tag, inbox);
      var v := h(called.index, called.args).value;
      assert WellTyped(utf8, v);
      WriteExtends(Regs(inbox, 0), v);
      WordsCover(reply, registers, 0);
    }
  }

  /** The server loop answers errors with an empty message. */
  function ReplyTag(c: Codes, d: Dispatched): nat {
    match d
    case Replies(tag) => tag
    case Fails(fault) => ErrorTag(c, fault)
  }

  datatype CallResult = NotSent(error: Error) | Returned(reception: Reception)

  /** Stub, transport, dispatcher, method, server loop, transport, stub. */
  ghost function RemoteCall(registers: nat, utf8: Encoding, c: Codes, errorBit: nat, go: Transport, back: Transport,
                            f: Interface, h: Handler, buf: seq<Byte>, i: nat, args: seq<Value>): CallResult
    requires ProperInterface(f) && AnswersInType(utf8, f, h) && i < |f.methods|
    requires AllWellTyped(utf8, args)
  {
    var request := WriteRequest(buf, f.methods[i].opcode, args);
    if request.error.Some? then NotSent(request.error.value)
    else
      var inbox := go(request.regs.buf, WordsUpTo(request.regs.off));
      var (reply, d) := Serve(registers, utf8, c, f, h, TagFor(f.protocol, request.regs), inbox);
      var outbox := back(reply.buf, Words(ReplyTag(c, d)));
      assert ProperMethod(f.methods[i]);
      Returned(Receive(utf8, c, errorBit, ReplyTag(c, d), outbox, f.methods[i].ret))
  }

  /** What an error turns into at the client: an error if its label is negative, and else a
      value read from registers nobody wrote. */
  ghost predicate ComesBack(c: Codes, fault: Fault, r: Reception) {
    if Seen(c, fault) then r == Failed(FromIpc(c, Label(ErrorTag(c, fault)))) else r.Reads?
  }

  lemma ErrorComesBack(utf8: Encoding, c: Codes, errorBit: nat, fault: Fault, outbox: seq<Byte>, t: Type)
    requires Proper(t)
    ensures ComesBack(c, fault, Receive(utf8, c, errorBit, ErrorTag(c, fault), outbox, t))
  {
    ErrorTagFields(c, fault);
  }

  /** The way back: the answer of the method, or why there is none. */
  lemma ServeReturns(registers: nat, utf8: Encoding, c: Codes, errorBit: nat, back: Transport, f: Interface, h: Handler,
                     tag: nat, inbox: seq<Byte>, i: nat, args: seq<Value>)
    requires registers <= 63 && |inbox| == 8 * registers && Faithful(back)
    requires ProperInterface(f) && AnswersInType(utf8, f, h) && i < |f.methods|
    requires Decode(registers, utf8, f, tag, inbox) == Calls(i, args)
    ensures ProperMethod(f.methods[i])
    ensures var (reply, d) := Serve(registers, utf8, c, f, h, tag, inbox);
            var r := Receive(utf8, c, errorBit, ReplyTag(c, d), back(reply.buf, Words(ReplyTag(c, d))), f.methods[i].ret);
            match h(i, args)
            case Raises(fault) => ComesBack(c, fault, r)
            case Yields(v) =>
              && Proper(TypeOf(v))
              && match WriteValue(Regs(inbox, 0), v).error
                 case Some(e) => ComesBack(c, MarshalFault(c, e), r)
                 case None => r == Reads(Ok(v)) <==> Intact(v)
  {
    var (reply, d) := Serve(registers, utf8, c, f, h, tag, inbox);
    var outbox := back(reply.buf, Words(ReplyTag(c, d)));
    assert ProperMethod(f.methods[i]);
    if d.Fails? {
      ErrorComesBack(utf8, c, errorBit, d.fault, outbox, f.methods[i].ret);
    } else {
      var v := h(i, args).value;
      WriteExtends(Regs(inbox, 0), v);
      WordsCover(reply, registers, 0);
      assert Delivered(reply, outbox);
      ReplyArrives(registers, utf8, c, errorBit, v, inbox, outbox);
    }
  }

  /** The end-to-end typed call.  A request fails to leave exactly if it does not fit, and is
      never refused.  An error of the method, and a result that does not fit, come back as
      errors if their labels are negative; a result that fits comes back as it is if and
      only if it is intact. */
  lemma RemoteCallReturns(registers: nat, utf8: Encoding, c: Codes, errorBit: nat, go: Transport, back: Transport,
                          f: Interface, h: Handler, buf: seq<Byte>, i: nat, args: seq<Value>)
    requires registers <= 63 && |buf| == 8 * registers && Faithful(go) && Faithful(back)
    requires AnswersInType(utf8, f, h)
    requires Callable(utf8, f, i, args) && InStep(f, i) && -TWO47 <= f.protocol < TWO47 && AllIntact(args)
    requires var w := WriteRequest(buf, f.methods[i].opcode, args);
             w.error == None ==> OpcodeClear(f.op, go(w.regs.buf, WordsUpTo(w.regs.off)))
    ensures var r := RemoteCall(registers, utf8, c, errorBit, go, back, f, h, buf, i, args);
            match WriteRequest(buf, f.methods[i].opcode, args).error
            case Some(e) => r == NotSent(e)
            case None =>
              && r.Returned?
              && match h(i, args)
                 case Raises(fault) => ComesBack(c, fault, r.reception)
                 case Yields(v) =>
                   && Proper(TypeOf(v))
                   && match WriteValue(Regs(buf, 0), v).error
                      case Some(e) => ComesBack(c, MarshalFault(c, e), r.reception)
                      case None => r.reception == Reads(Ok(v)) <==> Intact(v)
  {
    var request := WriteRequest(buf, f.methods[i].opcode, args);
    if request.error == None {
      var inbox := go(request.regs.buf, WordsUpTo(request.regs.off));
      RequestSplits(buf, f.methods[i].opcode, args);
      WordsCover(request.regs, registers, f.protocol);
      assert Delivered(request.regs, inbox);
      RequestArrives(registers, utf8, f, i, args, buf, inbox);
      ServeReturns(registers, utf8, c, errorBit, back, f, h, TagFor(f.protocol, request.regs), inbox, i, args);
      if h(i, args).Yields? { ValueRoom(Regs(buf, 0), Regs(inbox, 0), h(i, args).value); }
    }
  }

  // ----- the generated code

  /** The argument writes of a stub, one after the other. */
  method WriteArgs(mr: UtcbMr, args: seq<Value>) returns (e: Option<Error>)
    requires mr.Valid() && forall k :: 0 <= k < |args| ==> Proper(TypeOf(args[k]))
    modifies mr.regs`offset, mr.regs.buf
    ensures mr.Valid() && Written(mr.regs.View(), e) == WriteAll(old(mr.regs.View()), args)
    decreases |args|
  {
    if args == [] {
      return None;
    }
    e := mr.WriteArg(args[0]);
    if e == None {
      e := WriteArgs(mr, args[1..]);
    }
  }

  /** The sending half of a client stub. */
  method SendRequest(mr: UtcbMr, f: Interface, i: nat, args: seq<Value>) returns (r: Result<nat>)
    requires mr.Valid() && mr.items == 0 && mr.regs.offset == 0
    requires i < |f.methods| && forall k :: 0 <= k < |args| ==> Proper(TypeOf(args[k]))
    modifies mr.regs`offset, mr.regs.buf
    ensures mr.Valid()
    ensures Written(mr.regs.View(), if r.Ok? then None else Some(r.error)) ==
            WriteRequest(old(mr.regs.buf[..]), f.methods[i].opcode, args)
    ensures r.Ok? ==> r.value == TagFor(f.protocol, mr.regs.View())
  {
    ghost var vs := RequestValues(f.methods[i].opcode, args);
    assert vs[0] == ScalarV(I32, f.methods[i].opcode) && vs[1..] == args;
    var e := mr.WriteArg(ScalarV(I32, f.methods[i].opcode));
    if e == None {
      e := WriteArgs(mr, args);
    }
    if e.Some? {
      return Err(e.value);
    }
    var words := mr.Words();
    r := Ok(Tag(f.protocol, words, mr.items, 0));
  }

  /** The argument reads of a match arm. */
  method ReadArgs(mr: UtcbMr, utf8: Encoding, ts: seq<Type>) returns (r: Result<seq<Value>>)
    requires mr.regs.Valid() && forall k :: 0 <= k < |ts| ==> Proper(ts[k])
    modifies mr.regs`offset
    ensures mr.regs.Valid() && Got(r, mr.regs.offset) == ReadAll(utf8, old(mr.regs.View()), ts)
    decreases |ts|
  {
    if ts == [] {
      return Ok([]);
    }
    var first := mr.ReadArg(utf8, ts[0]);
    if first.Err? {
      return Err(first.error);
    }
    var rest := ReadArgs(mr, utf8, ts[1..]);
    r := if rest.Ok? then Ok([first.value] + rest.value) else Err(rest.error);
  }

  /** `op_dispatch`: check, decode, call, reset, reply. */
  method OpDispatch(mr: UtcbMr, registers: nat, utf8: Encoding, c: Codes, f: Interface, h: Handler, tag: nat)
    returns (r: Dispatched)
    requires mr.Valid() && mr.items == 0 && mr.regs.offset == 0
    requires ProperInterface(f) && AnswersInType(utf8, f, h)
    modifies mr`items, mr.regs`offset, mr.regs.buf
    ensures mr.regs.Valid()
    ensures var (regs, d) := Serve(registers, utf8, c, f, h, tag, old(mr.regs.buf[..]));
            r == d && mr.regs.buf[..] == regs.buf && (r.Replies? ==> mr.regs.offset == regs.off)
  {
    var d := DecodeRequest(mr, registers, utf8, f, tag);
    if d.Rejected? {
      return Fails(RejectionFault(c, d.why));
    }
    var answer := h(d.index, d.args);
    if answer.Raises? {
      return Fails(answer.fault);
    }
    assert WellTyped(utf8, h(d.index, d.args).value);
    var t := SendReply(mr, answer.value);
    r := if t.Ok? then Replies(t.value) else Fails(MarshalFault(c, t.error));
  }

  /** The body of the server loop, with the default handling of errors. */
  method DispatchAndReply(mr: UtcbMr, registers: nat, utf8: Encoding, c: Codes, f: Interface, h: Handler, tag: nat)
    returns (reply: nat)
    requires mr.Valid() && mr.items == 0 && mr.regs.offset == 0
    requires ProperInterface(f) && AnswersInType(utf8, f, h)
    modifies mr`items, mr.regs`offset, mr.regs.buf
    ensures var (regs, d) := Serve(registers, utf8, c, f, h, tag, old(mr.regs.buf[..]));
            reply == ReplyTag(c, d) && mr.regs.buf[..] == regs.buf
  {
    var result := OpDispatch(mr, registers, utf8, c, f, h, tag);
    match result {
      case Replies(t) => reply := t;
      case Fails(fault) => reply := Tag(IntoIpc(c, fault), 0, 0, 0);
    }
  }

  /** Resets the registers and writes the result. */
  method SendReply(mr: UtcbMr, v: Value) returns (r: Result<nat>)
    requires mr.Valid() && Proper(TypeOf(v))
    modifies mr`items, mr.regs`offset, mr.regs.buf
    ensures mr.regs.Valid()
    ensures Written(mr.regs.View(), if r.Ok? then None else Some(r.error)) ==
            WriteValue(Regs(old(mr.regs.buf[..]), 0), v)
    ensures r.Ok? ==> r.value == TagFor(0, mr.regs.View())
  {
    mr.Reset();
    var e := mr.WriteArg(v);
    if e.Some? {
      return Err(e.value);
    }
    var words := mr.Words();
    r := Ok(Tag(0, words, mr.items, 0));
  }

  /** Validation and reads at the start of `op_dispatch`. */
  method DecodeRequest(mr: UtcbMr, registers: nat, utf8: Encoding, f: Interface, tag: nat) returns (d: Decoded)
    requires mr.Valid() && mr.items == 0 && mr.regs.offset == 0 && ProperInterface(f)
    modifies mr.regs`offset
    ensures mr.Valid() && d == Decode(registers, utf8, f, tag, mr.regs.buf[..])
  {
    if Words(tag) + Items(tag) * 2 > registers {
      return Rejected(TooLong);
    }
    if Label(tag) != f.protocol {
      return Rejected(WrongProtocol);
    }
    var op := mr.regs.Read(f.op);
    if op.Err? {
      return Rejected(Unreadable(op.error));
    }
    var arm := Arm(f.methods, op.value);
    if arm == None {
      return Rejected(UnknownOpcode(op.value));
    }
    assert ProperMethod(f.methods[arm.value]);
    var args := ReadArgs(mr, utf8, f.methods[arm.value].args);
    d := if args.Ok? then Calls(arm.value, args.value) else Rejected(Unreadable(args.error));
  }
}

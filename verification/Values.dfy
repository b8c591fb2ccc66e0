/** Typed values of IPC interfaces in the message registers: scalars, optional scalars,
    arrays with a length in front, strings and the unit. */
module Values {
  import opened Bytes
  import opened Marshal
  import opened Options

  /** Size and alignment of a type in memory. */
  datatype Layout = Layout(size: nat, align: nat)

  predicate Laid(l: Layout) { l.size >= 1 && Alignment(l.align) }

  const USIZE := Layout(8, 8)

  datatype Type =
    | UnitType
    | ScalarType(of: Layout)
    | OptionType(of: Layout)
    | SliceType(len: Layout, elem: Layout)
    | StrType

  datatype Value =
    | UnitV
    | ScalarV(of: Layout, bits: nat)
    | OptionV(of: Layout, opt: Option<nat>)
    | SliceV(len: Layout, elem: Layout, items: seq<nat>)
    | StrV(bytes: seq<Byte>)

  function TypeOf(v: Value): Type {
    match v
    case UnitV => UnitType
    case ScalarV(l, _) => ScalarType(l)
    case OptionV(l, _) => OptionType(l)
    case SliceV(len, elem, _) => SliceType(len, elem)
    case StrV(_) => StrType
  }

  predicate Proper(t: Type) {
    match t
    case ScalarType(l) => Laid(l)
    case OptionType(l) => Laid(l)
    case SliceType(len, elem) => Laid(len) && Laid(elem)
    case _ => true
  }

  /** Which byte strings are strings. */
  type Encoding = seq<Byte> -> bool

  ghost predicate WellTyped(utf8: Encoding, v: Value) {
    && Proper(TypeOf(v))
    && match v
       case UnitV => true
       case ScalarV(l, bits) => bits < Limit(l.size)
       case OptionV(l, opt) => opt.Some? ==> opt.value < Limit(l.size)
       case SliceV(_, elem, items) => forall i :: 0 <= i < |items| ==> items[i] < Limit(elem.size)
       case StrV(bytes) => utf8(bytes)
  }

  // ----- writing

  function WriteScalar(r: Regs, l: Layout, bits: nat): Written
    requires Laid(l)
  {
    Store(r, l.align, ToBytes(bits, l.size))
  }

  /** The length, then the elements.  If only the elements do not fit, the length stays. */
  function WriteCounted(r: Regs, len: Layout, n: nat, align: nat, bytes: seq<Byte>): Written
    requires Laid(len) && align >= 1
  {
    if n >= Limit(len.size) then Written(r, Some(InvalidArg))
    else
      var w := WriteScalar(r, len, n);
      if w.error != None then w else Store(w.regs, align, bytes)
  }

  const BOOL := Layout(1, 1)

  /** Moves the cursor over a scalar without writing it. */
  function SkipScalar(r: Regs, l: Layout): Written
    requires Laid(l)
  {
    var w := WriteScalar(r, l, 0);
    Written(Regs(r.buf, w.regs.off), w.error)
  }

  /** The value, or a gap of its size, and a flag behind it. */
  function WriteOption(r: Regs, l: Layout, v: Option<nat>): Written
    requires Laid(l)
  {
    var w := match v case None => SkipScalar(r, l) case Some(bits) => WriteScalar(r, l, bits);
    if w.error != None then w else WriteScalar(w.regs, BOOL, if v.Some? then 1 else 0)
  }

  function WriteValue(r: Regs, v: Value): Written
    requires Proper(TypeOf(v))
  {
    match v
    case UnitV => Written(r, None)
    case ScalarV(l, bits) => WriteScalar(r, l, bits)
    case OptionV(l, opt) => WriteOption(r, l, opt)
    case SliceV(len, elem, items) => WriteCounted(r, len, |items|, elem.align, EncodeAll(items, elem.size))
    case StrV(bytes) => WriteCounted(r, USIZE, |bytes|, 1, bytes)
  }

  // ----- reading

  function ReadScalar(r: Regs, l: Layout): Got<nat>
    requires Laid(l)
  {
    var g := Load(r, l.align, l.size, MsgTooLong);
    match g.result
    case Ok(b) => Got(Ok(FromBytes(b)), g.off)
    case Err(e) => Got(Err(e), g.off)
  }

  function ReadCounted(r: Regs, len: Layout, align: nat, size: nat): (g: Got<(nat, seq<Byte>)>)
    requires Laid(len) && align >= 1
    ensures g.result.Ok? ==> |g.result.value.1| == g.result.value.0 * size
  {
    var n := ReadScalar(r, len);
    match n.result
    case Err(e) => Got(Err(e), n.off)
    case Ok(count) =>
      var g := Load(Regs(r.buf, n.off), align, count * size, OutOfBounds);
      match g.result
      case Err(e) => Got(Err(e), g.off)
      case Ok(b) => Got(Ok((count, b)), g.off)
  }

  /** One trailing zero byte is dropped. */
  function Usable(bytes: seq<Byte>): seq<Byte> {
    if bytes != [] && bytes[|bytes| - 1] == 0 then bytes[..|bytes| - 1] else bytes
  }

  /** A string is only consumed if it is well encoded; the cursor then stays behind the length. */
  function ReadStr(utf8: Encoding, r: Regs): Got<seq<Byte>> {
    var g := ReadCounted(r, USIZE, 1, 1);
    match g.result
    case Err(e) => Got(Err(e), g.off)
    case Ok((_, bytes)) =>
      if utf8(Usable(bytes)) then Got(Ok(Usable(bytes)), g.off)
      else Got(Err(InvalidEncoding), ReadScalar(r, USIZE).off)
  }

  function ReadSlice(r: Regs, len: Layout, elem: Layout): Got<seq<nat>>
    requires Laid(len) && Laid(elem)
  {
    var g := ReadCounted(r, len, elem.align, elem.size);
    match g.result
    case Err(e) => Got(Err(e), g.off)
    case Ok((n, bytes)) => Got(Ok(DecodeAll(bytes, elem.size, n)), g.off)
  }

  function Wrap<S, T>(g: Got<S>, f: S -> T): Got<T> {
    match g.result
    case Ok(v) => Got(Ok(f(v)), g.off)
    case Err(e) => Got(Err(e), g.off)
  }

  /** The reader does not look at the value of the flag. */
  function ReadOption(r: Regs, l: Layout): Got<Option<nat>>
    requires Laid(l)
  {
    var g := ReadScalar(r, l);
    match g.result
    case Err(e) => Got(Err(e), g.off)
    case Ok(bits) => Wrap(ReadScalar(Regs(r.buf, g.off), BOOL), _ => Some(bits))
  }

  function ReadValue(utf8: Encoding, r: Regs, t: Type): Got<Value>
    requires Proper(t)
  {
    match t
    case UnitType => Got(Ok(UnitV), r.off)
    case ScalarType(l) => Wrap(ReadScalar(r, l), bits => ScalarV(l, bits))
    case OptionType(l) => Wrap(ReadOption(r, l), opt => OptionV(l, opt))
    case SliceType(len, elem) => Wrap(ReadSlice(r, len, elem), items => SliceV(len, elem, items))
    case StrType => Wrap(ReadStr(utf8, r), bytes => StrV(bytes))
  }

  // ----- framing

  /** The bytes before the old cursor are kept, and the cursor moves forward. */
  ghost predicate Extends(r: Regs, r': Regs) {
    && |r'.buf| == |r.buf| && r.off <= r'.off <= |r.buf|
    && r'.buf[..r.off] == r.buf[..r.off]
  }

  lemma StoreExtends(r: Regs, align: nat, bytes: seq<Byte>)
    requires align >= 1 && r.off <= |r.buf|
    ensures Extends(r, Store(r, align, bytes).regs)
  {
  }

  lemma ExtendsTransitive(a: Regs, b: Regs, c: Regs)
    requires Extends(a, b) && Extends(b, c)
    ensures Extends(a, c)
  {
  }

  lemma WriteExtends(r: Regs, v: Value)
    requires Proper(TypeOf(v)) && r.off <= |r.buf|
    ensures Extends(r, WriteValue(r, v).regs)
  {
    match v
    case UnitV =>
    case ScalarV(l, bits) => StoreExtends(r, l.align, ToBytes(bits, l.size));
    case OptionV(l, opt) => OptionExtends(r, l, opt);
    case SliceV(len, elem, items) =>
      CountedExtends(r, len, |items|, elem.align, EncodeAll(items, elem.size));
    case StrV(bytes) => CountedExtends(r, USIZE, |bytes|, 1, bytes);
  }

  lemma OptionExtends(r: Regs, l: Layout, v: Option<nat>)
    requires Laid(l) && r.off <= |r.buf|
    ensures Extends(r, WriteOption(r, l, v).regs)
  {
    var w := match v case None => SkipScalar(r, l) case Some(bits) => WriteScalar(r, l, bits);
    var flag := ToBytes(if v.Some? then 1 else 0, 1);
    StoreExtends(r, l.align, ToBytes(if v.Some? then v.value else 0, l.size));
    assert Extends(r, w.regs);
    if w.error == None {
      StoreExtends(w.regs, 1, flag);
      ExtendsTransitive(r, w.regs, Store(w.regs, 1, flag).regs);
    }
  }

  lemma CountedExtends(r: Regs, len: Layout, n: nat, align: nat, bytes: seq<Byte>)
    requires Laid(len) && align >= 1 && r.off <= |r.buf|
    ensures Extends(r, WriteCounted(r, len, n, align, bytes).regs)
  {
    if n < Limit(len.size) {
      var w := WriteScalar(r, len, n);
      StoreExtends(r, len.align, ToBytes(n, len.size));
      if w.error == None {
        StoreExtends(w.regs, align, bytes);
        ExtendsTransitive(r, w.regs, Store(w.regs, align, bytes).regs);
      }
    }
  }

  lemma AgreeLess(a: seq<Byte>, b: seq<Byte>, m: nat, n: nat)
    requires Agree(a, b, n) && m <= n
    ensures Agree(a, b, m)
  {
  }

  /** A buffer that agrees with the end of a writing session agrees with its beginning. */
  lemma AgreeEarlier(r: Regs, r': Regs, other: seq<Byte>)
    requires Extends(r, r') && Agree(r'.buf, other, r'.off)
    ensures Agree(r.buf, other, r.off)
  {
  }

  // ----- round trips

  lemma ScalarRoundTrip(r: Regs, l: Layout, bits: nat, other: seq<Byte>)
    requires Laid(l) && bits < Limit(l.size)
    requires var w := WriteScalar(r, l, bits); w.error == None && Agree(w.regs.buf, other, w.regs.off)
    ensures ReadScalar(Regs(other, r.off), l) == Got(Ok(bits), WriteScalar(r, l, bits).regs.off)
  {
    StoreLoad(r, l.align, ToBytes(bits, l.size), other, MsgTooLong);
    NumberRoundTrip(bits, l.size);
  }

  lemma CountedRoundTrip(r: Regs, len: Layout, n: nat, align: nat, size: nat, bytes: seq<Byte>, other: seq<Byte>)
    requires Laid(len) && align >= 1 && r.off <= |r.buf| && |bytes| == n * size
    requires var w := WriteCounted(r, len, n, align, bytes);
             w.error == None && Agree(w.regs.buf, other, w.regs.off)
    ensures ReadCounted(Regs(other, r.off), len, align, size) ==
            Got(Ok((n, bytes)), WriteCounted(r, len, n, align, bytes).regs.off)
    ensures ReadScalar(Regs(other, r.off), len).off <= WriteCounted(r, len, n, align, bytes).regs.off
  {
    var w1 := WriteScalar(r, len, n).regs;
    var w2 := Store(w1, align, bytes).regs;
    StoreExtends(r, len.align, ToBytes(n, len.size));
    StoreExtends(w1, align, bytes);
    AgreeEarlier(w1, w2, other);
    ScalarRoundTrip(r, len, n, other);
    StoreLoad(w1, align, bytes, other, OutOfBounds);
  }

  /** An optional value survives exactly if it is present. */
  lemma OptionRoundTrip(r: Regs, l: Layout, v: Option<nat>, other: seq<Byte>)
    requires Laid(l) && r.off <= |r.buf| && (v.Some? ==> v.value < Limit(l.size))
    requires var w := WriteOption(r, l, v); w.error == None && Agree(w.regs.buf, other, w.regs.off)
    ensures var g := ReadOption(Regs(other, r.off), l);
            && (g.result == Ok(v) <==> v.Some?)
            && (v.Some? ==> g.off == WriteOption(r, l, v).regs.off)
  {
    if v.Some? {
      var w1 := WriteScalar(r, l, v.value).regs;
      StoreExtends(r, l.align, ToBytes(v.value, l.size));
      StoreExtends(w1, 1, ToBytes(1, 1));
      AgreeEarlier(w1, WriteScalar(w1, BOOL, 1).regs, other);
      ScalarRoundTrip(r, l, v.value, other);
      assert 1 < Limit(1);
      ScalarRoundTrip(w1, BOOL, 1, other);
    }
  }

  /** Strings lose one trailing zero byte, and absent values turn into present ones. */
  predicate Intact(v: Value) {
    && (v.StrV? ==> Usable(v.bytes) == v.bytes)
    && (v.OptionV? ==> v.opt.Some?)
  }

  /** A value that was written is read back, with the cursor in the same place, exactly if
      it is neither a string that ends in a zero byte nor an absent option. */
  lemma ValueRoundTrip(utf8: Encoding, r: Regs, v: Value, other: seq<Byte>)
    requires WellTyped(utf8, v) && r.off <= |r.buf|
    requires var w := WriteValue(r, v); w.error == None && Agree(w.regs.buf, other, w.regs.off)
    ensures var g := ReadValue(utf8, Regs(other, r.off), TypeOf(v));
            (g.result == Ok(v) <==> Intact(v)) && (Intact(v) ==> g.off == WriteValue(r, v).regs.off)
  {
    match v
    case UnitV =>
    case ScalarV(l, bits) => ScalarRoundTrip(r, l, bits, other);
    case OptionV(l, opt) => OptionRoundTrip(r, l, opt, other);
    case SliceV(len, elem, items) =>
      CountedRoundTrip(r, len, |items|, elem.align, elem.size, EncodeAll(items, elem.size), other);
      ArrayRoundTrip(items, elem.size);
    case StrV(bytes) => CountedRoundTrip(r, USIZE, |bytes|, 1, 1, bytes, other);
  }

  // ----- what a value takes

  /** Where the cursor is behind a value: a length takes its own layout, a string has an
      eight-byte length and an option one byte behind its value. */
  function EndOf(off: nat, v: Value): nat
    requires Proper(TypeOf(v))
  {
    match v
    case UnitV => off
    case ScalarV(l, _) => AlignUp(off, l.align) + l.size
    case OptionV(l, _) => AlignUp(off, l.align) + l.size + 1
    case SliceV(len, elem, items) => AlignUp(AlignUp(off, len.align) + len.size, elem.align) + |items| * elem.size
    case StrV(bytes) => AlignUp(off, 8) + 8 + |bytes|
  }

  /** The number of elements fits the type of the length. */
  predicate Countable(v: Value) {
    match v
    case SliceV(len, _, items) => |items| < Limit(len.size)
    case StrV(bytes) => |bytes| < Limit(8)
    case _ => true
  }

  lemma {:induction false} CountedEnd(r: Regs, len: Layout, n: nat, align: nat, bytes: seq<Byte>)
    requires Laid(len) && align >= 1
    ensures var w := WriteCounted(r, len, n, align, bytes);
            var end := AlignUp(AlignUp(r.off, len.align) + len.size, align) + |bytes|;
            if n >= Limit(len.size) then w == Written(r, Some(InvalidArg))
            else if end <= |r.buf| then w.error == None && w.regs.off == end
            else
              && w.error == Some(MsgTooLong)
              && w.regs == WriteScalar(r, len, n).regs
              && w.regs.off == if AlignUp(r.off, len.align) + len.size <= |r.buf|
                               then AlignUp(r.off, len.align) + len.size else r.off
  {
  }

  lemma AlignByte(off: nat)
    ensures AlignUp(off, 1) == off
  {
  }

  lemma {:induction false} OptionEnd(r: Regs, l: Layout, v: Option<nat>)
    requires Laid(l)
    ensures var w, end := WriteOption(r, l, v), AlignUp(r.off, l.align) + l.size + 1;
            if end <= |r.buf| then w.error == None && w.regs.off == end else w.error == Some(MsgTooLong)
  {
    AlignByte(AlignUp(r.off, l.align) + l.size);
  }

  /** A write succeeds exactly if the number of elements can be expressed and the value fits,
      and it moves the cursor behind the value. */
  lemma {:induction false} WriteSucceedsExactlyWhen(r: Regs, v: Value)
    requires Proper(TypeOf(v)) && r.off <= |r.buf|
    ensures var w := WriteValue(r, v);
            if !Countable(v) then w == Written(r, Some(InvalidArg))
            else if EndOf(r.off, v) <= |r.buf| then w.error == None && w.regs.off == EndOf(r.off, v)
            else w.error == Some(MsgTooLong)
  {
    match v
    case UnitV =>
    case ScalarV(_, _) =>
    case OptionV(l, opt) => OptionEnd(r, l, opt);
    case SliceV(len, elem, items) => CountedEnd(r, len, |items|, elem.align, EncodeAll(items, elem.size));
    case StrV(bytes) =>
      CountedEnd(r, USIZE, |bytes|, 1, bytes);
      AlignByte(AlignUp(r.off, 8) + 8);
  }

  /** The flag behind an optional value is one exactly if the value is present; an absent
      value leaves all other bytes as they are. */
  lemma {:induction false} OptionFlag(r: Regs, l: Layout, v: Option<nat>)
    requires Laid(l) && r.off <= |r.buf| && WriteOption(r, l, v).error == None
    ensures var w, p := WriteOption(r, l, v).regs, AlignUp(r.off, l.align) + l.size;
            && w.off == p + 1 <= |w.buf| == |r.buf|
            && w.buf[p] == (if v.Some? then 1 else 0)
            && (v == None ==> w.buf[..p] == r.buf[..p] && w.buf[p + 1..] == r.buf[p + 1..])
  {
    var p := AlignUp(r.off, l.align) + l.size;
    var flag := ToBytes(if v.Some? then 1 else 0, 1);
    var w := match v case None => SkipScalar(r, l) case Some(bits) => WriteScalar(r, l, bits);
    AlignByte(p);
    assert w.regs.off == p && |w.regs.buf| == |r.buf|;
    assert flag == [if v.Some? then 1 else 0];
    StoreFrames(w.regs, 1, flag);
  }

  // ----- what can be read

  lemma ScalarReadExactlyWhen(r: Regs, l: Layout)
    requires Laid(l)
    ensures var g, end := ReadScalar(r, l), AlignUp(r.off, l.align) + l.size;
            if end <= |r.buf| then g.result.Ok? && g.off == end else g == Got(Err(MsgTooLong), r.off)
  {
  }

  /** Elements are read exactly if the buffer has as many as the length says; the length stays
      consumed. */
  lemma CountedReadExactlyWhen(r: Regs, len: Layout, align: nat, size: nat)
    requires Laid(len) && align >= 1
    ensures var n, g := ReadScalar(r, len), ReadCounted(r, len, align, size);
            match n.result
            case Err(e) => g == Got(Err(e), r.off)
            case Ok(count) =>
              var end := AlignUp(n.off, align) + count * size;
              if end <= |r.buf| then g.result.Ok? && g.result.value.0 == count && g.off == end
              else g == Got(Err(OutOfBounds), n.off)
  {
  }

  /** A string that is there is refused exactly if it is badly encoded without its zero. */
  lemma StringReadExactlyWhen(utf8: Encoding, r: Regs)
    ensures var g, c := ReadStr(utf8, r), ReadCounted(r, USIZE, 1, 1);
            match c.result
            case Err(e) => g == Got(Err(e), c.off)
            case Ok(b) => g.result == (if utf8(Usable(b.1)) then Ok(Usable(b.1)) else Err(InvalidEncoding))
  {
  }

  /** Exactly one zero byte is dropped from the end of a string. */
  lemma {:induction false} OneZeroIsDropped(utf8: Encoding, r: Regs, bytes: seq<Byte>, other: seq<Byte>)
    requires r.off <= |r.buf| && utf8(bytes)
    requires var w := WriteValue(r, StrV(bytes + [0])); w.error == None && Agree(w.regs.buf, other, w.regs.off)
    ensures ReadValue(utf8, Regs(other, r.off), StrType).result == Ok(StrV(bytes))
  {
    CountedRoundTrip(r, USIZE, |bytes| + 1, 1, 1, bytes + [0], other);
    assert Usable(bytes + [0]) == bytes;
  }

  // ----- room

  /** Whether a write succeeds and where it leaves the cursor depends on the size of the
      buffer, not on its contents. */
  predicate SameRoom(v: Written, w: Written) {
    v.error == w.error && v.regs.off == w.regs.off && |v.regs.buf| == |w.regs.buf|
  }

  lemma StoreRoom(r: Regs, q: Regs, align: nat, bytes: seq<Byte>, other: seq<Byte>)
    requires align >= 1 && |r.buf| == |q.buf| && r.off == q.off && |bytes| == |other|
    ensures SameRoom(Store(r, align, bytes), Store(q, align, other))
  {
  }

  lemma CountedRoom(r: Regs, q: Regs, len: Layout, n: nat, align: nat, bytes: seq<Byte>)
    requires Laid(len) && align >= 1 && |r.buf| == |q.buf| && r.off == q.off
    ensures SameRoom(WriteCounted(r, len, n, align, bytes), WriteCounted(q, len, n, align, bytes))
  {
    StoreRoom(r, q, len.align, ToBytes(n, len.size), ToBytes(n, len.size));
    var w, v := WriteScalar(r, len, n), WriteScalar(q, len, n);
    if w.error == None { StoreRoom(w.regs, v.regs, align, bytes, bytes); }
  }

  lemma OptionRoom(r: Regs, q: Regs, l: Layout, v: Option<nat>)
    requires Laid(l) && |r.buf| == |q.buf| && r.off == q.off
    ensures SameRoom(WriteOption(r, l, v), WriteOption(q, l, v))
  {
    var b := ToBytes(if v.Some? then v.value else 0, l.size);
    var w := match v case None => SkipScalar(r, l) case Some(bits) => WriteScalar(r, l, bits);
    var u := match v case None => SkipScalar(q, l) case Some(bits) => WriteScalar(q, l, bits);
    StoreRoom(r, q, l.align, b, b);
    assert SameRoom(w, u);
    if w.error == None {
      var flag := ToBytes(if v.Some? then 1 else 0, 1);
      StoreRoom(w.regs, u.regs, 1, flag, flag);
    }
  }

  lemma ValueRoom(r: Regs, q: Regs, v: Value)
    requires Proper(TypeOf(v)) && |r.buf| == |q.buf| && r.off == q.off
    ensures SameRoom(WriteValue(r, v), WriteValue(q, v))
  {
    match v
    case UnitV =>
    case ScalarV(l, bits) => StoreRoom(r, q, l.align, ToBytes(bits, l.size), ToBytes(bits, l.size));
    case OptionV(l, opt) => OptionRoom(r, q, l, opt);
    case SliceV(len, elem, items) => CountedRoom(r, q, len, |items|, elem.align, EncodeAll(items, elem.size));
    case StrV(bytes) => CountedRoom(r, q, USIZE, |bytes|, 1, bytes);
  }

  // ----- whole messages

  /** Writes in order up to the first failure. */
  function WriteAll(r: Regs, vs: seq<Value>): Written
    requires forall i :: 0 <= i < |vs| ==> Proper(TypeOf(vs[i]))
    decreases vs
  {
    if vs == [] then Written(r, None)
    else
      var w := WriteValue(r, vs[0]);
      if w.error != None then w else WriteAll(w.regs, vs[1..])
  }

  function ReadAll(utf8: Encoding, r: Regs, ts: seq<Type>): Got<seq<Value>>
    requires forall i :: 0 <= i < |ts| ==> Proper(ts[i])
    decreases ts
  {
    if ts == [] then Got(Ok([]), r.off)
    else
      var g := ReadValue(utf8, r, ts[0]);
      match g.result
      case Err(e) => Got(Err(e), g.off)
      case Ok(v) =>
        var rest := ReadAll(utf8, Regs(r.buf, g.off), ts[1..]);
        match rest.result
        case Err(e) => Got(Err(e), rest.off)
        case Ok(vs) => Got(Ok([v] + vs), rest.off)
  }

  lemma {:induction false} MessageRoom(r: Regs, q: Regs, vs: seq<Value>)
    requires forall i :: 0 <= i < |vs| ==> Proper(TypeOf(vs[i]))
    requires |r.buf| == |q.buf| && r.off == q.off
    ensures SameRoom(WriteAll(r, vs), WriteAll(q, vs))
    decreases vs
  {
    if vs != [] {
      ValueRoom(r, q, vs[0]);
      var w := WriteValue(r, vs[0]);
      if w.error == None { MessageRoom(w.regs, WriteValue(q, vs[0]).regs, vs[1..]); }
    }
  }

  function TypesOf(vs: seq<Value>): (ts: seq<Type>)
    ensures |ts| == |vs|
  {
    seq(|vs|, i requires 0 <= i < |vs| => TypeOf(vs[i]))
  }

  ghost predicate AllWellTyped(utf8: Encoding, vs: seq<Value>) {
    forall i :: 0 <= i < |vs| ==> WellTyped(utf8, vs[i])
  }

  predicate AllIntact(vs: seq<Value>) { forall i :: 0 <= i < |vs| ==> Intact(vs[i]) }

  lemma {:induction false} WriteAllExtends(r: Regs, vs: seq<Value>)
    requires forall i :: 0 <= i < |vs| ==> Proper(TypeOf(vs[i]))
    requires r.off <= |r.buf|
    ensures Extends(r, WriteAll(r, vs).regs)
    decreases vs
  {
    if vs != [] {
      var w := WriteValue(r, vs[0]);
      WriteExtends(r, vs[0]);
      if w.error == None {
        WriteAllExtends(w.regs, vs[1..]);
        ExtendsTransitive(r, w.regs, WriteAll(w.regs, vs[1..]).regs);
      }
    }
  }

  /** Heterogeneous round trip: a message is read back from any buffer that agrees with the
      written part, value for value, exactly if all its values are intact. */
  lemma {:induction false} MessageRoundTrip(utf8: Encoding, r: Regs, vs: seq<Value>, other: seq<Byte>)
    requires AllWellTyped(utf8, vs) && r.off <= |r.buf|
    requires var w := WriteAll(r, vs); w.error == None && Agree(w.regs.buf, other, w.regs.off)
    ensures var g := ReadAll(utf8, Regs(other, r.off), TypesOf(vs));
            (g.result == Ok(vs) <==> AllIntact(vs)) && (AllIntact(vs) ==> g.off == WriteAll(r, vs).regs.off)
    decreases vs
  {
    if vs != [] {
      var w, rest := WriteValue(r, vs[0]), vs[1..];
      WriteExtends(r, vs[0]);
      WriteAllExtends(w.regs, rest);
      AgreeEarlier(w.regs, WriteAll(w.regs, rest).regs, other);
      ValueRoundTrip(utf8, r, vs[0], other);
      MessageRoundTrip(utf8, w.regs, rest, other);
      ReadAllSplits(utf8, Regs(other, r.off), vs, w.regs.off);
    }
  }

  lemma ReadAllSplits(utf8: Encoding, r: Regs, vs: seq<Value>, off: nat)
    requires vs != [] && forall i :: 0 <= i < |vs| ==> Proper(TypeOf(vs[i]))
    requires var g := ReadValue(utf8, r, TypeOf(vs[0])); g.result == Ok(vs[0]) ==> g.off == off
    ensures var g := ReadAll(utf8, r, TypesOf(vs));
            var rest := ReadAll(utf8, Regs(r.buf, off), TypesOf(vs[1..]));
            && (g.result == Ok(vs) <==>
                ReadValue(utf8, r, TypeOf(vs[0])).result == Ok(vs[0]) && rest.result == Ok(vs[1..]))
            && (g.result == Ok(vs) ==> g.off == rest.off)
  {
    var ts := TypesOf(vs);
    assert ts[1..] == TypesOf(vs[1..]) && ts[0] == TypeOf(vs[0]);
    var g := ReadValue(utf8, r, ts[0]);
    if g.result.Ok? {
      var rest := ReadAll(utf8, Regs(r.buf, g.off), ts[1..]);
      if rest.result.Ok? { ConsIs(g.result.value, rest.result.value, vs); }
    }
  }

  lemma ConsIs(v: Value, rest: seq<Value>, vs: seq<Value>)
    requires vs != []
    ensures [v] + rest == vs <==> v == vs[0] && rest == vs[1..]
  {
    assert vs == [vs[0]] + vs[1..];
    assert ([v] + rest)[0] == v && ([v] + rest)[1..] == rest;
  }

  lemma {:induction false} WriteAllSplits(r: Regs, first: seq<Value>, rest: seq<Value>)
    requires forall i :: 0 <= i < |first + rest| ==> Proper(TypeOf((first + rest)[i]))
    requires forall i :: 0 <= i < |first| ==> Proper(TypeOf(first[i]))
    requires forall i :: 0 <= i < |rest| ==> Proper(TypeOf(rest[i]))
    ensures var w := WriteAll(r, first);
            WriteAll(r, first + rest) == if w.error != None then w else WriteAll(w.regs, rest)
    decreases first
  {
    if first == [] {
      assert first + rest == rest;
    } else {
      assert (first + rest)[1..] == first[1..] + rest && (first + rest)[0] == first[0];
      WriteAllSplits(WriteValue(r, first[0]).regs, first[1..], rest);
    }
  }

  /** After every step the reader's cursor is where the writer's was. */
  lemma CursorsInStep(utf8: Encoding, r: Regs, vs: seq<Value>, k: nat, other: seq<Byte>)
    requires AllWellTyped(utf8, vs) && AllIntact(vs) && r.off <= |r.buf| && k <= |vs|
    requires var w := WriteAll(r, vs); w.error == None && Agree(w.regs.buf, other, w.regs.off)
    ensures ReadAll(utf8, Regs(other, r.off), TypesOf(vs[..k])) ==
            Got(Ok(vs[..k]), WriteAll(r, vs[..k]).regs.off)
  {
    var w := WriteAll(r, vs[..k]);
    assert vs == vs[..k] + vs[k..];
    WriteAllSplits(r, vs[..k], vs[k..]);
    WriteAllExtends(r, vs[..k]);
    WriteAllExtends(w.regs, vs[k..]);
    AgreeEarlier(w.regs, WriteAll(r, vs).regs, other);
    MessageRoundTrip(utf8, r, vs[..k], other);
  }
}

/** Errors on their way back to the client: the server loop turns them into the label of an
    otherwise empty reply, and the client turns negative labels into errors. */
module IpcErrors {
  import opened Ipc
  import opened Marshal
  import opened MsgTag
  import opened Numbers

  /** Generic codes and those of the kernel's IPC register are C enumerations. */
  datatype Fault =
    | Generic(code: nat)
    | Tcr(code: nat)
    | InvalidCap
    | InvalidArgument
    | InvalidState
    | BadEncoding
    | Unknown(n: int)
    | Protocol(n: int)

  /** Which generic codes exist, and those the marshalling code uses. */
  datatype Codes = Codes(known: nat -> bool, invalidArg: nat, outOfBounds: nat, msgTooLong: nat, invalidProt: nat)

  const INVALID_CAP_CODE := -65540
  const INVALID_ENCODING := -65541

  ghost predicate ValidCodes(c: Codes) {
    && (forall n :: c.known(n) ==> n < 65540)
    && c.known(c.invalidArg) && c.known(c.outOfBounds) && c.known(c.msgTooLong) && c.known(c.invalidProt)
    && c.invalidArg > 0 && c.outOfBounds > 0 && c.msgTooLong > 0 && c.invalidProt > 0
  }

  /** Codes are 32-bit numbers; the other numbers are 64-bit ones that can be negated. */
  predicate Representable(f: Fault) {
    match f
    case Generic(code) => code < 0x1_0000_0000
    case Tcr(code) => code < 0x1_0000_0000
    case Unknown(n) => -TWO63 < n < TWO63
    case Protocol(n) => -TWO63 < n < TWO63
    case _ => true
  }

  /** `into_ipc_err`. */
  function IntoIpc(c: Codes, f: Fault): int {
    match f
    case Generic(code) => -1 * code
    case Tcr(code) => -1 * code
    case InvalidCap => -1 * INVALID_CAP_CODE
    case InvalidArgument => -1 * c.invalidArg
    case InvalidState => -1 * c.invalidArg
    case BadEncoding => -1 * INVALID_ENCODING
    case Unknown(n) => -1 * n
    case Protocol(n) => -1 * n
  }

  /** `from_ipc`. */
  function FromIpc(c: Codes, code: int): Fault {
    var magnitude := if code < 0 then -code else code;
    if code == INVALID_CAP_CODE then InvalidCap
    else if code == INVALID_ENCODING then BadEncoding
    else if c.known(magnitude) then Generic(magnitude)
    else Unknown(code)
  }

  /** The reply to a request that failed. */
  function ErrorTag(c: Codes, f: Fault): nat { Tag(IntoIpc(c, f), 0, 0, 0) }

  lemma ErrorTagFields(c: Codes, f: Fault)
    ensures var t := ErrorTag(c, f);
            Words(t) == 0 && Items(t) == 0 && Flags(t) == 0 && Label(t) == Low48(IntoIpc(c, f))
  {
    CountedTag(IntoIpc(c, f), 0, 0);
  }

  /** The client takes the reply for an error. */
  predicate Seen(c: Codes, f: Fault) { Label(ErrorTag(c, f)) < 0 }

  lemma SmallLabel(n: int)
    requires -TWO47 <= n < TWO47
    ensures Low48(n) == n
  {
  }

  /** Which errors the client notices: by convention labels of errors are negative, but
      invalid capabilities and encodings are sent as positive ones. */
  lemma SeenExactlyWhen(c: Codes, f: Fault)
    requires ValidCodes(c) && Representable(f)
    ensures Seen(c, f) <==>
            match f
            case Generic(code) => code > 0
            case Tcr(code) => code > 0
            case InvalidCap => false
            case InvalidArgument => true
            case InvalidState => true
            case BadEncoding => false
            case Unknown(n) => Low48(-n) < 0
            case Protocol(n) => Low48(-n) < 0
  {
    ErrorTagFields(c, f);
    if !f.Unknown? && !f.Protocol? { SmallLabel(IntoIpc(c, f)); }
  }

  /** Whatever the codes: these two arrive with positive labels, as if all had gone well. */
  lemma TwoErrorsAreMissed(c: Codes)
    ensures Label(ErrorTag(c, InvalidCap)) == 65540 && !Seen(c, InvalidCap)
    ensures Label(ErrorTag(c, BadEncoding)) == 65541 && !Seen(c, BadEncoding)
  {
    ErrorTagFields(c, InvalidCap);
    ErrorTagFields(c, BadEncoding);
    SmallLabel(65540);
    SmallLabel(65541);
  }

  /** What the client gets instead: known codes as generic errors, everything else that is
      noticed as an unknown number. */
  lemma ArrivesAs(c: Codes, f: Fault)
    requires ValidCodes(c) && Representable(f) && Seen(c, f)
    ensures var r := FromIpc(c, Label(ErrorTag(c, f)));
            match f
            case InvalidArgument => r == Generic(c.invalidArg)
            case InvalidState => r == Generic(c.invalidArg)
            case Generic(n) => c.known(n) ==> r == f
            case Tcr(n) => r == FromIpc(c, -1 * n)
            case Unknown(n) => r == FromIpc(c, Low48(-n))
            case Protocol(n) => r == FromIpc(c, Low48(-n))
            case _ => false
  {
    ErrorTagFields(c, f);
    SeenExactlyWhen(c, f);
    if !f.Unknown? && !f.Protocol? { SmallLabel(IntoIpc(c, f)); }
  }

  /** The client would know these two by negative labels, which the server sends for other
      errors only. */
  lemma KnownButNotSent(c: Codes, f: Fault)
    ensures FromIpc(c, -65540) == InvalidCap && FromIpc(c, -65541) == BadEncoding
    ensures f.InvalidCap? || f.BadEncoding? ==> Label(ErrorTag(c, f)) > 0
  {
    TwoErrorsAreMissed(c);
  }

  lemma Reflected(n: int)
    requires -TWO63 < n < TWO63
    ensures Low48(-n) == n && n < 0 <==> n == -TWO47
  {
  }

  /** Which errors the client gets as they were raised: the known generic ones, and a single
      number whose label is its own negation. */
  lemma SurvivesExactlyWhen(c: Codes, f: Fault)
    requires ValidCodes(c) && Representable(f)
    ensures Seen(c, f) && FromIpc(c, Label(ErrorTag(c, f))) == f <==>
            (f.Generic? && f.code > 0 && c.known(f.code)) || f == Unknown(-TWO47)
  {
    ErrorTagFields(c, f);
    SeenExactlyWhen(c, f);
    match f
    case Unknown(n) => Reflected(n);
    case Protocol(n) =>
    case _ => SmallLabel(IntoIpc(c, f));
  }

  // ----- the errors of the dispatcher itself

  function MarshalFault(c: Codes, e: Error): Fault {
    match e
    case MsgTooLong => Generic(c.msgTooLong)
    case InvalidArg => Generic(c.invalidArg)
    case OutOfBounds => Generic(c.outOfBounds)
    case InvalidEncoding => BadEncoding
  }

  function RejectionFault(c: Codes, why: Rejection): Fault {
    match why
    case TooLong => Generic(c.msgTooLong)
    case WrongProtocol => Generic(c.invalidProt)
    case Unreadable(e) => MarshalFault(c, e)
    case UnknownOpcode(_) => InvalidArgument
  }

  /** The error a client gets for a request that was refused. */
  function Complaint(c: Codes, why: Rejection): nat
    requires why != Unreadable(InvalidEncoding)
  {
    match why
    case TooLong => c.msgTooLong
    case WrongProtocol => c.invalidProt
    case UnknownOpcode(_) => c.invalidArg
    case Unreadable(e) => if e.MsgTooLong? then c.msgTooLong else if e.OutOfBounds? then c.outOfBounds else c.invalidArg
  }

  lemma RefusalArrivesAs(c: Codes, why: Rejection)
    requires ValidCodes(c) && why != Unreadable(InvalidEncoding)
    ensures FromIpc(c, Label(ErrorTag(c, RejectionFault(c, why)))) == Generic(Complaint(c, why))
  {
    var f := RejectionFault(c, why);
    RefusalSeenExactlyWhen(c, why);
    ArrivesAs(c, f);
  }

  /** A client notices that its request was refused unless the reason is a badly encoded
      string. */
  lemma RefusalSeenExactlyWhen(c: Codes, why: Rejection)
    requires ValidCodes(c)
    ensures Seen(c, RejectionFault(c, why)) <==> why != Unreadable(InvalidEncoding)
  {
    SeenExactlyWhen(c, RejectionFault(c, why));
  }
}

/** The application phase of a TLS 1.3 connection: data, close_notify and
    fatal alerts over protected records (section 6 of RFC 8446). */
module ApplicationState {
  import opened Words
  import opened TlsRecords
  import opened RecordProtection

  type Secret = s: seq<byte> | |s| == 32 witness seq(32, _ => 0)

  function ZeroSecret(): Secret {
    seq(32, _ => 0)
  }

  function ErasedKeys(): Keys {
    Keys(seq(32, _ => 0), seq(12, _ => 0), seq(32, _ => 0), seq(12, _ => 0), None, None)
  }

  // ----- alerts -----

  datatype AlertDescription =
    | CloseNotify | UnexpectedMessage | BadRecordMac | RecordOverflow
    | HandshakeFailure | BadCertificate | UnsupportedCertificate | CertificateRevoked
    | CertificateExpired | CertificateUnknown | IllegalParameter | UnknownCa
    | AccessDenied | DecodeError | DecryptError | ProtocolVersion
    | InsufficientSecurity | InternalError | InappropriateFallback | UserCanceled
    | MissingExtension | UnsupportedExtension | UnrecognizedName | BadCertificateStatusResponse
    | UnknownPskIdentity | CertificateRequired | GeneralError | NoApplicationProtocol
    | Unknown(code: byte)
  {
    function Code(): byte {
      match this
      case CloseNotify => 0
      case UnexpectedMessage => 10
      case BadRecordMac => 20
      case RecordOverflow => 22
      case HandshakeFailure => 40
      case BadCertificate => 42
      case UnsupportedCertificate => 43
      case CertificateRevoked => 44
      case CertificateExpired => 45
      case CertificateUnknown => 46
      case IllegalParameter => 47
      case UnknownCa => 48
      case AccessDenied => 49
      case DecodeError => 50
      case DecryptError => 51
      case ProtocolVersion => 70
      case InsufficientSecurity => 71
      case InternalError => 80
      case InappropriateFallback => 86
      case UserCanceled => 90
      case MissingExtension => 109
      case UnsupportedExtension => 110
      case UnrecognizedName => 112
      case BadCertificateStatusResponse => 113
      case UnknownPskIdentity => 115
      case CertificateRequired => 116
      case GeneralError => 117
      case NoApplicationProtocol => 120
      case Unknown(code) => code
    }

    predicate IsClosure() {
      CloseNotify? || UserCanceled?
    }
  }

  // The codes that have a name.
  const NAMED_CODES: set<byte> := {
    0, 10, 20, 22, 40, 42, 43, 44, 45, 46, 47, 48, 49, 50, 51, 70, 71, 80, 86, 90, 109, 110, 112, 113, 115, 116, 117, 120
  }

  function DescriptionOf(code: byte): (d: AlertDescription)
    ensures d.Code() == code && (d.Unknown? <==> code !in NAMED_CODES)
  {
    if code == 0 then CloseNotify
    else if code == 10 then UnexpectedMessage
    else if code == 20 then BadRecordMac
    else if code == 22 then AlertDescription.RecordOverflow
    else if code == 40 then HandshakeFailure
    else if code == 42 then BadCertificate
    else if code == 43 then UnsupportedCertificate
    else if code == 44 then CertificateRevoked
    else if code == 45 then CertificateExpired
    else if code == 46 then CertificateUnknown
    else if code == 47 then IllegalParameter
    else if code == 48 then UnknownCa
    else if code == 49 then AccessDenied
    else if code == 50 then DecodeError
    else if code == 51 then DecryptError
    else if code == 70 then ProtocolVersion
    else if code == 71 then InsufficientSecurity
    else if code == 80 then InternalError
    else if code == 86 then InappropriateFallback
    else if code == 90 then UserCanceled
    else if code == 109 then MissingExtension
    else if code == 110 then UnsupportedExtension
    else if code == 112 then UnrecognizedName
    else if code == 113 then BadCertificateStatusResponse
    else if code == 115 then UnknownPskIdentity
    else if code == 116 then CertificateRequired
    else if code == 117 then GeneralError
    else if code == 120 then NoApplicationProtocol
    else Unknown(code)
  }

  // Reading the code of a description gives it back, unless it is an unknown one with a named code.
  lemma CodeRoundTrip(d: AlertDescription)
    ensures DescriptionOf(d.Code()) == d <==> !(d.Unknown? && d.code in NAMED_CODES)
  {
    if d.Unknown? {
      var read := DescriptionOf(d.code);
    }
  }

  function AlertRecord(level: byte, description: AlertDescription): Result<PlaintextRecord, RecordError> {
    NewRecord(Alert, [level, description.Code()])
  }

  datatype Event =
    | DataEvent(data: seq<byte>)
    | CloseNotifyEvent
    | UserCanceledEvent
    | FatalAlertEvent(description: AlertDescription)
    | IgnoredAfterCloseNotify

  // ----- the state and its operations -----

  datatype State = State(clientSecret: Secret, serverSecret: Secret, keys: Keys,
                         closeSent: bool, closeReceived: bool, failed: bool)

  datatype Op = SendData(fragment: seq<byte>) | SendClose | SendFatal(description: AlertDescription) | Receive(record: CiphertextRecord)
  datatype Outcome = Sent(record: CiphertextRecord) | Delivered(event: Event) | Refused(error: RecordError)
  datatype Transition = Transition(outcome: Outcome, state: State)

  function Wiped(s: State): State {
    State(ZeroSecret(), ZeroSecret(), ErasedKeys(), s.closeSent, s.closeReceived, true)
  }

  function WithKeys(s: State, keys: Keys): State {
    State(s.clientSecret, s.serverSecret, keys, s.closeSent, s.closeReceived, s.failed)
  }

  function WithClose(s: State, sent: bool, received: bool): State {
    State(s.clientSecret, s.serverSecret, s.keys, sent, received, s.failed)
  }

  // Protects an already built record; after tells what else changes when that succeeds.
  function Protect(block: BlockFunction, s: State, plaintext: Result<PlaintextRecord, RecordError>): Transition {
    if plaintext.Err? then Transition(Refused(plaintext.error), s)
    else
      var (encrypted, keys) := EncryptStep(block, s.keys, plaintext.value, 0);
      Transition(if encrypted.Ok? then Sent(encrypted.value) else Refused(encrypted.error), WithKeys(s, keys))
  }

  function EventOf(plaintext: PlaintextRecord): Result<Event, RecordError> {
    if plaintext.contentType == ApplicationData then Ok(DataEvent(plaintext.fragment))
    else if plaintext.contentType != Alert then Err(UnexpectedProtectedContentType(plaintext.contentType))
    else if |plaintext.fragment| != 2 then Err(InvalidAlertLength(|plaintext.fragment|))
    else Ok(AlertEvent(DescriptionOf(plaintext.fragment[1])))
  }

  function AlertEvent(description: AlertDescription): Event {
    if description.CloseNotify? then CloseNotifyEvent
    else if description.UserCanceled? then UserCanceledEvent
    else FatalAlertEvent(description)
  }

  function Step(block: BlockFunction, s: State, op: Op): Transition {
    if s.failed then Transition(Refused(ConnectionFailed), s)
    else
      match op
      case SendData(fragment) =>
        if s.closeSent then Transition(Refused(WriteAfterCloseNotify), s)
        else Protect(block, s, NewRecord(ApplicationData, fragment))
      case SendClose =>
        if s.closeSent then Transition(Refused(CloseNotifyAlreadySent), s)
        else
          var t := Protect(block, s, AlertRecord(1, CloseNotify));
          if t.outcome.Sent? then Transition(t.outcome, WithClose(t.state, true, t.state.closeReceived)) else t
      case SendFatal(description) =>
        if description.IsClosure() then Transition(Refused(InvalidFatalAlertDescription(description.Code())), s)
        else
          var t := Protect(block, s, AlertRecord(2, description));
          if t.outcome.Sent? then Transition(t.outcome, Wiped(t.state)) else t
      case Receive(record) =>
        var (plaintext, keys) := DecryptStep(block, s.keys, record);
        if plaintext.Err? then Transition(Refused(plaintext.error), WithKeys(s, keys))
        else Accept(WithKeys(s, keys), plaintext.value)
  }

  function Accept(s: State, plaintext: PlaintextRecord): Transition {
    if s.closeReceived then Transition(Delivered(IgnoredAfterCloseNotify), s)
    else
      var event := EventOf(plaintext);
      if event.Err? then Transition(Refused(event.error), s)
      else
        Transition(Delivered(event.value),
                   if event.value.CloseNotifyEvent? then WithClose(s, s.closeSent, true)
                   else if event.value.FatalAlertEvent? then Wiped(s)
                   else s)
  }

  class Tls13ApplicationState {
    const block: BlockFunction
    const protection: Tls13RecordProtection
    var clientSecret: Secret
    var serverSecret: Secret
    var closeSent: bool
    var closeReceived: bool
    var failed: bool

    ghost predicate Valid()
      reads this, protection
    {
      protection.block == block
    }

    ghost function Value(): State
      reads this, protection
    {
      State(clientSecret, serverSecret, protection.State(), closeSent, closeReceived, failed)
    }

    constructor (protection: Tls13RecordProtection, clientSecret: Secret, serverSecret: Secret)
      ensures Valid() && this.protection == protection
      ensures Value() == State(clientSecret, serverSecret, protection.State(), false, false, false)
    {
      this.block := protection.block;
      this.protection := protection;
      this.clientSecret := clientSecret;
      this.serverSecret := serverSecret;
      closeSent := false;
      closeReceived := false;
      failed := false;
    }

    method EncryptApplicationData(fragment: seq<byte>) returns (outcome: Outcome)
      requires Valid()
      modifies this, protection
      ensures Valid() && Transition(outcome, Value()) == Step(block, old(Value()), SendData(fragment))
    {
      hide EncryptStep;
      if failed {
        return Refused(ConnectionFailed);
      }
      if closeSent {
        return Refused(WriteAfterCloseNotify);
      }
      var plaintext := NewRecord(ApplicationData, fragment);
      if plaintext.Err? {
        return Refused(plaintext.error);
      }
      var encrypted := protection.EncryptRecord(plaintext.value, 0);
      outcome := if encrypted.Ok? then Sent(encrypted.value) else Refused(encrypted.error);
    }

    method EncryptCloseNotify() returns (outcome: Outcome)
      requires Valid()
      modifies this, protection
      ensures Valid() && Transition(outcome, Value()) == Step(block, old(Value()), SendClose)
    {
      hide EncryptStep;
      if failed {
        return Refused(ConnectionFailed);
      }
      if closeSent {
        return Refused(CloseNotifyAlreadySent);
      }
      var plaintext := AlertRecord(1, CloseNotify);
      if plaintext.Err? {
        return Refused(plaintext.error);
      }
      var encrypted := protection.EncryptRecord(plaintext.value, 0);
      if encrypted.Err? {
        return Refused(encrypted.error);
      }
      closeSent := true;
      outcome := Sent(encrypted.value);
    }

    method EncryptFatalAlert(description: AlertDescription) returns (outcome: Outcome)
      requires Valid()
      modifies this, protection
      ensures Valid() && Transition(outcome, Value()) == Step(block, old(Value()), SendFatal(description))
    {
      hide EncryptStep, AlertRecord;
      if failed {
        return Refused(ConnectionFailed);
      }
      if description.IsClosure() {
        return Refused(InvalidFatalAlertDescription(description.Code()));
      }
      var plaintext := AlertRecord(2, description);
      if plaintext.Err? {
        return Refused(plaintext.error);
      }
      var encrypted := protection.EncryptRecord(plaintext.value, 0);
      if encrypted.Err? {
        return Refused(encrypted.error);
      }
      Fail();
      outcome := Sent(encrypted.value);
    }

    method ReceiveProtectedRecord(record: CiphertextRecord) returns (outcome: Outcome)
      requires Valid()
      modifies this, protection
      ensures Valid() && Transition(outcome, Value()) == Step(block, old(Value()), Receive(record))
    {
      hide DecryptStep, DescriptionOf;
      if failed {
        return Refused(ConnectionFailed);
      }
      var plaintext := protection.DecryptRecord(record);
      if plaintext.Err? {
        return Refused(plaintext.error);
      }
      if closeReceived {
        return Delivered(IgnoredAfterCloseNotify);
      }
      match plaintext.value.contentType
      case ApplicationData =>
        return Delivered(DataEvent(plaintext.value.fragment));
      case Alert =>
        var fragment := plaintext.value.fragment;
        if |fragment| != 2 {
          return Refused(InvalidAlertLength(|fragment|));
        }
        var description := DescriptionOf(fragment[1]);
        if description.CloseNotify? {
          closeReceived := true;
          return Delivered(CloseNotifyEvent);
        }
        if description.UserCanceled? {
          return Delivered(UserCanceledEvent);
        }
        Fail();
        return Delivered(FatalAlertEvent(description));
      case _ =>
        return Refused(UnexpectedProtectedContentType(plaintext.value.contentType));
    }

    method Fail()
      requires Valid()
      modifies this, protection
      ensures Valid() && Value() == Wiped(old(Value()))
    {
      clientSecret := ZeroSecret();
      serverSecret := ZeroSecret();
      protection.Erase();
      failed := true;
    }
  }

  // ----- runs -----

  datatype Kind = Data | Close | Fatal

  function KindOf(op: Op): Kind
    requires !op.Receive?
  {
    match op
    case SendData(_) => Data
    case SendClose => Close
    case SendFatal(_) => Fatal
  }

  // The kinds of the records a run emits, and the events it delivers.
  function Emitted(block: BlockFunction, s: State, ops: seq<Op>): seq<Kind>
    decreases |ops|
  {
    if ops == [] then []
    else
      var t := Step(block, s, ops[0]);
      (if t.outcome.Sent? && !ops[0].Receive? then [KindOf(ops[0])] else []) + Emitted(block, t.state, ops[1..])
  }

  function Events(block: BlockFunction, s: State, ops: seq<Op>): seq<Event>
    decreases |ops|
  {
    if ops == [] then []
    else
      var t := Step(block, s, ops[0]);
      (if t.outcome.Delivered? then [t.outcome.event] else []) + Events(block, t.state, ops[1..])
  }

  function Final(block: BlockFunction, s: State, ops: seq<Op>): State
    decreases |ops|
  {
    if ops == [] then s else Final(block, Step(block, s, ops[0]).state, ops[1..])
  }

  // What one step can do to the flags, by what came of it.
  lemma StepEffects(block: BlockFunction, s: State, op: Op)
    ensures var t := Step(block, s, op); var outcome := t.outcome; var s' := t.state;
            && (outcome.Sent? ==> !op.Receive? && !s.failed)
            && (outcome.Sent? && op.SendData? ==> !s.closeSent && !s'.closeSent && !s'.failed)
            && (outcome.Sent? && op.SendClose? ==> !s.closeSent && s'.closeSent && !s'.failed)
            && (outcome.Sent? && op.SendFatal? ==> s'.failed)
            && (!outcome.Sent? ==> s'.closeSent == s.closeSent)
            && (outcome.Refused? ==> s'.failed == s.failed && s'.closeReceived == s.closeReceived)
            && (outcome.Delivered? ==> op.Receive? && !s.failed)
            && (outcome.Delivered? && s.closeReceived ==> outcome.event == IgnoredAfterCloseNotify)
            && (outcome.Delivered? && outcome.event.IgnoredAfterCloseNotify? ==> s.closeReceived)
            && (outcome.Delivered? && outcome.event.CloseNotifyEvent? ==> s'.closeReceived)
            && (s.closeReceived ==> s'.closeReceived)
            && (s'.failed && !s.failed ==> s' == Wiped(s'))
            && (s.failed ==> s' == s && outcome == Refused(ConnectionFailed))
  {
    hide EncryptStep, DecryptStep;
  }

  // The automaton of the emitted kinds.
  predicate Accepts(kinds: seq<Kind>, closed: bool, failed: bool)
    decreases |kinds|
  {
    kinds == [] || (!failed && match kinds[0]
                               case Data => !closed && Accepts(kinds[1..], false, false)
                               case Close => !closed && Accepts(kinds[1..], true, false)
                               case Fatal => Accepts(kinds[1..], closed, true))
  }

  lemma {:induction false} EmittedAccepted(block: BlockFunction, s: State, ops: seq<Op>)
    ensures Accepts(Emitted(block, s, ops), s.closeSent, s.failed)
    decreases |ops|
  {
    hide Step;
    if ops != [] {
      StepEffects(block, s, ops[0]);
      var Transition(outcome, s') := Step(block, s, ops[0]);
      EmittedAccepted(block, s', ops[1..]);
      var later := Emitted(block, s', ops[1..]);
      if outcome.Sent? {
        assert ([KindOf(ops[0])] + later)[1..] == later;
      } else {
        assert [] + later == later;
        WeakerFailed(later, s'.closeSent, s'.failed, s.failed);
      }
    }
  }

  // Having failed only shortens what may follow.
  lemma WeakerFailed(kinds: seq<Kind>, closed: bool, failed': bool, failed: bool)
    requires Accepts(kinds, closed, failed') && (failed ==> failed')
    ensures Accepts(kinds, closed, failed)
  {
  }

  function Shape(data: nat, close: bool, fatal: bool): seq<Kind> {
    seq(data, _ => Data) + (if close then [Close] else []) + (if fatal then [Fatal] else [])
  }

  ghost predicate DataThenCloseThenFatal(kinds: seq<Kind>) {
    exists data, close, fatal :: kinds == Shape(data, close, fatal)
  }

  lemma {:induction false} AcceptedShape(kinds: seq<Kind>) returns (n: nat, close: bool, fatal: bool)
    requires Accepts(kinds, false, false)
    ensures kinds == Shape(n, close, fatal)
    decreases |kinds|
  {
    if kinds == [] {
      n, close, fatal := 0, false, false;
    } else if kinds[0] == Data {
      n, close, fatal := AcceptedShape(kinds[1..]);
      assert kinds == [Data] + kinds[1..];
      n := n + 1;
      assert seq(n, _ => Data) == [Data] + seq(n - 1, _ => Data);
    } else {
      var rest := kinds[1..];
      assert Accepts(rest, kinds[0] == Close, kinds[0] == Fatal);
      n, close, fatal := 0, kinds[0] == Close, kinds[0] == Fatal || rest != [];
      if kinds[0] == Close && rest != [] {
        assert rest[0] == Fatal && Accepts(rest[1..], true, true);
      }
    }
  }

  /** The records of every run are data records, then at most one close_notify, then at most one
      fatal alert. */
  lemma EmittedLanguage(block: BlockFunction, s: State, ops: seq<Op>)
    requires !s.closeSent && !s.failed
    ensures DataThenCloseThenFatal(Emitted(block, s, ops))
  {
    EmittedAccepted(block, s, ops);
    var n, close, fatal := AcceptedShape(Emitted(block, s, ops));
  }

  lemma {:induction false} OnlyIgnored(block: BlockFunction, s: State, ops: seq<Op>)
    requires s.closeReceived
    ensures forall i :: 0 <= i < |Events(block, s, ops)| ==> Events(block, s, ops)[i] == IgnoredAfterCloseNotify
    decreases |ops|
  {
    hide Step;
    if ops != [] {
      StepEffects(block, s, ops[0]);
      OnlyIgnored(block, Step(block, s, ops[0]).state, ops[1..]);
    }
  }

  /** After a received close_notify every further record is ignored: no application data, no second
      close_notify, no alert is delivered. */
  lemma {:induction false} NothingAfterCloseNotify(block: BlockFunction, s: State, ops: seq<Op>, i: nat, j: nat)
    requires i < j < |Events(block, s, ops)| && Events(block, s, ops)[i] == CloseNotifyEvent
    ensures Events(block, s, ops)[j] == IgnoredAfterCloseNotify
    decreases |ops|
  {
    hide Step;
    StepEffects(block, s, ops[0]);
    var Transition(outcome, s') := Step(block, s, ops[0]);
    var later := Events(block, s', ops[1..]);
    if !outcome.Delivered? {
      assert [] + later == later;
      NothingAfterCloseNotify(block, s', ops[1..], i, j);
    } else if i == 0 {
      OnlyIgnored(block, s', ops[1..]);
      assert ([outcome.event] + later)[j] == later[j - 1];
    } else {
      assert ([outcome.event] + later)[i] == later[i - 1] && ([outcome.event] + later)[j] == later[j - 1];
      NothingAfterCloseNotify(block, s', ops[1..], i - 1, j - 1);
    }
  }

  // The keys are wiped whenever the connection has failed.
  ghost predicate Safe(s: State) {
    s.failed ==> s == Wiped(s)
  }

  /** Every run keeps the invariant, and a failed connection emits nothing, delivers nothing and never
      changes again. */
  lemma {:induction false} FailureIsFinal(block: BlockFunction, s: State, ops: seq<Op>)
    requires Safe(s)
    ensures Safe(Final(block, s, ops))
    ensures s.failed ==> Final(block, s, ops) == s && Emitted(block, s, ops) == [] && Events(block, s, ops) == []
    decreases |ops|
  {
    hide Step;
    if ops != [] {
      StepEffects(block, s, ops[0]);
      FailureIsFinal(block, Step(block, s, ops[0]).state, ops[1..]);
    }
  }

  // ----- what the peer sees -----

  /** Data sent on one end is the event delivered on a mirrored end that is still open. */
  lemma DataDelivered(block: BlockFunction, s: State, r: State, fragment: seq<byte>)
    requires Mirrored(s.keys, r.keys) && !r.failed && !r.closeReceived
    requires Step(block, s, SendData(fragment)).outcome.Sent?
    ensures Step(block, r, Receive(Step(block, s, SendData(fragment)).outcome.record)).outcome == Delivered(DataEvent(fragment))
  {
    hide EncryptStep, DecryptStep;
    RecordRoundTrip(block, s.keys, r.keys, NewRecord(ApplicationData, fragment).value, 0);
  }

  /** An end that may still write sends every fatal alert but a closure description. */
  lemma FatalAlertSent(block: BlockFunction, s: State, description: AlertDescription)
    requires !s.failed && s.keys.writeSequence.Some?
    ensures Step(block, s, SendFatal(description)).outcome.Sent? <==> !description.IsClosure()
  {
    hide EncryptStep;
    AlwaysEncrypts(block, s.keys, AlertRecord(2, description).value, 0);
  }

  /** A fatal alert reaches a mirrored open end as whatever its code is read as. That is the alert itself
      exactly when it is not an unknown description with a named code: the check on the description does not look
      at codes. */
  lemma FatalAlertDelivered(block: BlockFunction, s: State, r: State, description: AlertDescription)
    requires Mirrored(s.keys, r.keys) && !r.failed && !r.closeReceived
    requires Step(block, s, SendFatal(description)).outcome.Sent?
    ensures var outcome := Step(block, r, Receive(Step(block, s, SendFatal(description)).outcome.record)).outcome;
            && outcome == Delivered(AlertEvent(DescriptionOf(description.Code())))
            && (outcome == Delivered(FatalAlertEvent(description)) <==> !(description.Unknown? && description.code in NAMED_CODES))
  {
    hide EncryptStep, DecryptStep, DescriptionOf, AlertDescription.Code;
    CodeRoundTrip(description);
    RecordRoundTrip(block, s.keys, r.keys, AlertRecord(2, description).value, 0);
  }

  // The unknown description with code zero is sent as fatal and received as a close_notify.
  lemma UnknownZeroIsCloseNotify(block: BlockFunction, s: State, r: State)
    requires Mirrored(s.keys, r.keys) && !r.failed && !r.closeReceived
    requires !s.failed && s.keys.writeSequence.Some?
    ensures var sent := Step(block, s, SendFatal(Unknown(0))).outcome;
            sent.Sent? && Step(block, r, Receive(sent.record)).outcome == Delivered(CloseNotifyEvent)
  {
    hide EncryptStep, DecryptStep;
    FatalAlertSent(block, s, Unknown(0));
    FatalAlertDelivered(block, s, r, Unknown(0));
  }

  // The unknown description with code ten arrives as another fatal alert.
  lemma UnknownTenIsUnexpectedMessage(block: BlockFunction, s: State, r: State)
    requires Mirrored(s.keys, r.keys) && !r.failed && !r.closeReceived
    requires !s.failed && s.keys.writeSequence.Some?
    ensures var sent := Step(block, s, SendFatal(Unknown(10))).outcome;
            sent.Sent? && Step(block, r, Receive(sent.record)).outcome == Delivered(FatalAlertEvent(UnexpectedMessage))
  {
    hide EncryptStep, DecryptStep;
    FatalAlertSent(block, s, Unknown(10));
    FatalAlertDelivered(block, s, r, Unknown(10));
  }
}

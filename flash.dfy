/** Read-once flash messages kept in the session dictionary (`FlashMiddleware`
    and the `setFlash` / `flash` extension on the request). */
module Flash {
  import opened Wrappers

  /** The kinds of flash message; the raw value of each case is its name. */
  datatype FlashType = Success | Error | Warning | Info

  function RawValue(t: FlashType): string {
    match t
    case Success => "success"
    case Error => "error"
    case Warning => "warning"
    case Info => "info"
  }

  /** `FlashType(rawValue:)`: the case whose raw value is `s`, if any. */
  function FromRaw(s: string): (r: Option<FlashType>)
    ensures r.Some? ==> RawValue(r.value) == s
  {
    if s == "success" then Some(Success)
    else if s == "error" then Some(Error)
    else if s == "warning" then Some(Warning)
    else if s == "info" then Some(Info)
    else None
  }

  /** Raw values round-trip, in both directions: `FromRaw` inverts `RawValue`. */
  lemma RawValueRoundTrip(t: FlashType, s: string)
    ensures FromRaw(RawValue(t)) == Some(t)
    ensures FromRaw(s) == Some(t) <==> RawValue(t) == s
  {
  }

  datatype FlashMessage = FlashMessage(kind: FlashType, message: string)

  type SessionData = map<string, string>

  const TypeKey: string := "flash_type"
  const MessageKey: string := "flash_message"

  /** What the `flash` getter returns on session data `d`: a message when both keys are
      present and the type key holds a known raw value. */
  function PeekFlash(d: SessionData): (r: Option<FlashMessage>)
    ensures r.Some? <==> TypeKey in d && MessageKey in d && FromRaw(d[TypeKey]).Some?
    ensures r.Some? ==> RawValue(r.value.kind) == d[TypeKey] && r.value.message == d[MessageKey]
  {
    if TypeKey in d && MessageKey in d then
      match FromRaw(d[TypeKey])
      case Some(t) => Some(FlashMessage(t, d[MessageKey]))
      case None => None
    else None
  }

  /** The session data after `setFlash(t, message: m)`. */
  function WithFlash(d: SessionData, t: FlashType, m: string): SessionData {
    d[TypeKey := RawValue(t)][MessageKey := m]
  }

  /** Reading right after setting returns what was set; once that read has cleared
      the two keys, a second read finds nothing. */
  lemma SetThenRead(d: SessionData, t: FlashType, m: string)
    ensures PeekFlash(WithFlash(d, t, m)) == Some(FlashMessage(t, m))
    ensures PeekFlash(WithFlash(d, t, m) - {TypeKey, MessageKey}).None?
  {
    RawValueRoundTrip(t, RawValue(t));
  }

  /** A session whose `data` dictionary the request handlers read and write. */
  class Session {
    var data: SessionData

    constructor (initial: SessionData)
      ensures data == initial
    {
      data := initial;
    }

    /** `setFlash`: stores the raw type and the message, replacing any earlier flash. */
    method SetFlash(t: FlashType, message: string)
      modifies this
      ensures data == WithFlash(old(data), t, message)
    {
      data := data[TypeKey := RawValue(t)];
      data := data[MessageKey := message];
    }

    /** The `flash` getter: returns the stored message and clears both keys; when a key is
        missing or the type is unknown it returns nothing and leaves the session alone. */
    method ReadFlash() returns (flash: Option<FlashMessage>)
      modifies this
      ensures flash == PeekFlash(old(data))
      ensures data == if flash.Some? then old(data) - {TypeKey, MessageKey} else old(data)
    {
      if TypeKey !in data {
        return None;
      }
      var typeString := data[TypeKey];
      var t := FromRaw(typeString);
      if t.None? || MessageKey !in data {
        return None;
      }
      var message := data[MessageKey];
      data := data - {TypeKey};
      data := data - {MessageKey};
      flash := Some(FlashMessage(t.value, message));
    }
  }

  /** `FlashMiddleware.respond`: runs the downstream handler, then reads the flash and writes
      it back. The read clears the two keys and the write restores them, so the session ends
      exactly as the handler left it. The handler is given as a function of the session data
      to the response and the new data. */
  method Respond<R>(session: Session, handler: SessionData -> (R, SessionData)) returns (response: R)
    modifies session
    ensures response == handler(old(session.data)).0
    ensures session.data == handler(old(session.data)).1
  {
    var outcome := handler(session.data);
    response := outcome.0;
    session.data := outcome.1;
    ghost var afterHandler := session.data;
    var flash := session.ReadFlash();
    if flash.Some? {
      session.data := session.data[TypeKey := RawValue(flash.value.kind)];
      session.data := session.data[MessageKey := flash.value.message];
      assert session.data == afterHandler;
    }
  }
}

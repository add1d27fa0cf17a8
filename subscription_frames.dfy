/** The four control frames the event consumer sends to its ZMQ control thread, built from the
    admin device's subscription reply, and the control thread's answer. Each builder is a
    function of its inputs and of the Tango host lookup (a parameter that may fail); its
    partner is the control-buffer decoder, which recovers every field the builder encoded. */
module SubscriptionFrames {
  import opened JavaRuntime
  import opened Results
  import opened ControlCodec
  import opened EventNames

  /** A DevVarLongStringArray: the reply of the admin device's ZmqEventSubscriptionChange
      command. svalue[0] is the heartbeat end point, svalue[1] the event end point, and
      lvalue[2..5] the subscriber high-water mark, the rate and the recovery interval. */
  datatype LongStringArray = LongStringArray(lvalue: seq<i32>, svalue: seq<string>)

  /** The frame that asks to disconnect an event: every failure, the host lookup's included,
      comes back as API_ConversionFailed. */
  function BufferToDisConnectEvent(deviceName: string, attributeName: string, eventName: string,
                                   tangoHost: Result<string>): (r: Result<seq<i8>>)
    ensures tangoHost.Failure? <==> r.Failure?
    ensures tangoHost.Failure? ==> r == Failure(ConversionFailed(tangoHost.error))
  {
    match FullAttributeName(deviceName, attributeName, eventName, tangoHost)
    case Failure(e) => Failure(ConversionFailed(e))
    case Success(name) =>
      match Encoded(ZmqDisconnectEvent, [name], [])
      case Failure(e) => Failure(ConversionFailed(e))
      case Success(b) => Success(b)
  }

  /** The frame that asks to connect an event. The event end point is read first, then the
      host is looked up, then the three integers are read: a missing array entry becomes
      API_ConversionFailed while a failed host lookup is passed through unchanged. */
  function BufferToConnectEvent(deviceName: string, attributeName: string, lsa: LongStringArray,
                                eventName: string, tangoHost: Result<string>): (r: Result<seq<i8>>)
    ensures r.Success? <==> |lsa.svalue| >= 2 && tangoHost.Success? && |lsa.lvalue| >= 5
    ensures |lsa.svalue| < 2 ==> r == Failure(ConversionFailed(IndexOutOfBounds))
    ensures |lsa.svalue| >= 2 && tangoHost.Failure? ==> r == Failure(tangoHost.error)
    ensures |lsa.svalue| >= 2 && tangoHost.Success? && |lsa.lvalue| < 5
            ==> r == Failure(ConversionFailed(IndexOutOfBounds))
  {
    if |lsa.svalue| < 2 then Failure(ConversionFailed(IndexOutOfBounds))
    else
      match FullAttributeName(deviceName, attributeName, eventName, tangoHost)
      case Failure(e) => Failure(e)
      case Success(name) =>
        if |lsa.lvalue| < 5 then Failure(ConversionFailed(IndexOutOfBounds))
        else
          match Encoded(ZmqConnectEvent, [lsa.svalue[1], name], [lsa.lvalue[2], lsa.lvalue[3], lsa.lvalue[4]])
          case Failure(e) => Failure(ConversionFailed(e))
          case Success(b) => Success(b)
  }

  /** The frame that asks to connect a heartbeat: the heartbeat end point, then the heartbeat name. */
  function BufferToConnectHeartbeat(adminDeviceName: string, lsa: LongStringArray,
                                    tangoHost: Result<string>): (r: Result<seq<i8>>)
    ensures r.Success? <==> |lsa.svalue| >= 1 && tangoHost.Success?
    ensures |lsa.svalue| < 1 ==> r == Failure(ConversionFailed(IndexOutOfBounds))
    ensures |lsa.svalue| >= 1 && tangoHost.Failure? ==> r == Failure(tangoHost.error)
  {
    if |lsa.svalue| < 1 then Failure(ConversionFailed(IndexOutOfBounds))
    else
      match FullHeartBeatName(adminDeviceName, tangoHost)
      case Failure(e) => Failure(e)
      case Success(name) =>
        match Encoded(ZmqConnectHeartbeat, [lsa.svalue[0], name], [])
        case Failure(e) => Failure(ConversionFailed(e))
        case Success(b) => Success(b)
  }

  /** The frame that asks to disconnect a heartbeat. */
  function BufferToDisconnectHeartbeat(deviceName: string, tangoHost: Result<string>): (r: Result<seq<i8>>)
    ensures r.Success? <==> tangoHost.Success?
    ensures tangoHost.Failure? ==> r == Failure(tangoHost.error)
  {
    match FullHeartBeatName(deviceName, tangoHost)
    case Failure(e) => Failure(e)
    case Success(name) =>
      match Encoded(ZmqDisconnectHeartbeat, [name], [])
      case Failure(e) => Failure(ConversionFailed(e))
      case Success(b) => Success(b)
  }

  /** The control thread acknowledges a frame with an empty reply; any other reply is the text
      of an API_InternalCommunicationError. */
  function ControlReply(resp: seq<i8>): Result<()>
  {
    if |resp| > 0 then Failure(InternalCommunicationError(NewString(resp))) else Success(())
  }

  /** A control thread that answers with the bytes of an ASCII message reports exactly that
      message to the caller, and an empty message acknowledges the frame. */
  lemma ControlReplyCarriesMessage(message: string)
    requires IsAsciiText(message)
    ensures ControlReply(GetBytes(message))
         == if message == [] then Success(()) else Failure(InternalCommunicationError(message))
  {
    if message != [] {
      NewStringOfGetBytes(message);
    }
  }

  /** Decoding the disconnect-event frame gives back the full event name. */
  lemma DisConnectEventRoundTrip(deviceName: string, attributeName: string, eventName: string, host: string)
    requires IsAsciiText(deviceName) && IsAsciiText(attributeName) && IsAsciiText(eventName) && IsAsciiText(host)
    ensures var r := BufferToDisConnectEvent(deviceName, attributeName, eventName, Success(host));
      && r.Success?
      && Decoded(r.value) == Success(ControlStructure(ZmqDisconnectEvent, None,
           Some(FullAttributeName(deviceName, attributeName, eventName, Success(host)).value), 0, 0, 0))
  {
    var name := FullAttributeName(deviceName, attributeName, eventName, Success(host)).value;
    FullAttributeNameIsWireText(deviceName, attributeName, eventName, host);
    DecodeEncodeRoundTrip(ZmqDisconnectEvent, [name], []);
  }

  /** Decoding the connect-event frame gives back the end point, the full event name and the
      three subscription integers, exactly as the admin device sent them. */
  lemma ConnectEventRoundTrip(deviceName: string, attributeName: string, lsa: LongStringArray,
                              eventName: string, host: string)
    requires IsAsciiText(deviceName) && IsAsciiText(attributeName) && IsAsciiText(eventName) && IsAsciiText(host)
    requires |lsa.svalue| >= 2 && IsWireText(lsa.svalue[1]) && |lsa.lvalue| >= 5
    ensures var r := BufferToConnectEvent(deviceName, attributeName, lsa, eventName, Success(host));
      && r.Success?
      && Decoded(r.value) == Success(ControlStructure(ZmqConnectEvent, Some(lsa.svalue[1]),
           Some(FullAttributeName(deviceName, attributeName, eventName, Success(host)).value),
           lsa.lvalue[2], lsa.lvalue[3], lsa.lvalue[4]))
  {
    var name := FullAttributeName(deviceName, attributeName, eventName, Success(host)).value;
    FullAttributeNameIsWireText(deviceName, attributeName, eventName, host);
    DecodeEncodeRoundTrip(ZmqConnectEvent, [lsa.svalue[1], name], [lsa.lvalue[2], lsa.lvalue[3], lsa.lvalue[4]]);
  }

  /** Decoding the connect-heartbeat frame gives back the end point and the heartbeat name. */
  lemma ConnectHeartbeatRoundTrip(adminDeviceName: string, lsa: LongStringArray, host: string)
    requires IsAsciiText(adminDeviceName) && IsAsciiText(host)
    requires |lsa.svalue| >= 1 && IsWireText(lsa.svalue[0])
    ensures var r := BufferToConnectHeartbeat(adminDeviceName, lsa, Success(host));
      && r.Success?
      && Decoded(r.value) == Success(ControlStructure(ZmqConnectHeartbeat, Some(lsa.svalue[0]),
           Some(FullHeartBeatName(adminDeviceName, Success(host)).value), 0, 0, 0))
  {
    var name := FullHeartBeatName(adminDeviceName, Success(host)).value;
    FullHeartBeatNameIsWireText(adminDeviceName, host);
    DecodeEncodeRoundTrip(ZmqConnectHeartbeat, [lsa.svalue[0], name], []);
  }

  /** Decoding the disconnect-heartbeat frame gives back the heartbeat name. */
  lemma DisconnectHeartbeatRoundTrip(deviceName: string, host: string)
    requires IsAsciiText(deviceName) && IsAsciiText(host)
    ensures var r := BufferToDisconnectHeartbeat(deviceName, Success(host));
      && r.Success?
      && Decoded(r.value) == Success(ControlStructure(ZmqDisconnectHeartbeat, None,
           Some(FullHeartBeatName(deviceName, Success(host)).value), 0, 0, 0))
  {
    var name := FullHeartBeatName(deviceName, Success(host)).value;
    FullHeartBeatNameIsWireText(deviceName, host);
    DecodeEncodeRoundTrip(ZmqDisconnectHeartbeat, [name], []);
  }

  /** The event named in a connect-event frame, once decoded, resolves to the table index of the
      event the subscription was made for: the control thread and the consumer agree on it. */
  lemma ConnectEventTypeAgrees(deviceName: string, attributeName: string, lsa: LongStringArray,
                               eventName: string, host: string, eventNames: seq<string>)
    requires IsAsciiText(deviceName) && IsAsciiText(attributeName) && IsAsciiText(eventName) && IsAsciiText(host)
    requires |lsa.svalue| >= 2 && IsWireText(lsa.svalue[1]) && |lsa.lvalue| >= 5
    requires '.' !in eventName && ToLowerCase(eventName) in eventNames
    ensures var d := Decoded(BufferToConnectEvent(deviceName, attributeName, lsa, eventName, Success(host)).value);
      && d.Success? && d.value.eventName.Some?
      && EventTypeOf(d.value.eventName.value, eventNames) == Success(IndexOf(eventNames, ToLowerCase(eventName)))
  {
    ConnectEventRoundTrip(deviceName, attributeName, lsa, eventName, host);
    EventTypeOfFullAttributeName(deviceName, attributeName, eventName, host, eventNames);
  }
}

/** Canonical event and heartbeat names of ZMQutils, and the lookup of the event type
    named by the suffix of a full event name. The Tango host (the database's full
    `host:port`) and the table of event-type names are parameters. */
module EventNames {
  import opened JavaRuntime
  import opened Results

  const Scheme: string := "tango://"
  const HeartbeatSuffix: string := ".heartbeat"

  /** getFullAttributeName: "tango://" + host + "/" + device + "/" + attribute + "." + event,
      lower-cased; a failure to resolve the host propagates. */
  function FullAttributeName(deviceName: string, attributeName: string, eventName: string,
                             tangoHost: Result<string>): (r: Result<string>)
    ensures tangoHost.Failure? ==> r == Failure(tangoHost.error)
    ensures tangoHost.Success? ==> r.Success? && IsLowerCase(r.value)
    ensures tangoHost.Success? ==>
              |r.value| == |Scheme| + |tangoHost.value| + |deviceName| + |attributeName| + |eventName| + 3
  {
    var host :- tangoHost;
    ToLowerCaseIsLower(Scheme + host + "/" + deviceName + "/" + attributeName + "." + eventName);
    Success(ToLowerCase(Scheme + host + "/" + deviceName + "/" + attributeName + "." + eventName))
  }

  /** getFullHeartBeatName: "tango://" + host + "/" + device + ".heartbeat", not case-folded. */
  function FullHeartBeatName(deviceName: string, tangoHost: Result<string>): (r: Result<string>)
    ensures tangoHost.Failure? ==> r == Failure(tangoHost.error)
  {
    var host :- tangoHost;
    Success(Scheme + host + "/" + deviceName + HeartbeatSuffix)
  }

  /** The full event name is the scheme, the host, "/", the device, "/", the attribute, "."
      and the event, in that order, each part lower-cased. */
  lemma FullAttributeNameParts(deviceName: string, attributeName: string, eventName: string, host: string)
    ensures FullAttributeName(deviceName, attributeName, eventName, Success(host)).value
         == Scheme + ToLowerCase(host) + "/" + ToLowerCase(deviceName) + "/" + ToLowerCase(attributeName)
            + "." + ToLowerCase(eventName)
  {
    var p1 := Scheme + host;
    var p2 := p1 + "/";
    var p3 := p2 + deviceName;
    var p4 := p3 + "/";
    var p5 := p4 + attributeName;
    var p6 := p5 + ".";
    ToLowerCaseConcat(Scheme, host);
    ToLowerCaseConcat(p1, "/");
    ToLowerCaseConcat(p2, deviceName);
    ToLowerCaseConcat(p3, "/");
    ToLowerCaseConcat(p4, attributeName);
    ToLowerCaseConcat(p5, ".");
    ToLowerCaseConcat(p6, eventName);
    assert ToLowerCase(Scheme) == Scheme;
    assert ToLowerCase("/") == "/";
    assert ToLowerCase(".") == ".";
  }

  /** The heartbeat name keeps every part verbatim: the scheme, the host, a slash, the device
      name with its case as given, and the ".heartbeat" suffix. */
  lemma HeartBeatNameParts(deviceName: string, host: string)
    ensures var n := FullHeartBeatName(deviceName, Success(host)).value;
      && |n| == |Scheme| + |host| + 1 + |deviceName| + |HeartbeatSuffix|
      && n[..|Scheme|] == Scheme
      && n[|Scheme|..|Scheme| + |host|] == host
      && n[|Scheme| + |host|] == '/'
      && n[|Scheme| + |host| + 1..|Scheme| + |host| + 1 + |deviceName|] == deviceName
      && n[|n| - |HeartbeatSuffix|..] == HeartbeatSuffix
  {
    var n := FullHeartBeatName(deviceName, Success(host)).value;
    assert n == Scheme + host + "/" + deviceName + HeartbeatSuffix;
    var o := |Scheme| + |host| + 1;
    assert n[o..o + |deviceName|] == deviceName by {
      assert forall t :: 0 <= t < |deviceName| ==> n[o + t] == deviceName[t];
    }
  }

  /** The attribute event name does not depend on the case in which its parts are written. */
  lemma FullAttributeNameIgnoresCase(deviceName: string, attributeName: string, eventName: string, host: string)
    ensures FullAttributeName(deviceName, attributeName, eventName, Success(host))
         == FullAttributeName(ToLowerCase(deviceName), ToLowerCase(attributeName), ToLowerCase(eventName),
                              Success(ToLowerCase(host)))
  {
    var raw := Scheme + host + "/" + deviceName + "/" + attributeName + "." + eventName;
    var lowered := Scheme + ToLowerCase(host) + "/" + ToLowerCase(deviceName) + "/" + ToLowerCase(attributeName)
                   + "." + ToLowerCase(eventName);
    assert ToLowerCase(raw) == ToLowerCase(lowered) by {
      forall i | 0 <= i < |raw|
        ensures ToLowerCase(raw)[i] == ToLowerCase(lowered)[i]
      {
        LowerCharIdempotentAt(raw, lowered, i);
      }
    }
  }

  lemma LowerCharIdempotentAt(raw: string, lowered: string, i: nat)
    requires |raw| == |lowered| && i < |raw|
    requires lowered[i] == raw[i] || lowered[i] == LowerChar(raw[i])
    ensures LowerChar(raw[i]) == LowerChar(lowered[i])
  {
  }

  /** A name built from ASCII parts is text the control protocol can carry. */
  lemma FullAttributeNameIsWireText(deviceName: string, attributeName: string, eventName: string, host: string)
    requires IsAsciiText(deviceName) && IsAsciiText(attributeName) && IsAsciiText(eventName) && IsAsciiText(host)
    ensures IsWireText(FullAttributeName(deviceName, attributeName, eventName, Success(host)).value)
  {
    var raw := Scheme + host + "/" + deviceName + "/" + attributeName + "." + eventName;
    AsciiTextConcat(Scheme, host);
    AsciiTextConcat(Scheme + host, "/");
    AsciiTextConcat(Scheme + host + "/", deviceName);
    AsciiTextConcat(Scheme + host + "/" + deviceName, "/");
    AsciiTextConcat(Scheme + host + "/" + deviceName + "/", attributeName);
    AsciiTextConcat(Scheme + host + "/" + deviceName + "/" + attributeName, ".");
    AsciiTextConcat(Scheme + host + "/" + deviceName + "/" + attributeName + ".", eventName);
    ToLowerCaseAscii(raw);
  }

  lemma FullHeartBeatNameIsWireText(deviceName: string, host: string)
    requires IsAsciiText(deviceName) && IsAsciiText(host)
    ensures IsWireText(FullHeartBeatName(deviceName, Success(host)).value)
  {
    AsciiTextConcat(Scheme, host);
    AsciiTextConcat(Scheme + host, "/");
    AsciiTextConcat(Scheme + host + "/", deviceName);
    AsciiTextConcat(Scheme + host + "/" + deviceName, HeartbeatSuffix);
  }

  /** The index of the first entry of table equal to x, or -1 when there is none. */
  function IndexOf(table: seq<string>, x: string): (k: int)
    ensures -1 <= k < |table|
    ensures k >= 0 ==> table[k] == x
    ensures forall j :: 0 <= j < |table| && (k < 0 || j < k) ==> table[j] != x
    decreases |table|
  {
    if |table| == 0 then -1
    else if table[0] == x then 0
    else var k := IndexOf(table[1..], x); if k < 0 then -1 else k + 1
  }

  /** The event type getEventType finds: the suffix after the last '.' (which must not be
      the first character) looked up in the table; Api_BadParameterException otherwise. */
  function EventTypeOf(eventName: string, eventNames: seq<string>): (r: Result<nat>)
    ensures r.Success? <==> LastIndexOf(eventName, '.') > 0
                            && eventName[LastIndexOf(eventName, '.') + 1..] in eventNames
    ensures r.Success? ==> r.value < |eventNames|
                           && eventNames[r.value] == eventName[LastIndexOf(eventName, '.') + 1..]
                           && forall j :: 0 <= j < r.value ==> eventNames[j] != eventNames[r.value]
    ensures r.Failure? ==> r.error == BadParameter(eventName)
  {
    var pos := LastIndexOf(eventName, '.');
    if pos > 0 && IndexOf(eventNames, eventName[pos + 1..]) >= 0 then
      Success(IndexOf(eventNames, eventName[pos + 1..]))
    else
      Failure(BadParameter(eventName))
  }

  /** getEventType: find the last '.', then scan the table for the first entry equal to the
      suffix after it. */
  method GetEventType(eventName: string, eventNames: seq<string>) returns (r: Result<nat>)
    ensures r == EventTypeOf(eventName, eventNames)
  {
    var t := -1;
    var pos := LastIndexOf(eventName, '.');
    if pos > 0 {
      var strType := eventName[pos + 1..];
      var i := 0;
      while t < 0 && i < |eventNames|
        invariant 0 <= i <= |eventNames|
        invariant t == -1 || (0 <= t < i && eventNames[t] == strType)
        invariant forall j :: 0 <= j < i && (t < 0 || j < t) ==> eventNames[j] != strType
      {
        if strType == eventNames[i] {
          t := i;
        }
        i := i + 1;
      }
    }
    if t < 0 {
      return Failure(BadParameter(eventName));
    }
    r := Success(t);
  }

  /** The event type of a full event name is the table index of its (lower-cased) event part,
      provided that part holds no '.': getEventType undoes getFullAttributeName. */
  lemma EventTypeOfFullAttributeName(deviceName: string, attributeName: string, eventName: string,
                                     host: string, eventNames: seq<string>)
    requires '.' !in eventName
    ensures var name := FullAttributeName(deviceName, attributeName, eventName, Success(host)).value;
      EventTypeOf(name, eventNames)
        == if ToLowerCase(eventName) in eventNames then Success(IndexOf(eventNames, ToLowerCase(eventName)))
           else Failure(BadParameter(name))
  {
    var prefix := Scheme + host + "/" + deviceName + "/" + attributeName;
    var raw := prefix + "." + eventName;
    assert raw == Scheme + host + "/" + deviceName + "/" + attributeName + "." + eventName;
    ToLowerCaseConcat(prefix + ".", eventName);
    ToLowerCaseConcat(prefix, ".");
    var name := ToLowerCase(raw);
    var lowEvent := ToLowerCase(eventName);
    assert name == ToLowerCase(prefix) + "." + lowEvent;
    assert '.' !in lowEvent by {
      forall i | 0 <= i < |eventName|
        ensures lowEvent[i] != '.'
      {
        assert eventName[i] != '.';
      }
    }
    var pos := |prefix|;
    assert name[pos] == '.';
    assert forall i :: pos < i < |name| ==> name[i] == lowEvent[i - pos - 1];
    assert LastIndexOf(name, '.') == pos;
    assert name[pos + 1..] == lowEvent;
  }

  /** The same for a heartbeat name: its suffix is always "heartbeat". */
  lemma EventTypeOfHeartBeatName(deviceName: string, host: string, eventNames: seq<string>)
    ensures var name := FullHeartBeatName(deviceName, Success(host)).value;
      EventTypeOf(name, eventNames)
        == if "heartbeat" in eventNames then Success(IndexOf(eventNames, "heartbeat"))
           else Failure(BadParameter(name))
  {
    var name := FullHeartBeatName(deviceName, Success(host)).value;
    var pos := |name| - |HeartbeatSuffix|;
    assert name == (Scheme + host + "/" + deviceName) + HeartbeatSuffix;
    assert name[pos] == '.';
    assert forall i :: pos < i < |name| ==> name[i] == HeartbeatSuffix[i - pos];
    assert LastIndexOf(name, '.') == pos;
    assert name[pos + 1..] == "heartbeat";
  }

  /** A naming example: an event name written with upper-case letters names the same event. */
  lemma AttributeNameExample()
    ensures FullAttributeName("Sys/Tg/1", "Ampli", "CHANGE", Success("Host:1"))
         == FullAttributeName("sys/tg/1", "ampli", "change", Success("host:1"))
  {
    assert ToLowerCase("Sys/Tg/1") == "sys/tg/1";
    assert ToLowerCase("Ampli") == "ampli";
    assert ToLowerCase("CHANGE") == "change";
    assert ToLowerCase("Host:1") == "host:1";
    FullAttributeNameIgnoresCase("Sys/Tg/1", "Ampli", "CHANGE", "Host:1");
  }

  /** A heartbeat name example: device names that differ only in case give different names. */
  lemma HeartBeatNameExample()
    ensures FullHeartBeatName("dserver/Starter/1", Success("host:1"))
         != FullHeartBeatName("dserver/starter/1", Success("host:1"))
  {
    HeartBeatNameParts("dserver/Starter/1", "host:1");
    HeartBeatNameParts("dserver/starter/1", "host:1");
    assert "dserver/Starter/1"[8] != "dserver/starter/1"[8];
  }

  /** eventTypeOf examples: a periodic event name resolves to the "periodic" entry; a name
      without '.' has no event type. */
  lemma EventTypeExamples()
    ensures EventTypeOf("tango://h/d/a.periodic", ["change", "quality", "periodic"]) == Success(2)
    ensures EventTypeOf("tango://h/d/a", ["change", "quality", "periodic"]).Failure?
  {
    var name := "tango://h/d/a.periodic";
    assert name[13] == '.';
    assert forall i :: 13 < i < |name| ==> name[i] != '.';
    assert LastIndexOf(name, '.') == 13;
    assert name[14..] == "periodic";
    var bare := "tango://h/d/a";
    assert forall i :: 0 <= i < |bare| ==> bare[i] != '.';
    assert LastIndexOf(bare, '.') == -1;
  }
}

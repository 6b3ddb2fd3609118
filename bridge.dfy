/** The bridge's globals and the functions of main.c that change them, as a
    class whose every method is proved to follow the matching function of
    BridgeSpec on the abstract state Abs(). */
module Bridge {
  import opened Protocol
  import opened CString
  import opened FlagBuffer
  import opened AddressSpace
  import opened BridgeSpec

  /** memcpy(dst, src, n): the first n bytes of dst take src's, the rest keep
      their values. */
  method MemCopy(dst: array<byte>, src: seq<byte>, n: nat)
    requires n <= dst.Length && n <= |src|
    modifies dst
    ensures forall j :: 0 <= j < n ==> dst[j] == src[j]
    ensures forall j :: n <= j < dst.Length ==> dst[j] == old(dst[j])
  {
    var i := 0;
    while i < n
      invariant i <= n
      invariant forall j :: 0 <= j < i ==> dst[j] == src[j]
      invariant forall j :: n <= j < dst.Length ==> dst[j] == old(dst[j])
    {
      dst[i] := src[i];
      i := i + 1;
    }
  }

  /** A string value copied into a zeroed value field: at most
      MAX_DATA_SIZE - 1 bytes, then a NUL; nothing for an empty string. */
  method CopyString(data: seq<byte>) returns (v: seq<byte>)
    ensures v == Payload(Some(String), data)
  {
    var buf := new byte[MAX_DATA_SIZE](_ => 0);
    if |data| > 0 {
      var n := if |data| < MAX_DATA_SIZE then |data| else MAX_DATA_SIZE - 1;
      MemCopy(buf, data, n);
      buf[n] := 0;
      assert buf[..] == data[..n] + [0] + Zeros(MAX_DATA_SIZE - n - 1);
    } else {
      assert buf[..] == Zeros(MAX_DATA_SIZE);
    }
    v := buf[..];
  }

  /** memcpy of `width` bytes of a value into a zeroed value field. */
  method CopyFixed(data: seq<byte>, width: nat) returns (v: seq<byte>)
    requires width <= MAX_DATA_SIZE
    ensures v == Prefix(data, width) + Zeros(MAX_DATA_SIZE - width)
  {
    var buf := new byte[MAX_DATA_SIZE](_ => 0);
    MemCopy(buf, Prefix(data, width), width);
    assert buf[..] == Prefix(data, width) + Zeros(MAX_DATA_SIZE - width);
    v := buf[..];
  }

  /** The value field the watcher fills in its zero-initialised message. */
  method BuildPayload(kind: Option<Kind>, data: seq<byte>) returns (v: seq<byte>)
    ensures v == Payload(kind, data)
  {
    match kind {
      case Some(String) =>
        v := CopyString(data);
      case Some(k) =>
        v := CopyFixed(data, k.Width());
      case None =>
        v := CopyFixed(data, 1);
    }
  }

  class Bridge {
    var registrationActive: bool
    var serverRunning: bool
    var variableInitReady: bool
    var inboundShutdown: bool
    var outboundShutdown: bool
    const flagBuffer: ChangeFlagBuffer
    var space: map<seq<byte>, Node>
    var monitored: seq<MonitoredItem>
    var outbox: seq<seq<byte>>
    var outboundQueue: int

    ghost predicate Valid()
      reads this, flagBuffer
    {
      flagBuffer.Valid()
    }

    ghost function Abs(): State
      reads this, flagBuffer, flagBuffer.Arrays()
    {
      State(registrationActive, serverRunning, variableInitReady, inboundShutdown, outboundShutdown,
            flagBuffer.View(), space, monitored, outbox, outboundQueue)
    }

    /** The process's globals before any thread starts. */
    constructor ()
      ensures Valid() && Abs() == Initial && fresh(flagBuffer)
    {
      registrationActive := false;
      serverRunning := true;
      variableInitReady := false;
      inboundShutdown := false;
      outboundShutdown := false;
      flagBuffer := new ChangeFlagBuffer();
      space := map[];
      monitored := [];
      outbox := [];
      outboundQueue := -1;
    }

    /** The outbound worker opening (a descriptor) or closing (-1) the
        bridge-to-controller queue. */
    method SetOutboundQueue(descriptor: int)
      modifies this
      ensures Abs() == old(Abs()).(outboundQueue := descriptor)
    {
      outboundQueue := descriptor;
    }

    /** WriteServerVariable. */
    method WriteServerVariable(w: Write, e: EngineOutcome) returns (status: WriteStatus)
      requires Valid() && w.WellFormed()
      modifies this, flagBuffer.Arrays()
      ensures Valid()
      ensures status == WriteResult(old(Abs()), w, e)
      ensures Abs() == WriteVar(old(Abs()), w, e)
    {
      var name := FieldText(w.name);
      if name !in space {
        return BadNodeIdUnknown;
      }
      if !e.readOk {
        return BadRead;
      }
      var node := space[name];
      if node.dataType.None? {
        return BadTypeMismatch;
      }
      if !e.copyOk {
        status := BadCopy;
      } else if !e.writeOk {
        status := BadWrite;
      } else {
        space := space[name := node.(value := ValueImage(node.dataType.value, w.value))];
        status := WriteGood;
      }
      var kind := KindOf(w.typeKind as int);
      if kind.Some? {
        flagBuffer.Store(kind.value, w.index as int, 1);
      }
    }

    /** The flag part of AddVariableToOpcUaServer: allocate the kind's array
        on its first registration and mark the registered slot. */
    method MarkRegisteredSlot(code: int, index: u16, capacity: u16, callocOk: bool)
      requires Valid()
      modifies flagBuffer, flagBuffer.Arrays()
      ensures Valid()
      ensures old(flagBuffer.Arrays()) <= flagBuffer.Arrays()
      ensures fresh(flagBuffer.Arrays() - old(flagBuffer.Arrays()))
      ensures flagBuffer.View() == RegisteredFlags(old(flagBuffer.View()), code, index, capacity, callocOk)
    {
      if capacity > 0 {
        var kind := KindOf(code);
        if kind.Some? {
          flagBuffer.Allocate(kind.value, capacity as nat, callocOk);
          flagBuffer.Store(kind.value, index as int, 1);
        }
      }
    }

    /** The value a registration gives its node; a string goes through
        CheckUaStringLength first. */
    static method RegisteredValue(code: int, field: seq<byte>) returns (value: seq<byte>)
      requires |field| == MAX_DATA_SIZE
      ensures value == ValueImage(code, field)
    {
      if code == String.Code() {
        var check;
        value, check := CheckedFieldText(field);
      } else {
        value := ValueImage(code, field);
      }
    }

    /** AddVariableToOpcUaServer. */
    method AddVariableToOpcUaServer(r: Registration, e: EngineOutcome)
      requires Valid() && r.WellFormed()
      modifies this, flagBuffer, flagBuffer.Arrays()
      ensures Valid()
      ensures old(flagBuffer.Arrays()) <= flagBuffer.Arrays()
      ensures fresh(flagBuffer.Arrays() - old(flagBuffer.Arrays()))
      ensures Abs() == Register(old(Abs()), r, e)
    {
      var code := r.typeKind as int % 256;
      MarkRegisteredSlot(code, r.index, r.capacity, e.allocOk);
      var value := RegisteredValue(code, r.value);
      AddNode(code, value, r, e);
    }

    /** The node and monitored item AddVariableToOpcUaServer creates, given
        the node's value. */
    method AddNode(code: int, value: seq<byte>, r: Registration, e: EngineOutcome)
      requires r.WellFormed() && 0 <= code < 256 && value == ValueImage(code, r.value)
      modifies this
      ensures Abs() == AddedNode(old(Abs()), code, r, e)
    {
      var name := FieldText(r.name);
      if name in space || !e.addOk {
        return;
      }
      space := space[name := Node(Some(code), value, r.accessLevel, FieldText(r.description))];
      if r.accessLevel == READWRITE && e.monitorOk {
        var ctx := Context(code as byte, ContextName(name), r.index);
        monitored := monitored + [MonitoredItem(name, ctx, FilterFor(code, r.deadband))];
      }
    }

    /** GlobalDataChangeCallback. */
    method GlobalDataChangeCallback(ctx: Option<Context>, value: Option<seq<byte>>)
      requires Valid()
      modifies this, flagBuffer.Arrays()
      ensures Valid()
      ensures Abs() == Notify(old(Abs()), ctx, value)
    {
      if ctx.None? || value.None? {
        return;
      }
      if outboundQueue != 0 && !registrationActive {
        var c := ctx.value;
        var kind := KindOf(c.typeKind as int);
        if kind.Some? {
          var wasSet := flagBuffer.TestAndClear(kind.value, c.index as int);
          if wasSet {
            return;
          }
        }
        var payload := BuildPayload(kind, value.value);
        var msg := Write(WriteVariable.Code() as u32, Zeros(MAX_NAME_LENGTH), payload, c.index, c.typeKind as u32);
        outbox := outbox + [EncodeWrite(msg)];
      }
    }

    /** The Shutdown case of IncomingPacketManager: FreeChangeFlagBuffer,
        release both channel workers' shutdown gates, stop the server loop. */
    method ShutDown()
      requires Valid()
      modifies this, flagBuffer
      ensures Valid()
      ensures flagBuffer.Arrays() == {}
      ensures Abs() == ShutDownState(old(Abs()))
    {
      var released := flagBuffer.Release();
      inboundShutdown := true;
      outboundShutdown := true;
      serverRunning := false;
    }

    /** IncomingPacketManager for one received message. */
    method IncomingPacketManager(m: seq<byte>, e: EngineOutcome)
      requires Valid()
      modifies this, flagBuffer, flagBuffer.Arrays()
      ensures Valid()
      ensures fresh(flagBuffer.Arrays() - old(flagBuffer.Arrays()))
      ensures Abs() == Dispatch(old(Abs()), m, e)
    {
      match MessageTypeOf(Header(m) as int) {
        case Some(StartRegistration) =>
          if |m| == TAG_SIZE {
            registrationActive := true;
          }
        case Some(VariableRegistration) =>
          if registrationActive && |m| == REGISTRATION_SIZE {
            AddVariableToOpcUaServer(DecodeRegistration(m), e);
          }
        case Some(EndRegistration) =>
          if |m| == TAG_SIZE {
            registrationActive := false;
            variableInitReady := true;
          }
        case Some(WriteVariable) =>
          if !registrationActive && |m| == WRITE_SIZE {
            var status := WriteServerVariable(DecodeWrite(m), e);
          }
        case Some(ShutDown) =>
          ShutDown();
        case None =>
      }
    }

    /** CodesysToOpcUaMessageHandler: receive and dispatch until a receive
        yields nothing. `rs` is what the successive receives return. */
    method CodesysToOpcUaMessageHandler(rs: seq<Receive>)
      requires Valid()
      modifies this, flagBuffer, flagBuffer.Arrays()
      ensures Valid()
      ensures Abs() == Drain(old(Abs()), rs)
    {
      var i := 0;
      while i < |rs| && Positive(rs[i])
        invariant i <= Processed(rs)
        invariant Valid()
        invariant fresh(flagBuffer.Arrays() - old(flagBuffer.Arrays()))
        invariant Abs() == Run(old(Abs()), rs[..i])
      {
        ghost var before := Abs();
        IncomingPacketManager(rs[i].bytes, rs[i].engine);
        assert rs[..i + 1][..i] == rs[..i];
        i := i + 1;
      }
    }
  }
}

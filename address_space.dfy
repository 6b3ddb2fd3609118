/** The part of the OPC UA address space the bridge touches, as values: the
    variable nodes it adds (keyed by their string node id in namespace 1),
    the monitored items it creates, and the outcome of engine calls whose
    failures the bridge cannot see coming. */
module AddressSpace {
  import opened Protocol
  import opened CString

  /** A variable node: its data type (absent when the node's value variant
      is empty), the byte image of its value, its access level and its
      description. */
  datatype Node = Node(dataType: Option<int>, value: seq<byte>, accessLevel: byte, description: seq<byte>)

  datatype DeadbandType = DeadbandNone | DeadbandAbsolute

  /** The data-change filter: trigger on status and value, with a deadband.
      The deadband value is the raw image of a double; 0.0 is eight zero bytes. */
  datatype Filter = Filter(deadbandType: DeadbandType, deadbandValue: seq<byte>)

  /** A monitored item reporting to the change watcher with its context. */
  datatype MonitoredItem = MonitoredItem(node: seq<byte>, context: Context, filter: Filter)

  /** What the environment answers to calls whose failure depends on its own
      state (memory, limits): calloc of a new flag array, adding a node,
      reading a node's current value, copying a value into a variant,
      writing it, and allocating the context plus creating the monitored
      item. */
  datatype EngineOutcome =
    EngineOutcome(allocOk: bool, addOk: bool, readOk: bool, copyOk: bool, writeOk: bool, monitorOk: bool)

  /** The image a value of type `typeCode` takes from a MAX_DATA_SIZE-byte
      value field: the type's width for the eleven fixed-width kinds, the
      bounded text for strings, the whole field for any other type. */
  function ValueImage(typeCode: int, field: seq<byte>): (v: seq<byte>)
    requires |field| == MAX_DATA_SIZE
    ensures |v| <= MAX_DATA_SIZE && v == field[..|v|]
    ensures KindOf(typeCode) == Some(String) ==> v == BoundedText(field)
    ensures KindOf(typeCode).Some? && KindOf(typeCode) != Some(String) ==>
      |v| == KindOf(typeCode).value.Width()
  {
    match KindOf(typeCode)
    case Some(String) => BoundedText(field)
    case Some(k) => field[..k.Width()]
    case None => field
  }

  /** The filter a read-write variable's monitored item requests: an
      absolute deadband with the registered value for the ten numeric kinds,
      none with value 0 for boolean, string and every other type. */
  function FilterFor(typeCode: int, deadband: seq<byte>): (f: Filter)
    ensures f.deadbandType == DeadbandAbsolute <==> KindOf(typeCode).Some? && KindOf(typeCode).value.IsNumeric()
    ensures f.deadbandType == DeadbandAbsolute ==> f.deadbandValue == deadband
    ensures f.deadbandType == DeadbandNone ==> f.deadbandValue == Zeros(8)
  {
    if 1 <= typeCode <= 10 then Filter(DeadbandAbsolute, deadband) else Filter(DeadbandNone, Zeros(8))
  }
}

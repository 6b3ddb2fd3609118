/** Message protocol between the controller and the bridge: the constants,
    tags, access levels and record layouts of main.h, and the byte images of
    the fixed-size records that travel over the message queues.

    Layout assumption: a little-endian LP64 target on which an enum occupies
    four bytes and a double is aligned to eight, so the three record kinds are
    4, 160 and 76 bytes long. */
module Protocol {

  newtype byte = x: int | 0 <= x < 256
  newtype u16 = x: int | 0 <= x < 0x1_0000
  newtype u32 = x: int | 0 <= x < 0x1_0000_0000

  // ---------------------------------------------------------------- sizes

  const MAX_NAME_LENGTH: nat := 32
  const MAX_DATA_SIZE: nat := MAX_NAME_LENGTH
  const MAX_DESCRIPTION_LENGTH: nat := 64
  const MAX_STRING_VALUE: nat := 32

  /** sizeof(message_type_t): the bare tag of Start and End. */
  const TAG_SIZE: nat := 4
  /** sizeof(variable_registration_t). */
  const REGISTRATION_SIZE: nat := 160
  /** sizeof(variable_write_t). */
  const WRITE_SIZE: nat := 76

  // ------------------------------------------------- string check results

  datatype StringCheck = StringError | StringOverflow | StringOk {
    /** UA_STRING_ERROR, UA_STRING_OVERFLOW, UA_STRING_OK. */
    function Code(): byte {
      match this
      case StringError => 0
      case StringOverflow => 1
      case StringOk => 2
    }
  }

  // -------------------------------------------------------- access levels

  const READ: byte := 1
  const WRITE: byte := 2
  const READWRITE: byte := 3

  // --------------------------------------------------------- message tags

  datatype MessageType =
    | StartRegistration
    | VariableRegistration
    | EndRegistration
    | WriteVariable
    | ShutDown
  {
    function Code(): nat {
      match this
      case StartRegistration => 0xFA
      case VariableRegistration => 0xFB
      case EndRegistration => 0xFC
      case WriteVariable => 0xFD
      case ShutDown => 0xFE
    }
  }

  /** The tag a header value denotes, if any (the dispatcher's switch). */
  function MessageTypeOf(header: int): (r: Option<MessageType>)
    ensures r.Some? ==> r.value.Code() == header
    ensures r.None? ==> forall t: MessageType :: t.Code() != header
  {
    if header == 0xFA then Some(StartRegistration)
    else if header == 0xFB then Some(VariableRegistration)
    else if header == 0xFC then Some(EndRegistration)
    else if header == 0xFD then Some(WriteVariable)
    else if header == 0xFE then Some(ShutDown)
    else None
  }

  // --------------------------------------------------------- type kinds

  /** The twelve scalar kinds the bridge keeps a change-flag array for,
      with open62541's UA_DataTypeKind numbering. */
  datatype Kind =
    | Boolean | SByte | Byte | Int16 | UInt16 | Int32
    | UInt32 | Int64 | UInt64 | Float | Double | String
  {
    function Code(): nat {
      match this
      case Boolean => 0
      case SByte => 1
      case Byte => 2
      case Int16 => 3
      case UInt16 => 4
      case Int32 => 5
      case UInt32 => 6
      case Int64 => 7
      case UInt64 => 8
      case Float => 9
      case Double => 10
      case String => 11
    }

    /** The ten kinds that take an absolute deadband. */
    predicate IsNumeric() {
      !(Boolean? || String?)
    }

    /** sizeof the scalar C type; for String, sizeof(UA_String). */
    function Width(): nat {
      match this
      case Boolean => 1
      case SByte => 1
      case Byte => 1
      case Int16 => 2
      case UInt16 => 2
      case Int32 => 4
      case UInt32 => 4
      case Int64 => 8
      case UInt64 => 8
      case Float => 4
      case Double => 8
      case String => 16
    }
  }

  const AllKinds: set<Kind> :=
    {Boolean, SByte, Byte, Int16, UInt16, Int32, UInt32, Int64, UInt64, Float, Double, String}

  datatype Option<T> = None | Some(value: T)

  /** The kind a type code denotes, if it is one of the twelve. */
  function KindOf(code: int): (r: Option<Kind>)
    ensures r.Some? ==> r.value.Code() == code
    ensures r.None? <==> !(0 <= code < 12)
  {
    if code == 0 then Some(Boolean)
    else if code == 1 then Some(SByte)
    else if code == 2 then Some(Byte)
    else if code == 3 then Some(Int16)
    else if code == 4 then Some(UInt16)
    else if code == 5 then Some(Int32)
    else if code == 6 then Some(UInt32)
    else if code == 7 then Some(Int64)
    else if code == 8 then Some(UInt64)
    else if code == 9 then Some(Float)
    else if code == 10 then Some(Double)
    else if code == 11 then Some(String)
    else None
  }

  // ------------------------------------------------------------ records

  /** variable_registration_t; the deadband double is kept as its eight raw bytes. */
  datatype Registration = Registration(
    messageType: u32,
    typeKind: u32,
    name: seq<byte>,
    description: seq<byte>,
    accessLevel: byte,
    value: seq<byte>,
    deadband: seq<byte>,
    index: u16,
    capacity: u16)
  {
    predicate WellFormed() {
      |name| == MAX_NAME_LENGTH && |description| == MAX_DESCRIPTION_LENGTH
      && |value| == MAX_DATA_SIZE && |deadband| == 8
    }
  }

  /** variable_write_t. */
  datatype Write = Write(
    messageType: u32,
    name: seq<byte>,
    value: seq<byte>,
    index: u16,
    typeKind: u32)
  {
    predicate WellFormed() {
      |name| == MAX_NAME_LENGTH && |value| == MAX_DATA_SIZE
    }
  }

  /** variable_context_t: what a monitored item hands back to the watcher. */
  datatype Context = Context(typeKind: byte, name: seq<byte>, index: u16)

  // ------------------------------------------------ little-endian fields

  function Zeros(n: nat): (r: seq<byte>)
    ensures |r| == n && forall i :: 0 <= i < n ==> r[i] == 0
  {
    seq(n, _ => 0)
  }

  function EncodeU16(x: u16): (r: seq<byte>)
    ensures |r| == 2
  {
    [(x % 256) as byte, (x / 256) as byte]
  }

  function DecodeU16(b: seq<byte>): u16
    requires |b| == 2
  {
    (b[0] as int + 256 * b[1] as int) as u16
  }

  function EncodeU32(x: u32): (r: seq<byte>)
    ensures |r| == 4
  {
    EncodeU16((x % 0x1_0000) as u16) + EncodeU16((x / 0x1_0000) as u16)
  }

  function DecodeU32(b: seq<byte>): u32
    requires |b| == 4
  {
    (DecodeU16(b[..2]) as int + 0x1_0000 * DecodeU16(b[2..]) as int) as u32
  }

  lemma U16RoundTrip(x: u16)
    ensures DecodeU16(EncodeU16(x)) == x
  {
  }

  /** Two bytes are the encoding of the number they decode to. */
  lemma U16BytesRoundTrip(b: seq<byte>)
    requires |b| == 2
    ensures EncodeU16(DecodeU16(b)) == b
  {
    var x := b[0] as int + 256 * b[1] as int;
    assert x % 256 == b[0] as int && x / 256 == b[1] as int;
  }

  /** Four bytes are the encoding of the number they decode to. */
  lemma U32BytesRoundTrip(b: seq<byte>)
    requires |b| == 4
    ensures EncodeU32(DecodeU32(b)) == b
  {
    var lo, hi := DecodeU16(b[..2]), DecodeU16(b[2..]);
    var x := lo as int + 0x1_0000 * hi as int;
    assert x % 0x1_0000 == lo as int && x / 0x1_0000 == hi as int;
    U16BytesRoundTrip(b[..2]);
    U16BytesRoundTrip(b[2..]);
    assert b == b[..2] + b[2..];
  }

  lemma U32RoundTrip(x: u32)
    ensures DecodeU32(EncodeU32(x)) == x
  {
    var lo, hi := EncodeU16((x % 0x1_0000) as u16), EncodeU16((x / 0x1_0000) as u16);
    assert (lo + hi)[..2] == lo && (lo + hi)[2..] == hi;
    U16RoundTrip((x % 0x1_0000) as u16);
    U16RoundTrip((x / 0x1_0000) as u16);
  }

  /** The dispatcher reads a whole message_type_t from the start of the
      receive buffer; bytes past a short message are taken as zero. */
  function Header(m: seq<byte>): (h: u32)
    ensures |m| >= TAG_SIZE ==> EncodeU32(h) == m[..TAG_SIZE]
    ensures |m| < TAG_SIZE ==> EncodeU32(h) == m + Zeros(TAG_SIZE - |m|)
  {
    var b := (m + Zeros(TAG_SIZE))[..TAG_SIZE];
    assert |m| >= TAG_SIZE ==> b == m[..TAG_SIZE];
    assert |m| < TAG_SIZE ==> b == m + Zeros(TAG_SIZE - |m|);
    U32BytesRoundTrip(b);
    DecodeU32(b)
  }

  // -------------------------------------------------- record byte images

  function EncodeTag(t: MessageType): (m: seq<byte>)
    ensures |m| == TAG_SIZE
  {
    EncodeU32(t.Code() as u32)
  }

  function EncodeRegistration(r: Registration): (m: seq<byte>)
    requires r.WellFormed()
    ensures |m| == REGISTRATION_SIZE
  {
    EncodeU32(r.messageType) + EncodeU32(r.typeKind) + r.name + r.description
    + [r.accessLevel] + r.value + Zeros(7) + r.deadband
    + EncodeU16(r.index) + EncodeU16(r.capacity) + Zeros(4)
  }

  function DecodeRegistration(m: seq<byte>): (r: Registration)
    requires |m| == REGISTRATION_SIZE
    ensures r.WellFormed()
  {
    Registration(
      DecodeU32(m[0..4]), DecodeU32(m[4..8]), m[8..40], m[40..104],
      m[104], m[105..137], m[144..152], DecodeU16(m[152..154]), DecodeU16(m[154..156]))
  }

  function EncodeWrite(w: Write): (m: seq<byte>)
    requires w.WellFormed()
    ensures |m| == WRITE_SIZE
  {
    EncodeU32(w.messageType) + w.name + w.value + EncodeU16(w.index) + Zeros(2)
    + EncodeU32(w.typeKind)
  }

  function DecodeWrite(m: seq<byte>): (w: Write)
    requires |m| == WRITE_SIZE
    ensures w.WellFormed()
  {
    Write(DecodeU32(m[0..4]), m[4..36], m[36..68], DecodeU16(m[68..70]), DecodeU32(m[72..76]))
  }

  /** A registration record survives encoding: every field sits at its offset. */
  lemma RegistrationRoundTrip(r: Registration)
    requires r.WellFormed()
    ensures DecodeRegistration(EncodeRegistration(r)) == r
  {
    var m := EncodeRegistration(r);
    assert m[0..4] == EncodeU32(r.messageType);
    assert m[4..8] == EncodeU32(r.typeKind);
    assert m[8..40] == r.name;
    assert m[40..104] == r.description;
    assert m[104] == r.accessLevel;
    assert m[105..137] == r.value;
    assert m[144..152] == r.deadband;
    assert m[152..154] == EncodeU16(r.index);
    assert m[154..156] == EncodeU16(r.capacity);
    U32RoundTrip(r.messageType);
    U32RoundTrip(r.typeKind);
    U16RoundTrip(r.index);
    U16RoundTrip(r.capacity);
  }

  /** A write record survives encoding: every field sits at its offset. */
  lemma WriteRoundTrip(w: Write)
    requires w.WellFormed()
    ensures DecodeWrite(EncodeWrite(w)) == w
  {
    var m := EncodeWrite(w);
    assert m[0..4] == EncodeU32(w.messageType);
    assert m[4..36] == w.name;
    assert m[36..68] == w.value;
    assert m[68..70] == EncodeU16(w.index);
    assert m[72..76] == EncodeU32(w.typeKind);
    U32RoundTrip(w.messageType);
    U32RoundTrip(w.typeKind);
    U16RoundTrip(w.index);
  }

  /** The header the dispatcher reads from an encoded record is its tag. */
  lemma HeaderOfEncoded(m: seq<byte>, code: u32)
    requires |m| >= TAG_SIZE && m[..TAG_SIZE] == EncodeU32(code)
    ensures Header(m) == code
  {
    U32RoundTrip(code);
  }

  // ------------------------------------------------------ header facts

  /** The five tags are the distinct values 0xFA..0xFE in declaration order. */
  lemma MessageTagsDistinct()
    ensures forall t, u: MessageType :: t != u ==> t.Code() != u.Code()
    ensures forall t: MessageType :: 0xFA <= t.Code() <= 0xFE
    ensures MessageTypeOf(0xF9).None? && MessageTypeOf(0xFF).None?
  {
  }

  /** The values main.h gives the size constants, the access levels and the
      string-check codes. */
  lemma SizeConstants()
    ensures MAX_DATA_SIZE == MAX_NAME_LENGTH == MAX_STRING_VALUE == 32
    ensures MAX_STRING_VALUE <= MAX_DATA_SIZE
    ensures READ == 1 && WRITE == 2 && READWRITE == 3
    ensures StringError.Code() == 0 && StringOverflow.Code() == 1 && StringOk.Code() == 2
  {
  }

  /** Kind codes and KindOf are inverse. */
  lemma KindCodes()
    ensures forall k: Kind :: KindOf(k.Code()) == Some(k)
  {
  }

  /** The change-flag buffer has one array per kind: twelve in all. */
  lemma TwelveKinds()
    ensures forall k: Kind :: k in AllKinds
    ensures |AllKinds| == 12
  {
    forall k: Kind ensures k in AllKinds {
      match k
      case Boolean => case SByte => case Byte => case Int16 => case UInt16 => case Int32 =>
      case UInt32 => case Int64 => case UInt64 => case Float => case Double => case String =>
    }
  }
}

/** Three places where main.c does not do what its surroundings evidently
    intend, each modelled as written next to the corrected behaviour the rest
    of the model uses. */
module Findings {
  import opened Protocol
  import opened CString
  import opened FlagBuffer
  import opened AddressSpace
  import opened BridgeSpec

  // ------------------------------------------------------------------
  // 1. AllocateMemory assigns calloc's result to its by-value parameter, so
  //    the registry field it was given stays NULL.

  /** AllocateMemory as written: whatever it allocates is lost on return. */
  function AllocatedAsWritten(f: Flags, k: Kind, capacity: nat): Flags {
    f
  }

  /** The flag part of AddVariableToOpcUaServer over AllocateMemory as
      written; the marking is skipped while the field is NULL. */
  function RegisteredFlagsAsWritten(f: Flags, typeCode: int, index: u16, capacity: u16): Flags {
    if capacity == 0 then f
    else match KindOf(typeCode)
      case None => f
      case Some(k) => Stored(AllocatedAsWritten(f, k, capacity as nat), k, index as int, 1)
  }

  /** The flag buffer after a run of registrations, as written. */
  function FlagsAfterAsWritten(f: Flags, rs: seq<Registration>): Flags {
    if rs == [] then f
    else
      var r := rs[|rs| - 1];
      RegisteredFlagsAsWritten(FlagsAfterAsWritten(f, rs[..|rs| - 1]), r.typeKind as int % 256, r.index, r.capacity)
  }

  /** As written, no registration ever allocates a flag array: the buffer
      stays all NULL, so the watcher's unguarded flag read for any kind
      dereferences a null pointer. */
  lemma {:induction false} AsWrittenNeverAllocates(rs: seq<Registration>)
    ensures FlagsAfterAsWritten(map[], rs) == map[]
    ensures forall k :: k !in FlagsAfterAsWritten(map[], rs)
  {
    if rs != [] {
      AsWrittenNeverAllocates(rs[..|rs| - 1]);
    }
  }

  /** With the corrected allocation the same first registration of a boolean
      slot creates a one-flag array with that slot marked. */
  lemma CorrectedAllocationMarksSlot()
    ensures RegisteredFlagsAsWritten(map[], Boolean.Code(), 0, 1) == map[]
    ensures RegisteredFlags(map[], Boolean.Code(), 0, 1, true) == map[Boolean := [1]]
    ensures IsSet(RegisteredFlags(map[], Boolean.Code(), 0, 1, true), Boolean, 0)
  {
    assert Zeros(1) == [0] by {
      assert Zeros(1)[0] == 0;
    }
    assert [0 as byte][0 := 1] == [1];
  }

  // ------------------------------------------------------------------
  // 2. FreeChangeFlagBufferStructs sets only its own copy of the pointer to
  //    NULL, so the registry keeps the freed pointers.

  /** The registry's pointer values by kind; an absent kind holds NULL. */
  type Registry = map<Kind, nat>

  /** FreeChangeFlagBuffer as written: every non-null pointer is freed and
      the registry is left as it was. */
  function FreeAsWritten(reg: Registry): (Registry, set<nat>) {
    (reg, reg.Values)
  }

  /** FreeChangeFlagBuffer with each field set to NULL after its free. */
  function FreeCorrected(reg: Registry): (Registry, set<nat>) {
    (map[], reg.Values)
  }

  /** The pointers two successive Shutdown messages both free. */
  function FreedTwice(reg: Registry, corrected: bool): (twice: set<nat>) {
    var (after, first) := if corrected then FreeCorrected(reg) else FreeAsWritten(reg);
    var (_, second) := if corrected then FreeCorrected(after) else FreeAsWritten(after);
    first * second
  }

  /** As written, a second Shutdown frees every array a second time; after
      the correction no pointer is freed twice. */
  lemma DoubleShutdownFrees(reg: Registry, k: Kind)
    requires k in reg
    ensures reg[k] in FreedTwice(reg, false)
    ensures FreedTwice(reg, true) == {}
  {
    assert reg[k] in reg.Values;
  }

  // ------------------------------------------------------------------
  // 3. WriteServerVariable passes the message's raw value bytes to
  //    UA_Variant_setScalarCopy with the node's type. For a String node the
  //    bytes are read as a UA_String: a 64-bit little-endian length followed
  //    by a data pointer.

  /** The unsigned little-endian number the bytes spell. */
  function LittleEndian(b: seq<byte>): nat {
    if b == [] then 0 else b[0] as nat + 256 * LittleEndian(b[1..])
  }

  /** The length of the UA_String the write hands to the copy, as written:
      the first eight value bytes taken as a size_t. */
  function StringWriteLengthAsWritten(field: seq<byte>): nat
    requires |field| == MAX_DATA_SIZE
  {
    LittleEndian(field[..8])
  }

  /** The data pointer of that UA_String, as written: value bytes 8..15 taken
      as an address; 0 is NULL. */
  function StringWriteDataAsWritten(field: seq<byte>): nat
    requires |field| == MAX_DATA_SIZE
  {
    LittleEndian(field[8..16])
  }

  /** Bytes that are all zero spell the number 0. */
  lemma {:induction false} LittleEndianOfZeros(b: seq<byte>)
    requires forall i :: 0 <= i < |b| ==> b[i] == 0
    ensures LittleEndian(b) == 0
  {
    if b != [] {
      LittleEndianOfZeros(b[1..]);
    }
  }

  /** The text "ON" (bytes 0x4F 0x4E) is read as a UA_String of length
      0x4E4F whose data pointer is NULL, where the corrected write stores the
      two bytes of "ON". */
  lemma StringWriteCounterexample()
    ensures var field := [0x4F as byte, 0x4E] + Zeros(MAX_DATA_SIZE - 2);
      StringWriteLengthAsWritten(field) == 0x4E4F
      && StringWriteDataAsWritten(field) == 0
      && BoundedText(field) == [0x4F, 0x4E]
  {
    var field := [0x4F as byte, 0x4E] + Zeros(MAX_DATA_SIZE - 2);
    var tail: seq<byte> := [0, 0, 0, 0, 0, 0];
    assert field[..8] == [0x4F, 0x4E] + tail;
    LittleEndianOfZeros(tail);
    assert LittleEndian([0x4E as byte] + tail) == 0x4E by {
      assert ([0x4E as byte] + tail)[1..] == tail;
    }
    assert ([0x4F as byte, 0x4E] + tail)[1..] == [0x4E as byte] + tail;
    LittleEndianOfZeros(field[8..16]);
    assert FieldText(field) == [0x4F, 0x4E] by {
      assert field[2] == 0;
    }
  }

  /** The corrected write to a String node stores the message's text, bounded
      to MAX_STRING_VALUE - 1 bytes, whatever typeKind the message carries. */
  lemma CorrectedStringWrite(s: State, w: Write, e: EngineOutcome)
    requires w.WellFormed()
    requires FieldText(w.name) in s.space && s.space[FieldText(w.name)].dataType == Some(String.Code())
    requires e.readOk && e.copyOk && e.writeOk
    ensures var v := WriteVar(s, w, e).space[FieldText(w.name)].value;
      v == BoundedText(w.value) && |v| <= MAX_STRING_VALUE - 1
      && (|FieldText(w.value)| < MAX_STRING_VALUE ==> v == FieldText(w.value))
  {
  }
}

/** NUL-terminated strings: strnlen, the name carried by a fixed-size char
    field, and CheckUaStringLength, which bounds a UA_String in place. */
module CString {
  import opened Protocol

  /** strnlen(s, n): the number of bytes before the first NUL among the
      first n bytes of s. */
  function StrNLen(s: seq<byte>, n: nat): (r: nat)
    ensures r <= n && r <= |s|
    ensures forall i :: 0 <= i < r ==> s[i] != 0
    ensures r < n && r < |s| ==> s[r] == 0
  {
    if n == 0 || |s| == 0 || s[0] == 0 then 0 else 1 + StrNLen(s[1..], n - 1)
  }

  /** The text of a fixed-size char field: its bytes up to the first NUL, or
      the whole field when it holds none. */
  function FieldText(field: seq<byte>): (t: seq<byte>)
    ensures |t| <= |field| && t == field[..|t|]
    ensures forall i :: 0 <= i < |t| ==> t[i] != 0
    ensures |t| < |field| ==> field[|t|] == 0
  {
    field[..StrNLen(field, |field|)]
  }

  /** The value a string registration stores: the field's text, cut to
      MAX_STRING_VALUE - 1 bytes when it fills the whole field. */
  function BoundedText(field: seq<byte>): (t: seq<byte>)
    requires |field| == MAX_DATA_SIZE
    ensures |t| <= MAX_STRING_VALUE - 1
    ensures t == field[..|t|]
    ensures forall i :: 0 <= i < |t| ==> t[i] != 0
    ensures |FieldText(field)| < MAX_STRING_VALUE ==> t == FieldText(field)
    ensures |FieldText(field)| >= MAX_STRING_VALUE ==> |t| == MAX_STRING_VALUE - 1
  {
    var n := StrNLen(field, |field|);
    if n >= MAX_STRING_VALUE then field[..MAX_STRING_VALUE - 1] else field[..n]
  }

  /** UA_String: a byte count and a (possibly null) buffer. The buffer
      pointer itself is never reassigned by the bridge, only its bytes. */
  class UaString {
    var length: nat
    const data: array?<byte>

    ghost predicate Valid()
      reads this
    {
      data != null ==> length <= data.Length
    }

    /** UA_STRING(chars): a string over the given bytes whose length is their
        strlen. UA_STRING aliases the caller's field; the fresh array here
        stands for that field, which nothing else reads while the string is
        in use. */
    constructor FromChars(chars: seq<byte>)
      ensures Valid() && fresh(data) && data != null
      ensures data[..] == chars && length == StrNLen(chars, |chars|)
    {
      data := new byte[|chars|](i requires 0 <= i < |chars| => chars[i]);
      length := StrNLen(chars, |chars|);
    }

    /** The bytes the string denotes. */
    ghost function Text(): seq<byte>
      reads this, data
      requires Valid() && data != null
    {
      data[..length]
    }
  }

  ghost function Footprint(str: UaString?): set<object>
    reads str
  {
    if str == null then {} else if str.data == null then {str} else {str, str.data}
  }

  /** CheckUaStringLength: reports ERROR for a missing or empty string,
      truncates in place to MAX_STRING_VALUE - 1 bytes and reports OVERFLOW
      when strnlen reaches MAX_STRING_VALUE, and otherwise reports OK. */
  method CheckUaStringLength(str: UaString?) returns (r: StringCheck)
    requires str != null ==> str.Valid()
    modifies Footprint(str)
    ensures str != null ==> str.Valid()
    ensures r == StringError <==> str == null || str.data == null || old(str.length) == 0
    ensures r == StringOverflow <==>
      r != StringError && StrNLen(old(str.data[..]), old(str.length)) >= MAX_STRING_VALUE
    ensures r == StringOverflow ==>
      str.length == MAX_STRING_VALUE - 1 && str.data[..] == old(str.data[..])[MAX_STRING_VALUE - 1 := 0]
    ensures r != StringOverflow && str != null ==>
      str.length == old(str.length) && (str.data != null ==> str.data[..] == old(str.data[..]))
  {
    if str == null || str.data == null || str.length == 0 {
      return StringError;
    }
    var length := StrNLen(str.data[..], str.length);
    if length >= MAX_STRING_VALUE {
      str.data[MAX_STRING_VALUE - 1] := 0;
      str.length := MAX_STRING_VALUE - 1;
      return StringOverflow;
    }
    if length < str.length && str.data[length] != 0 {
      // strnlen stops at a NUL before str.length, so this branch is never taken
      assert false;
    }
    return StringOk;
  }

  /** The text of a string field of MAX_DATA_SIZE bytes, checked by
      CheckUaStringLength, is BoundedText of the field. */
  method CheckedFieldText(field: seq<byte>) returns (t: seq<byte>, r: StringCheck)
    requires |field| == MAX_DATA_SIZE
    ensures t == BoundedText(field)
    ensures r == StringError <==> FieldText(field) == []
    ensures r == StringOverflow <==> |FieldText(field)| >= MAX_STRING_VALUE
  {
    var str := new UaString.FromChars(field);
    r := CheckUaStringLength(str);
    t := str.data[..str.length];
  }
}

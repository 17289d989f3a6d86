/**
 * Encapsulated hashes (Hash.java): an immutable sequence of bytes with
 * byte access, copying in and out, an upper-case hexadecimal rendering and
 * equality.
 */
module Hashes {
  import opened Wrappers

  /** An eight-bit byte. Java's `byte` is signed; the model keeps the same
    * eight bits as the unsigned value 0..255. */
  newtype byte = b: int | 0 <= b < 256

  // ---------------------------------------------------------------------
  // The rendering `String.format("%02X ", b)` of one byte
  // ---------------------------------------------------------------------

  /** The upper-case hexadecimal digit for `d`. */
  function HexDigit(d: nat): (c: char)
    requires d < 16
    ensures '0' <= c <= '9' || 'A' <= c <= 'F'
  {
    if d < 10 then ('0' as int + d) as char else ('A' as int + (d - 10)) as char
  }

  /** The value of an upper-case hexadecimal digit, if `c` is one. */
  function DigitValue(c: char): (r: Option<nat>)
    ensures r.Some? ==> r.value < 16 && HexDigit(r.value) == c
  {
    if '0' <= c <= '9' then Some(c as int - '0' as int)
    else if 'A' <= c <= 'F' then Some(c as int - 'A' as int + 10)
    else None
  }

  /** Two upper-case hex digits and a space: Java's `%02X ` applied to a byte
    * (a negative Java byte is printed as its unsigned value, as here). */
  function ByteText(b: byte): string
  {
    [HexDigit((b / 16) as nat), HexDigit((b % 16) as nat), ' ']
  }

  /** Reads back one `ByteText`. */
  function ParseByteText(s: string): Option<byte>
  {
    if |s| != 3 || s[2] != ' ' then None
    else
      match (DigitValue(s[0]), DigitValue(s[1]))
      case (Some(hi), Some(lo)) => Some((hi * 16 + lo) as byte)
      case _ => None
  }

  lemma ParseByteTextInvertsByteText(b: byte)
    ensures ParseByteText(ByteText(b)) == Some(b)
  {
    var t := ByteText(b);
    assert DigitValue(t[0]) == Some((b / 16) as nat);
    assert DigitValue(t[1]) == Some((b % 16) as nat);
  }

  /** What `Hash.toString` builds: `ByteText` of every byte, front to back. */
  function Hex(bs: seq<byte>): (s: string)
    ensures |s| == 3 * |bs|
  {
    if bs == [] then "" else Hex(bs[..|bs| - 1]) + ByteText(bs[|bs| - 1])
  }

  /** Reads back a string produced by `Hex`, three characters per byte. */
  function ParseHex(s: string): Option<seq<byte>>
    decreases |s|
  {
    if s == [] then Some([])
    else if |s| < 3 then None
    else
      match (ParseHex(s[..|s| - 3]), ParseByteText(s[|s| - 3..]))
      case (Some(front), Some(b)) => Some(front + [b])
      case _ => None
  }

  /** The hex rendering loses nothing: it can be read back exactly. */
  lemma {:induction false} ParseHexInvertsHex(bs: seq<byte>)
    ensures ParseHex(Hex(bs)) == Some(bs)
  {
    if bs != [] {
      var front, last := bs[..|bs| - 1], bs[|bs| - 1];
      var s := Hex(bs);
      assert s == Hex(front) + ByteText(last);
      assert s[..|s| - 3] == Hex(front);
      assert s[|s| - 3..] == ByteText(last);
      ParseHexInvertsHex(front);
      ParseByteTextInvertsByteText(last);
      assert front + [last] == bs;
    }
  }

  /** Distinct byte sequences render as distinct strings. */
  lemma HexInjective(a: seq<byte>, b: seq<byte>)
    ensures Hex(a) == Hex(b) <==> a == b
  {
    ParseHexInvertsHex(a);
    ParseHexInvertsHex(b);
  }

  // ---------------------------------------------------------------------
  // The Hash value
  // ---------------------------------------------------------------------

  /** An immutable byte sequence. */
  datatype Hash = Hash(bytes: seq<byte>) {

    /** `length()`: the number of bytes in the hash. */
    function Length(): nat
    {
      |bytes|
    }

    /** `get(i)`: the ith byte; the documented range is 0 <= i < length(). */
    function Get(i: nat): byte
      requires i < Length()
    {
      bytes[i]
    }

    /** `toString()`: appends the two-digit upper-case hex form of every
      * byte, each followed by a space, to a builder. */
    method ToString() returns (s: string)
      ensures s == Hex(bytes)
      ensures |s| == 3 * Length()
    {
      s := "";
      for k := 0 to |bytes|
        invariant s == Hex(bytes[..k])
      {
        assert bytes[..k + 1][..k] == bytes[..k];
        s := s + ByteText(bytes[k]);
      }
      assert bytes[..|bytes|] == bytes;
    }

    /** `equals(Object)` as the source intends it: `other` is the object seen
      * through `instanceof Hash` (None when it is not a Hash, or null), and
      * the answer is byte-wise equality. */
    function Equals(other: Option<Hash>): (r: bool)
      ensures r <==> other.Some? && |other.value.bytes| == |bytes|
                     && forall i :: 0 <= i < |bytes| ==> other.value.bytes[i] == bytes[i]
    {
      other.Some? && other.value.bytes == bytes
    }

    /** `equals(Object)` as written: for a Hash it casts and calls
      * `equals(Object)` again, because Hash has no `equals(Hash)` overload.
      * `fuel` bounds the nesting depth; None means the call has not returned
      * within that many nested calls. */
    function EqualsAsWritten(fuel: nat, other: Option<Hash>): Option<bool>
    {
      if other.None? then Some(false)
      else if fuel == 0 then None
      else EqualsAsWritten(fuel - 1, other)
    }

    /** `hashCode()`: the string hash of `toString()`. Java's
      * `String.hashCode` is passed in as `stringHash`. */
    function HashCode(stringHash: string -> int): (r: int)
      ensures forall other: Hash :: Equals(Some(other)) ==> r == stringHash(Hex(other.bytes))
    {
      stringHash(Hex(bytes))
    }
  }

  /** As written, comparing a Hash with any Hash never returns, however deep
    * the stack may grow; comparing with a non-Hash answers false. */
  lemma {:induction false} EqualsAsWrittenNeverAnswers(h: Hash, other: Option<Hash>, fuel: nat)
    ensures other.Some? ==> h.EqualsAsWritten(fuel, other) == None
    ensures other.None? ==> h.EqualsAsWritten(fuel, other) == Some(false)
  {
    if other.Some? && fuel > 0 {
      EqualsAsWrittenNeverAnswers(h, other, fuel - 1);
    }
  }

  /** Equality agrees with the rendering: two hashes are equal exactly when
    * their `toString()` forms are, so `hashCode` is consistent with `equals`
    * for every string hash. */
  lemma EqualsAgreesWithHex(h: Hash, o: Hash, stringHash: string -> int)
    ensures h.Equals(Some(o)) <==> Hex(h.bytes) == Hex(o.bytes)
    ensures h.Equals(Some(o)) ==> h.HashCode(stringHash) == o.HashCode(stringHash)
  {
    HexInjective(h.bytes, o.bytes);
  }

  /** `new Hash(data)`: copies the array, so the hash has the array's length
    * and bytes at the time of the call. */
  method NewHash(data: array<byte>) returns (h: Hash)
    ensures h.Length() == data.Length
    ensures forall i :: 0 <= i < data.Length ==> h.Get(i) == data[i]
  {
    h := Hash(data[..]);
  }

  /** `getBytes()`: a fresh copy of the bytes. */
  method GetBytes(h: Hash) returns (a: array<byte>)
    ensures fresh(a)
    ensures a.Length == h.Length()
    ensures forall i :: 0 <= i < a.Length ==> a[i] == h.Get(i)
  {
    a := new byte[|h.bytes|](i requires 0 <= i < |h.bytes| => h.bytes[i]);
  }

  /** `new Hash(data).getBytes()` gives back `data`, also when it is empty,
    * and writing to the input array afterwards leaves the hash and the copy
    * as they were. */
  method CopiesAreIndependent(data: array<byte>, x: byte) returns (h: Hash, out: array<byte>)
    modifies data
    ensures fresh(out)
    ensures out[..] == old(data[..])
    ensures h.bytes == old(data[..])
  {
    h := NewHash(data);
    out := GetBytes(h);
    assert out[..] == data[..];
    if data.Length > 0 {
      data[0] := x;
    }
    assert h.bytes == old(data[..]);
  }
}

/** The packet of src/network/packet.rs: an owned byte buffer that typed writes and
    raw appends grow at the end, and that typed reads drain through a read cursor. */
module Packets {
  import opened Ints
  import opened Results

  datatype Packet = Packet(data: seq<u8>, readPos: nat)

  /** The cursor never passes the end of the buffer. */
  predicate Valid(p: Packet) {
    p.readPos <= |p.data|
  }

  function DataSize(p: Packet): (n: nat)
    ensures Valid(p) ==> n == p.readPos + Remaining(p)
  {
    |p.data|
  }

  /** `sfPacket_endOfPacket`: no unread byte remains. */
  function IsAtEnd(p: Packet): (e: bool)
    ensures Valid(p) ==> (e <==> Remaining(p) == 0)
  {
    p.readPos >= |p.data|
  }

  function Remaining(p: Packet): nat
    requires Valid(p)
  {
    |p.data| - p.readPos
  }

  /** `Packet::create`: an empty buffer with the cursor at the start. */
  function Create(): (p: Packet)
    ensures Valid(p) && DataSize(p) == 0 && IsAtEnd(p)
  {
    Packet([], 0)
  }

  /** `clear`: drops every byte and rewinds the cursor, whatever the packet held. */
  function Clear(p: Packet): (q: Packet)
    ensures Valid(q) && DataSize(q) == 0 && IsAtEnd(q)
  {
    Packet([], 0)
  }

  /** `copy`: a deep clone with the same bytes and the same cursor. Packets are values
      here, so nothing done to one of them afterwards can reach the other. */
  function Copy(p: Packet): (q: Packet)
    ensures q.data == p.data && q.readPos == p.readPos
    ensures Valid(q) == Valid(p) && IsAtEnd(q) == IsAtEnd(p) && DataSize(q) == DataSize(p)
  {
    p
  }

  datatype AppendResult = AppendResult(packet: Packet, outcome: Result<(), string>)

  /** `append`: the foreign append takes the first `taken` bytes of `d` (all of them
      unless the library fails to grow its buffer); the wrapper then compares the sizes
      before and after and reports a failure when they differ by anything but `|d|`. */
  function Append(p: Packet, d: seq<u8>, taken: nat): (r: AppendResult)
    requires taken <= |d|
    ensures r.packet.data == p.data + d[..taken]
    ensures r.packet.readPos == p.readPos
    ensures r.outcome.Ok? <==> taken == |d|
    ensures r.outcome.Ok? ==> r.packet.data == p.data + d
  {
    var sizeBefore := DataSize(p);
    var q := Packet(p.data + d[..taken], p.readPos);
    var sizeAfter := DataSize(q);
    if sizeAfter - sizeBefore != |d| then
      AppendResult(q, Err("Failed to append data to packet"))
    else
      AppendResult(q, Ok(()))
  }

  /** The primitive types the wrapper reads and writes (the float types are not modelled). */
  datatype Kind = U8Kind | I8Kind | U16Kind | I16Kind | U32Kind | I32Kind | BoolKind

  datatype Value =
    | U8(asU8: u8)
    | I8(asI8: i8)
    | U16(asU16: u16)
    | I16(asI16: i16)
    | U32(asU32: u32)
    | I32(asI32: i32)
    | Bool(asBool: bool)

  function KindOf(v: Value): Kind {
    match v
    case U8(_) => U8Kind
    case I8(_) => I8Kind
    case U16(_) => U16Kind
    case I16(_) => I16Kind
    case U32(_) => U32Kind
    case I32(_) => I32Kind
    case Bool(_) => BoolKind
  }

  /** Bytes a value of each kind occupies on the wire: 1, 2 or 4; a bool takes one byte. */
  function Width(k: Kind): (n: nat)
    ensures 1 <= n <= 4
  {
    match k
    case U8Kind => 1
    case I8Kind => 1
    case BoolKind => 1
    case U16Kind => 2
    case I16Kind => 2
    case U32Kind => 4
    case I32Kind => 4
  }

  /** A 16-bit value as two bytes, most significant first (the network byte order). */
  function Bytes16(x: u16): (s: seq<u8>)
    ensures |s| == 2
  {
    [x / 0x100, x % 0x100]
  }

  function Uint16Of(s: seq<u8>): u16
    requires |s| == 2
  {
    var hi: u8 := s[0];
    var lo: u8 := s[1];
    hi * 0x100 + lo
  }

  /** A 32-bit value as four bytes, most significant first. */
  function Bytes32(x: u32): (s: seq<u8>)
    ensures |s| == 4
  {
    Bytes16(x / 0x1_0000) + Bytes16(x % 0x1_0000)
  }

  function Uint32Of(s: seq<u8>): u32
    requires |s| == 4
  {
    Uint16Of(s[..2]) * 0x1_0000 + Uint16Of(s[2..])
  }

  lemma Bytes16RoundTrip(x: u16)
    ensures Uint16Of(Bytes16(x)) == x
  {
  }

  lemma Bytes32RoundTrip(x: u32)
    ensures Uint32Of(Bytes32(x)) == x
  {
    var s := Bytes32(x);
    var hi: u16 := x / 0x1_0000;
    var lo: u16 := x % 0x1_0000;
    assert s[..2] == Bytes16(hi);
    assert s[2..] == Bytes16(lo);
    Bytes16RoundTrip(hi);
    Bytes16RoundTrip(lo);
  }

  /** Two's complement modulo `m` (0x100, 0x1_0000 or 0x1_0000_0000): the unsigned
      pattern of a signed value, and back. */
  function ToUnsigned(x: int, m: nat): (u: nat)
    requires -(m / 2) <= x < m / 2
    ensures u < m
  {
    if x < 0 then x + m else x
  }

  function ToSigned(u: nat, m: nat): (x: int)
    requires u < m
    ensures -(m / 2) <= x < m / 2 || m % 2 == 1
  {
    if u >= m / 2 then u - m else u
  }

  lemma SignedRoundTrip(x: int, m: nat)
    requires m % 2 == 0
    requires -(m / 2) <= x < m / 2
    ensures ToSigned(ToUnsigned(x, m), m) == x
  {
  }

  /** The encoding of one value: big-endian integers, a bool as the byte 1 or 0. */
  function Encode(v: Value): (s: seq<u8>)
    ensures |s| == Width(KindOf(v))
  {
    match v
    case U8(x) => [x]
    case I8(x) => [ToUnsigned(x, 0x100)]
    case U16(x) => Bytes16(x)
    case I16(x) => Bytes16(ToUnsigned(x, 0x1_0000))
    case U32(x) => Bytes32(x)
    case I32(x) => Bytes32(ToUnsigned(x, 0x1_0000_0000))
    case Bool(b) => [if b then 1 else 0]
  }

  /** The decoding of one value of kind `k`; a bool is true for any nonzero byte. */
  function Decode(k: Kind, s: seq<u8>): (v: Value)
    requires |s| == Width(k)
    ensures KindOf(v) == k
  {
    match k
    case U8Kind => U8(s[0])
    case I8Kind => I8(ToSigned(s[0], 0x100))
    case U16Kind => U16(Uint16Of(s))
    case I16Kind => I16(ToSigned(Uint16Of(s), 0x1_0000))
    case U32Kind => U32(Uint32Of(s))
    case I32Kind => I32(ToSigned(Uint32Of(s), 0x1_0000_0000))
    case BoolKind => Bool(s[0] != 0)
  }

  /** Decoding an encoding with the matching kind gives the value back. */
  lemma DecodeEncode(v: Value)
    ensures Decode(KindOf(v), Encode(v)) == v
  {
    match v
    case U8(x) =>
    case I8(x) => SignedRoundTrip(x, 0x100);
    case U16(x) => Bytes16RoundTrip(x);
    case I16(x) =>
      Bytes16RoundTrip(ToUnsigned(x, 0x1_0000));
      SignedRoundTrip(x, 0x1_0000);
    case U32(x) => Bytes32RoundTrip(x);
    case I32(x) =>
      Bytes32RoundTrip(ToUnsigned(x, 0x1_0000_0000));
      SignedRoundTrip(x, 0x1_0000_0000);
    case Bool(b) =>
  }

  /** `write::<T>` for the integer and bool types: appends the value's encoding and
      leaves the cursor where it was. */
  function Write(p: Packet, v: Value): (q: Packet)
    ensures q.data == p.data + Encode(v)
    ensures q.readPos == p.readPos
    ensures DataSize(q) == DataSize(p) + Width(KindOf(v))
  {
    Packet(p.data + Encode(v), p.readPos)
  }

  /** `read::<T>` for the integer and bool types: decodes the next bytes and moves the
      cursor past them. The wrapper reports `Ok` whatever the library does at the end
      of the buffer, so enough unread bytes are a precondition. */
  function Read(p: Packet, k: Kind): (r: (Value, Packet))
    requires Valid(p) && Remaining(p) >= Width(k)
    ensures KindOf(r.0) == k
    ensures r.1.data == p.data
    ensures r.1.readPos == p.readPos + Width(k)
    ensures Valid(r.1)
  {
    var bytes := p.data[p.readPos..p.readPos + Width(k)];
    (Decode(k, bytes), Packet(p.data, p.readPos + Width(k)))
  }

  /** Reading right after a write of the same kind returns the written value. */
  lemma ReadAfterWrite(p: Packet, v: Value)
    requires Valid(p) && IsAtEnd(p)
    ensures Remaining(Write(p, v)) == Width(KindOf(v))
    ensures Read(Write(p, v), KindOf(v)) == (v, Packet(Write(p, v).data, |Write(p, v).data|))
  {
    var q := Write(p, v);
    assert q.data[q.readPos..q.readPos + Width(KindOf(v))] == Encode(v);
    DecodeEncode(v);
  }

  /** The four-byte length prefix of a string of `n` bytes. */
  function LengthPrefix(n: nat): (s: seq<u8>)
    requires n < 0x1_0000_0000
    ensures |s| == 4
  {
    Bytes32(n)
  }

  /** The position of the first NUL byte. */
  function FirstNul(s: seq<u8>): (i: nat)
    requires 0 in s
    ensures i < |s| && s[i] == 0
    ensures 0 !in s[..i]
  {
    if s[0] == 0 then 0
    else
      var i := 1 + FirstNul(s[1..]);
      assert s[..i] == [s[0]] + s[1..][..i - 1];
      i
  }

  /** The decimal numeral of `n`, as Rust's `Display` for an unsigned integer writes
      it: no sign, no leading zeros. */
  function DecimalText(n: nat): (d: string)
    ensures |d| >= 1 && IsDecimal(d)
    ensures |d| > 1 ==> d[0] != '0'
  {
    if n < 10 then [('0' as int + n) as char]
    else
      var d := DecimalText(n / 10) + [('0' as int + n % 10) as char];
      assert d[0] == DecimalText(n / 10)[0];
      d
  }

  predicate IsDecimal(d: string) {
    forall i :: 0 <= i < |d| ==> '0' <= d[i] <= '9'
  }

  /** The number a decimal numeral denotes, read from the left. */
  function DecimalValue(d: string): nat
    requires IsDecimal(d)
  {
    if d == [] then 0 else DecimalValue(d[..|d| - 1]) * 10 + (d[|d| - 1] as int - '0' as int)
  }

  /** Reading back the numeral of `n` gives `n`. */
  lemma {:induction false} DecimalRoundTrip(n: nat)
    ensures DecimalValue(DecimalText(n)) == n
  {
    if n >= 10 {
      var d := DecimalText(n);
      assert d[..|d| - 1] == DecimalText(n / 10);
      DecimalRoundTrip(n / 10);
    }
  }

  const NUL_MESSAGE: string := "nul byte found in provided data at position: "

  /** `write::<String>`: a string holding a NUL byte cannot become a C string, so the
      write fails before the packet is touched, naming the position of the first NUL;
      any other string is written as its length in four bytes followed by its bytes. */
  function WriteString(p: Packet, s: seq<u8>): (r: Result<Packet, string>)
    requires |s| < 0x1_0000_0000
    ensures r.Err? <==> 0 in s
    ensures r.Err? ==> r.error == NUL_MESSAGE + DecimalText(FirstNul(s))
    ensures r.Ok? ==> r.value.data == p.data + LengthPrefix(|s|) + s
    ensures r.Ok? ==> r.value.readPos == p.readPos
    ensures r.Ok? ==> DataSize(r.value) == DataSize(p) + 4 + |s|
  {
    if 0 in s then Err(NUL_MESSAGE + DecimalText(FirstNul(s)))
    else Ok(Packet(p.data + LengthPrefix(|s|) + s, p.readPos))
  }

  /** `read::<String>`: the foreign call is handed a null destination that is never
      reassigned, so the wrapper always reports a failure. */
  function ReadString(p: Packet): (r: Result<seq<u8>, string>)
    ensures r.Err?
  {
    Err("Failed to read string from packet")
  }

  /** Writing a sequence of values, one after the other. */
  function EncodeAll(vs: seq<Value>): seq<u8> {
    if vs == [] then [] else Encode(vs[0]) + EncodeAll(vs[1..])
  }

  function KindsOf(vs: seq<Value>): (ks: seq<Kind>)
    ensures |ks| == |vs|
    ensures forall i :: 0 <= i < |vs| ==> ks[i] == KindOf(vs[i])
  {
    if vs == [] then [] else [KindOf(vs[0])] + KindsOf(vs[1..])
  }

  function TotalWidth(ks: seq<Kind>): nat {
    if ks == [] then 0 else Width(ks[0]) + TotalWidth(ks[1..])
  }

  function WriteAll(p: Packet, vs: seq<Value>): (q: Packet)
    ensures q.data == p.data + EncodeAll(vs)
    ensures q.readPos == p.readPos
    decreases |vs|
  {
    if vs == [] then p
    else
      var w := Write(p, vs[0]);
      AppendAssoc(p.data, Encode(vs[0]), EncodeAll(vs[1..]));
      WriteAll(w, vs[1..])
  }

  lemma AppendAssoc(a: seq<u8>, b: seq<u8>, c: seq<u8>)
    ensures (a + b) + c == a + (b + c)
  {
  }

  /** Reading values of the given kinds, one after the other. */
  function ReadAll(p: Packet, ks: seq<Kind>): (r: (seq<Value>, Packet))
    requires Valid(p) && Remaining(p) >= TotalWidth(ks)
    ensures |r.0| == |ks|
    ensures forall i :: 0 <= i < |ks| ==> KindOf(r.0[i]) == ks[i]
    ensures r.1.data == p.data
    ensures r.1.readPos == p.readPos + TotalWidth(ks)
    decreases |ks|
  {
    if ks == [] then ([], p)
    else
      var first := Read(p, ks[0]);
      var rest := ReadAll(first.1, ks[1..]);
      ([first.0] + rest.0, rest.1)
  }

  lemma {:induction false} EncodeAllLength(vs: seq<Value>)
    ensures |EncodeAll(vs)| == TotalWidth(KindsOf(vs))
  {
    if vs != [] {
      EncodeAllLength(vs[1..]);
      assert KindsOf(vs)[1..] == KindsOf(vs[1..]);
    }
  }

  lemma {:induction false} EncodeAllSplit(vs: seq<Value>, i: nat)
    requires i <= |vs|
    ensures EncodeAll(vs) == EncodeAll(vs[..i]) + EncodeAll(vs[i..])
  {
    if i > 0 {
      EncodeAllSplit(vs[1..], i - 1);
      assert vs[1..][..i - 1] == vs[..i][1..];
      assert vs[1..][i - 1..] == vs[i..];
    }
  }

  /** Reading a kind over the encoding of a value of that kind returns the value. */
  lemma ReadWritten(data: seq<u8>, pos: nat, v: Value)
    requires pos + Width(KindOf(v)) <= |data|
    requires data[pos..pos + Width(KindOf(v))] == Encode(v)
    ensures Read(Packet(data, pos), KindOf(v)) == (v, Packet(data, pos + Width(KindOf(v))))
  {
    var k := KindOf(v);
    assert data[pos..pos + Width(k)] == Encode(v);
    DecodeEncode(v);
    assert Decode(k, data[pos..pos + Width(k)]) == v;
  }

  lemma SliceSplit(data: seq<u8>, pos: nat, a: seq<u8>, b: seq<u8>)
    requires pos + |a| + |b| <= |data|
    requires data[pos..pos + |a| + |b|] == a + b
    ensures data[pos..pos + |a|] == a
    ensures data[pos + |a|..pos + |a| + |b|] == b
  {
    assert data[pos..pos + |a|] == data[pos..pos + |a| + |b|][..|a|];
    assert data[pos + |a|..pos + |a| + |b|] == data[pos..pos + |a| + |b|][|a|..];
  }

  /** Wherever the encodings of `vs` sit in a buffer, reading their kinds from the
      start of them returns `vs` and leaves the cursor right after them. */
  lemma {:induction false} ReadAllWritten(data: seq<u8>, pos: nat, vs: seq<Value>)
    requires pos + |EncodeAll(vs)| <= |data|
    requires data[pos..pos + |EncodeAll(vs)|] == EncodeAll(vs)
    ensures TotalWidth(KindsOf(vs)) == |EncodeAll(vs)|
    ensures ReadAll(Packet(data, pos), KindsOf(vs)).0 == vs
    ensures ReadAll(Packet(data, pos), KindsOf(vs)).1.readPos == pos + |EncodeAll(vs)|
    decreases |vs|
  {
    EncodeAllLength(vs);
    if vs != [] {
      var v, tl := vs[0], vs[1..];
      var mid := pos + Width(KindOf(v));
      HeadTailSplit(data, pos, vs);
      ReadHeadWritten(data, pos, vs);
      ReadAllWritten(data, mid, tl);
      KindsOfCons(vs);
      var last := ReadAll(Packet(data, mid), KindsOf(tl)).1;
      ReadAllCons(Packet(data, pos), KindOf(v), KindsOf(tl), v, Packet(data, mid), tl, last);
      assert [v] + tl == vs;
    }
  }

  lemma KindsOfCons(vs: seq<Value>)
    requires vs != []
    ensures KindsOf(vs) == [KindOf(vs[0])] + KindsOf(vs[1..])
  {
  }

  /** One step of `ReadAll`: the first read, then the rest from where it stopped. */
  lemma ReadAllCons(p: Packet, k: Kind, ks: seq<Kind>, v: Value, q: Packet, rest: seq<Value>, last: Packet)
    requires Valid(p) && Remaining(p) >= Width(k) + TotalWidth(ks)
    requires Read(p, k) == (v, q)
    requires ReadAll(q, ks) == (rest, last)
    ensures TotalWidth([k] + ks) == Width(k) + TotalWidth(ks)
    ensures ReadAll(p, [k] + ks) == ([v] + rest, last)
  {
    assert ([k] + ks)[0] == k;
    assert ([k] + ks)[1..] == ks;
  }

  /** Where the encodings of a non-empty `vs` sit, the first value's encoding comes
      first and the encodings of the others follow it. */
  lemma HeadTailSplit(data: seq<u8>, pos: nat, vs: seq<Value>)
    requires vs != []
    requires pos + |EncodeAll(vs)| <= |data|
    requires data[pos..pos + |EncodeAll(vs)|] == EncodeAll(vs)
    ensures Width(KindOf(vs[0])) + |EncodeAll(vs[1..])| == |EncodeAll(vs)|
    ensures data[pos..pos + Width(KindOf(vs[0]))] == Encode(vs[0])
    ensures data[pos + Width(KindOf(vs[0]))..pos + |EncodeAll(vs)|] == EncodeAll(vs[1..])
  {
    EncodeAllCons(vs);
    SliceSplit(data, pos, Encode(vs[0]), EncodeAll(vs[1..]));
  }

  /** There, reading the first kind returns the first value. */
  lemma ReadHeadWritten(data: seq<u8>, pos: nat, vs: seq<Value>)
    requires vs != []
    requires pos + |EncodeAll(vs)| <= |data|
    requires data[pos..pos + |EncodeAll(vs)|] == EncodeAll(vs)
    ensures Read(Packet(data, pos), KindOf(vs[0])) == (vs[0], Packet(data, pos + Width(KindOf(vs[0]))))
  {
    HeadTailSplit(data, pos, vs);
    ReadWritten(data, pos, vs[0]);
  }

  lemma EncodeAllCons(vs: seq<Value>)
    requires vs != []
    ensures EncodeAll(vs) == Encode(vs[0]) + EncodeAll(vs[1..])
  {
  }

  /** The positional round trip: the values written to a fresh packet are read back
      in the same order with the same kinds; after the first `i` reads the cursor has
      passed exactly their bytes, and the packet is at its end only once all are read. */
  lemma {:induction false} WriteReadRoundTrip(vs: seq<Value>, i: nat)
    requires i <= |vs|
    ensures WriteAll(Create(), vs).data == EncodeAll(vs)
    ensures TotalWidth(KindsOf(vs[..i])) <= |EncodeAll(vs)|
    ensures ReadAll(WriteAll(Create(), vs), KindsOf(vs[..i]))
         == (vs[..i], Packet(EncodeAll(vs), |EncodeAll(vs[..i])|))
    ensures IsAtEnd(ReadAll(WriteAll(Create(), vs), KindsOf(vs[..i])).1) <==> i == |vs|
  {
    WrittenPrefix(vs, i);
    ReadAllWritten(EncodeAll(vs), 0, vs[..i]);
    EncodeAllEmpty(vs[i..]);
  }

  /** The bytes of a fresh packet after writing `vs` start with the encodings of the
      first `i` values, and the encodings of the others make up the rest. */
  lemma WrittenPrefix(vs: seq<Value>, i: nat)
    requires i <= |vs|
    ensures WriteAll(Create(), vs).data == EncodeAll(vs)
    ensures |EncodeAll(vs)| == |EncodeAll(vs[..i])| + |EncodeAll(vs[i..])|
    ensures EncodeAll(vs)[0..|EncodeAll(vs[..i])|] == EncodeAll(vs[..i])
  {
    EncodeAllSplit(vs, i);
  }

  /** Every value takes at least one byte, so only no values encode to nothing. */
  lemma EncodeAllEmpty(vs: seq<Value>)
    ensures |EncodeAll(vs)| == 0 <==> vs == []
  {
    if vs != [] {
      assert |EncodeAll(vs)| == |Encode(vs[0])| + |EncodeAll(vs[1..])|;
    }
  }

  /** What `Reader::read` computes: the unread bytes, as many as fit, copied over the
      front of `buf` (the rest of `buf` untouched), with the cursor moved past them. */
  function ReadInto(p: Packet, buf: seq<u8>): (r: (nat, seq<u8>, Packet))
    requires Valid(p)
    ensures r.0 <= |buf| && r.0 <= Remaining(p) && (r.0 == |buf| || r.0 == Remaining(p))
    ensures |r.1| == |buf| && r.1[r.0..] == buf[r.0..]
    ensures forall i :: 0 <= i < r.0 ==> r.1[i] == p.data[p.readPos + i]
    ensures r.2.data == p.data && r.2.readPos == p.readPos + r.0
  {
    var count := if |buf| <= Remaining(p) then |buf| else Remaining(p);
    (count, p.data[p.readPos..p.readPos + count] + buf[count..], Packet(p.data, p.readPos + count))
  }

  /** `read::<u8>`, as `Reader::read` calls it: the byte under the cursor. */
  function ReadByte(p: Packet): (r: (u8, Packet))
    requires Valid(p) && !IsAtEnd(p)
    ensures Valid(r.1) && r.1.data == p.data && Remaining(r.1) == Remaining(p) - 1
  {
    (p.data[p.readPos], Packet(p.data, p.readPos + 1))
  }

  /** The byte `Reader::read` takes is the one a typed `u8` read returns. */
  lemma ReadByteIsRead(p: Packet)
    requires Valid(p) && !IsAtEnd(p)
    ensures Read(p, U8Kind) == (U8(ReadByte(p).0), ReadByte(p).1)
  {
  }

  /** The loop of `Reader::read`, as written. */
  method ReaderRead(p: Packet, buf: seq<u8>) returns (count: nat, out: seq<u8>, q: Packet)
    requires Valid(p)
    ensures (count, out, q) == ReadInto(p, buf)
    ensures count <= |buf|
  {
    count := 0;
    out := buf;
    q := p;
    var i := 0;
    while i < |buf|
      invariant ReaderState(p, buf, i, out, q) && count == i
    {
      if IsAtEnd(q) {
        ReaderDone(p, buf, i, out, q);
        return;
      }
      ReaderStep(p, buf, i, out, q);
      var r := ReadByte(q);
      q := r.1;
      out := out[i := r.0];
      count := count + 1;
      i := i + 1;
    }
    ReaderDone(p, buf, i, out, q);
  }

  /** Where `Reader::read` stands after `i` bytes: they are copied over the front of the
      buffer and the cursor has moved past them. */
  predicate ReaderState(p: Packet, buf: seq<u8>, i: nat, out: seq<u8>, q: Packet) {
    Valid(p) && i <= |buf| && q.data == p.data && q.readPos == p.readPos + i
    && q.readPos <= |q.data| && out == p.data[p.readPos..q.readPos] + buf[i..]
  }

  /** One byte of `Reader::read`: the next unread byte replaces the next buffer byte. */
  lemma ReaderStep(p: Packet, buf: seq<u8>, i: nat, out: seq<u8>, q: Packet)
    requires ReaderState(p, buf, i, out, q) && i < |buf| && !IsAtEnd(q)
    ensures Valid(q) && ReadByte(q) == (q.data[q.readPos], Packet(q.data, q.readPos + 1))
    ensures ReaderState(p, buf, i + 1, out[i := q.data[q.readPos]], Packet(q.data, q.readPos + 1))
  {
    ReadStep(p.data, p.readPos, q.readPos, buf, i);
  }

  lemma ReadStep(d: seq<u8>, a: nat, b: nat, buf: seq<u8>, i: nat)
    requires a <= b < |d| && b - a == i && i < |buf|
    ensures (d[a..b] + buf[i..])[i := d[b]] == d[a..b + 1] + buf[i + 1..]
  {
  }

  /** `Reader::read` stops when the buffer is full or the packet is at its end, and has
      then done what `ReadInto` describes. */
  lemma ReaderDone(p: Packet, buf: seq<u8>, i: nat, out: seq<u8>, q: Packet)
    requires ReaderState(p, buf, i, out, q) && (i == |buf| || IsAtEnd(q))
    ensures (i, out, q) == ReadInto(p, buf)
  {
    ReadIntoStops(p, buf, i);
  }

  /** `ReadInto` stops after `n` bytes when the buffer or the unread bytes run out there. */
  lemma ReadIntoStops(p: Packet, buf: seq<u8>, n: nat)
    requires Valid(p) && n <= |buf| && n <= Remaining(p)
    requires n == |buf| || n == Remaining(p)
    ensures ReadInto(p, buf) == (n, p.data[p.readPos..p.readPos + n] + buf[n..], Packet(p.data, p.readPos + n))
  {
  }

  /** `Writer::write`: appends `buf` and reports the growth of the buffer. The append
      result is unwrapped, so a short foreign append would panic there; with the whole
      buffer taken, the "nothing written" error branch can never be reached. */
  function WriterWrite(p: Packet, buf: seq<u8>): (r: Result<(nat, Packet), string>)
    ensures r.Ok?
    ensures r.value.0 == |buf|
    ensures r.value.1.data == p.data + buf && r.value.1.readPos == p.readPos
  {
    var sizeBefore := DataSize(p);
    var appended := Append(p, buf, |buf|);
    var q := appended.packet;
    var written: nat := DataSize(q) - sizeBefore;
    if written == 0 && |buf| != 0 then Err("Cannot write to packet")
    else Ok((written, q))
  }
}

/** The packet scenario of the unit test in src/network/packet.rs. */
module PacketScenario {
  import opened Ints
  import opened Results
  import opened Packets

  function Ascii(s: string): (b: seq<u8>)
    requires forall i :: 0 <= i < |s| ==> s[i] < 128 as char
    ensures |b| == |s|
  {
    seq(|s|, i requires 0 <= i < |s| => s[i] as int)
  }

  /** "ab\0c\0" is refused at position 2, the first of its two NULs. */
  lemma NulPositionExample()
    ensures WriteString(Create(), [97, 98, 0, 99, 0]) == Err(NUL_MESSAGE + "2")
  {
    assert DecimalText(2) == "2";
    assert FirstNul([97, 98, 0, 99, 0]) == 2 by {
      assert [97, 98, 0, 99, 0][1..] == [98, 0, 99, 0];
      assert [98, 0, 99, 0][1..] == [0, 99, 0];
    }
  }

  /** 1999 as a u16, true and 12345678 as a u32. */
  function TestHeader(): Packet {
    Write(Write(Write(Create(), U16(1999)), Bool(true)), U32(12_345_678))
  }

  /** The test header followed by the string "oh:" and the raw bytes "abc". */
  function TestPacket(): Packet {
    var s := WriteString(TestHeader(), Ascii("oh:"));
    if s.Err? then TestHeader() else Append(s.value, Ascii("abc"), 3).packet
  }

  const HeaderBytes: seq<u8> := [0x07, 0xCF, 1, 0x00, 0xBC, 0x61, 0x4E]

  const TestBytes: seq<u8> := HeaderBytes + [0, 0, 0, 3, 111, 104, 58, 97, 98, 99]

  /** 1999 = 0x07CF, then true, then 12345678 = 0x00BC614E. */
  lemma TestHeaderBytes()
    ensures TestHeader() == Packet(HeaderBytes, 0)
  {
    TestEncodings();
  }

  /** The length 3 and "oh:" follow the header; "abc" follows them. */
  lemma TestPacketBytes()
    ensures TestPacket() == Packet(TestBytes, 0)
  {
    TestHeaderBytes();
    TestEncodings();
    var oh: seq<u8> := [111, 104, 58];
    assert 0 !in oh;
    var q := WriteString(Packet(HeaderBytes, 0), oh);
    assert q == Ok(Packet(HeaderBytes + [0, 0, 0, 3] + oh, 0));
    var abc: seq<u8> := [97, 98, 99];
    assert Append(q.value, abc, 3).packet.data == HeaderBytes + [0, 0, 0, 3] + oh + abc;
  }

  lemma TestEncodings()
    ensures Encode(U16(1999)) == [0x07, 0xCF]
    ensures Encode(U32(12_345_678)) == [0x00, 0xBC, 0x61, 0x4E]
    ensures Encode(Bool(true)) == [1]
    ensures LengthPrefix(3) == [0, 0, 0, 3]
    ensures Ascii("oh:") == [111, 104, 58]
    ensures Ascii("abc") == [97, 98, 99]
  {
  }

  /** The widths add up to 2 + 1 + 4 + (4 + 3) + 3 = 17 bytes, with "h:a" at 12..15,
      and clearing the original leaves its copy whole. */
  lemma TestPacketSizeAndCopy()
    ensures DataSize(TestPacket()) == 17
    ensures TestPacket().data[12..15] == Ascii("h:a")
    ensures var copy := Copy(TestPacket());
            var cleared := Clear(TestPacket());
            DataSize(cleared) == 0 && IsAtEnd(cleared) && copy.data == TestPacket().data
  {
    TestPacketBytes();
    assert TestBytes[12..15] == [104, 58, 97];
    assert Ascii("h:a") == [104, 58, 97];
  }

  /** Read back in write order, the typed reads return 1999, true and 12345678. */
  lemma TestPacketTypedReads()
    ensures Read(Packet(TestBytes, 0), U16Kind) == (U16(1999), Packet(TestBytes, 2))
    ensures Read(Packet(TestBytes, 2), BoolKind) == (Bool(true), Packet(TestBytes, 3))
    ensures Read(Packet(TestBytes, 3), U32Kind) == (U32(12_345_678), Packet(TestBytes, 7))
  {
    TestEncodings();
    ReadWritten(TestBytes, 0, U16(1999));
    ReadWritten(TestBytes, 2, Bool(true));
    ReadWritten(TestBytes, 3, U32(12_345_678));
  }

  /** After the typed reads, the reader drains the remaining ten bytes (the length
      prefix included) into a 16-byte buffer, leaving the packet at its end. */
  lemma TestPacketDrain(zeros: seq<u8>)
    requires zeros == seq(16, _ => 0)
    ensures ReadInto(Packet(TestBytes, 7), zeros).0 == 10
    ensures ReadInto(Packet(TestBytes, 7), zeros).1[4..10] == Ascii("oh:abc")
    ensures IsAtEnd(ReadInto(Packet(TestBytes, 7), zeros).2)
  {
    var r := ReadInto(Packet(TestBytes, 7), zeros);
    assert r.1[4..10] == TestBytes[11..17];
    assert Ascii("oh:abc") == [111, 104, 58, 97, 98, 99];
  }
}

# rust-csfml core, modelled in Dafny

rust-csfml is a Rust binding to CSFML, the C interface of SFML. Most of the crate
forwards calls to the C library. This project models the parts whose behaviour is
decided in Rust and proves properties about them:

- **Socket statuses and results.** The mapping from transport status codes to the
  four-way network `Error` (`code_to_err`). Also how the socket wrappers shape the
  values the transport hands back: accept, the local and remote ports, partial
  sends, TCP and UDP receives, and the defaults of `bind`, `listen` and `wait`.
- **The packet.** Packets are modelled as a byte buffer with a read cursor. The
  model covers the typed integer and bool reads and writes, strings, `append`, and
  the `Read`/`Write` adapters (`Reader::read`, `Writer::write`). The packet unit
  test is replayed as lemmas.
- **`Time`.** The integer side of `Time`: signed 64-bit microseconds with checked
  arithmetic, equality and ordering.
- **`Rect<i32>`.** Containment, intersection, corners, and the C conversion.
- **`Color`.** Packing to and from a 32-bit integer, `#RRGGBB` parsing, the named
  constants, and the C conversion.
- **`PrimitiveType`.** The kind enum, its C ordinal, and the vertex arity of the
  supported kinds.
- **Window events.** The decoder from the C event's tag and union views to the
  Rust `Event` enum. Several paired kinds decode to one variant: KeyReleased
  becomes KeyPressed, and TouchEnded becomes TouchBegan.
- **Window styles.** The style flags and the default style.
- **Build script.** The pure helpers of the build script:
  - re-rooting archive paths;
  - the table from target triple to download URL;
  - the choice of archive format from the URL;
  - the list of headers in the generated wrapper.

Modelling choices:

- Rust's debug-build overflow panics, and the panics of `code_to_err`,
  `from_hex`, `vertex_count`, `r#type` and `get_cfml_url`, become preconditions;
  `PrimitiveTypes.Type` requires `Supported`.
- The slice-bound panics of `send_partial` (`&data[sent..]`) and of the TCP and UDP
  `receive` (`&buf[..size]`) become the preconditions `sent <= |data|` and
  `size <= |buf|`. They rest on the C library's promise never to report more bytes
  than the buffer it was given.
- Every call into the C library becomes a parameter carrying its output: a status
  code, a port, a byte count, an address, or the library's answer as a function.
  The wrapper's decisions on those outputs are modelled exactly.
- Each source module is one Dafny module: `SocketError`, `Sockets`, `Packets`
  (plus `PacketScenario`), `Times`, `Rects`, `Colors`, `PrimitiveTypes`, `Events`,
  `Styles` and `BuildScript`. `Ints` holds the integer widths and Rust's
  truncating `/` and `%`. `Results` holds `Option` and `Result`.

The C library's constants are not in the Rust sources. The model takes them from
CSFML's headers:

- `sfSocketStatus`: Done, NotReady, Partial, Disconnected, Error are 0 to 4.
- `sfEventType`: numbered 0 to 22 in the order of `EventType`'s declaration, with
  `sfEvtCount` = 23.
- `sfPrimitiveType`: 0 to 6 in declaration order.
- SFML packets store integers most significant byte first, with a four-byte
  length before a string's bytes.

## Model

| member | source | states |
|---|---|---|
| SocketError.CodeToErr | src/network/error.rs:18-27 | Done, and only Done, gives `Ok(())`. NotReady, Partial and Disconnected give the error of the same name. Error gives `OtherError`. Any other code panics, which the precondition excludes. |
| SocketError.StatusOf | src/network/error.rs:8-13 | every value `code_to_err` can return comes from a known status |
| SocketError.CodeToErrRoundTrip | src/network/error.rs:18-27 | the mapping loses nothing: each known status is recovered from its result, and each result is the image of exactly one status |
| SocketError.CodeToErrInjective | src/network/error.rs:18-27 | distinct known statuses give distinct results |
| Sockets.Accept | src/network/socket.rs:171-184 | `Ok(None)` exactly when the listener is non-blocking and the status is NotReady. `Ok(Some(socket))`, holding the handle the transport wrote, exactly when the status is Done. Every other status, NotReady on a blocking listener included, is `Err(Some(OtherError))`. |
| Sockets.AcceptAgreesWithStatus | src/network/socket.rs:175-183 | a blocking listener accepts exactly when `code_to_err` succeeds. A non-blocking one behaves the same on every status except NotReady, which it does not treat as an error. |
| Sockets.ListenerLocalPort | src/network/socket.rs:152-159 | port 0 (not listening) is `Err(OtherError)`; any other port is returned |
| Sockets.SocketLocalPort | src/network/socket.rs:228-235 | port 0 (not bound) is `None`; any other port is `Some` of it. `UdpSocket::get_local_port` (lines 359-366) is the same code. |
| Sockets.LocalPortsAgree | src/network/socket.rs:152-159 | the listener reports a port exactly when the sockets do, and then the same port |
| Sockets.GetRemote | src/network/socket.rs:238-250 | remote port 0 (no connection) is `Err(OtherError)`; otherwise the result carries the reported port and address |
| Sockets.GetRemoteRoundTrip | src/network/socket.rs:238-250 | every connected peer is reported back unchanged, and a reported peer never has port 0 |
| Sockets.SendPartial | src/network/socket.rs:278-290 | succeeds exactly on Done, returning the unsent suffix: `data == data[..sent] + rest`. Any other status is `code_to_err`'s error. |
| Sockets.SendPartialComposes | src/network/socket.rs:277-290 | sending `a` bytes and then `b` bytes of the rest leaves what one send of `a + b` bytes leaves |
| Sockets.TcpReceive | src/network/socket.rs:299-311 | always `Ok`, with the first `size` bytes of the buffer |
| Sockets.TcpReceiveIgnoresStatus | src/network/socket.rs:309-310 | the result does not depend on the status: a disconnected socket reads like a successful one |
| Sockets.UdpReceiveAsWritten | src/network/socket.rs:409-430 | the code as written: `Ok` exactly on Done, with `buf[..size]` and a sender whose address is `IpAddress::none()`; otherwise `code_to_err`'s error |
| Sockets.UdpReceiveAsWrittenLosesSender | src/network/socket.rs:411-424 | the reported sender does not depend on the address the transport wrote; a datagram from 127.0.0.1 is reported as coming from `none()` |
| Sockets.UdpReceive | src/network/socket.rs:409-430 | the corrected receive: `Ok` exactly on Done, with data `buf[..size]`; otherwise `code_to_err`'s error |
| Sockets.UdpReceiveReportsSender | src/network/socket.rs:409-430 | the corrected receive reports the transport's address and port. It differs from the code as written only in that address. |
| Sockets.ReceivePacketAsWritten | src/network/socket.rs:433-448 | the code as written: `Ok` exactly on Done, always with address `none()` and the reported port |
| Sockets.ReceivePacketAsWrittenLosesSender | src/network/socket.rs:434-445 | a packet from 127.0.0.1 is reported as coming from `none()` |
| Sockets.ReceivePacket | src/network/socket.rs:433-448 | the corrected packet receive: `Ok` exactly on Done, otherwise `code_to_err`'s error |
| Sockets.ReceivePacketReportsSender | src/network/socket.rs:433-448 | the corrected packet receive reports the transport's sender, the same one the corrected raw receive reports |
| Sockets.BindArguments | src/network/socket.rs:369-371 | an absent port becomes 0 and an absent address becomes `IpAddress::from(0)`; given ones pass through |
| Sockets.Bind | src/network/socket.rs:369-374 | the result is `code_to_err` of the transport's answer to the defaulted arguments, with nothing lost |
| Sockets.BindDefaults | src/network/socket.rs:369-374 | leaving an argument out is the same as passing its default |
| Sockets.ListenArguments | src/network/socket.rs:163-164 | the port passes through; an absent address becomes the transport's "any" address |
| Sockets.Listen | src/network/socket.rs:163-167 | the result is `code_to_err` of the transport's answer, with nothing lost |
| Sockets.ListenDefaults | src/network/socket.rs:163-167 | listening with no address is listening on "any" (0.0.0.0); that is the address `bind` defaults to, so `listen` and `bind` make the same call for the same port |
| Sockets.WaitTimeout | src/network/socket.rs:99-100 | an absent timeout becomes 0 µs; a given one passes through |
| Sockets.WaitDefaultIsZero | src/network/socket.rs:99-103 | `wait` answers "ready" exactly when the transport returns nonzero, and waiting with no timeout passes zero microseconds, which the library takes as "no time limit" |
| Sockets.Wait | src/network/socket.rs:99-103 | `wait` is "ready" exactly when the transport, asked with the given timeout or with zero, answers nonzero |
| Packets.Create | src/network/packet.rs:33-40 | a new packet is valid, empty and at its end |
| Packets.Clear | src/network/packet.rs:58-60 | whatever it held, a cleared packet is empty and at its end |
| Packets.Append | src/network/packet.rs:74-85 | the bytes the library took follow the old contents and the cursor stays put. The size check succeeds exactly when every byte was taken. |
| Packets.Width | src/network/packet.rs:134-237 | each integer or bool kind takes one to four bytes |
| Packets.Bytes16RoundTrip | src/network/packet.rs:164-177 | a `u16` is recovered from its two bytes |
| Packets.Bytes32RoundTrip | src/network/packet.rs:179-192 | a `u32` is recovered from its four bytes |
| Packets.ToUnsigned | src/network/packet.rs:194-237 | a signed value's two's-complement image lies below the modulus |
| Packets.ToSigned | src/network/packet.rs:194-237 | reading an unsigned image as signed gives a value in the signed range |
| Packets.SignedRoundTrip | src/network/packet.rs:194-237 | `i8`, `i16` and `i32` survive the trip through their unsigned image |
| Packets.Encode | src/network/packet.rs:140-237 | a value's encoding is exactly as long as its kind's width |
| Packets.Decode | src/network/packet.rs:134-228 | decoding with a kind yields a value of that kind |
| Packets.DecodeEncode | src/network/packet.rs:134-237 | decoding the encoding of any value, with its own kind, gives the value back |
| Packets.DataSize | src/network/packet.rs:70-72 | the size is the read bytes plus the unread ones |
| Packets.IsAtEnd | src/network/packet.rs:88-90 | a packet is at its end exactly when no unread byte remains |
| Packets.Copy | src/network/packet.rs:49-56 | the copy has the same bytes and cursor, so the same size and end state |
| Packets.Write | src/network/packet.rs:108-113 | `write` appends the value's encoding, leaves the cursor, and grows the size by the kind's width |
| Packets.Read | src/network/packet.rs:101-106 | `read` yields a value of the requested kind, leaves the bytes alone and moves the cursor by the width |
| Packets.ReadAfterWrite | src/network/packet.rs:101-113 | on a packet read to its end, a read right after a write of the same kind returns the written value and ends at the end again |
| Packets.WriteString | src/network/packet.rs:282-290 | fails exactly when the string holds a NUL byte, with the message naming the position of the first one; otherwise appends the length prefix and the bytes |
| Packets.FirstNul | src/network/packet.rs:284 | the reported position holds a NUL and no NUL comes before it |
| Packets.DecimalText | src/network/packet.rs:284 | the position is written in decimal digits, with no leading zero |
| Packets.DecimalRoundTrip | src/network/packet.rs:284 | the decimal text of a number reads back as that number |
| PacketScenario.NulPositionExample | src/network/packet.rs:282-290 | "ab\0c\0" is refused at position 2 |
| Packets.ReadString | src/network/packet.rs:269-280 | always fails, because the destination handed to the library is null and stays null |
| Packets.WriteAll | src/network/packet.rs:108-113 | writing values one after another appends their encodings in order |
| Packets.ReadAll | src/network/packet.rs:101-106 | reading kinds one after another yields values of those kinds and moves the cursor by their total width |
| Packets.ReadWritten | src/network/packet.rs:101-106 | wherever a value's encoding sits in a packet, reading its kind there returns it and moves past it |
| Packets.ReadAllWritten | src/network/packet.rs:101-113 | wherever a sequence of encodings sits, reading their kinds in order returns the values and ends right after them |
| Packets.WriteReadRoundTrip | src/network/packet.rs:101-113 | values written to a fresh packet are read back in order; every prefix of them is read correctly, and the packet is at its end exactly after the last one |
| Packets.EncodeAllEmpty | src/network/packet.rs:140-237 | only the empty sequence of values encodes to no bytes |
| Packets.ReadByteIsRead | src/network/packet.rs:345 | the byte `Reader::read` takes is the one a typed `u8` read returns |
| Packets.ReaderRead | src/network/packet.rs:338-350 | the loop copies the unread bytes, as many as fit, over the front of the buffer and leaves the rest of the buffer. It moves the cursor past them and returns their count, which never exceeds the buffer. |
| Packets.ReadInto | src/network/packet.rs:338-350 | the reference read copies as many unread bytes as fit, over the front of the buffer, keeps the rest, and moves the cursor past them |
| Packets.ReaderStep | src/network/packet.rs:341-347 | one loop step copies the next unread byte into the next buffer slot and moves the cursor by one |
| Packets.ReaderDone | src/network/packet.rs:338-350 | when the buffer is full or the packet at its end, the loop has done what the reference read describes |
| Packets.ReadByte | src/network/packet.rs:345 | taking a byte leaves the bytes alone and one fewer unread |
| Packets.WriterWrite | src/network/packet.rs:313-326 | `Writer::write` always succeeds, reports the whole buffer as written, and appends it after the contents |
| PacketScenario.TestHeaderBytes | src/network/packet.rs:376-387 | 1999, true and 12345678 are written as the seven bytes 07 CF 01 00 BC 61 4E |
| PacketScenario.TestPacketBytes | src/network/packet.rs:388-396 | the string "oh:" and the raw "abc" follow as 00 00 00 03 'o' 'h' ':' 'a' 'b' 'c' |
| PacketScenario.TestEncodings | src/network/packet.rs:376-396 | the encodings of the test's values and strings, byte by byte |
| PacketScenario.TestPacketSizeAndCopy | src/network/packet.rs:397-402 | the test packet has 17 bytes with "h:a" at 12..15; clearing it leaves a copy whole |
| PacketScenario.TestPacketTypedReads | src/network/packet.rs:404-416 | reading u16, bool and u32 from the start returns 1999, true and 12345678 |
| PacketScenario.TestPacketDrain | src/network/packet.rs:417-428 | the reader then drains the last ten bytes, so "oh:abc" lands at 4..10 of the buffer, and the packet is at its end |
| Times.Default | src/system/time.rs:60-64 | the default time is zero microseconds |
| Times.NewRoundTrip | src/system/time.rs:211-213 | `new` and `microseconds` store their argument, and a time is rebuilt from its microseconds |
| Times.New | src/system/time.rs:211-213 | a new time has the given microseconds |
| Times.Microseconds | src/system/time.rs:315-317 | `microseconds` is `new` |
| Times.Milliseconds | src/system/time.rs:297-299 | a time made from milliseconds is a whole number of milliseconds |
| Times.MillisecondsExact | src/system/time.rs:297-299 | dividing by 1000 with Rust's truncation recovers the milliseconds with no remainder |
| Times.AddCommutes | src/system/time.rs:95-101 | addition commutes |
| Times.AddAssociates | src/system/time.rs:95-101 | addition associates when no partial sum overflows |
| Times.AddIdentity | src/system/time.rs:95-101 | the default time is the identity of addition |
| Times.Add | src/system/time.rs:95-101 | the sum has the summed microseconds, and adding a positive (negative) time gives a later (earlier) time |
| Times.AddAssign | src/system/time.rs:103-108 | `+=` leaves the sum in place |
| Times.SubAsWrittenIgnoresLeft | src/system/time.rs:80-86 | the subtraction as written ignores its left operand |
| Times.SubAsWrittenBreaksInverse | src/system/time.rs:80-86 | as written, 5 µs - 3 µs is -3 µs, and adding 3 µs back does not give 5 µs |
| Times.SubAsWritten | src/system/time.rs:80-86 | as written, the result is the negated right operand, which added to the right operand gives zero |
| Times.SubAssign | src/system/time.rs:88-93 | `-=` goes through the written `Sub`: the place ends up holding the negated right operand |
| Times.SubInvertsAdd | src/system/time.rs:80-86 | the corrected subtraction undoes addition and takes a time minus itself to zero |
| Times.Sub | src/system/time.rs:80-86 | the corrected difference has the subtracted microseconds and adding the right operand back gives the left one |
| Times.SubAssignIntended | src/system/time.rs:88-93 | `-=` with the corrected `Sub` leaves a value that the right operand added back turns into the old one |
| Times.AssignRoundTrip | src/system/time.rs:88-108 | `+=` then `-=` of one amount restores the start with the corrected subtraction; as written the start is lost, 5 µs becoming -3 µs |
| Times.MulLeft | src/system/time.rs:126-132 | `k * t` has `k` times the microseconds of `t` |
| Times.MulCommutes | src/system/time.rs:118-132 | `k * t` equals `t * k`; multiplying by 1 changes nothing and by 0 gives zero |
| Times.Mul | src/system/time.rs:118-124 | the product has the microseconds times the factor; 1 changes nothing and 0 gives zero |
| Times.MulAssign | src/system/time.rs:140-144 | `*=` leaves the product in place |
| Times.Div | src/system/time.rs:154-160 | the quotient is truncated toward zero: its magnitude times the divisor's does not exceed the dividend's, the next magnitude would, and a nonzero quotient is positive exactly when dividend and divisor have the same sign |
| Times.DivUndoesMul | src/system/time.rs:118-160 | dividing a product by its factor gives the time back |
| Times.DivAssign | src/system/time.rs:168-172 | `/=` leaves the quotient truncated toward zero in place |
| Times.Rem | src/system/time.rs:174-180 | the remainder is smaller in magnitude than the divisor and has the dividend's sign (Rust's `%`) |
| Times.DivRemRebuild | src/system/time.rs:154-180 | quotient times divisor plus remainder is the dividend |
| Times.RemAssign | src/system/time.rs:182-186 | `%=` leaves the remainder in place, smaller in magnitude than the divisor |
| Times.EqIsEquality | src/system/time.rs:66-70 | two times are equal exactly when their microseconds are |
| Times.Eq | src/system/time.rs:66-70 | `eq` holds exactly when the two times are the same |
| Times.CompareIsTotalOrder | src/system/time.rs:74-78 | the comparison agrees with equality, is antisymmetric and is transitive |
| Times.Compare | src/system/time.rs:74-78 | the comparison is `Equal` exactly for equal times and `Less` exactly when the first has fewer microseconds |
| Times.AddPositiveIsLater | src/system/time.rs:74-101 | adding a positive time gives a later time |
| Rects.Contains | src/graphics/rect.rs:31-41 | a point is inside exactly when each coordinate lies in the half-open span its side covers, whatever the sign of the extent; an empty rectangle contains nothing |
| Rects.Flip | src/graphics/rect.rs:35-38 | the same area described from the opposite corners still fits the integer range |
| Rects.ContainsFlip | src/graphics/rect.rs:35-40 | a rectangle with negative extents contains the same points as the same area with positive ones, and flipping twice is the identity |
| Rects.Intersects | src/graphics/rect.rs:44-73 | any intersection found has positive width and height |
| Rects.FarApartIntersectsNot | src/graphics/rect.rs:44-73 | two rectangles at the two ends of the i32 range are reported as not intersecting, although their gap does not fit in an i32 |
| Rects.IntersectionIsCommon | src/graphics/rect.rs:44-73 | a point lies in the intersection exactly when it lies in both rectangles |
| Rects.NoIntersectionNoCommon | src/graphics/rect.rs:44-73 | when no intersection is reported, no point lies in both |
| Rects.IntersectsIffCommonPoint | src/graphics/rect.rs:44-73 | an intersection is reported exactly when the rectangles share a point |
| Rects.IntersectsSymmetric | src/graphics/rect.rs:44-73 | the intersection does not depend on the order of the rectangles |
| Rects.Equals | src/graphics/rect.rs:76-81 | `equals` holds exactly when all four fields agree |
| Rects.CornersAndSize | src/graphics/rect.rs:84-108 | the far corner is the near corner plus the size; a positive rectangle contains its near corner and not its far one |
| Rects.GetCorner | src/graphics/rect.rs:84-86 | a rectangle with positive extents contains its corner |
| Rects.GetOtherCorner | src/graphics/rect.rs:92-101 | the other corner is the corner plus the size, and a rectangle with positive extents does not contain it |
| Rects.GetSize | src/graphics/rect.rs:103-105 | the size's magnitudes are the widths of the normalised spans |
| Rects.CsfmlRoundTrip | src/graphics/rect.rs:114-127 | the conversions to and from `sfIntRect` are inverse |
| Rects.ToCsfml | src/graphics/rect.rs:114-122 | converting back from `sfIntRect` gives the rectangle again |
| Rects.FromCsfml | src/graphics/rect.rs:124-127 | the rectangle has the struct's corner and size |
| Rects.RectExamples | src/graphics/rect.rs:179-248 | the unit tests' containment, intersection, corner, size and conversion results |
| Colors.FromRgba | src/graphics/color.rs:51-58 | the color packs to the integer 0xRRGGBBAA of its four arguments |
| Colors.FromRgb | src/graphics/color.rs:40-47 | `from_rgb` is `from_rgba` with alpha 255 |
| Colors.IntegerRoundTrip | src/graphics/color.rs:62-75 | `from_integer` and `to_integer` are inverse on every `u32` and every color |
| Colors.FromInteger | src/graphics/color.rs:62-70 | the color made from an integer packs back to that integer |
| Colors.ToInteger | src/graphics/color.rs:73-75 | the packed integer holds r, g, b and a from the most significant byte down |
| Colors.DigitOf | src/graphics/color.rs:96 | a hexadecimal digit has a value below 16 |
| Colors.HexChar | src/graphics/color.rs:96 | every value below 16 has a digit that parses back to it |
| Colors.HexByte | src/graphics/color.rs:96 | a byte written as two digits parses back to the byte |
| Colors.ToHex | src/graphics/color.rs:90-98 | the `#RRGGBB` text of a color is accepted by `from_hex` |
| Colors.ToHexValue | src/graphics/color.rs:96 | the six digits of a color's text read as the number with r, g, b from the top |
| Colors.FromHexOfDigits | src/graphics/color.rs:96-97 | an unsigned six-digit text gives the color of its value shifted up one byte with alpha 255 |
| Colors.ValidHex | src/graphics/color.rs:91-96 | the accepted texts are exactly seven characters, `#`, then six hexadecimal digits or `+` and five; every accepted character is ASCII, so the byte-length test is the character count |
| Colors.DigitsValue | src/graphics/color.rs:96 | the nibble-shifting reading of the digits is the value `from_str_radix` accumulates by multiplying by sixteen and adding each digit |
| Colors.RadixValue | src/graphics/color.rs:96 | the accumulated value of k digits stays below 16^k, so u32 arithmetic never overflows for the at most seven digits `from_hex` passes |
| Colors.FromHex | src/graphics/color.rs:90-98 | every color `from_hex` makes has alpha 255 |
| Colors.HexRoundTrip | src/graphics/color.rs:90-98 | every color with alpha 255 is recovered from its `#RRGGBB` text |
| Colors.SameNibblesSameValue | src/graphics/color.rs:96 | digit strings with the same digit values read as the same number |
| Colors.LeadingZero | src/graphics/color.rs:96 | a leading zero digit does not change the value |
| Colors.FromHexSameNibbles | src/graphics/color.rs:96 | `from_hex` ignores the case of the digits |
| Colors.FromHexSignIsZero | src/graphics/color.rs:96 | a `+` after the `#` reads like a leading zero, because `from_str_radix` accepts one |
| Colors.LowerCaseHexExample | src/graphics/color.rs:96 | "#4bda9c" and "#4BDA9C" give the same color |
| Colors.SignedHexExample | src/graphics/color.rs:96-97 | "#+4BDA9" is accepted and gives 0x04BDA9FF |
| Colors.RejectedHexExamples | src/graphics/color.rs:91-96 | these texts panic: a missing `#`, a short text, a non-digit, a `-` sign |
| Colors.CsfmlRoundTrip | src/graphics/color.rs:23-36 | the conversions to and from `sfColor` are inverse |
| Colors.ToCsfml | src/graphics/color.rs:29-36 | converting back from `sfColor` gives the color again |
| Colors.FromCsfml | src/graphics/color.rs:23-27 | the color has the struct's four channels in order |
| Colors.Ivec4RoundTrip | src/graphics/color.rs:145-147 | the int vector holds the four components in order |
| Colors.ToIvec4 | src/graphics/color.rs:145-147 | the four components rebuild the color through `from_rgba` |
| Colors.Constants | src/graphics/color.rs:152-160 | the named colors pack to their expected integers |
| Colors.ColorExamples | src/graphics/color.rs:184-214 | the unit tests: "#4BDA9C", rgb(75, 218, 156) and 0x4BDA9CFF are one color, and the `sfColor` round trip keeps (5, 12, 28, 127) |
| PrimitiveTypes.ToCsfml | src/graphics/primitive_type.rs:21-23 | every kind's ordinal is below 7 |
| PrimitiveTypes.CsfmlRoundTrip | src/graphics/primitive_type.rs:59-63 | the conversions to and from `sfPrimitiveType` are inverse on the seven ordinals |
| PrimitiveTypes.FromCsfml | src/graphics/primitive_type.rs:59-63 | the kind read from an ordinal below 7 has that ordinal |
| PrimitiveTypes.ToCsfmlInjective | src/graphics/primitive_type.rs:8-23 | distinct kinds have distinct ordinals |
| PrimitiveTypes.VertexCount | src/graphics/primitive_type.rs:48-56 | a supported kind's primitive has one to four vertices; the strips and the fan panic |
| PrimitiveTypes.Type | src/graphics/primitive_type.rs:27-44 | `type` builds a primitive of exactly `vertex_count` vertices, all of them default ones |
| PrimitiveTypes.TypeMatchesVertexCount | src/graphics/primitive_type.rs:27-56 | `type` builds a primitive with exactly `vertex_count` vertices, and distinct supported kinds build distinct primitives |
| PrimitiveTypes.VertexCountValues | src/graphics/primitive_type.rs:48-56 | points, lines, triangles and quads have 1, 2, 3 and 4 vertices; the strips and the fan are unsupported |
| Events.EventCount | src/window/event.rs:172-175 | every event type's code is below `event_count()` |
| Events.Code | src/window/event.rs:23-49 | every event type has a code below 23 |
| Events.TypeOf | src/window/event.rs:84-166 | a tag names a kind exactly when it is below 23, and the kind it names has the tag as its code |
| Events.TypeOfCode | src/window/event.rs:23-49 | every kind's code is a tag that names the same kind again |
| Events.Collapse | src/window/event.rs:97-158 | the folded kind is always a reported kind; reported kinds stay as they are and paired kinds move |
| Events.CollapseIdempotent | src/window/event.rs:97-158 | folding a paired kind onto its representative is idempotent |
| Events.DecodeKind | src/window/event.rs:84-166 | decoding a known tag gives an event of the tag's kind after folding |
| Events.FromCsfml | src/window/event.rs:82-168 | the decoder fails exactly on tags of 23 and above, with `Unimplemented(tag)`; otherwise the event's kind is the tag's type after folding |
| Events.NeverProduced | src/window/event.rs:53-78 | the decoder never builds KeyReleased, MouseButtonReleased, JoystickButtonReleased, JoystickDisconnected, TouchMoved, TouchEnded or Unimplemented |
| Events.PayloadFreeKinds | src/window/event.rs:85-133 | Closed, LostFocus, GainedFocus, MouseEntered and MouseLeft decode to their payload-free variants |
| Events.PayloadsCopied | src/window/event.rs:86-166 | each single-kind arm copies its view's fields in order: Resized its width and height, TextEntered its code point, MouseWheelMoved its delta, x and y, MouseWheelScrolled its wheel and position, MouseMoved its position, JoystickMoved its joystick id and axis, SensorChanged its sensor type |
| Events.KeyEventsCollapse | src/window/event.rs:97-103 | key press and release both decode to KeyPressed, with the code copied and each modifier true exactly when its raw value is nonzero |
| Events.MouseButtonsCollapse | src/window/event.rs:117-125 | mouse button press and release both decode to MouseButtonPressed with the button and position copied |
| Events.JoystickButtonsCollapse | src/window/event.rs:134-139 | joystick button press and release both decode to JoystickButtonPressed |
| Events.JoystickConnectionsCollapse | src/window/event.rs:145-149 | joystick connection and disconnection both decode to JoystickConnected |
| Events.TouchesCollapse | src/window/event.rs:150-158 | touch begin, move and end all decode to TouchBegan with the finger and position copied |
| Events.ReadsOnlySelectedView | src/window/event.rs:84-167 | the decoder reads only the union view its tag selects: raw events that agree on it decode alike |
| Styles.FlagsAreSingleBits | src/window/style.rs:5-9 | the four flags are distinct single bits, and the empty style has none of them |
| Styles.DefaultStyle | src/window/style.rs:11-12 | the default style is 7: title bar, resize and close, without fullscreen |
| Styles.SetFlag | src/window/style.rs:5-12 | or-ing a flag in sets it and keeps every flag that shares no bit with it |
| BuildScript.AdjustPath | sys/build.rs:149-163 | the first component becomes `CSFML` and the rest is kept; an empty path is returned as it is |
| BuildScript.StripPrefix | sys/build.rs:139 | stripping succeeds exactly when the path's first component is the prefix, and the prefix put back in front gives the path again |
| BuildScript.UnpackTarget | sys/build.rs:136-139 | an entry unpacks exactly when its path is non-empty, to the extraction directory followed by every component of the entry below its first |
| BuildScript.AdjustPathReRoots | sys/build.rs:136-140 | re-rooting is idempotent, and an entry unpacks to the target directory plus everything below its top-level folder; only an empty entry fails |
| BuildScript.GetCsfmlUrl | sys/build.rs:166-180 | every download URL lies in the SFML site's files directory; any other target panics |
| BuildScript.UrlTableInjective | sys/build.rs:166-180 | the four targets download four different archives |
| BuildScript.TrimTail | sys/build.rs:74-76 | only trailing separators and trailing `.` components are cut off, and what remains ends in neither |
| BuildScript.LastSegment | sys/build.rs:74-76 | the last segment holds no slash and is everything after the last slash of the path, or the whole path when it has none |
| BuildScript.FileName | sys/build.rs:74-76 | a file name is the non-empty final segment of the path once its trailing separators and `.` components are gone, and is neither `.` nor `..` |
| BuildScript.FileNameIgnoresTail | sys/build.rs:74-78 | a trailing `/` or `/.` changes neither the file name nor a zip decision |
| BuildScript.TrailingDotZipExample | sys/build.rs:74-78 | `https://host/CSFML.zip/.` is a zip |
| BuildScript.LastDot | sys/build.rs:74-76 | no position is reported exactly when the text has no dot; a reported position holds a dot with none after it |
| BuildScript.Extension | sys/build.rs:74-76 | an extension is dot-free text that follows a dot which is not the first character; a name without a dot has none |
| BuildScript.FormatOf | sys/build.rs:74-83 | a URL is taken as tar.gz only when it ends in ".tar.gz" |
| BuildScript.FileNameAfterSlash | sys/build.rs:74-75 | the file name of `dir/name` is `name` |
| BuildScript.ExtensionAfterDot | sys/build.rs:74-75 | the extension of `stem.tail`, with no dot in `tail`, is `tail` |
| BuildScript.ExtensionOfUrl | sys/build.rs:74-76 | a URL's extension is the text after the last dot of its last segment |
| BuildScript.ZipUrl | sys/build.rs:74-78 | a URL whose extension is "zip" in any letter case is extracted as a zip |
| BuildScript.TarGzUrl | sys/build.rs:79-80 | a URL ending in ".tar.gz" is extracted as tar.gz |
| BuildScript.WindowsUrlsAreZip | sys/build.rs:173-178 | both Windows archives are zips |
| BuildScript.ArchiveIsZip | sys/build.rs:173-178 | a target whose archive is named `<stem>.zip` is unpacked as a zip |
| BuildScript.MacUrlsAreTarGz | sys/build.rs:167-172 | both macOS archives are tar.gz |
| BuildScript.UpperCaseZipExample | sys/build.rs:74-78 | ".ZIP" is a zip too |
| BuildScript.DotZipExample | sys/build.rs:74-83 | a file named ".zip" has no extension and is rejected |
| BuildScript.RefusedUrl | sys/build.rs:74-85 | a URL whose extension is not "zip" in any letter case and which does not end in ".tar.gz" is refused as an unsupported format |
| BuildScript.OtherFormatExample | sys/build.rs:74-83 | a ".tar.bz2" archive is rejected |
| BuildScript.WrapperModules | sys/build.rs:191-214 | System always comes first |
| BuildScript.Headers | sys/build.rs:191-214 | the list starts with System's header, holds the header of a module exactly when the module is enabled, and repeats none |
| BuildScript.LinkedLibraries | sys/build.rs:191-214 | the linked libraries start with csfml-system, hold a module's library exactly when the module is enabled, and repeat none |
| BuildScript.HeadersMatchLibraries | sys/build.rs:191-214 | each header is included together with the library of the same module, in the same order |
| BuildScript.NamedModules | sys/build.rs:191-214 | naming the wrapper's modules one-to-one names System first, exactly the enabled modules, and none twice |
| BuildScript.WrapperSelectsEnabled | sys/build.rs:191-214 | the wrapper's modules are the enabled modules in the fixed order System, Audio, Window, Graphics, Network |
| BuildScript.SelectMembers | sys/build.rs:191-214 | selecting keeps exactly the enabled members and adds no duplicates |
| BuildScript.WrapperMembership | sys/build.rs:191-214 | a module is in the wrapper exactly when it is enabled, and none appears twice |
| BuildScript.WrapperExamples | sys/build.rs:191-218 | with no features, the headers are System's alone, the text is the single line `#include <SFML/System.h>`, and only csfml-system is linked |
| BuildScript.AllFeaturesExample | sys/build.rs:191-218 | with every feature on, the five headers in the order System, Audio, Window, Graphics, Network, and the text is their five include lines in that order |
| BuildScript.FiveLines | sys/build.rs:216-218 | the text of five headers is their five include lines, in order |
| BuildScript.WrapperText | sys/build.rs:216-218 | the text is empty exactly when there are no headers, and otherwise starts an include line and ends with a newline |
| BuildScript.WrapperTextAppend | sys/build.rs:216-218 | the text of two header lists is the text of the first followed by that of the second |

## Left out

- Foreign calls: creating, copying and destroying sockets, selectors and packets; null-pointer checks; `Drop`. These are foreign calls and ownership, with nothing decided in Rust beyond a null test.
- Selectors: `add_socket`, `remove_socket`, `clear`, `is_socket_ready` and the `Socket` trait. Each forwards one foreign call.
- `connect`, `send`, `send_packet`, TCP `receive_packet`, `UdpSocket::send` and `send_packet`: each returns `code_to_err` of the transport status unchanged, which `SocketError.CodeToErr` models.
- `set_blocking`, `is_blocking`, `unbind`, `disconnect`, `get_max_datagram_size`: plain foreign calls.
- `IpAddress`: its bytes, `to_int`, `Display`, string parsing, the invalid address, and the local and public address queries belong to the C library. The model identifies an IPv4 address by its 32-bit number; the sixteen bytes the library keeps are that number's dotted text, so equality is the same. The library's "any" constant is 0.0.0.0, as is `IpAddress::from(0)`.
- Sockets.GetRemote: the `debug_assert` that the remote address is not `none()` is not modelled, because the address comes from the transport.
- Floating point: `Time::seconds`, `as_seconds`, `Time * f32`, `Time / f32`, `Color::from_floats`, `from_hsva`, `to_fvec4`, `FloatRect`, the `f32`/`f64` packet reads and writes, and the float fields of events (wheel delta, joystick axis position, sensor values).
- `Time::as_milliseconds` and `as_microseconds`: these call into the C library. The model reads `as_microseconds` as the field it returns.
- Time `to_csfml` and `from_csfml`: transmutes between identical layouts.
- Packet byte order: the wire format (most significant byte first, four-byte string length) is SFML's, not the wrapper's. The model picks it so that encodings and the unit test's sizes can be stated.
- Packets.Read: requires as many unread bytes as the kind is wide, and so does `ReadAll`. Past the end the wrapper still returns `Ok`; the value and the cursor then come from the C library (a zero value and an unmoved cursor in SFML, which also marks the packet invalid for later reads). That validity flag is not part of the model.
- Packets.ReadString: the string decoding that would follow a successful read (`to_string_lossy`) is unreachable, because the destination is always null.
- Packets.Append: the number of bytes the library takes is a parameter. A real append takes all of them unless allocation fails.
- Packets.WriterWrite: states only the success path. The unwrapped append is modelled as taking every byte, because a short append would panic.
- `Writer::flush` (`todo!()`) and `Reader::read_data`/`Writer::write_data`: these forward to `read`/`write`.
- Strings of 4 GiB or more in a packet: the length prefix cannot hold them, so `WriteString` requires a shorter string.
- Events: the C event is modelled with one field per union view. The overlap of the views in memory is not modelled, and neither are the key, button, wheel, axis and sensor enums beyond their raw integers.
- Events.FromCsfml: the `Display` of `EventError` is left out; it is only formatting.
- PrimitiveTypes.FromCsfml: a value of 7 or more is undefined behaviour in the transmute and is excluded by the precondition.
- The derived `Ord` on `PrimitiveType` and `IpAddress`: derived code, nothing decided by hand.
- Build script I/O: downloading, temporary files, unpacking, bindgen, cargo output, and the environment lookups for features, the cache directory and `TARGET`. The features and the target become parameters.
- BuildScript.FileName: only `/` separates components, as on a Unix host. On a Windows host `std::path` also splits on `\`, which the download URLs never contain.
- BuildScript.AdjustPath: paths are lists of components. Prefix, root and `.` components of `std::path` are not modelled.
- `link_sfml_subsystem` output is modelled as the list of library names `LinkedLibraries` gives, not as printed cargo directives.

## Findings

| source | as written | input that shows it | evidently intended | confidence | as-written member | corrected member |
|---|---|---|---|---|---|---|
| src/system/time.rs:83-85 | `a - b` returns `Time::microseconds(-b)`, ignoring `a` | 5 µs - 3 µs gives -3 µs | `a - b` has `a.microseconds - b.microseconds` | high; not executed | Times.SubAsWrittenBreaksInverse | Times.SubInvertsAdd |
| src/system/time.rs:88-93 | `t -= u` goes through the written `Sub`, so it stores `-u` | `t` = 5 µs, `t -= 3 µs` leaves -3 µs | `t -= u` stores `t - u` | high; not executed | Times.AssignRoundTrip | Times.SubAssignIntended |
| src/network/socket.rs:421 | UDP `receive` passes `&mut remote.ip.to_csfml()`, a pointer to a temporary copy of the address, so the sender's address is written into the temporary and lost | a datagram from 127.0.0.1:5000 is reported as from `IpAddress::none()`:5000 | the sender is the address and port the transport reports | high; not executed | Sockets.UdpReceiveAsWrittenLosesSender | Sockets.UdpReceiveReportsSender |
| src/network/socket.rs:442 | UDP `receive_packet` has the same temporary | a packet from 127.0.0.1:5000 is reported as from `IpAddress::none()`:5000 | the sender is the address and port the transport reports | high; not executed | Sockets.ReceivePacketAsWrittenLosesSender | Sockets.ReceivePacketReportsSender |

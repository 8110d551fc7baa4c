# cybergarage-rs: byte codec and packet, modelled in Dafny

This project models two self-contained pieces of the `cybergarage` Rust
crate, the transport layer of an SSDP/UPnP-style discovery stack, and proves
properties of them.

- **The `Bytes` codec** (`encoding.dfy`, module `Encoding`). It has four
  operations. `from_u32` writes the low bytes of a `u32` into a caller's
  buffer in network byte order, least significant byte last. `to_u32` reads
  such a buffer back. `to_hexstring` renders bytes as upper-case two-digit hex,
  the Base 16 alphabet of section 8 of RFC 4648. `from_hexstr` parses hex pairs
  back into bytes, and `from_hexstring` and `from_hexbytes` wrap it. Each
  operation is an imperative method with the source's loop. Each method is
  proved against a pure function: `EncodeBE` and `BigEndian` for integers,
  `ToHex` and `DecodeHex` for hex text. The two laws the crate's tests check
  on sampled values (`to_u32` after `from_u32`, and `to_hexstring` after
  `from_hexstr`) are proved for all inputs. So are the reverse round trips,
  the lengths and the error case, which the tests do not check.
- **The `Packet` value** (`net.dfy`, module `Net`). It is a class with the
  payload (`data`) and the source `SocketAddr` (`from`) as fields. It has the
  two constructors. The setters change exactly one field, and their frame
  conditions say so. The accessors `from()` and `bytes()` are the functions
  `From()` and `Bytes()`, in whose terms every contract of the class is
  stated. `clone()` builds a fresh, equal packet. `Display` is the function
  `ToString`, which is proved equal to `to_hexstring` of the payload.

Rust's fixed-width integers `u8`, `u16` and `u32` are the subset types
`byte`, `u16` and `u32`; `nibble` is the type of a hex digit's value
(0 to 15). The shifts in `from_u32` and `to_u32` are written out as
`ShiftRightBytes` and `ShiftLeftBytes`. Each requires its shift to be below
32 bits. A larger shift panics when overflow checks are on (debug builds,
`cargo test`) and is taken modulo 32 otherwise; neither case is modelled.
`ToU32` proves that its `val +=` never overflows.

`u8::from_str_radix(src, 16)` is `FromStrRadix16`, with the three error
kinds it can raise here (`Empty`, `InvalidDigit`, `PosOverflow`). It accepts
digits of either case and, like every unsigned parse in Rust, one leading
`+`. So `"+A"` decodes to the byte 10 (`PlusSignAccepted`). The text round
trip `to_hexstring(from_hexstr(s)) == s` therefore holds only for upper-case
hex digits, which is what `ToHexDecode` requires. `ParseHexByte` is that parse
on one pair of characters; its contract shows that a pair can only fail with
an invalid digit, and `DecodeHexErrorKind` carries that to `from_hexstr`.

A packet always has a source: `new` and `from_bytes` set it to `0.0.0.0:0`
(`Unspecified`), and the model does the same.

## Model

| member | source | states |
|---|---|---|
| `Encoding.FromU32` | cybergarage/src/encoding/bytes.rs:22-28 | the whole buffer is overwritten with `EncodeBE(val, len)`: index `len-1-n` holds `(val >> 8n) & 0xFF`, so the result depends only on `val` and the length; at most 4 bytes, since a 32-bit shift panics or wraps |
| `Encoding.ToU32` | cybergarage/src/encoding/bytes.rs:30-38 | the result is the big-endian value of the buffer, `sum of bytes[len-1-n] * 256^n`, the accumulation never overflows a `u32`, and the result is below `256^len` (0 for an empty buffer) |
| `Encoding.ShiftLeftFits` | cybergarage/src/encoding/bytes.rs:35 | a byte shifted left by `8n` bits (`n < 4`) loses no bits, and adding it to the partial sum stays below `256^(n+1) <= 2^32` |
| `Encoding.BigEndianBound` | cybergarage/src/encoding/bytes.rs:30-38 | the value of `k` big-endian bytes is below `256^k` |
| `Encoding.DecodeEncode` | cybergarage/src/encoding/bytes_test.rs:21-45 | reading back what `from_u32` wrote gives `val mod 256^len`, and exactly `val` when `val < 256^len` |
| `Encoding.BigEndianInjective` | cybergarage/src/encoding/bytes.rs:30-38 | two buffers of one length with the same big-endian value are equal |
| `Encoding.EncodeDecode` | cybergarage/src/encoding/bytes.rs:22-38 | writing the value `to_u32` read, on the buffer's own length, gives back the buffer |
| `Encoding.ToHexString` | cybergarage/src/encoding/bytes.rs:60-66 | the result is `ToHex(bytes)`: `2 * len` characters, all in `0-9A-F`, where pair `i` is byte `i`'s high nibble then its low nibble |
| `Encoding.ToHexAt` | cybergarage/src/encoding/bytes.rs:60-66 | `ToHex` has length `2 * len`, and characters `2i` and `2i+1` are the `{:02X}` rendering of byte `i` |
| `Encoding.ToHexIsUpperHex` | cybergarage/src/encoding/bytes.rs:63 | every character of the rendering is an upper-case hex digit |
| `Encoding.ParseHexByte` | cybergarage/src/encoding/bytes.rs:44 | `from_str_radix` on one pair succeeds exactly when the pair is `+` and one hex digit, or two hex digits of either case; the value is that digit, or 16 times the first plus the second; every failure is `InvalidDigit`, never `Empty` or `PosOverflow` |
| `Encoding.ParseHexPair` | cybergarage/src/encoding/bytes.rs:44 | parsing the `{:02X}` rendering of a byte gives that byte |
| `Encoding.RenderParsedPair` | cybergarage/src/encoding/bytes.rs:44 | an upper-case hex pair parses, and its value renders back as the same pair |
| `Encoding.FromHexStr` | cybergarage/src/encoding/bytes.rs:40-50 | the result is `DecodeHex(hex)`: the pairs are parsed in order, and the first pair that fails to parse makes the whole call fail; the text is ASCII, as the byte-offset slicing needs |
| `Encoding.FromHexString` | cybergarage/src/encoding/bytes.rs:56-58 | the same result as `from_hexstr` on the same text |
| `Encoding.AsciiText` | cybergarage/src/encoding/bytes.rs:53 | ASCII bytes are UTF-8 text of the same length, with one character per byte and equal codes |
| `Encoding.FromHexBytes` | cybergarage/src/encoding/bytes.rs:52-54 | the same result as `from_hexstr` on the text the bytes encode |
| `Encoding.DecodeHexSpec` | cybergarage/src/encoding/bytes.rs:40-50 | decoding succeeds if and only if every one of the `len / 2` pairs parses; on success it returns exactly `len / 2` bytes, and byte `i` is the value of characters `2i..2i+2` |
| `Encoding.DecodeHexFails` | cybergarage/src/encoding/bytes.rs:43-46 | if any pair fails to parse, decoding returns the invalid-digit error |
| `Encoding.DecodeHexErrorKind` | cybergarage/src/encoding/bytes.rs:44-46 | of the error kinds `from_str_radix` has, a failing `from_hexstr` only ever returns `InvalidDigit` |
| `Encoding.DecodeHexIgnoresOddChar` | cybergarage/src/encoding/bytes.rs:42 | a trailing odd character does not change the result |
| `Encoding.DecodeToHex` | cybergarage/src/encoding/bytes.rs:40-66 | `from_hexstr(to_hexstring(b)) == Ok(b)` for every byte string `b` |
| `Encoding.ToHexDecode` | cybergarage/src/encoding/bytes_test.rs:47-76 | for even-length upper-case hex text `s`, `from_hexstr(s)` succeeds and `to_hexstring` of its result is `s` |
| `Encoding.PlusSignAccepted` | cybergarage/src/encoding/bytes.rs:44 | `"+A"` decodes to `[10]`, which renders back as `"0A"`: the text round trip needs plain hex digits |
| `Net.Packet.constructor` | cybergarage/src/net/packet.rs:25-30 | a new packet has an empty payload and the source `0.0.0.0:0` |
| `Net.Packet.FromBytes` | cybergarage/src/net/packet.rs:32-37 | the packet's `bytes()` equal the given data, and its source is `0.0.0.0:0` |
| `Net.Packet.From` | cybergarage/src/net/packet.rs:44-46 | `from()` is the packet's `from` field |
| `Net.Packet.Bytes` | cybergarage/src/net/packet.rs:52-54 | `bytes()` is the packet's `data` field |
| `Net.Packet.SetFrom` | cybergarage/src/net/packet.rs:39-42 | afterwards `from()` is the given address, the payload is unchanged, and the packet itself is returned |
| `Net.Packet.SetBytes` | cybergarage/src/net/packet.rs:48-50 | afterwards `bytes()` is the given data, and the source is unchanged |
| `Net.Packet.Clone` | cybergarage/src/net/packet.rs:57-64 | the clone is a new object with an equal payload and an equal source |
| `Net.Packet.ToString` | cybergarage/src/net/packet.rs:66-76 | the `Display` text equals `to_hexstring` of the payload, has `2 * len` characters, and uses only `0-9A-F` |
| `Net.RenderSnoc` | cybergarage/src/net/packet.rs:68-73 | writing one more byte appends its two hex digits to the text |
| `Net.RenderIsToHex` | cybergarage/src/net/packet.rs:66-76 | writing the bytes one by one from the front gives the same text as `to_hexstring` |

## Left out

- The sockets, the unicast and multicast servers and the multicast manager
  (`udp_socket.rs`, `unicast_server.rs`, `multicast_server.rs`,
  `multicast_manager.rs`) are not part of this model. Their behaviour is OS
  socket calls, background receive threads, locks and sleeps.
- The hex-dump decoder, the `hexdump2bin` program and the logger are not part
  of this model. The decoder is unfinished, the program does file I/O, and
  the logger is a global singleton that prints with the wall clock.
- Encoding.FromU32 requires at most four bytes. On a longer buffer the
  source's 32-bit shift panics (overflow checks on) or is taken modulo 32
  (off).
- Encoding.ToU32 requires at most four bytes, for the same reason.
- Encoding.FromHexStr requires ASCII text. On other text the source either
  panics, when a slice boundary falls inside a multi-byte character, or
  fails to parse.
- Encoding.FromHexString requires ASCII text, for the same reason.
- Encoding.FromHexBytes requires bytes below `0x80`. The source panics on
  bytes that are not UTF-8, and other non-ASCII text falls under the
  restriction above.
- The message text of the returned error is not modelled. It is built by
  `encoding/error.rs`, which is not part of this model; only the error kind
  is kept.
- Net.Packet.ToString does not model a failing `fmt::Formatter` sink, where
  the source stops at the first failed write. Writing into a `String` never
  fails.
- The flow label and scope id of an IPv6 `SocketAddr` are not modelled. Only
  the address octets and the port are.
- `Vec` copies are modelled by sequence values, so the aliasing that
  `set_bytes` and `clone` avoid by copying cannot arise in the model.

# n_stress core in Dafny

n_stress is a duplex TCP stress tester. Each endpoint sends and receives
fixed-size frames until one arrives damaged. This project models two parts
of it and proves properties of the model:

- **The CRC-32 engine of `ccrc32.c`.**
  - `reflect` reverses the low n bits of a word.
  - `initializeCRC` fills the 256-word lookup table `ulTable`.
  - `partialCRC` folds bytes into a running accumulator.
  - `fullCRC` seeds the accumulator with `0xFFFFFFFF` and XORs the result with `0xFFFFFFFF`.

  This is the CRC-32 of IEEE 802.3, clause 3.2.9 (the one zlib and PKZIP use).
- **The frame codec of `packets.c`.** A frame has three parts:
  - an eight-byte handshake `AA 55 AA 55 AA 55 AA 55`;
  - filler made of one four-byte group of the 24-byte `stuff` table, repeated;
  - a big-endian CRC-32 trailer.

  The module has three operations:
  - `generate_packet` writes a frame into the caller's buffer. Each successful call (size ≥ 12) moves a static cursor `currentjunk` through `stuff`.
  - `parse_packet` checks, in this order, the length, the handshake and the trailer.
  - `set_bufsize` records a buffer size.

The files:

- `crc32_spec.dfy` (module `Crc32Spec`) is the CRC as pure functions:
  - `Reflected` is reflect's loop as a recursion. `Reversed32` is a swap-network bit reversal, used as the independent reference.
  - `MsbStep` and `MsbSteps` are the shift-register steps of initializeCRC. `LsbStep` and `LsbSteps` are the bitwise reflected CRC-32, used as the reference.
  - `TableEntry` is one table word.
  - `Update` is one iteration of partialCRC.
  - `Partial` and `Full` are the folds.
- `crc32.dfy` (module `Crc32`) is the engine as the C code runs it:
  - `Reflect` is a method with reflect's loop.
  - `CrcEngine` is a class whose `table` array is `ulTable`. `Initialize` fills it in place with initializeCRC's nested loops.
  - `PartialCrc` and `FullCrc` are the table-driven loops.

  Every method is proved against the `Crc32Spec` functions.
- `frame_spec.dfy` (module `FrameSpec`) is the frame format as values:
  - `Frame(stuff, cursor, size)` is the frame generate_packet leaves in the first `size` bytes of its buffer.
  - `Parse(buf, given)` is the answer of parse_packet.
  - The round trip and the order of parse_packet's tests are proved here.

  The layout is stated for any 24-byte filler table. `Stuff` is the table of packets.c.
- `packets.dfy` (module `Packets`) is packets.c as it runs:
  - `ParsePacket` is a method over an `array<bv8>`.
  - `PacketState` is a class holding the static state: the file statics `stuff` and `bufsize` (as `stuff` and `bufSize`) and generate_packet's function-local static `currentjunk` (as `currentJunk`). Its constructor sets `stuff` to `Stuff`. `stuff` is a `const` field, so it never changes afterwards.
  - `GeneratePacket` writes the frame through the helper methods `WriteHandshake`, `WriteFiller` and `WriteTrailer`. These are the loops and stores of generate_packet.

Where the C code uses machine integers, the model works as follows.

Words are `bv32`, and bytes are `bv8`:
- The shifts `1 << 31` (ccrc32.c:29) and `1 << (cChar - iPos)` (ccrc32.c:51) are signed `int` shifts in C. The model treats them as these `bv32` shifts.
- `stuff` is declared `const char`, but its entries are stored into `unsigned char`. They are modelled as the bytes written in the source.

Lengths are handled explicitly:
- partialCRC and fullCRC take a `uint32_t` length, so `PartialCrc` and `FullCrc` require `length < 2^32`.
- generate_packet and parse_packet pass the `size_t` value `size - 4` into that parameter. The model keeps the implicit conversion as `CrcLength(size) = (size - 4) mod 2^32`, so frames of any size are covered. The round trip holds for every size, because both sides truncate the same way.

## Behaviour of the code worth noting

- **Where the frame is built.** generate_packet allocates nothing: it fills a buffer that the caller passes in, and writes nothing at or past `size`.
- **How far the filler reaches.** The frame has `size - 12` filler bytes, but the code's filler loop writes whole four-byte groups while the group starts before `size - 4`, so its last group can write up to three bytes into the trailer's place. The trailer stores then overwrite them. `WriteFiller`'s contract allows exactly this, and `GeneratePacket`'s contract shows that the finished frame is unaffected.
- **Supplying a precomputed CRC.** In parse_packet, a `g_crc` of 0 means "recompute". A precomputed CRC that happens to be 0 is therefore treated as "recompute". `GivenFullCrcIsRecompute` shows this does not change the answer.
- **How many bytes the CRC covers.** The CRC is taken over the first `(L - 4) mod 2^32` bytes, because the `size_t` value `L - 4` is passed as a `uint32_t`. This is less than `L - 4` only for `L >= 2^32 + 4`.

## Model

| member | source | states |
|---|---|---|
| Crc32.Reflect | ccrc32.c:41-57 | reflect's loop returns `Reflected(x, n)`, the low n bits of x in reverse order |
| Crc32Spec.ReflectedByteBits | ccrc32.c:41-57 | bit k of reflect(x, 8) is bit 7-k of x for k < 8, and every bit from 8 up is 0 |
| Crc32Spec.ReflectedWordBits | ccrc32.c:41-57 | bit k of reflect(x, 32) is bit 31-k of x |
| Crc32Spec.ReflectedWord | ccrc32.c:41-57 | reflect(x, 32) equals the swap-network reversal `Reversed32(x)` |
| Crc32Spec.ReflectedByteTwice | ccrc32.c:41-57 | reflecting 8 bits twice gives back the low byte of x |
| Crc32Spec.ReflectedWordTwice | ccrc32.c:41-57 | reflecting 32 bits twice gives back x |
| Crc32Spec.StepsCommute | ccrc32.c:26-30 | reversing the register turns k MSB-first steps with 0x04C11DB7 into k LSB-first steps with 0xEDB88320 |
| Crc32Spec.TableEntryIsBitwise | ccrc32.c:22-33 | each table entry is eight LSB-first steps `c = (c >> 1) ^ (c & 1 ? 0xEDB88320 : 0)` applied to its index |
| Crc32Spec.KnownEntry0 | ccrc32.c:22-33 | table entry 0 is 0 |
| Crc32Spec.KnownEntry1 | ccrc32.c:22-33 | table entry 1 is 0x77073096 |
| Crc32Spec.KnownEntry128 | ccrc32.c:22-33 | table entry 128 is 0xEDB88320 |
| Crc32.CrcEngine.constructor | ccrc32.c:7 | the static table starts as 256 zero words |
| Crc32.CrcEngine.FillEntry | ccrc32.c:24-32 | one pass of the outer loop stores `TableEntry(code)` at `code` and changes no other entry |
| Crc32.CrcEngine.Initialize | ccrc32.c:13-34 | initializeCRC leaves every one of the 256 entries equal to `TableEntry` of its index, whatever the table held before |
| Crc32.CrcEngine.ValidTablesAgree | ccrc32.c:13-34 | any two initialised tables hold the same words, so running initializeCRC again yields the identical table |
| Crc32.CrcEngine.PartialCrc | ccrc32.c:63-74 | partialCRC over the first length bytes returns `Partial(crc, data[..length])` |
| Crc32.CrcEngine.FullCrc | ccrc32.c:80-85 | fullCRC returns `Partial(0xFFFFFFFF, data[..length]) ^ 0xFFFFFFFF` |
| Crc32Spec.PartialEmpty | ccrc32.c:63-74 | partialCRC over no bytes leaves the accumulator unchanged |
| Crc32Spec.PartialSplit | ccrc32.c:66-73 | partialCRC over a ++ b equals partialCRC over b continued from the result over a, for every split |
| Crc32Spec.PartialOne | ccrc32.c:71-72 | partialCRC over one byte is one table update |
| Crc32Spec.FullEmpty | ccrc32.c:80-85 | fullCRC of no bytes is 0x00000000 |
| Crc32Spec.CheckValue | ccrc32.c:80-85 | fullCRC of the ASCII bytes "123456789" is the CRC-32 check value 0xCBF43926 |
| FrameSpec.NextCursorValid | packets.c:118 | a successful generate_packet moves currentjunk from c to c + 4, wrapping 20 to 0, so it stays in {0, 4, ..., 20} and `currentjunk + 3 < 24` |
| FrameSpec.CrcLength | packets.c:121 | the length passed to fullCRC is at most size - 4, below 2^32, and equal to size - 4 whenever that fits in 32 bits |
| FrameSpec.BigEndianRoundTrip | packets.c:68-71 | shifting the four stored trailer bytes together, first byte highest, gives back the CRC word |
| FrameSpec.FrameLayout | packets.c:104-128 | a frame opens with AA 55 x4, byte j in [8, size - 4) is `stuff[cursor + (j - 8) % 4]`, and its last four bytes are the big-endian fullCRC of the bytes before them |
| FrameSpec.BodyFrom | packets.c:104-115 | a buffer with the handshake in bytes 0-7 and the filler pattern from byte 8 is the frame body |
| FrameSpec.FrameFrom | packets.c:121-128 | a body followed by the big-endian CRC of its first CrcLength bytes is the frame |
| FrameSpec.HandshakeOkIsPrefix | packets.c:60-65 | the four-pair handshake check passes exactly when the buffer starts with AA 55 AA 55 AA 55 AA 55 |
| FrameSpec.ParseCodes | packets.c:50-86 | parse_packet answers 0, -1, -2 or -3 |
| FrameSpec.ParseTooShort | packets.c:56-57 | the answer is -1 exactly when length < 8, whatever the bytes |
| FrameSpec.ParseBadHandshake | packets.c:60-65 | with length >= 8 the answer is -2 exactly when some pair i in 0..3 has `buf[2i] != 0xAA` or `buf[2i+1] != 0x55`, whatever the trailer |
| FrameSpec.ParseCrcCheck | packets.c:79-85 | with a good handshake the answer is 0 exactly when the big-endian trailer equals the expected CRC, and -3 otherwise |
| FrameSpec.GivenFullCrcIsRecompute | packets.c:73-77 | supplying the CRC parse_packet would compute gives the same answer as supplying 0 |
| FrameSpec.RoundTrip | packets.c:92-131 | for every cursor and every size >= 12, the frame generate_packet builds passes parse_packet with g_crc 0 |
| FrameSpec.RoundTripGiven | packets.c:73-77 | the same frame also passes when its own CRC is supplied |
| Packets.ParsePacket | packets.c:50-86 | parse_packet's loop and shift-accumulation return `Parse(buffer[..length], given)` |
| Packets.PacketState.constructor | packets.c:15-23 | the state starts with the stuff table, buffer size 0x10000 (line 15) and cursor 0 (the initialiser of the local static at packets.c:96) |
| Packets.PacketState.SetBufSize | packets.c:38-43 | set_bufsize stores the new size, leaves the cursor alone, keeps the state valid and returns 0 |
| Packets.PacketState.GeneratePacket | packets.c:92-131 | below size 12: returns -1 and changes neither the buffer nor the cursor; otherwise returns 0, leaves `Frame(stuff, old cursor, size)` in bytes [0, size), nothing changed from size on, and the cursor advanced by 4 mod 24 |
| Packets.CursorStep | packets.c:118 | `(currentjunk + 4) % (sizeof stuff)` is the next cursor and a valid one |
| Packets.BuildFrame | packets.c:103-128 | the stores of generate_packet leave exactly `Frame(stuff, junk, size)` in bytes [0, size) and nothing changed from size on |
| Packets.WriteBody | packets.c:103-115 | the first two loops leave the frame body in bytes [0, size - 4) and nothing changed from size on |
| Packets.WriteHandshake | packets.c:104-107 | the first loop writes AA 55 x4 into bytes 0-7 and nothing else |
| Packets.WriteFiller | packets.c:110-115 | the second loop leaves `stuff[junk + (k - 8) % 4]` in every byte k of [8, size - 4) and touches nothing below 8 or from size on |
| Packets.WriteTrailer | packets.c:124-128 | the four trailer stores put the CRC big-endian into bytes [size - 4, size) and touch nothing else |

## Left out

- send_check and recv_check (packets.c:158-245) are not modelled. They are the two thread bodies that drive the socket, share the unsynchronised flag `lastgood` and count packets through static counters. Their subject is concurrency and I/O, which the model leaves out.
- print_packet (packets.c:137-152), error (packets.c:29-32) and the `printf` diagnostics of parse_packet and generate_packet are not modelled. They only print or exit.
- n_stress.c, client.c, server.c and check_crc.c are not part of this model. They hold argument parsing, socket setup, thread management and a demo `main`.
- Crc32.Reflect: requires n <= 32. For a larger n, the C shift `1 << (cChar - iPos)` goes past the word width and is undefined behaviour. Every call in the source uses 8 or 32.
- Crc32.CrcEngine.PartialCrc: the accumulator that partialCRC updates through its pointer `ulCRC` is passed in as `crc` and returned as `r`.
- Crc32.CrcEngine.PartialCrc: requires a Valid (initialised) table. The source asks for initializeCRC to run first (ccrc32.c:9-10). With an uninitialised table the model states nothing.
- Packets.ParsePacket: requires `length <= buffer.Length` because the C code trusts its caller here. GeneratePacket requires `size <= buffer.Length` for the same reason.
- Packets.PacketState.GeneratePacket: the frame is stated for the state's `stuff` field. The constructor sets that field to `Stuff`, and as a `const` it cannot change afterwards.
- Packets.PacketState.SetBufSize: models `size_t` as an unbounded `nat`. The readers of `bufsize` are the thread bodies, which are left out.
- Crc32Spec.Update: the table-driven update is not proved equal to eight bitwise LSB-first steps on the accumulator XOR the byte. Only the table entries are related to the bitwise CRC.
- Detecting single-bit errors is not proved. The claim is that flipping one bit of a good frame's filler or trailer makes parse_packet answer -3. The round trip and the order of parse_packet's tests are proved; this detection property is not, because it needs `Update` to be injective in the accumulator and the 256 table entries to be pairwise distinct, and neither fact is proved here.

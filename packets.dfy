/**
 * packets.c as it runs: parse_packet checks a received buffer step by
 * step, and generate_packet writes a frame into the caller's buffer and
 * moves its static filler cursor.  The static state involved (the file
 * statics stuff and bufsize, and generate_packet's local static
 * currentjunk) lives in a PacketState object; the CRC table is a
 * CrcEngine.
 */
module Packets {
  import opened Crc32Spec
  import opened Crc32
  import opened FrameSpec

  /** The buffer size the program starts with. */
  const DefaultBufSize: nat := 0x10000

  /**
   * parse_packet: checks the first length bytes of buffer against the
   * frame rules, comparing the trailer with given or, when given is 0,
   * with the fullCRC of everything before the trailer.
   */
  method ParsePacket(crc32: CrcEngine, buffer: array<bv8>, length: nat, given: bv32)
    returns (r: int)
    requires crc32.Valid()
    requires length <= buffer.Length
    ensures r == Parse(buffer[..length], given)
  {
    ghost var buf := buffer[..length];
    if length < 8 {
      return TooShort;
    }
    var i := 0;
    while i < 8
      invariant 0 <= i <= 8 && i % 2 == 0
      invariant forall k :: 0 <= k < i / 2 ==> buf[2 * k] == 0xAA && buf[2 * k + 1] == 0x55
    {
      if buffer[i] != 0xAA || buffer[i + 1] != 0x55 {
        assert !(buf[2 * (i / 2)] == 0xAA && buf[2 * (i / 2) + 1] == 0x55);
        return BadHandshake;
      }
      i := i + 2;
    }
    assert HandshakeOk(buf);
    var received: bv32 := buffer[length - 4] as bv32;
    received := (received << 8) | buffer[length - 3] as bv32;
    received := (received << 8) | buffer[length - 2] as bv32;
    received := (received << 8) | buffer[length - 1] as bv32;
    assert received == ReceivedCrc(buf);
    var crc: bv32;
    if given == 0 {
      crc := crc32.FullCrc(buffer, CrcLength(length));
      assert buffer[..CrcLength(length)] == buf[..CrcLength(length)];
    } else {
      crc := given;
    }
    if received != crc {
      return BadCrc;
    }
    return Ok;
  }

  /**
   * The static state of packets.c: the file statics stuff (the filler
   * table) and bufsize (the buffer size set_bufsize records), and
   * generate_packet's function-local static currentjunk (the cursor it
   * moves through stuff).
   */
  class PacketState {
    /** The stuff table; the constructor sets it to Stuff and it never changes. */
    const stuff: seq<bv8>
    /** generate_packet's static currentjunk: where its filler starts in Stuff. */
    var currentJunk: nat
    /** The buffer size the sending and receiving threads use. */
    var bufSize: nat

    ghost predicate Valid()
      reads this
    {
      ValidTable(stuff) && ValidCursor(currentJunk)
    }

    /** The state at program start. */
    constructor ()
      ensures Valid()
      ensures stuff == Stuff && currentJunk == 0 && bufSize == DefaultBufSize
    {
      stuff := Stuff;
      StuffIsValidTable();
      currentJunk := 0;
      bufSize := DefaultBufSize;
    }

    /** set_bufsize: records the new size and reports success. */
    method SetBufSize(newSize: nat) returns (r: int)
      requires Valid()
      modifies this
      ensures Valid()
      ensures r == Ok
      ensures bufSize == newSize && currentJunk == old(currentJunk)
    {
      bufSize := newSize;
      return Ok;
    }

    /**
     * generate_packet: for a size of at least 12, writes Frame(stuff,
     * currentJunk, size) into the first size bytes of buffer and moves the cursor on;
     * for a smaller size changes nothing and reports TooShort.
     */
    method GeneratePacket(crc32: CrcEngine, buffer: array<bv8>, size: nat) returns (r: int)
      requires Valid() && crc32.Valid()
      requires size <= buffer.Length
      modifies this, buffer
      ensures Valid() && bufSize == old(bufSize)
      ensures size < MinFrameSize ==>
                r == TooShort && buffer[..] == old(buffer[..]) && currentJunk == old(currentJunk)
      ensures size >= MinFrameSize ==>
                r == Ok && buffer[..size] == Frame(stuff, old(currentJunk), size) &&
                buffer[size..] == old(buffer[size..]) &&
                currentJunk == NextCursor(old(currentJunk))
    {
      if size < MinFrameSize {
        return TooShort;
      }
      var junk := currentJunk;
      BuildFrame(crc32, buffer, size, stuff, junk);
      currentJunk := (junk + 4) % |stuff|;
      CursorStep(junk, |stuff|);
      return Ok;
    }
  }

  /** The cursor update of generate_packet, with the table length for the modulus. */
  lemma CursorStep(junk: nat, count: nat)
    requires ValidCursor(junk) && count == StuffSize
    ensures (junk + 4) % count == NextCursor(junk)
    ensures ValidCursor(NextCursor(junk))
  {
    NextCursorValid(junk);
  }

  /**
   * The stores of generate_packet for a size of at least 12: handshake,
   * filler from stuff at junk, and the big-endian fullCRC of the first
   * size - 4 bytes.  Bytes from size on are untouched.
   */
  method BuildFrame(crc32: CrcEngine, buffer: array<bv8>, size: nat, stuff: seq<bv8>, junk: nat)
    requires crc32.Valid() && ValidTable(stuff) && ValidCursor(junk)
    requires MinFrameSize <= size <= buffer.Length
    modifies buffer
    ensures buffer[..size] == Frame(stuff, junk, size)
    ensures buffer[size..] == old(buffer[size..])
  {
    WriteBody(buffer, size, stuff, junk);
    ghost var body := buffer[..size - 4];
    var crc := crc32.FullCrc(buffer, CrcLength(size));
    assert buffer[..CrcLength(size)] == body[..CrcLength(size)];
    WriteTrailer(buffer, size, crc);
    ghost var frame := buffer[..size];
    assert frame[..size - 4] == body;
    assert frame[..CrcLength(size)] == body[..CrcLength(size)];
    FrameFrom(frame, stuff, junk, size);
  }

  /** generate_packet's first two loops: the body in bytes 0 to size - 5. */
  method WriteBody(buffer: array<bv8>, size: nat, stuff: seq<bv8>, junk: nat)
    requires ValidTable(stuff) && ValidCursor(junk)
    requires MinFrameSize <= size <= buffer.Length
    modifies buffer
    ensures buffer[..size - 4] == Body(stuff, junk, size)
    ensures buffer[size..] == old(buffer[size..])
  {
    WriteHandshake(buffer);
    WriteFiller(buffer, size, stuff, junk);
    ghost var body := buffer[..size - 4];
    assert body[..8] == buffer[..8];
    BodyFrom(body, stuff, junk, size);
  }

  /** generate_packet's first loop: the handshake in bytes 0 to 7. */
  method WriteHandshake(buffer: array<bv8>)
    requires buffer.Length >= 8
    modifies buffer
    ensures buffer[..8] == Handshake
    ensures buffer[8..] == old(buffer[8..])
  {
    var i := 0;
    while i < 8
      invariant 0 <= i <= 8 && i % 2 == 0
      invariant forall k :: 0 <= k < i ==> buffer[k] == Handshake[k]
      invariant buffer[8..] == old(buffer[8..])
    {
      buffer[i] := 0xAA;
      buffer[i + 1] := 0x55;
      i := i + 2;
    }
  }

  /** Position t of a group starting at i is offset t in the repeating pattern. */
  lemma GroupOffset(i: int, t: int)
    requires i >= 8 && i % 4 == 0 && 0 <= t < 4
    ensures (i + t - 8) % 4 == t
  {
  }

  /**
   * generate_packet's second loop: the four bytes of stuff at junk, again
   * and again, from byte 8 on while the group starts before size - 4.  The
   * last group may run up to three bytes into the trailer's place, never
   * past size; bytes below 8 and from size on are untouched.
   */
  method WriteFiller(buffer: array<bv8>, size: nat, stuff: seq<bv8>, junk: nat)
    requires junk % 4 == 0 && junk + 4 <= |stuff|
    requires MinFrameSize <= size <= buffer.Length
    modifies buffer
    ensures forall k :: 0 <= k < 8 ==> buffer[k] == old(buffer[k])
    ensures forall k :: 8 <= k < size - 4 ==> buffer[k] == stuff[junk + (k - 8) % 4]
    ensures forall k :: size <= k < buffer.Length ==> buffer[k] == old(buffer[k])
  {
    var i := 8;
    while i < size - 4
      invariant 8 <= i <= size && i % 4 == 0
      invariant forall k :: 0 <= k < 8 ==> buffer[k] == old(buffer[k])
      invariant forall k :: 8 <= k < i ==> buffer[k] == stuff[junk + (k - 8) % 4]
      invariant forall k :: i <= k < buffer.Length ==> buffer[k] == old(buffer[k])
    {
      buffer[i] := stuff[junk];
      buffer[i + 1] := stuff[junk + 1];
      buffer[i + 2] := stuff[junk + 2];
      buffer[i + 3] := stuff[junk + 3];
      forall k | i <= k < i + 4
        ensures buffer[k] == stuff[junk + (k - 8) % 4]
      {
        GroupOffset(i, k - i);
      }
      i := i + 4;
    }
  }

  /** generate_packet's last four stores: crc big-endian in bytes size - 4 to size - 1. */
  method WriteTrailer(buffer: array<bv8>, size: nat, crc: bv32)
    requires 4 <= size <= buffer.Length
    modifies buffer
    ensures buffer[..size - 4] == old(buffer[..size - 4])
    ensures buffer[size - 4..size] == BigEndian(crc)
    ensures buffer[size..] == old(buffer[size..])
  {
    var i := size - 4;
    buffer[i] := ((crc >> 24) & 0xFF) as bv8;
    i := i + 1;
    buffer[i] := ((crc >> 16) & 0xFF) as bv8;
    i := i + 1;
    buffer[i] := ((crc >> 8) & 0xFF) as bv8;
    i := i + 1;
    buffer[i] := (crc & 0xFF) as bv8;
  }
}

/**
 * The CRC-32 engine of ccrc32.c as the C code runs it: reflect's loop, the
 * static lookup table that initializeCRC fills in place, and the two
 * table-driven entry points partialCRC and fullCRC.  Each method is proved
 * against the specification functions of Crc32Spec.
 */
module Crc32 {
  import opened Crc32Spec

  /** A set low bit is the value 1. */
  lemma LowSet(rest: bv32)
    requires rest & 1 != 0
    ensures rest & 1 == 1
  {
  }

  /** Placing a clear low bit changes nothing. */
  lemma LowClear(rest: bv32, v: bv32, s: bv32)
    requires rest & 1 == 0 && s < 32
    ensures v | ((rest & 1) << s) == v
  {
  }

  /** One iteration of reflect's loop, written with its `if`, is one step of ReflectFrom. */
  lemma ReflectStep(rest: bv32, n: bv32, pos: bv32, v: bv32, v': bv32)
    requires 1 <= pos <= n <= 32
    requires v' == if rest & 1 != 0 then v | (1 << (n - pos)) else v
    ensures ReflectFrom(rest, n, pos, v) == ReflectFrom(rest >> 1, n, pos + 1, v')
  {
    if rest & 1 != 0 {
      LowSet(rest);
    } else {
      LowClear(rest, v, n - pos);
    }
    Unfold(rest, n, pos, v, rest >> 1, pos + 1, v');
  }

  /** reflect: the low n bits of x in reverse order. */
  method Reflect(x: bv32, n: bv32) returns (v: bv32)
    requires n <= 32
    ensures v == Reflected(x, n)
  {
    var rest := x;
    v := 0;
    var pos: bv32 := 1;
    while pos < n + 1
      invariant 1 <= pos <= n + 1
      invariant ReflectFrom(rest, n, pos, v) == Reflected(x, n)
      decreases n + 1 - pos
    {
      ghost var before := v;
      if rest & 1 != 0 {
        v := v | (1 << (n - pos));
      }
      ReflectStep(rest, n, pos, before, v);
      rest := rest >> 1;
      pos := pos + 1;
    }
  }

  lemma UpdateWith(c: bv32, b: bv8, t: bv32)
    requires t == TableEntry(TableIndex(c, b))
    ensures Update(c, b) == (c >> 8) ^ t
  {
  }

  /** A byte taken as a table index and back is the same byte. */
  lemma ByteRoundTrip(b: bv8)
    ensures (b as int) as bv8 == b
  {
  }

  /** initializeCRC's three stages compose to TableEntry. */
  lemma EntryFrom(i: bv8, r: bv32, e: bv32)
    requires r == Reflected(i as bv32, 8)
    requires e == Reflected(MsbSteps(r << 24, 8), 32)
    ensures e == TableEntry(i)
  {
  }

  /** One step of initializeCRC's inner loop, as written there, is MsbStep. */
  lemma InnerStep(c: bv32)
    ensures (c << 1) ^ (if c & (1 << 31) != 0 then Polynomial else 0) == MsbStep(c)
  {
    if c & 0x8000_0000 != 0 {
      MsbSet(c);
    } else {
      MsbClear(c);
    }
  }

  /**
   * The file-static ulTable together with the functions that use it.  A C
   * program gets the table zero-initialised; initializeCRC must run once
   * before partialCRC or fullCRC gives CRC-32 values.
   */
  class CrcEngine {
    var table: array<bv32>

    /** The table holds what initializeCRC computes for every index. */
    ghost predicate Valid()
      reads this, table
    {
      table.Length == 256 &&
      forall i :: 0 <= i < 256 ==> table[i] == TableEntry(i as bv8)
    }

    /** The table as the program starts: 256 zero words. */
    constructor ()
      ensures fresh(table) && table.Length == 256
      ensures forall i :: 0 <= i < 256 ==> table[i] == 0
    {
      table := new bv32[256](_ => 0);
    }

    /**
     * The body of initializeCRC's outer loop: entry code starts as the
     * reflected index in the top byte, takes eight MSB-first steps and is
     * reflected back.  No other entry changes.
     */
    method FillEntry(code: int)
      requires table.Length == 256 && 0 <= code < 256
      modifies table
      ensures table[code] == TableEntry(code as bv8)
      ensures forall k :: 0 <= k < 256 && k != code ==> table[k] == old(table[k])
    {
      var r := Reflect((code as bv8) as bv32, 8);
      table[code] := r << 24;
      for p := 0 to 8
        invariant table[code] == MsbSteps(r << 24, p)
        invariant forall k :: 0 <= k < 256 && k != code ==> table[k] == old(table[k])
      {
        var c := table[code];
        InnerStep(c);
        table[code] := (c << 1) ^ (if c & (1 << 31) != 0 then Polynomial else 0);
      }
      table[code] := Reflect(table[code], 32);
      EntryFrom(code as bv8, r, table[code]);
    }

    /** initializeCRC: fills every entry of the table. */
    method Initialize()
      requires table.Length == 256
      modifies table
      ensures Valid()
    {
      for code := 0 to 256
        invariant forall i :: 0 <= i < code ==> table[i] == TableEntry(i as bv8)
      {
        FillEntry(code);
      }
    }

    /**
     * A valid table is TableEntry at every index, so any two valid tables
     * hold the same words: running initializeCRC again, whatever the table
     * held before, gives the table it already had.
     */
    static lemma ValidTablesAgree(a: CrcEngine, b: CrcEngine)
      requires a.Valid() && b.Valid()
      ensures a.table[..] == b.table[..]
    {
      assert a.table[..] == b.table[..];
    }

    /**
     * partialCRC: continues the accumulator crc over the first length bytes
     * of data.  The C function updates *ulCRC in place; here the
     * accumulator goes in as crc and comes back as r.
     */
    method PartialCrc(crc: bv32, data: array<bv8>, length: nat) returns (r: bv32)
      requires Valid()
      requires length <= data.Length && length < LengthLimit
      ensures r == Partial(crc, data[..length])
    {
      r := crc;
      var i := 0;
      while i < length
        invariant 0 <= i <= length
        invariant r == Partial(crc, data[..i])
      {
        var index := TableIndex(r, data[i]);
        var t := table[index as int];
        ByteRoundTrip(index);
        UpdateWith(r, data[i], t);
        PartialSnoc(crc, data[..i], data[i]);
        assert data[..i + 1] == data[..i] + [data[i]];
        r := (r >> 8) ^ t;
        i := i + 1;
      }
    }

    /** fullCRC: the CRC-32 of the first length bytes of data. */
    method FullCrc(data: array<bv8>, length: nat) returns (r: bv32)
      requires Valid()
      requires length <= data.Length && length < LengthLimit
      ensures r == Full(data[..length])
    {
      var acc := PartialCrc(AllOnes, data, length);
      r := acc ^ AllOnes;
    }
  }
}

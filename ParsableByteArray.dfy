/**
 * The read cursor the emsg decoder drives: a backing byte array, a limit (the
 * number of valid bytes in it) and a position that every read advances.
 *
 * The pure functions state what each read returns and where it leaves the
 * cursor; the class ParsableByteArray performs the same reads in place and is
 * proved against them.
 */
module ParsableBytes {
  import opened Wrappers

  /** A byte read as unsigned, as the Java reads see it once masked with 0xFF. */
  newtype byte = x: int | 0 <= x < 0x100

  /** One more than the largest unsigned 32-bit integer. */
  const U32_BOUND: nat := 0x1_0000_0000

  /** A value read from the bytes, with the position just after it. */
  datatype Read<T> = Read(val: T, next: nat)

  /**
   * The index of the first NUL byte of s[from..limit], or limit when that range
   * holds none; a start at or past the limit is returned unchanged.
   */
  function NulIndex(s: seq<byte>, from: nat, limit: nat): (r: nat)
    requires limit <= |s|
    ensures from <= r
    ensures from <= limit ==> r <= limit
    ensures limit <= from ==> r == from
    ensures r < limit ==> s[r] == 0
    ensures forall i :: from <= i < r ==> s[i] != 0
    decreases limit - from
  {
    if from >= limit || s[from] == 0 then from else NulIndex(s, from + 1, limit)
  }

  /**
   * Reading a NUL-terminated string at `from`: nothing (null) when no byte is
   * left; otherwise the bytes up to the first NUL or the limit, and the
   * position after the NUL when there was one, at the limit when there was not.
   * A start already past the limit reads the empty string and stays put.
   */
  function StringAt(s: seq<byte>, limit: nat, from: nat): (r: Option<Read<seq<byte>>>)
    requires limit <= |s| && from <= |s|
    ensures r.None? <==> from == limit
    ensures r.Some? ==> from <= r.value.next <= |s|
    ensures r.Some? && from < limit ==>
      var n := |r.value.val|;
      && from + n <= limit
      && r.value.val == s[from..from + n]
      && 0 !in r.value.val
      && ((from + n < limit && s[from + n] == 0 && r.value.next == from + n + 1)
          || (from + n == limit && r.value.next == limit))
    ensures limit < from ==> r == Some(Read([], from))
  {
    if from == limit then None
    else
      var end := NulIndex(s, from, limit);
      Some(Read(s[from..end], if end < limit then end + 1 else end))
  }

  /** Four bytes read as a big-endian unsigned integer. */
  function BE32(b: seq<byte>): (v: nat)
    requires |b| == 4
    ensures v < U32_BOUND
  {
    b[0] as nat * 0x100_0000 + b[1] as nat * 0x1_0000 + b[2] as nat * 0x100 + b[3] as nat
  }

  /** The big-endian bytes of an unsigned 32-bit integer. */
  function U32Bytes(v: nat): (b: seq<byte>)
    requires v < U32_BOUND
    ensures |b| == 4 && BE32(b) == v
  {
    var hi, lo := v / 0x1_0000, v % 0x1_0000;
    [(hi / 0x100) as byte, (hi % 0x100) as byte, (lo / 0x100) as byte, (lo % 0x100) as byte]
  }

  /** Every four bytes are the big-endian bytes of the integer they encode. */
  lemma U32BytesOfBE32(b: seq<byte>)
    requires |b| == 4
    ensures U32Bytes(BE32(b)) == b
  {
    var b0, b1, b2, b3 := b[0] as nat, b[1] as nat, b[2] as nat, b[3] as nat;
    var hi, lo := b0 * 0x100 + b1, b2 * 0x100 + b3;
    assert BE32(b) == hi * 0x1_0000 + lo;
    SplitAt(hi, lo, 0x1_0000);
    SplitAt(b0, b1, 0x100);
    SplitAt(b2, b3, 0x100);
  }

  /** Splitting q * d + r at d, for the two widths a 32-bit integer is split at. */
  lemma SplitAt(q: nat, r: nat, d: nat)
    requires d == 0x100 || d == 0x1_0000
    requires r < d
    ensures (q * d + r) / d == q && (q * d + r) % d == r
  {
    if d == 0x100 {
      assert (q * 0x100 + r) / 0x100 == q;
    } else {
      assert (q * 0x1_0000 + r) / 0x1_0000 == q;
    }
  }

  /**
   * Reading an unsigned 32-bit big-endian integer at `at`: nothing when the
   * backing array ends within the four bytes (the read is not checked against
   * the limit), otherwise the integer those bytes encode.
   */
  function U32At(s: seq<byte>, at: nat): (r: Option<nat>)
    ensures r.None? <==> |s| < at + 4
    ensures r.Some? ==> r.value < U32_BOUND && U32Bytes(r.value) == s[at..at + 4]
  {
    if |s| < at + 4 then None
    else
      U32BytesOfBE32(s[at..at + 4]);
      Some(BE32(s[at..at + 4]))
  }

  /** A cursor over `data`, of which the first `limit` bytes are valid. */
  class ParsableByteArray {
    const data: array<byte>
    const limit: nat
    var position: nat

    ghost predicate Valid()
      reads this
    {
      limit <= data.Length && position <= data.Length
    }

    constructor (data: array<byte>, limit: nat)
      requires limit <= data.Length
      ensures Valid()
      ensures this.data == data && this.limit == limit && position == 0
    {
      this.data := data;
      this.limit := limit;
      position := 0;
    }

    /** Reads a NUL-terminated string, consuming its terminator when there is one. */
    method ReadNullTerminatedString() returns (r: Option<seq<byte>>)
      requires Valid()
      modifies this`position
      ensures Valid()
      ensures var f := StringAt(data[..], limit, old(position));
        if f.None? then r.None? && position == old(position)
        else r == Some(f.value.val) && position == f.value.next
    {
      if position == limit {
        return None;
      }
      var stringLimit := position;
      while stringLimit < limit && data[stringLimit] != 0
        invariant position <= stringLimit
        invariant position <= limit ==> stringLimit <= limit
        invariant limit < position ==> stringLimit == position
        invariant forall i :: position <= i < stringLimit ==> data[i] != 0
        decreases limit - stringLimit
      {
        stringLimit := stringLimit + 1;
      }
      r := Some(data[position..stringLimit]);
      position := stringLimit;
      if position < limit {
        position := position + 1;
      }
    }

    /**
     * Reads an unsigned 32-bit big-endian integer. Only the backing array bounds
     * the read; running off its end is the failure.
     */
    method ReadUnsignedInt() returns (r: Option<nat>)
      requires Valid()
      modifies this`position
      ensures Valid()
      ensures r == U32At(data[..], old(position))
      ensures position == if r.Some? then old(position) + 4 else old(position)
    {
      if data.Length < position + 4 {
        return None;
      }
      // the bytes are or-ed into disjoint bit ranges, which is this sum
      var v := data[position] as nat * 0x100_0000 + data[position + 1] as nat * 0x1_0000
             + data[position + 2] as nat * 0x100 + data[position + 3] as nat;
      position := position + 4;
      r := Some(v);
    }
  }
}

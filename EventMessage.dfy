/**
 * The body of an Event Message ("emsg") box, ISO/IEC 23009-1:2014 section
 * 5.10.3.3, without its box header: the wire layout, the record the decoder
 * builds from it, and the decode as a function of the bytes and the limit.
 *
 *   scheme_id_uri NUL  value NUL  timescale  presentation_time_delta
 *   event_duration  id  message_data
 *
 * The four integers are unsigned 32-bit big-endian; message_data runs to the
 * limit.
 */
module Emsg {
  import opened Wrappers
  import opened ParsableBytes

  /** The decoded event, with the duration in milliseconds. */
  datatype EventMessage = EventMessage(
    schemeIdUri: seq<byte>,
    value: seq<byte>,
    durationMs: nat,
    id: nat,
    messageData: seq<byte>)

  /** Why a decode produced no record; each is an exception in the Java decoder. */
  datatype DecodeError =
    | MissingString    // a string read found no byte left (checkNotNull of null)
    | ReadPastArray    // an integer read ran off the end of the backing array
    | ZeroTimescale    // the duration was rescaled by a timescale of 0
    | HeaderPastLimit  // the fields end past the limit, so the payload range is inverted

  /** The fields of a box as they stand on the wire. */
  datatype EmsgBox = EmsgBox(
    schemeIdUri: seq<byte>,
    value: seq<byte>,
    timescale: nat,
    presentationTimeDelta: nat,
    eventDuration: nat,
    id: nat,
    messageData: seq<byte>)

  /** Strings that a NUL can terminate and integers that fit 32 bits. */
  predicate WellFormed(b: EmsgBox) {
    && 0 !in b.schemeIdUri && 0 !in b.value
    && b.timescale < U32_BOUND && b.presentationTimeDelta < U32_BOUND
    && b.eventDuration < U32_BOUND && b.id < U32_BOUND
  }

  /** The number of bytes before message_data. */
  function HeaderLength(b: EmsgBox): nat {
    |b.schemeIdUri| + 1 + |b.value| + 1 + 16
  }

  /** Two strings, each followed by its NUL terminator. */
  function Strings(schemeIdUri: seq<byte>, value: seq<byte>): (s: seq<byte>)
    ensures |s| == |schemeIdUri| + |value| + 2
  {
    schemeIdUri + [0] + value + [0]
  }

  /** Four unsigned 32-bit integers, big-endian, in order. */
  function Integers(a: nat, b: nat, c: nat, d: nat): (s: seq<byte>)
    requires a < U32_BOUND && b < U32_BOUND && c < U32_BOUND && d < U32_BOUND
    ensures |s| == 16
  {
    U32Bytes(a) + U32Bytes(b) + U32Bytes(c) + U32Bytes(d)
  }

  /** The box body laid out in field order. */
  function Serialize(b: EmsgBox): (s: seq<byte>)
    requires WellFormed(b)
    ensures |s| == HeaderLength(b) + |b.messageData|
  {
    Strings(b.schemeIdUri, b.value)
      + Integers(b.timescale, b.presentationTimeDelta, b.eventDuration, b.id)
      + b.messageData
  }

  /**
   * A duration in timescale units as whole milliseconds, rounded down: the
   * largest ms with ms / 1000 seconds no later than duration / timescale.
   */
  function ScaleToMs(duration: nat, timescale: nat): (ms: nat)
    requires timescale > 0
    ensures ms * timescale <= duration * 1000 < (ms + 1) * timescale
  {
    duration * 1000 / timescale
  }

  /** The record a box decodes to. */
  function Message(b: EmsgBox): EventMessage
    requires b.timescale > 0
  {
    EventMessage(b.schemeIdUri, b.value, ScaleToMs(b.eventDuration, b.timescale), b.id, b.messageData)
  }

  /** The fields read before event_duration, and the position after them. */
  datatype Lead = Lead(schemeIdUri: seq<byte>, value: seq<byte>, timescale: nat, delta: nat, next: nat)

  /** The reads of the two strings, timescale and presentation_time_delta. */
  function ParseLead(s: seq<byte>, size: nat): Result<Lead, DecodeError>
    requires size <= |s|
  {
    var scheme := StringAt(s, size, 0);
    if scheme.None? then Failure(MissingString)
    else
      var value := StringAt(s, size, scheme.value.next);
      if value.None? then Failure(MissingString)
      else
        var p := value.value.next;
        var timescale := U32At(s, p);
        if timescale.None? then Failure(ReadPastArray)
        else
          var delta := U32At(s, p + 4);
          if delta.None? then Failure(ReadPastArray)
          else Success(Lead(scheme.value.val, value.value.val, timescale.value, delta.value, p + 8))
  }

  /**
   * Decoding the first `size` bytes of the backing array `s`: the lead, then
   * event_duration, the timescale check, id, and the payload up to the limit.
   */
  function Parse(s: seq<byte>, size: nat): Result<EventMessage, DecodeError>
    requires size <= |s|
  {
    match ParseLead(s, size)
    case Failure(e) => Failure(e)
    case Success(lead) =>
      var duration := U32At(s, lead.next);
      if duration.None? then Failure(ReadPastArray)
      else if lead.timescale == 0 then Failure(ZeroTimescale)
      else
        var durationMs := ScaleToMs(duration.value, lead.timescale);
        var id := U32At(s, lead.next + 4);
        if id.None? then Failure(ReadPastArray)
        else if size < lead.next + 8 then Failure(HeaderPastLimit)
        else Success(EventMessage(lead.schemeIdUri, lead.value, durationMs, id.value, s[lead.next + 8..size]))
  }

  /**
   * The layout of a successful decode: the fields before the payload take
   * exactly two strings, two NULs and sixteen bytes, and the payload is the
   * rest of the bytes up to the limit.
   */
  lemma ParseLayout(s: seq<byte>, size: nat)
    requires size <= |s| && Parse(s, size).Success?
    ensures var m := Parse(s, size).value;
      && |m.schemeIdUri| + 1 + |m.value| + 1 + 16 + |m.messageData| == size
      && m.messageData == s[size - |m.messageData|..size]
      && m.id < U32_BOUND
  {
  }

  /** Whether decoding logs the warning: presentation_time_delta was read and is not 0. */
  function DeltaWarning(s: seq<byte>, size: nat): bool
    requires size <= |s|
  {
    ParseLead(s, size).Success? && ParseLead(s, size).value.delta != 0
  }

  /** The lead of a decode, from the results of its four reads. */
  lemma LeadFromReads(s: seq<byte>, size: nat, sc: Read<seq<byte>>, v: Read<seq<byte>>, ts: nat, delta: nat)
    requires size <= |s| && sc.next <= |s|
    requires StringAt(s, size, 0) == Some(sc) && StringAt(s, size, sc.next) == Some(v)
    requires U32At(s, v.next) == Some(ts) && U32At(s, v.next + 4) == Some(delta)
    ensures ParseLead(s, size) == Success(Lead(sc.val, v.val, ts, delta, v.next + 8))
  {
  }

  /** A decode whose lead fails fails with the same error, before any warning. */
  lemma ParseFromFailedLead(s: seq<byte>, size: nat)
    requires size <= |s| && ParseLead(s, size).Failure?
    ensures Parse(s, size) == Failure(ParseLead(s, size).error)
    ensures !DeltaWarning(s, size)
  {
  }

  /** The errors of a decode whose lead was read, in the order the reads meet them. */
  lemma ParseFailsAfterLead(s: seq<byte>, size: nat, lead: Lead)
    requires size <= |s| && ParseLead(s, size) == Success(lead)
    ensures DeltaWarning(s, size) == (lead.delta != 0)
    ensures U32At(s, lead.next).None? ==> Parse(s, size) == Failure(ReadPastArray)
    ensures U32At(s, lead.next).Some? && lead.timescale == 0 ==> Parse(s, size) == Failure(ZeroTimescale)
    ensures U32At(s, lead.next).Some? && lead.timescale > 0 && U32At(s, lead.next + 4).None? ==>
      Parse(s, size) == Failure(ReadPastArray)
    ensures U32At(s, lead.next).Some? && lead.timescale > 0 && U32At(s, lead.next + 4).Some? && size < lead.next + 8 ==>
      Parse(s, size) == Failure(HeaderPastLimit)
  {
  }

  /** A decode whose lead was read, and whose duration and id were read within the limit, succeeds. */
  lemma ParseFromLead(s: seq<byte>, size: nat, lead: Lead, duration: nat, id: nat)
    requires size <= |s| && ParseLead(s, size) == Success(lead) && lead.timescale > 0
    requires U32At(s, lead.next) == Some(duration) && U32At(s, lead.next + 4) == Some(id)
    requires lead.next + 8 <= size
    ensures Parse(s, size) == Success(EventMessage(lead.schemeIdUri, lead.value,
      ScaleToMs(duration, lead.timescale), id, s[lead.next + 8..size]))
  {
  }

  /** A string with no NUL followed by a NUL inside the limit is read whole, NUL consumed. */
  lemma StringAtTerminated(s: seq<byte>, limit: nat, from: nat, str: seq<byte>)
    requires limit <= |s| && from + |str| < limit
    requires s[from..from + |str|] == str && 0 !in str && s[from + |str|] == 0
    ensures StringAt(s, limit, from) == Some(Read(str, from + |str| + 1))
  {
    var e := from + |str|;
    forall i | from <= i < e ensures s[i] != 0 {
      assert s[i] == str[i - from];
    }
    assert NulIndex(s, from, limit) == e;
  }

  /** Two NUL-terminated strings at the start of the bytes are read back as they were written. */
  lemma StringsAt(s: seq<byte>, size: nat, schemeIdUri: seq<byte>, value: seq<byte>)
    requires size <= |s| && 0 !in schemeIdUri && 0 !in value
    requires |schemeIdUri| + |value| + 2 <= size
    requires s[..|schemeIdUri| + |value| + 2] == Strings(schemeIdUri, value)
    ensures StringAt(s, size, 0) == Some(Read(schemeIdUri, |schemeIdUri| + 1))
    ensures StringAt(s, size, |schemeIdUri| + 1) == Some(Read(value, |schemeIdUri| + |value| + 2))
  {
    var p1, p2 := |schemeIdUri| + 1, |schemeIdUri| + |value| + 2;
    assert s[..p2] == schemeIdUri + [0] + value + [0];
    assert s[..p1 - 1] == schemeIdUri && s[p1 - 1] == 0;
    assert s[p1..p2 - 1] == value && s[p2 - 1] == 0;
    StringAtTerminated(s, size, 0, schemeIdUri);
    StringAtTerminated(s, size, p1, value);
  }

  /** Four integers written at p are read back at p, p + 4, p + 8 and p + 12. */
  lemma IntegersAt(s: seq<byte>, p: nat, a: nat, b: nat, c: nat, d: nat)
    requires a < U32_BOUND && b < U32_BOUND && c < U32_BOUND && d < U32_BOUND
    requires p + 16 <= |s| && s[p..p + 16] == Integers(a, b, c, d)
    ensures U32At(s, p) == Some(a) && U32At(s, p + 4) == Some(b)
    ensures U32At(s, p + 8) == Some(c) && U32At(s, p + 12) == Some(d)
  {
    var f := s[p..p + 16];
    assert f == U32Bytes(a) + U32Bytes(b) + U32Bytes(c) + U32Bytes(d);
    SliceOfSlice(s, p, 16, 0, 4);
    SliceOfSlice(s, p, 16, 4, 8);
    SliceOfSlice(s, p, 16, 8, 12);
    SliceOfSlice(s, p, 16, 12, 16);
    assert f[..4] == U32Bytes(a) && f[4..8] == U32Bytes(b);
    assert f[8..12] == U32Bytes(c) && f[12..16] == U32Bytes(d);
  }

  /** A slice of a slice is a slice of the whole. */
  lemma SliceOfSlice(s: seq<byte>, p: nat, n: nat, i: nat, j: nat)
    requires p + n <= |s| && i <= j <= n
    ensures s[p..p + n][i..j] == s[p + i..p + j]
  {
    var whole, part := s[p..p + n], s[p + i..p + j];
    assert |whole[i..j]| == |part|;
    forall k | 0 <= k < j - i ensures whole[i..j][k] == part[k] {
      assert whole[i..j][k] == whole[i + k] == s[p + i + k];
    }
  }

  /** Sixteen bytes are the layout of the four integers read from them. */
  lemma IntegersRead(s: seq<byte>, p: nat)
    requires p + 16 <= |s|
    ensures s[p..p + 16] == Integers(U32At(s, p).value, U32At(s, p + 4).value,
                                     U32At(s, p + 8).value, U32At(s, p + 12).value)
  {
    assert s[p..p + 16] == s[p..p + 4] + s[p + 4..p + 8] + s[p + 8..p + 12] + s[p + 12..p + 16];
  }

  /** The reads before event_duration recover the strings, timescale and delta of a serialized box. */
  lemma LeadOfSerialized(b: EmsgBox, tail: seq<byte>)
    requires WellFormed(b)
    ensures var s := Serialize(b) + tail;
      ParseLead(s, |Serialize(b)|)
        == Success(Lead(b.schemeIdUri, b.value, b.timescale, b.presentationTimeDelta, HeaderLength(b) - 8))
  {
    var s := Serialize(b) + tail;
    var p2 := |b.schemeIdUri| + |b.value| + 2;
    var ints := Integers(b.timescale, b.presentationTimeDelta, b.eventDuration, b.id);
    assert s == Strings(b.schemeIdUri, b.value) + ints + (b.messageData + tail);
    assert s[..p2] == Strings(b.schemeIdUri, b.value);
    assert s[p2..p2 + 16] == ints;
    StringsAt(s, |Serialize(b)|, b.schemeIdUri, b.value);
    IntegersAt(s, p2, b.timescale, b.presentationTimeDelta, b.eventDuration, b.id);
  }

  /**
   * Round trip: the serialized layout of a well-formed box with a non-zero
   * timescale decodes to its strings, its id, its duration in milliseconds and
   * its payload, whatever lies in the backing array past the limit; the
   * warning is logged exactly when presentation_time_delta is not 0.
   */
  lemma ParseSerialized(b: EmsgBox, tail: seq<byte>)
    requires WellFormed(b) && b.timescale > 0
    ensures var s := Serialize(b) + tail;
      && Parse(s, |Serialize(b)|) == Success(Message(b))
      && DeltaWarning(s, |Serialize(b)|) == (b.presentationTimeDelta != 0)
  {
    var s := Serialize(b) + tail;
    var p2 := |b.schemeIdUri| + |b.value| + 2;
    var ints := Integers(b.timescale, b.presentationTimeDelta, b.eventDuration, b.id);
    assert s == Strings(b.schemeIdUri, b.value) + ints + (b.messageData + tail);
    assert s[p2..p2 + 16] == ints;
    assert s[p2 + 16..|Serialize(b)|] == b.messageData;
    LeadOfSerialized(b, tail);
    IntegersAt(s, p2, b.timescale, b.presentationTimeDelta, b.eventDuration, b.id);
  }

  /** A serialized box whose timescale is 0 fails to decode for that reason alone. */
  lemma ParseZeroTimescale(b: EmsgBox, tail: seq<byte>)
    requires WellFormed(b) && b.timescale == 0
    ensures Parse(Serialize(b) + tail, |Serialize(b)|) == Failure(ZeroTimescale)
  {
    var s := Serialize(b) + tail;
    var p2 := |b.schemeIdUri| + |b.value| + 2;
    var ints := Integers(b.timescale, b.presentationTimeDelta, b.eventDuration, b.id);
    assert s == Strings(b.schemeIdUri, b.value) + ints + (b.messageData + tail);
    assert s[p2..p2 + 16] == ints;
    LeadOfSerialized(b, tail);
    IntegersAt(s, p2, b.timescale, b.presentationTimeDelta, b.eventDuration, b.id);
  }

  /** The fields a successful decode read, as a box. */
  function BoxRead(s: seq<byte>, size: nat): EmsgBox
    requires size <= |s| && Parse(s, size).Success?
  {
    var lead := ParseLead(s, size).value;
    EmsgBox(lead.schemeIdUri, lead.value, lead.timescale, lead.delta,
            U32At(s, lead.next).value, U32At(s, lead.next + 4).value, s[lead.next + 8..size])
  }

  /**
   * Every successful decode reads a serialized box: the bytes up to the limit
   * are the layout of a well-formed box with a non-zero timescale, and the
   * record is that box's. In particular schemeIdUri is the bytes before the
   * first NUL and value the bytes between the first and the second.
   */
  lemma ParsedIsSerialized(s: seq<byte>, size: nat)
    requires size <= |s| && Parse(s, size).Success?
    ensures var b := BoxRead(s, size);
      && WellFormed(b) && b.timescale > 0
      && s[..size] == Serialize(b) && Parse(s, size) == Success(Message(b))
  {
    var sc := StringAt(s, size, 0).value;
    var v := StringAt(s, size, sc.next).value;
    var p2 := v.next;
    var ts, delta := U32At(s, p2).value, U32At(s, p2 + 4).value;
    var dur, id := U32At(s, p2 + 8).value, U32At(s, p2 + 12).value;
    assert ParseLead(s, size) == Success(Lead(sc.val, v.val, ts, delta, p2 + 8));
    assert BoxRead(s, size) == EmsgBox(sc.val, v.val, ts, delta, dur, id, s[p2 + 16..size]);
    assert s[..p2] == Strings(sc.val, v.val) by {
      StringsRead(s, size);
    }
    assert s[p2..p2 + 16] == Integers(ts, delta, dur, id) by {
      IntegersRead(s, p2);
    }
    Split3(s, p2, p2 + 16, size);
  }

  /** Cutting a prefix in three. */
  lemma Split3(s: seq<byte>, i: nat, j: nat, k: nat)
    requires i <= j <= k <= |s|
    ensures s[..k] == s[..i] + s[i..j] + s[j..k]
  {
  }

  /**
   * When both strings were read and sixteen bytes remain before the limit, both
   * strings ended at a NUL, and the bytes read are their layout.
   */
  lemma StringsRead(s: seq<byte>, size: nat)
    requires size <= |s| && StringAt(s, size, 0).Some?
    requires StringAt(s, size, StringAt(s, size, 0).value.next).Some?
    requires StringAt(s, size, StringAt(s, size, 0).value.next).value.next + 16 <= size
    ensures var sc := StringAt(s, size, 0).value;
      var v := StringAt(s, size, sc.next).value;
      && 0 !in sc.val && 0 !in v.val
      && v.next == |sc.val| + |v.val| + 2
      && s[..v.next] == Strings(sc.val, v.val)
  {
    var sc := StringAt(s, size, 0).value;
    var p1 := sc.next;
    var v := StringAt(s, size, p1).value;
    var p2 := v.next;
    assert p1 == |sc.val| + 1 && s[p1 - 1] == 0;
    assert p2 == p1 + |v.val| + 1 && s[p2 - 1] == 0;
    assert s[..p2] == s[..p1 - 1] + [s[p1 - 1]] + s[p1..p2 - 1] + [s[p2 - 1]];
  }

  /** Decoding succeeds exactly on the layouts of well-formed boxes with a non-zero timescale. */
  lemma ParseSucceedsIff(s: seq<byte>, size: nat)
    requires size <= |s|
    ensures Parse(s, size).Success?
      <==> exists b :: WellFormed(b) && b.timescale > 0 && s[..size] == Serialize(b)
  {
    if Parse(s, size).Success? {
      ParsedIsSerialized(s, size);
    }
    if b :| WellFormed(b) && b.timescale > 0 && s[..size] == Serialize(b) {
      SerializedPrefix(s, size, b);
    }
  }

  /** Bytes whose first `size` are a serialized box decode as that box. */
  lemma SerializedPrefix(s: seq<byte>, size: nat, b: EmsgBox)
    requires size <= |s| && WellFormed(b) && b.timescale > 0 && s[..size] == Serialize(b)
    ensures Parse(s, size) == Success(Message(b))
    ensures DeltaWarning(s, size) == (b.presentationTimeDelta != 0)
  {
    assert s == Serialize(b) + s[size..];
    ParseSerialized(b, s[size..]);
  }

  /**
   * Only the bytes before the limit matter: two backing arrays that agree
   * there decode alike, and to the same record and warning when they decode.
   */
  lemma IgnoresBytesPastLimit(s1: seq<byte>, s2: seq<byte>, size: nat)
    requires size <= |s1| && size <= |s2| && s1[..size] == s2[..size]
    ensures Parse(s1, size).Success? <==> Parse(s2, size).Success?
    ensures Parse(s1, size).Success? ==>
      Parse(s1, size) == Parse(s2, size) && DeltaWarning(s1, size) == DeltaWarning(s2, size)
  {
    if Parse(s1, size).Success? {
      ParsedIsSerialized(s1, size);
      var b := BoxRead(s1, size);
      SerializedPrefix(s1, size, b);
      SerializedPrefix(s2, size, b);
    }
    if Parse(s2, size).Success? {
      ParsedIsSerialized(s2, size);
      var b := BoxRead(s2, size);
      SerializedPrefix(s1, size, b);
    }
  }

  /**
   * presentation_time_delta never reaches the record: bytes that agree with a
   * decodable input everywhere below the limit except in the four delta bytes
   * decode to the same record; those four bytes only decide the warning.
   */
  lemma DeltaIgnored(s1: seq<byte>, s2: seq<byte>, size: nat)
    requires size <= |s1| && size <= |s2| && Parse(s1, size).Success?
    requires var m := Parse(s1, size).value;
      var k := |m.schemeIdUri| + 1 + |m.value| + 1 + 4;
      s1[..k] == s2[..k] && s1[k + 4..size] == s2[k + 4..size]
    ensures var m := Parse(s1, size).value;
      var k := |m.schemeIdUri| + 1 + |m.value| + 1 + 4;
      && Parse(s2, size) == Parse(s1, size)
      && DeltaWarning(s2, size) == (BE32(s2[k..k + 4]) != 0)
  {
    ParsedIsSerialized(s1, size);
    var b := BoxRead(s1, size);
    DeltaReplaced(s1, s2, size, b);
  }

  /** DeltaIgnored, for the box the bytes below the limit serialize. */
  lemma DeltaReplaced(s1: seq<byte>, s2: seq<byte>, size: nat, b: EmsgBox)
    requires size <= |s1| && size <= |s2| && WellFormed(b) && b.timescale > 0 && s1[..size] == Serialize(b)
    requires var k := |b.schemeIdUri| + 1 + |b.value| + 1 + 4;
      s1[..k] == s2[..k] && s1[k + 4..size] == s2[k + 4..size]
    ensures var k := |b.schemeIdUri| + 1 + |b.value| + 1 + 4;
      && Parse(s2, size) == Success(Message(b))
      && DeltaWarning(s2, size) == (BE32(s2[k..k + 4]) != 0)
  {
    var k := |b.schemeIdUri| + 1 + |b.value| + 1 + 4;
    ReplaceDelta(s1, s2, size, b);
    SerializedWithDelta(s2, size, b, BE32(s2[k..k + 4]));
  }

  /** Bytes serializing a box with some delta decode as the box, warning for that delta. */
  lemma SerializedWithDelta(s: seq<byte>, size: nat, b: EmsgBox, delta: nat)
    requires size <= |s| && WellFormed(b) && b.timescale > 0
    requires var b' := b.(presentationTimeDelta := delta); WellFormed(b') && s[..size] == Serialize(b')
    ensures Parse(s, size) == Success(Message(b))
    ensures DeltaWarning(s, size) == (delta != 0)
  {
    var b' := b.(presentationTimeDelta := delta);
    SerializedPrefix(s, size, b');
    assert Message(b') == Message(b);
  }

  /** Bytes that differ from a serialized box only in its delta serialize the box with their delta. */
  lemma ReplaceDelta(s1: seq<byte>, s2: seq<byte>, size: nat, b: EmsgBox)
    requires size <= |s1| && size <= |s2| && WellFormed(b) && s1[..size] == Serialize(b)
    requires var k := |b.schemeIdUri| + 1 + |b.value| + 1 + 4;
      s1[..k] == s2[..k] && s1[k + 4..size] == s2[k + 4..size]
    ensures var k := |b.schemeIdUri| + 1 + |b.value| + 1 + 4;
      var b' := b.(presentationTimeDelta := BE32(s2[k..k + 4]));
      WellFormed(b') && s2[..size] == Serialize(b')
  {
    var k := |b.schemeIdUri| + 1 + |b.value| + 1 + 4;
    var delta := s2[k..k + 4];
    U32BytesOfBE32(delta);
    var b' := b.(presentationTimeDelta := BE32(delta));
    var front := Strings(b.schemeIdUri, b.value) + U32Bytes(b.timescale);
    var back := U32Bytes(b.eventDuration) + U32Bytes(b.id) + b.messageData;
    SerializedAroundDelta(b);
    SerializedAroundDelta(b');
    ReplaceMiddle(s1, s2, size, front, U32Bytes(b.presentationTimeDelta), back);
  }

  /** Bytes that agree with `front + mid + back` outside `mid` are `front`, their own middle, and `back`. */
  lemma ReplaceMiddle(s1: seq<byte>, s2: seq<byte>, size: nat, front: seq<byte>, mid: seq<byte>, back: seq<byte>)
    requires size <= |s1| && size <= |s2| && s1[..size] == front + mid + back
    requires var k := |front|;
      k + |mid| <= size && s1[..k] == s2[..k] && s1[k + |mid|..size] == s2[k + |mid|..size]
    ensures s2[..size] == front + s2[|front|..|front| + |mid|] + back
  {
    var k, j := |front|, |front| + |mid|;
    assert s1[..k] == front by {
      assert s1[..size][..k] == front;
    }
    assert s1[j..size] == back by {
      assert s1[..size][j..] == back;
    }
    Split3(s2, k, j, size);
  }

  /** The serialized box around its delta: the bytes before it and after it do not depend on it. */
  lemma SerializedAroundDelta(b: EmsgBox)
    requires WellFormed(b)
    ensures Serialize(b) ==
      (Strings(b.schemeIdUri, b.value) + U32Bytes(b.timescale))
        + U32Bytes(b.presentationTimeDelta)
        + (U32Bytes(b.eventDuration) + U32Bytes(b.id) + b.messageData)
  {
  }

  /**
   * Bytes with no NUL before their last valid byte never yield two strings:
   * the second string read finds no byte left.
   */
  lemma UnterminatedSchemeFails(s: seq<byte>, size: nat)
    requires size <= |s| && forall i :: 0 <= i < size - 1 ==> s[i] != 0
    ensures Parse(s, size) == Failure(MissingString)
  {
    if 0 < size {
      assert NulIndex(s, 0, size) >= size - 1;
      assert StringAt(s, size, 0).value.next == size;
    }
  }

  /**
   * An unterminated value string does not fail by itself: the integer reads go
   * on past the limit, here onto a zero timescale.
   */
  lemma UnterminatedValueZeroTimescale()
    ensures Parse([0x61, 0, 0x62] + seq(16, _ => 0), 3) == Failure(ZeroTimescale)
  {
    var s: seq<byte> := [0x61, 0, 0x62] + seq(16, _ => 0);
    assert NulIndex(s, 0, 3) == 1 && NulIndex(s, 2, 3) == 3;
    assert s[3..7] == [0, 0, 0, 0] && s[7..11] == [0, 0, 0, 0] && s[11..15] == [0, 0, 0, 0];
    assert s[0..1] == [0x61] && s[2..3] == [0x62];
    assert StringAt(s, 3, 0) == Some(Read([0x61], 2)) && StringAt(s, 3, 2) == Some(Read([0x62], 3));
    assert U32At(s, 3) == Some(0) && U32At(s, 7) == Some(0);
    LeadFromReads(s, 3, Read([0x61], 2), Read([0x62], 3), 0, 0);
  }

  /** An unterminated value string followed by too few bytes fails at the duration read. */
  lemma UnterminatedValueReadPastArray()
    ensures Parse([0x61, 0, 0x62, 0, 0, 0, 1, 0, 0, 0, 0], 3) == Failure(ReadPastArray)
  {
    var s: seq<byte> := [0x61, 0, 0x62, 0, 0, 0, 1, 0, 0, 0, 0];
    assert NulIndex(s, 0, 3) == 1 && NulIndex(s, 2, 3) == 3;
    assert s[3..7] == [0, 0, 0, 1] && s[7..11] == [0, 0, 0, 0];
    assert s[0..1] == [0x61] && s[2..3] == [0x62];
    assert StringAt(s, 3, 0) == Some(Read([0x61], 2)) && StringAt(s, 3, 2) == Some(Read([0x62], 3));
    assert U32At(s, 3) == Some(1) && U32At(s, 7) == Some(0);
    LeadFromReads(s, 3, Read([0x61], 2), Read([0x62], 3), 1, 0);
  }

  /** An unterminated value string whose header reads succeed fails at the payload copy. */
  lemma UnterminatedValueHeaderPastLimit()
    ensures Parse([0x61, 0, 0x62] + seq(16, _ => 1), 3) == Failure(HeaderPastLimit)
  {
    var s: seq<byte> := [0x61, 0, 0x62] + seq(16, _ => 1);
    assert NulIndex(s, 0, 3) == 1 && NulIndex(s, 2, 3) == 3;
    assert s[3..7] == [1, 1, 1, 1] && s[7..11] == [1, 1, 1, 1];
    assert s[11..15] == [1, 1, 1, 1] && s[15..19] == [1, 1, 1, 1];
    assert s[0..1] == [0x61] && s[2..3] == [0x62];
    assert StringAt(s, 3, 0) == Some(Read([0x61], 2)) && StringAt(s, 3, 2) == Some(Read([0x62], 3));
    assert U32At(s, 3) == Some(0x0101_0101) && U32At(s, 7) == Some(0x0101_0101);
    LeadFromReads(s, 3, Read([0x61], 2), Read([0x62], 3), 0x0101_0101, 0x0101_0101);
  }

  /**
   * A limit that cuts a serialized box anywhere before its payload fails:
   * the fixed fields cannot be read in full within the limit.
   */
  lemma TruncatedHeaderFails(b: EmsgBox, tail: seq<byte>, size: nat)
    requires WellFormed(b) && size < HeaderLength(b)
    ensures Parse(Serialize(b) + tail, size).Failure?
  {
  }

  /** The examples of the rescale: a millisecond timescale, the 90 kHz clock, a 1 Hz clock. */
  lemma ScaleToMsExamples()
    ensures ScaleToMs(2500, 1000) == 2500
    ensures ScaleToMs(90000, 90000) == 1000
    ensures ScaleToMs(0xFFFF_FFFF, 1) == 4_294_967_295_000
  {
  }

  /** The rescaled duration of a 32-bit duration fits a Java long, so no overflow. */
  lemma ScaleToMsFitsInLong(duration: nat, timescale: nat)
    requires duration < U32_BOUND && timescale > 0
    ensures ScaleToMs(duration, timescale) <= duration * 1000 < 0x8000_0000_0000_0000
  {
    var ms := ScaleToMs(duration, timescale);
    var extra: nat := timescale - 1;
    assert ms * timescale == ms + ms * extra;
  }

  /** A floor quotient is unique. */
  lemma FloorUnique(x: nat, t: nat, q1: nat, q2: nat)
    requires t > 0
    requires q1 * t <= x < (q1 + 1) * t && q2 * t <= x < (q2 + 1) * t
    ensures q1 == q2
  {
  }

  /**
   * For a timescale that counts a whole number k of units per millisecond the
   * rescale is the integer division by k; a millisecond timescale is the identity.
   */
  lemma ScaleToMsDivides(duration: nat, timescale: nat)
    requires timescale > 0 && timescale % 1000 == 0
    ensures ScaleToMs(duration, timescale) == duration / (timescale / 1000)
    ensures timescale == 1000 ==> ScaleToMs(duration, timescale) == duration
  {
    var k := timescale / 1000;
    assert k * 1000 == timescale;
    var q := duration / k;
    ScaledBounds(q, k, duration, 1000);
    FloorUnique(duration * 1000, timescale, ScaleToMs(duration, timescale), q);
  }

  /** Bounds of a floor quotient survive scaling both sides by the same factor. */
  lemma ScaledBounds(q: nat, k: nat, x: nat, c: nat)
    requires k > 0 && c > 0 && q * k <= x < (q + 1) * k
    ensures q * (k * c) <= x * c < (q + 1) * (k * c)
  {
    assert (x + 1) * c == x * c + c;
    assert q * (k * c) == (q * k) * c;
    assert (q + 1) * (k * c) == ((q + 1) * k) * c;
    MulLeq(q * k, x, c);
    MulLeq(x + 1, (q + 1) * k, c);
  }

  /** Multiplying by a natural keeps a non-strict order. */
  lemma MulLeq(a: nat, b: nat, c: nat)
    requires a <= b
    ensures a * c <= b * c
  {
    assert b * c == a * c + (b - a) * c;
  }

  /**
   * For a timescale whose unit is a whole number j of milliseconds the rescale
   * is the exact multiplication by j.
   */
  lemma ScaleToMsMultiplies(duration: nat, timescale: nat)
    requires timescale > 0 && 1000 % timescale == 0
    ensures ScaleToMs(duration, timescale) == duration * (1000 / timescale)
  {
    var j := 1000 / timescale;
    assert j * timescale == 1000;
    assert (duration * j) * timescale == duration * (j * timescale);
    FloorUnique(duration * 1000, timescale, ScaleToMs(duration, timescale), duration * j);
  }
}

/**
 * The emsg decoder: reads the fields of an Event Message box body in order
 * through a ParsableByteArray cursor over the first `size` bytes of the
 * buffer's backing array, and builds the EventMessage.
 */
module EventMessageDecoder {
  import opened Wrappers
  import opened ParsableBytes
  import opened Emsg

  /**
   * The four reads that open a decode: scheme_id_uri and value as
   * NUL-terminated strings, then timescale and presentation_time_delta. The
   * result is the lead as Emsg.ParseLead defines it, and on success the
   * cursor stands just past presentation_time_delta.
   */
  method ReadLead(emsgData: ParsableByteArray) returns (r: Result<Lead, DecodeError>)
    requires emsgData.Valid() && emsgData.position == 0
    modifies emsgData`position
    ensures emsgData.Valid()
    ensures r == ParseLead(emsgData.data[..], emsgData.limit)
    ensures r.Success? ==> emsgData.position == r.value.next
  {
    ghost var s := emsgData.data[..];
    var schemeIdUri := emsgData.ReadNullTerminatedString();
    if schemeIdUri.None? {
      return Failure(MissingString);
    }
    ghost var p1 := emsgData.position;
    var value := emsgData.ReadNullTerminatedString();
    if value.None? {
      return Failure(MissingString);
    }
    ghost var p2 := emsgData.position;
    var timescale := emsgData.ReadUnsignedInt();
    if timescale.None? {
      return Failure(ReadPastArray);
    }
    var presentationTimeDelta := emsgData.ReadUnsignedInt();
    if presentationTimeDelta.None? {
      return Failure(ReadPastArray);
    }
    LeadFromReads(s, emsgData.limit, Read(schemeIdUri.value, p1), Read(value.value, p2),
                  timescale.value, presentationTimeDelta.value);
    r := Success(Lead(schemeIdUri.value, value.value, timescale.value, presentationTimeDelta.value, emsgData.position));
  }

  /**
   * Decodes the box body in data[..size]. The result is the decode of those
   * bytes as Emsg.Parse defines it; `warned` is the warning the decoder logs,
   * raised when presentation_time_delta is read and is not 0. The payload is
   * a copy: the result keeps no reference to `data`.
   */
  method Decode(data: array<byte>, size: nat) returns (r: Result<EventMessage, DecodeError>, warned: bool)
    requires size <= data.Length
    ensures r == Parse(data[..], size)
    ensures warned == DeltaWarning(data[..], size)
  {
    ghost var s := data[..];
    var emsgData := new ParsableByteArray(data, size);
    var lead := ReadLead(emsgData);
    assert data[..] == s;
    if lead.Failure? {
      ParseFromFailedLead(s, size);
      return Failure(lead.error), false;
    }
    var l := lead.value;
    ParseFailsAfterLead(s, size, l);
    assert emsgData.position == l.next;
    warned := false;
    if l.delta != 0 {
      warned := true;
    }
    var eventDuration := emsgData.ReadUnsignedInt();
    assert data[..] == s;
    if eventDuration.None? {
      assert Parse(s, size) == Failure(ReadPastArray);
      return Failure(ReadPastArray), warned;
    }
    if l.timescale == 0 {
      assert Parse(s, size) == Failure(ZeroTimescale);
      return Failure(ZeroTimescale), warned;
    }
    var durationMs := ScaleToMs(eventDuration.value, l.timescale);
    var id := emsgData.ReadUnsignedInt();
    assert data[..] == s;
    if id.None? {
      assert Parse(s, size) == Failure(ReadPastArray);
      return Failure(ReadPastArray), warned;
    }
    if size < emsgData.position {
      assert Parse(s, size) == Failure(HeaderPastLimit);
      return Failure(HeaderPastLimit), warned;
    }
    ParseFromLead(s, size, l, eventDuration.value, id.value);
    var messageData := data[emsgData.position..size];
    assert messageData == s[l.next + 8..size];
    r := Success(EventMessage(l.schemeIdUri, l.value, durationMs, id.value, messageData));
  }
}

/**
 * Decoding of the SunSpec identity block: 49 holding registers read from
 * address 40000.  Each field is read only when the window is long enough to
 * hold it; the three text fields are decoded as ASCII and cut at their first
 * NUL, and a non-ASCII byte in any of them makes the read fail.
 */
module SunSpec {
  import opened Wrappers
  import opened Registers
  import opened AsciiText

  /** Size of the identity read; offset `i` of the window is address 40000 + i. */
  const IDENTITY_COUNT: nat := 49

  /** A run of registers of the block: offsets `base` to `base + count - 1`. */
  datatype Span = Span(base: nat, count: nat) {
    /** The shortest window that holds the whole run. */
    function End(): nat { base + count }
  }

  const MANUFACTURER_SPAN: Span := Span(4, 7)
  const MODEL_SPAN: Span := Span(20, 3)
  const VERSION_SPAN: Span := Span(44, 5)

  /**
   * The four bytes of the SunSpec marker: register 0 shifted left by 16
   * and or-ed with register 1 gives one 32-bit word, whose bytes are then
   * taken from the most significant down.
   */
  function MarkerBytes(r0: Word, r1: Word): (b: seq<Byte>)
    ensures b == [HighByte(r0), LowByte(r0), HighByte(r1), LowByte(r1)]
  {
    var combined: bv32 := ((r0 as bv32) << 16) | (r1 as bv32);
    [((combined >> 24) & 0xFF) as Byte, ((combined >> 16) & 0xFF) as Byte,
     ((combined >> 8) & 0xFF) as Byte, (combined & 0xFF) as Byte]
  }

  /** The marker as text: one character per byte, whatever its value. */
  function MarkerText(r0: Word, r1: Word): (s: string)
    ensures |s| == 4
    ensures forall i :: 0 <= i < 4 ==> s[i] as int == MarkerBytes(r0, r1)[i] as int
  {
    var b := MarkerBytes(r0, r1);
    [Chr(b[0]), Chr(b[1]), Chr(b[2]), Chr(b[3])]
  }

  /** The identity fields; `None` means the field was not read. */
  datatype Identity = Identity(
    marker: Option<string>,
    modelId: Option<Word>,
    modelLength: Option<Word>,
    manufacturer: Option<string>,
    model: Option<string>,
    version: Option<string>)

  const NO_FIELDS: Identity := Identity(None, None, None, None, None, None)

  datatype TextField = Manufacturer | ModelName | Version

  /** The decode error of one text field, with the fields read before it. */
  datatype AsciiError = AsciiError(field: TextField, logged: Identity)

  /** The fields the decoder produced, whether or not it then failed. */
  function Logged(r: Result<Identity, AsciiError>): Identity
  {
    match r
    case Success(id) => id
    case Failure(e) => e.logged
  }

  /** The registers of `span`, when the window holds them all. */
  function SpanWords(regs: seq<Word>, span: Span): seq<Word>
    requires span.End() <= |regs|
  {
    regs[span.base..span.End()]
  }

  /** The text field of `span` would decode, or is not read at all. */
  predicate SpanDecodes(regs: seq<Word>, span: Span)
  {
    span.End() <= |regs| ==> forall i :: span.base <= i < span.End() ==> AsciiWord(regs[i])
  }

  /** Every text field that the window's length lets the decoder read is ASCII. */
  predicate WindowDecodes(regs: seq<Word>)
  {
    SpanDecodes(regs, MANUFACTURER_SPAN) && SpanDecodes(regs, MODEL_SPAN) && SpanDecodes(regs, VERSION_SPAN)
  }

  /** The fields held in registers 0 to 3. */
  function Header(regs: seq<Word>): (id: Identity)
    ensures id.marker.Some? <==> |regs| >= 2
    ensures id.modelId.Some? <==> |regs| >= 3
    ensures id.modelLength.Some? <==> |regs| >= 4
    ensures id.manufacturer.None? && id.model.None? && id.version.None?
  {
    Identity(
      if |regs| >= 2 then Some(MarkerText(regs[0], regs[1])) else None,
      if |regs| >= 3 then Some(regs[2]) else None,
      if |regs| >= 4 then Some(regs[3]) else None,
      None, None, None)
  }

  /** The identity block as the decoder reads it, field by field in register order. */
  function IdentityOf(regs: seq<Word>): (r: Result<Identity, AsciiError>)
    ensures |regs| < MANUFACTURER_SPAN.End() ==> r == Success(Header(regs))
    ensures r.Failure? ==> |regs| >= MANUFACTURER_SPAN.End()
  {
    var header := Header(regs);
    if |regs| < MANUFACTURER_SPAN.End() then Success(header) else
    match DecodeText(SpanWords(regs, MANUFACTURER_SPAN))
    case None => Failure(AsciiError(Manufacturer, header))
    case Some(manufacturer) =>
      var id := header.(manufacturer := Some(manufacturer));
      if |regs| < MODEL_SPAN.End() then Success(id) else
      match DecodeText(SpanWords(regs, MODEL_SPAN))
      case None => Failure(AsciiError(ModelName, id))
      case Some(model) =>
        var id' := id.(model := Some(model));
        if |regs| < VERSION_SPAN.End() then Success(id') else
        match DecodeText(SpanWords(regs, VERSION_SPAN))
        case None => Failure(AsciiError(Version, id'))
        case Some(version) => Success(id'.(version := Some(version)))
  }

  /** A text field decodes exactly when every register of its span is ASCII. */
  lemma SpanWordsDecode(regs: seq<Word>, span: Span)
    requires span.End() <= |regs|
    ensures DecodeText(SpanWords(regs, span)).Some? <==> SpanDecodes(regs, span)
  {
    var words := SpanWords(regs, span);
    assert forall i :: 0 <= i < |words| ==> words[i] == regs[span.base + i];
    if SpanDecodes(regs, span) {
      forall i | 0 <= i < |words| ensures AsciiWord(words[i]) {
        assert AsciiWord(regs[span.base + i]);
      }
    }
    if DecodeText(words).Some? {
      forall i | span.base <= i < span.End() ensures AsciiWord(regs[i]) {
        assert regs[i] == words[i - span.base];
      }
    }
  }

  /** The read succeeds exactly when every text field the window holds is ASCII. */
  lemma IdentitySucceeds(regs: seq<Word>)
    ensures IdentityOf(regs).Success? <==> WindowDecodes(regs)
  {
    if |regs| >= MANUFACTURER_SPAN.End() { SpanWordsDecode(regs, MANUFACTURER_SPAN); }
    if |regs| >= MODEL_SPAN.End() { SpanWordsDecode(regs, MODEL_SPAN); }
    if |regs| >= VERSION_SPAN.End() { SpanWordsDecode(regs, VERSION_SPAN); }
  }

  /**
   * Length gating: registers 0 to 3 are read when the window reaches 2, 3
   * and 4 registers; a text field is read only when the window holds its
   * whole span (11, 23 and 49 registers), and on a successful read it is
   * read whenever the window does.
   */
  lemma IdentityGating(regs: seq<Word>)
    ensures Logged(IdentityOf(regs)).marker == if |regs| >= 2 then Some(MarkerText(regs[0], regs[1])) else None
    ensures Logged(IdentityOf(regs)).modelId == if |regs| >= 3 then Some(regs[2]) else None
    ensures Logged(IdentityOf(regs)).modelLength == if |regs| >= 4 then Some(regs[3]) else None
    ensures Logged(IdentityOf(regs)).manufacturer.Some? ==> |regs| >= 11
    ensures Logged(IdentityOf(regs)).model.Some? ==> |regs| >= 23
    ensures Logged(IdentityOf(regs)).version.Some? ==> |regs| >= 49
    ensures IdentityOf(regs).Success? ==>
      && (IdentityOf(regs).value.manufacturer.Some? <==> |regs| >= 11)
      && (IdentityOf(regs).value.model.Some? <==> |regs| >= 23)
      && (IdentityOf(regs).value.version.Some? <==> |regs| >= 49)
  {
  }

  /**
   * A failed read stops at the first text field that is not ASCII: that
   * field's span lies inside the window, the text fields before it were
   * read with their decoded values, and no field after it was read.
   */
  lemma IdentityFailure(regs: seq<Word>)
    requires IdentityOf(regs).Failure?
    ensures var e := IdentityOf(regs).error;
      match e.field
      case Manufacturer =>
        |regs| >= 11 && !SpanDecodes(regs, MANUFACTURER_SPAN)
        && e.logged.manufacturer.None? && e.logged.model.None? && e.logged.version.None?
      case ModelName =>
        |regs| >= 23 && SpanDecodes(regs, MANUFACTURER_SPAN) && !SpanDecodes(regs, MODEL_SPAN)
        && e.logged.manufacturer == DecodeText(regs[4..11])
        && e.logged.model.None? && e.logged.version.None?
      case Version =>
        |regs| >= 49 && SpanDecodes(regs, MANUFACTURER_SPAN) && SpanDecodes(regs, MODEL_SPAN)
        && !SpanDecodes(regs, VERSION_SPAN)
        && e.logged.manufacturer == DecodeText(regs[4..11])
        && e.logged.model == DecodeText(regs[20..23])
        && e.logged.version.None?
  {
    SpanWordsDecode(regs, MANUFACTURER_SPAN);
    if |regs| >= MODEL_SPAN.End() { SpanWordsDecode(regs, MODEL_SPAN); }
    if |regs| >= VERSION_SPAN.End() { SpanWordsDecode(regs, VERSION_SPAN); }
  }

  /** Every text field that was read is free of NUL and at most two characters per register. */
  lemma TextFieldBounds(regs: seq<Word>)
    ensures var id := Logged(IdentityOf(regs));
      && (id.manufacturer.Some? ==> NUL !in id.manufacturer.value && |id.manufacturer.value| <= 14)
      && (id.model.Some? ==> NUL !in id.model.value && |id.model.value| <= 6)
      && (id.version.Some? ==> NUL !in id.version.value && |id.version.value| <= 10)
  {
  }

  /**
   * Texts packed into the three spans, NUL-padded, decode to themselves, and
   * a full window then reads without error.
   */
  lemma IdentityRoundTrip(regs: seq<Word>, manufacturer: string, model: string, version: string)
    requires |regs| >= IDENTITY_COUNT
    requires IsFieldText(manufacturer) && |manufacturer| <= 14
    requires IsFieldText(model) && |model| <= 6
    requires IsFieldText(version) && |version| <= 10
    requires regs[4..11] == Pack(manufacturer, 7)
    requires regs[20..23] == Pack(model, 3)
    requires regs[44..49] == Pack(version, 5)
    ensures IdentityOf(regs) == Success(Identity(
      Some(MarkerText(regs[0], regs[1])), Some(regs[2]), Some(regs[3]),
      Some(manufacturer), Some(model), Some(version)))
  {
    PackRoundTrip(manufacturer, 7);
    PackRoundTrip(model, 3);
    PackRoundTrip(version, 5);
  }

  /**
   * The identity decoder as the script runs it: guards on the window length,
   * the byte-collecting loop for each text field, ASCII decoding and the cut
   * at the first NUL.
   */
  method DecodeIdentityBlock(regs: seq<Word>) returns (r: Result<Identity, AsciiError>)
    ensures r == IdentityOf(regs)
  {
    var id := NO_FIELDS;
    if |regs| >= 2 {
      id := id.(marker := Some(MarkerText(regs[0], regs[1])));
    }
    if |regs| >= 3 {
      id := id.(modelId := Some(regs[2]));
    }
    if |regs| >= 4 {
      id := id.(modelLength := Some(regs[3]));
    }
    if |regs| >= 11 {
      var bytes := UnpackRegisters(regs, 4, 7);
      var text := AsciiDecode(bytes);
      if text.None? {
        return Failure(AsciiError(Manufacturer, id));
      }
      id := id.(manufacturer := Some(UpToNul(text.value)));
    }
    if |regs| >= 23 {
      var bytes := UnpackRegisters(regs, 20, 3);
      var text := AsciiDecode(bytes);
      if text.None? {
        return Failure(AsciiError(ModelName, id));
      }
      id := id.(model := Some(UpToNul(text.value)));
    }
    if |regs| >= 49 {
      var bytes := UnpackRegisters(regs, 44, 5);
      var text := AsciiDecode(bytes);
      if text.None? {
        return Failure(AsciiError(Version, id));
      }
      id := id.(version := Some(UpToNul(text.value)));
    }
    return Success(id);
  }

  /**
   * `read_sunspec_block` after the transport call: true exactly when the
   * response is not an error and no text field failed to decode; `logged`
   * holds the fields it reported before it returned.
   */
  method ReadSunspecBlock(response: Response) returns (ok: bool, logged: Identity)
    ensures ok <==> response.Reply? && WindowDecodes(response.registers)
    ensures logged == if response.Reply? then Logged(IdentityOf(response.registers)) else NO_FIELDS
  {
    match response
    case ErrorReply =>
      ok, logged := false, NO_FIELDS;
    case Reply(regs) =>
      var r := DecodeIdentityBlock(regs);
      IdentitySucceeds(regs);
      ok, logged := r.Success?, Logged(r);
  }
}

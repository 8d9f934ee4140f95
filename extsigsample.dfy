/**
 * The source's extended-signature sample `AllTheStuff-1` (the `export` and
 * `parse_flevels` tests of src/signature/ext_sig.rs): the record reads as
 * a named PE signature at `EP+78,45` with the sample body, and exports as
 * the same text; with `:99:101` after it, the flevel range is 99 to 101.
 */
module ExtSigSample {
  import opened Wrappers
  import opened ByteStr
  import Utf8
  import Util
  import Num
  import TargetTypes
  import Offsets
  import BodySigs
  import Patterns
  import opened SigMetas
  import ExtSigs
  import BodySigSampleText
  import BodySigSample

  const NAME_1: Bytes := "AllThe"
  const NAME_2: Bytes := "Stuff-1"
  const SAMPLE_NAME: Bytes := NAME_1 + NAME_2
  const SAMPLE_OFFSET: Offsets.Offset := Offsets.Floating(Offsets.EP(78), 45)

  /** `AllTheStuff-1:1:EP+78,45:`, the record's fields before the body, each followed by `:`. */
  const SAMPLE_HEAD: Bytes := SAMPLE_NAME + ":" + "1" + ":" + "EP+78,45" + ":"

  /** The signature the sample record describes, with `ps` as its body's patterns. */
  function SampleSig(ps: seq<Patterns.Pattern>): ExtSigs.ExtendedSig
  {
    ExtSigs.ExtendedSig(Some(SAMPLE_NAME), TargetTypes.PE, Some(SAMPLE_OFFSET), Some(BodySigs.BodySig(ps)), None)
  }

  lemma NamePieces()
    ensures Utf8.IsAscii(NAME_1) && ':' !in NAME_1
    ensures Utf8.IsAscii(NAME_2) && ':' !in NAME_2
  {
  }

  /** The sample's name is UTF-8 without `:`. */
  lemma NameOk()
    ensures Utf8.IsValid(SAMPLE_NAME) && ':' !in SAMPLE_NAME
  {
    NamePieces();
    Utf8.AsciiConcat(NAME_1, NAME_2);
    Utf8.AsciiIsValid(NAME_1 + NAME_2);
  }

  /** The sample's offset fits its Rust types and is written `EP+78,45`. */
  lemma OffsetOk()
    ensures Offsets.Fits(SAMPLE_OFFSET) && Offsets.OffsetText(SAMPLE_OFFSET) == "EP+78,45"
    ensures !(SAMPLE_OFFSET.pos.EP? && SAMPLE_OFFSET.pos.i == Num.ISIZE_MIN)
  {
    assert Num.Dec(78) == "78" && Num.Dec(45) == "45";
  }

  /**
   * A signature with the sample's name, type and offset whose body reads
   * back is one `from_sigbytes` makes, and exports as the sample's head
   * followed by its body's text.
   */
  lemma SampleExportOf(sig: ExtSigs.ExtendedSig, body: Bytes)
    requires sig.name == Some(SAMPLE_NAME) && sig.targetType == TargetTypes.PE && sig.offset == Some(SAMPLE_OFFSET)
    requires sig.modifier.None? && sig.bodySig.Some? && ExtSigs.BodyReadsBack(sig.bodySig)
    requires BodySigs.BodySigText(sig.bodySig.value) == body
    ensures ExtSigs.Readable(sig) && ExtSigs.Exportable(sig)
    ensures ExtSigs.ExportText(sig) == SAMPLE_HEAD + body
  {
    NameOk();
    OffsetOk();
    assert TargetTypes.IdText(TargetTypes.PE) == "1";
    ExtSigs.ExportExact(sig, SAMPLE_NAME, "1", "EP+78,45", body);
  }

  /** The sample signature is one `from_sigbytes` makes, and exports as the sample record. */
  lemma SampleExport(ps: seq<Patterns.Pattern>)
    requires ps == BodySigSampleText.SAMPLE_PATTERNS
    ensures ExtSigs.Readable(SampleSig(ps)) && ExtSigs.Exportable(SampleSig(ps))
    ensures ExtSigs.ExportText(SampleSig(ps)) == SAMPLE_HEAD + BodySigSampleText.SAMPLE_BODY
  {
    BodySigSample.SampleFragment(ps);
    ExtSigs.FragmentBodyReadsBack(BodySigs.BodySig(ps));
    SampleExportOf(SampleSig(ps), BodySigSampleText.SAMPLE_BODY);
  }

  /**
   * `AllTheStuff-1:1:EP+78,45:de1e7e*facade??(c0|ff|ee)decafe[5-9]00{3-4}d1d2{9-}7e8e{-5}!(0f|f1|ce)(B)(L)a??bccdd`
   * reads as the sample signature with default metadata, which exports as
   * the same text.
   */
  lemma SampleRecordRoundTrip(text: Bytes, ps: seq<Patterns.Pattern>)
    requires text == SAMPLE_HEAD + BodySigSampleText.SAMPLE_BODY && ps == BodySigSampleText.SAMPLE_PATTERNS
    ensures ExtSigs.Parse(text) == Ok((SampleSig(ps), DEFAULT_META))
    ensures ExtSigs.Exportable(SampleSig(ps)) && ExtSigs.ExportText(SampleSig(ps)) == text
  {
    SampleExport(ps);
    ExtSigs.RoundTrip(SampleSig(ps));
  }

  lemma FlevelDigits()
    ensures Num.Dec(99) == "99" && Num.Dec(101) == "101"
  {
  }

  /** An export followed by `:99:101` reads back with flevels 99 to 101. */
  lemma FlevelOf(sig: ExtSigs.ExtendedSig, t: Bytes)
    requires ExtSigs.Readable(sig) && ExtSigs.Exportable(sig) && ExtSigs.ExportText(sig) == t
    ensures ExtSigs.Parse(t + ":" + "99" + ":" + "101") == Ok((sig, SigMeta(Some(Util.Inclusive(99, 101)))))
  {
    FlevelDigits();
    ExtSigs.FlevelRoundTrip(sig, 99, 101);
  }

  /** The sample record followed by `:99:101` reads as the sample signature with flevels 99 to 101. */
  lemma SampleFlevelRoundTrip(text: Bytes, ps: seq<Patterns.Pattern>)
    requires text == SAMPLE_HEAD + BodySigSampleText.SAMPLE_BODY + ":" + "99" + ":" + "101"
    requires ps == BodySigSampleText.SAMPLE_PATTERNS
    ensures ExtSigs.Parse(text) == Ok((SampleSig(ps), SigMeta(Some(Util.Inclusive(99, 101)))))
    ensures ExtSigs.Exportable(SampleSig(ps)) && ExtSigs.ExportText(SampleSig(ps)) == SAMPLE_HEAD + BodySigSampleText.SAMPLE_BODY
  {
    SampleExport(ps);
    FlevelOf(SampleSig(ps), SAMPLE_HEAD + BodySigSampleText.SAMPLE_BODY);
  }
}

# ClamAV signature utilities — a Dafny model

clamav-signature-util reads the text lines of ClamAV signature databases,
turns each into a structured signature, checks it against the rules the
ClamAV engine applies, works out the engine features (and hence the minimum
functionality level, "flevel") the signature needs, and writes it back out
in canonical database form. This project models that core in Dafny and
proves properties of the model: parsers read back what the exporters write,
validators accept exactly the inputs their rules describe, and the
step-by-step loops of the source compute what their specifications say.

Bytes are `seq<Byte>` with `Byte` the characters below 256. Rust's `usize`
is taken to be 64 bits wide (`Num.USIZE_MAX`). Every exporter writes into the
`SigBytes.SigBytes` buffer class, whose only state is the bytes written so
far; each exporting method states the whole new buffer contents.

Modules, in dependency order:

- `Wrappers` — `Option` and `Result`.
- `ByteStr` — bytes, digits, `split`, `splitn`, joining, prefixes.
- `Collect` — "parse each element, first error wins" and `map`, shared by the parsers.
- `Utf8` — UTF-8 validation with the `valid_up_to` / `error_len` report of Rust's `str::from_utf8`.
- `Num` — Rust's integer `from_str` and `from_str_radix` with overflow, decimal and hex rendering.
- `Hex` — the `hex` crate's encoder and decoder.
- `SigBytes` — the export buffer and the way raw bytes are displayed.
- `Util` — hashes, hex nybles, ranges, escaped splitting and small field parsers (src/util.rs).
- `IntMask` — integers with "don't care" nybles (src/signature/intmask.rs).
- `Features` — engine features and flevels (src/feature.rs).
- `TypeNames`, `FileTypes` — the file type enumeration (src/filetype.rs).
- `TargetTypes` — target types (src/signature/targettype.rs).
- `TargetDescs` — the Target Description Block of logical signatures (src/signature/logical_sig/targetdesc.rs).
- `Bits` — the bit flags of pattern modifiers.
- `PatternModifiers`, `CharClasses`, `Patterns` — the pieces of a body signature: byte-match flags, character classes and patterns (src/signature/bodysig/pattern_modifier.rs, char_class.rs, pattern.rs).
- `BodySigs` — a body signature and its export (src/signature/bodysig.rs).
- `BodySigParse`, `BodySigParser` — the byte-by-byte body-signature parser: its step functions, and the `BodySigParser` class whose loop runs them (src/signature/bodysig/parse.rs).
- `TextAt`, `BodySigRuns`, `BodySigGroupText`, `BodySigReadBack`, `BodySigReadItems`, `BodySigReadGroups`, `BodySigReadAnchors`, `BodySigReadRight`, `BodySigRoundTrip` — the body round trip: what the parser makes of the text the exporter writes, match byte by match byte, then pattern by pattern, for the pattern lists of `BodySigRoundTrip.Fragment`.
- `BodySigSampleText`, `BodySigSample`, `ExtSigSample` — the `AllTheStuff-1` extended signature of the source's tests (src/signature/ext_sig.rs:413-416), its body's patterns, and its exact round trips.
- `BodySigLimits` — a body the round trip does not cover: a string with a right-side flag that is not negated.
- `SubSigModifiers` — the `::` modifier letters after a sub-signature (src/signature/logical_sig/subsig.rs).
- `MacroSigs`, `FuzzyImgs` — macro and fuzzy-image sub-signatures (src/signature/logical_sig/subsig/macrosig.rs, fuzzy_img.rs).
- `CompSets`, `ByteOpts`, `ByteCmpOffsets`, `ByteCmpEncodings`, `ByteCmps` — byte-compare sub-signatures (src/signature/logical/subsig/bytecmp.rs and src/signature/logical_sig/subsig/bytecmp/).
- `SubSigs` — the sub-signature dispatcher (src/signature/logical_sig/subsig.rs).
- `LogicalExpr`, `ExprRoundTrip` — the logical expression, its parser (the `ElementParser` class) and its display, and the proof that the display reads back (src/signature/logical_sig/expression.rs).
- `LogicalSigs` — logical signatures (src/signature/logical_sig.rs).
- `Offsets`, `ExtSigs` — the offset grammar and extended signatures (src/signature/ext_sig.rs).
- `FileHashes` — file hash signatures (src/signature/filehash.rs).
- `PhishingSigs` — phishing and GSB URL signatures (src/signature/phishing_sig.rs).
- `ContainerSizes`, `ContainerMetadataSigs` — container metadata signatures (src/signature/container_metadata_sig.rs).
- `FTMagicSigs` — file type magic signatures (src/signature/ftmagic.rs).
- `DigitalSigs` — the lines of `.sign` files (src/signature/digital_sig.rs).
- `SigMetas` — record metadata, the shared parse error and flevel validation (src/signature.rs).
- `SigTypes` — signature types and file extensions (src/signature/sigtype.rs).
- `Signatures` — the signature sum type, the per-type dispatch of `parse_from_cvd` and `to_sigbytes` (src/signature.rs).

## Model

| member | source | states |
|---|---|---|
| Collect.MapAll | src/signature/logical_sig/targetdesc.rs:195-210 | a successful run has one result per input element, each the element's own parse |
| Collect.MapAllFirstError | src/signature/logical_sig/targetdesc.rs:197-208 | a failed run reports the error of the first element that fails, all earlier ones succeeding |
| Collect.MapAllEach | src/signature/logical_sig/targetdesc.rs:197-208 | when every element parses, the run succeeds with the results in input order |
| Collect.CollectAll | src/signature/logical_sig/targetdesc.rs:196-209 | the push-each-result loop that returns at the first error computes `MapAll` |
| Collect.Map | src/signature/logical_sig/targetdesc.rs:109-114 | mapping keeps length and applies the function element by element |
| ByteStr.Split | src/signature/logical_sig/targetdesc.rs:126 | `slice::split`: fields hold no separator and are never fewer than one |
| ByteStr.SplitN | src/signature/logical_sig/targetdesc.rs:127 | `splitn`: at most n fields; only the last may hold the separator |
| ByteStr.JoinSplit | src/signature/logical_sig/targetdesc.rs:126 | splitting loses nothing: the fields joined with the separator are the input |
| ByteStr.JoinSplitN | src/util.rs:220 | the same for `splitn` |
| ByteStr.SplitJoin | src/signature/logical_sig/targetdesc.rs:107-118 | fields without the separator, joined and split again, come back unchanged |
| ByteStr.JoinSnoc | src/signature/logical_sig/targetdesc.rs:109-114 | writing one more field after a separator extends the join by that field |
| Utf8.CheckUtf8 | src/sigbytes.rs:99-110 | `str::from_utf8`: the valid prefix length and error length it reports |
| Utf8.AsciiIsValid | src/sigbytes.rs:99 | ASCII text is valid UTF-8 |
| Utf8.ConcatValid | src/sigbytes.rs:99 | valid UTF-8 strings concatenate to valid UTF-8 |
| Utf8.ValidPrefix | src/sigbytes.rs:105-108 | the part before `valid_up_to` is valid UTF-8 |
| Utf8.CheckAfterValid | src/sigbytes.rs:105-117 | after a valid prefix, validation continues exactly as on the rest |
| Num.ParseDec | src/util.rs:196-205 | `parse_number_dec` for an unsigned type: UTF-8 first, then `from_str`; a value is the denoted number and fits the type |
| Num.ParseDecSigned | src/util.rs:196-205 | the same for a signed type, with its lower bound |
| Num.ParseDecAccepts | src/util.rs:196-205 | the accepted texts are exactly an optional `+` and digits whose value fits |
| Num.ParseDecRoundTrip | src/util.rs:196-205 | the decimal rendering of a number that fits parses back to it |
| Num.ParseDecSignedRoundTrip | src/util.rs:196-205 | the same for signed numbers, negative ones included |
| Num.AccPosSound | src/util.rs:202-204 | an accepted digit string is all digits and denotes the result |
| Num.ParseHex | src/util.rs:207-212 | `parse_number_hex`: every leading `0x` removed, then a `u64` in hex |
| Num.ParseHexRoundTrip | src/util.rs:207-212 | `0x` and the `{:x}` rendering parse back to the number |
| Num.HexTextValue | src/sigbytes.rs:175 | `{:x}` denotes the number, in lower-case digits |
| Hex.Hex2 | src/sigbytes.rs:83 | `{:02x}`: two hex digits whose value is the byte |
| Hex.Decode | src/util.rs:115-121 | `hex::decode`: odd length is reported as such; a result has half the digits |
| Hex.DecodeSized | src/util.rs:115-121 | `decode_hex::<SIZE>`: exactly `2 * SIZE` digits, else a length error |
| Hex.DecodeEncode | src/util.rs:114-131 | decoding the encoding gives the bytes back |
| Hex.EncodeIsLowerHex | src/util.rs:82-83 | the encoding is lower-case hex digits only |
| Hex.EncodeConcat | src/sigbytes.rs:82-84 | encoding is byte by byte: the encoding of a concatenation is the concatenation of encodings |
| SigBytes.SigBytes.Write | src/sigbytes.rs:196-203 | writing appends the text and keeps what was written before |
| SigBytes.SigBytes.WriteHex | src/sigbytes.rs:79-87 | the loop writes two lower-case hex digits per byte, in order |
| SigBytes.SigBytes.Show | src/sigbytes.rs:95-125 | the display loop computes `DisplayText`: valid stretches as they are, each invalid sequence as `<|hh..|>`, a truncated end dropped |
| SigBytes.DisplayTextValid | src/sigbytes.rs:95-125 | whatever the bytes, the displayed text is valid UTF-8 |
| SigBytes.DisplayValidUnchanged | src/sigbytes.rs:216-224 | valid UTF-8 is displayed unchanged |
| SigBytes.DisplayEscapesByte | src/sigbytes.rs:238-242 | a byte that cannot start a character is shown as `<|hh|>` and display carries on after it |
| SigBytes.DisplayTruncatedEnd | src/sigbytes.rs:119 | a character cut short by the end stops display without an escape |
| SigBytes.SigCharCases | src/sigbytes.rs:171-178 | an ASCII byte shows quoted, any other as two hex digits between the markers (tests at 211-214) |
| Util.Size | src/util.rs:52-63 | a digest holds 16, 20 or 32 bytes, as its variant says |
| Util.HashTextShape | src/util.rs:79-102 | a hash is written as `2 * size` lower-case hex digits |
| Util.ParseHash | src/util.rs:124-131 | the variant is chosen by half the text length; other lengths are unsupported; the bytes are the hex decoding |
| Util.ParseHashRoundTrip | src/util.rs:66-131 | a hash parses back from its own text |
| Util.HexNyble | src/util.rs:186-194 | the value of a hex digit, shifted to the high half when asked |
| Util.HexNybleHex2 | src/util.rs:186-194 | the two nybles of a byte's hex text add up to the byte |
| Util.ParseRangeInclusive | src/util.rs:215-233 | lower bound first; no `-` after a valid number is a missing upper bound; the lower bound is never reported missing |
| Util.ParseRangeInclusiveRoundTrip | src/util.rs:215-233 | `lo-hi` parses back to the pair |
| Util.Start | src/util.rs:319-326 | only `..=n` has no start |
| Util.StartIsLeast | src/util.rs:319-358 | the start is the least member the range contains; a range without a start contains zero |
| Util.RangeText | src/util.rs:377-391 | the export is never empty |
| Util.RangeTryFrom | src/util.rs:400-419 | a leading `-` is exactly the `..=n` form; bounds fit the type; one number has no `-` |
| Util.RangeRoundTrip | src/util.rs:377-419 | every range that fits its type reads back from its export |
| Util.ParseBoolFromInt | src/util.rs:239-245 | exactly `0` and `1` are accepted, and the flag writes back as its text |
| Util.OptFieldValue | src/util.rs:275-281 | a lone `*` is "no value", anything else is kept |
| Util.StringFromBytes | src/util.rs:428-430 | succeeds exactly on valid UTF-8, with the bytes unchanged |
| Util.PositionOf | src/util.rs:454-467 | `None` is the end position, `Some(n)` the absolute position n |
| Util.UnescapedElement.Test | src/util.rs:256-269 | one call of the predicate: whether the byte separates, and the new escape flag |
| Util.SplitUnescaped | src/util.rs:250-270 | splitting byte by byte with the predicate gives the fields, which join back to the input |
| Util.JoinUnescapedSplit | src/util.rs:250-270 | escaped splitting loses nothing |
| Util.UnescapedSplitJoin | src/util.rs:473-481 | fields holding only escaped separators, joined and split again, stay whole |
| Util.UnbrokenConcat | src/util.rs:250-270 | a field read whole followed by another read whole is read whole, so an escaped `\.` inside a pattern keeps it in one field |
| Util.UnescapedSplitNoEscape | src/util.rs:250-270 | without the escape character the split is the plain `split` |
| IntMask.Render | src/signature/intmask.rs:34-67 | one character per nyble |
| IntMask.RenderAt | src/signature/intmask.rs:41-63 | each character is `?` exactly where the mask covers the nyble, otherwise the value's nyble in hex, most significant first |
| IntMask.RenderIgnoresMaskedValue | src/signature/intmask.rs:44-46 | the value's masked nybles do not show |
| IntMask.Format | src/signature/intmask.rs:34-67 | the loop walking a nyble-wide mask down from the top computes `Render` |
| IntMask.AppendSigBytes | src/signature/intmask.rs:70-100 | the export appends the lower-case rendering |
| IntMask.U8Examples | src/signature/intmask.rs:106-126 | the three rendering examples of the tests |
| Features.Items | src/feature.rs:35-47 | iterating a set gives nothing for `None`, else its list |
| Features.MaxLevel | src/feature.rs:19-24 | the largest minimum flevel of the features, `None` exactly when there are none |
| Features.FeatureLevels | src/feature.rs:17-24 | the computed minimum, never a maximum |
| Features.MaxLevelBySet | src/feature.rs:19-24 | the minimum depends only on which features occur |
| Features.MaxLevelConcat | src/feature.rs:19-24 | requiring more features never lowers the minimum |
| TypeNames.Lookup | src/filetype.rs:120-126 | UTF-8 first, then the name lookup; each failure exactly when its cause holds |
| TypeNames.LookupName | src/filetype.rs:18-19 | with distinct names, each variant is found again from its name |
| FileTypes.Parse | src/filetype.rs:120-126 | a parsed file type is the variant of that name |
| FileTypes.ParseName | src/filetype.rs:120-135 | a file type parses back from its exported name |
| TargetTypes.FromId | src/signature/targettype.rs:29-57 | ids 0 to 12 name a variant and nothing else does |
| TargetTypes.IdInjective | src/signature/targettype.rs:29-57 | ids tell the variants apart |
| TargetTypes.Parse | src/signature/targettype.rs:68-74 | a decimal `usize` then the id table; an unknown id exactly when the number exceeds 12 |
| TargetTypes.ParseText | src/signature/targettype.rs:68-96 | a target type parses back from its export |
| TargetTypes.FeaturesOf | src/signature/targettype.rs:76-85 | PDF, Flash and Java need one feature each, the rest none |
| TargetTypes.NativeExecutables | src/signature/targettype.rs:98-105 | the native executables are ids 1, 6 and 9 and need no feature |
| TargetDescs.KindOf | src/signature/logical_sig/targetdesc.rs:133-236 | the attribute names the parser recognises |
| TargetDescs.KindOfName | src/signature/logical_sig/targetdesc.rs:133-236 | each name selects its own attribute |
| TargetDescs.NameValue | src/signature/logical_sig/targetdesc.rs:127-131 | an attribute splits at its first `:` into name and optional value |
| TargetDescs.ParseAttr | src/signature/logical_sig/targetdesc.rs:127-236 | a parsed attribute is the one its name selects, and had a value |
| TargetDescs.ParseValue | src/signature/logical_sig/targetdesc.rs:134-235 | the value parse yields the attribute of the selected name and never a name error |
| TargetDescs.ParseAttrUnknownName | src/signature/logical_sig/targetdesc.rs:236 | unknown exactly when the name is, reported with the name |
| TargetDescs.ParseAttrMissingValue | src/signature/logical_sig/targetdesc.rs:137-231 | a known name without `:` is missing its value, reported under its name except HandlerType, reported as Container |
| TargetDescs.ParseContainers | src/signature/logical_sig/targetdesc.rs:195-210 | every `>`-separated element is the file type of that name |
| TargetDescs.ParseAttrs | src/signature/logical_sig/targetdesc.rs:126-238 | one attribute per `,`-separated field, in order |
| TargetDescs.ParseAttrsFirstError | src/signature/logical_sig/targetdesc.rs:126-238 | a failed parse reports the first failing field |
| TargetDescs.ParseIntermediates | src/signature/logical_sig/targetdesc.rs:196-209 | the element loop computes `ParseContainers` |
| TargetDescs.ParseAttribute | src/signature/logical_sig/targetdesc.rs:127-236 | one attribute, with the Intermediates loop run as a method |
| TargetDescs.Parse | src/signature/logical_sig/targetdesc.rs:124-241 | the attribute loop computes `ParseSpec` |
| TargetDescs.Names | src/signature/logical_sig/targetdesc.rs:413-420 | the names of the file types, in order |
| TargetDescs.AppendIntermediates | src/signature/logical_sig/targetdesc.rs:413-420 | the names written with `>` between them |
| TargetDescs.AppendAttr | src/signature/logical_sig/targetdesc.rs:388-429 | `Name:value` for every attribute (with the `Intermediates:` prefix, see Findings) |
| TargetDescs.AppendSigBytes | src/signature/logical_sig/targetdesc.rs:107-118 | the attributes written in order with `,` between them |
| TargetDescs.AttrTextHasNo | src/signature/logical_sig/targetdesc.rs:388-429 | no exported attribute holds a `,`, nor a `;` unless an icon group name does |
| TargetDescs.ParseValueText | src/signature/logical_sig/targetdesc.rs:134-235 | each exported value reads back as its attribute |
| TargetDescs.ParseAttrText | src/signature/logical_sig/targetdesc.rs:388-429 | each exported attribute reads back as itself |
| TargetDescs.ExportParse | src/signature/logical_sig/targetdesc.rs:107-241 | exporting a block and parsing it again gives the same attributes in the same order |
| TargetDescs.ParsedIsExportable | src/signature/logical_sig/targetdesc.rs:124-241 | whatever the parser produces has at least one attribute and can be exported and read back |
| TargetDescs.IntermediatesExportAsWritten | src/signature/logical_sig/targetdesc.rs:413-420 | as written, an exported Intermediates attribute reads back as an unknown attribute |
| TargetDescs.ExportAsWrittenAgrees | src/signature/logical_sig/targetdesc.rs:107-118 | on a block without an Intermediates attribute the exporter as written and the corrected one write the same text |
| TargetDescs.ExportIntermediatesExact | src/signature/logical_sig/targetdesc.rs:451-466 | the block holding Intermediates of ZIP, RAR and GRAPHICS exports, as written, as exactly `CL_TYPE_ZIP>CL_TYPE_RAR>CL_TYPE_GRAPHICS` |
| TargetDescs.ExportIntermediatesText | src/signature/logical_sig/targetdesc.rs:413-420 | as written, a block holding only Intermediates of three file types exports as their three names with `>` between them |
| TargetDescs.NameListShape | src/signature/logical_sig/targetdesc.rs:413-420 | a list of type names holds no `,` or `:` and is no attribute name |
| TargetDescs.ParseUnknownName | src/signature/logical_sig/targetdesc.rs:236 | one field without `:` that is no attribute name fails as unknown |
| TargetDescs.FirstEngine | src/signature/logical_sig/targetdesc.rs:274-280 | the first Engine attribute, if any |
| TargetDescs.FirstNeedingEngine | src/signature/logical_sig/targetdesc.rs:299-304 | the first Target or Intermediates attribute, if any |
| TargetDescs.ValidateEngine | src/signature/logical_sig/targetdesc.rs:270-312 | each error exactly when its rule is broken: Engine not first, Engine start below 51, Target or Intermediates without Engine |
| TargetDescs.LastTargetSome | src/signature/logical_sig/targetdesc.rs:320-324 | the remembered target is that of the last Target attribute |
| TargetDescs.LastNativeExecAttrNone | src/signature/logical_sig/targetdesc.rs:325-326 | no attribute is remembered exactly when there is no EntryPoint or NumberOfSections |
| TargetDescs.NativeExecOk | src/signature/logical_sig/targetdesc.rs:316-338 | passes exactly when there is no EntryPoint or NumberOfSections, or the last Target is PE, ELF or MachO |
| TargetDescs.ValidateNativeExecAttrs | src/signature/logical_sig/targetdesc.rs:316-338 | the loop computes `NativeExecSpec` |
| TargetDescs.ValidateIconGroup | src/signature/logical_sig/targetdesc.rs:341-370 | the loop with early return and breaks computes `IconScan` |
| TargetDescs.IconScanOutcome | src/signature/logical_sig/targetdesc.rs:341-370 | the scan fails only when an icon group was or will be seen |
| TargetDescs.IconScanError | src/signature/logical_sig/targetdesc.rs:345-366 | the reported type is a non-PE Target seen, or `None` exactly when none was |
| TargetDescs.IconGroupErrors | src/signature/logical_sig/targetdesc.rs:341-370 | fails only with an icon group; reports `None` exactly without any Target; otherwise a non-PE Target of the block |
| TargetDescs.IconGroupPEFirst | src/signature/logical_sig/targetdesc.rs:347 | a PE Target before any other Target or before any icon group makes the check pass |
| TargetDescs.Validate | src/signature/logical_sig/targetdesc.rs:263-268 | passes exactly when all three checks pass; the first error wins |
| TargetDescs.ParsedEnginesInclusive | src/signature/logical_sig/targetdesc.rs:145-153 | the parser only makes inclusive Engine ranges |
| TargetDescs.ValidationExamples | src/signature/logical_sig/targetdesc.rs:468-578 | the validation tests' expected errors |
| TargetDescs.Flatten | src/signature/logical_sig/targetdesc.rs:246-257 | a feature occurs exactly when some attribute contributes it |
| TargetDescs.TargetDescFeatures | src/signature/logical_sig/targetdesc.rs:244-260 | the Target types' features and the Container and HandlerType file types' features, and nothing else |
| Hex.Encode | src/util.rs:82-98 | the encoding has two digits per byte |
| Hex.EncodeHasNoStarOrColon | src/util.rs:82-83 | hex text holds no `*` and no `:`, so it never clashes with the record's field markers |
| Hex.EncodeAscii | src/util.rs:82-88 | hex text is ASCII, hence valid UTF-8 (the reason `from_utf8_unchecked` is sound) |
| Hex.EncodeDecode | src/util.rs:114-131 | text without upper-case digits that decodes is written back exactly as it was read |
| Hex.LowerHexPairs | src/util.rs:114-121 | an even run of lower-case hex digits decodes pair by pair, and holds no upper-case digit |
| Hex.LowerHexConcat | src/util.rs:114-121 | lower-case hex text followed by lower-case hex text is lower-case hex text |
| Hex.DecodeLowerHex | src/util.rs:82-121 | even lower-case hex text decodes, and encoding the bytes gives the text back |
| Num.FromStrUnsigned | src/util.rs:196-212 | `from_str_radix` for an unsigned type: a value fits the type |
| Num.FromStrSigned | src/util.rs:196-205 | `from_str` for a signed type: a value lies between the type's bounds |
| Num.Dec | src/signature/targettype.rs:91 | `{n}`: decimal digits, with a leading `0` only for zero |
| Num.HexText | src/sigbytes.rs:175 | `{:x}`: hex digits only, never empty |
| Num.TrimHexPrefix | src/util.rs:207-212 | every leading `0x` is removed: what is left is a suffix of the input not starting with `0x` |
| SigBytes.SigBytes.constructor | src/sigbytes.rs:36-39 | a new buffer is empty |
| SigBytes.WriteField | src/sigbytes.rs:196-203 | writing a separator and one more field extends the joined record by that field |
| TargetTypes.Id | src/signature/targettype.rs:29-57 | the id of every target type is at most 12 |
| Bits.OrByte | src/signature/bodysig/parse.rs:717 | `u8 | u8` stays below 256 |
| Bits.OrNybles | src/signature/bodysig/parse.rs:681-717 | a high nyble ORed with a low nyble is their sum |
| Util.UnescapedElement.constructor | src/util.rs:256-258 | the predicate starts with the escape flag clear |
| Collect.MapAllStep | src/signature/logical_sig/targetdesc.rs:197-208 | one more element: the run stops at its failure or goes on with its result |
| PatternModifiers.BitIndex | src/signature/bodysig/pattern_modifier.rs:31-44 | each flag has one of twelve bit positions |
| PatternModifiers.BitsAreDistinct | src/signature/bodysig/pattern_modifier.rs:31-44 | the discriminants are single bits from 0x0001 to 0x0800, different for different flags |
| PatternModifiers.AllInBitOrder | src/signature/bodysig/pattern_modifier.rs:31-44 | the twelve flags in increasing bit order, each at its own position |
| PatternModifiers.LeftRightPartition | src/signature/bodysig/pattern_modifier.rs:49-66 | the left and right masks are disjoint, cover all twelve flags and hold six each; the negative mask is the odd bit positions |
| PatternModifiers.FlagDeterminedByParts | src/signature/bodysig/pattern_modifier.rs:31-66 | a flag is fixed by its family, its side and its negation |
| PatternModifiers.ModifierText | src/signature/bodysig/pattern_modifier.rs:69-91 | `!` exactly for a negative flag, then `(`, the family letter, `)` |
| PatternModifiers.ModifierTextInjective | src/signature/bodysig/pattern_modifier.rs:69-91 | on one side, no two flags share an export text |
| PatternModifiers.Select | src/signature/bodysig/pattern_modifier.rs:28-30 | the flags of a set, taken from a list in its order |
| PatternModifiers.SelectInOrder | src/signature/bodysig/pattern_modifier.rs:28-30 | selecting from an ordered list keeps increasing bit order |
| PatternModifiers.OrderedFlags | src/signature/bodysig/pattern_modifier.rs:28-30 | iterating a flag set lists exactly its flags, by increasing bit |
| CharClasses.PatternModifierOf | src/signature/bodysig/char_class.rs:48-70 | one flag, on the left side exactly when asked, negative exactly when negated, of the class's family |
| CharClasses.PatternModifierOfInjective | src/signature/bodysig/char_class.rs:55-69 | different class, side or negation give different flags |
| CharClasses.PatternModifierOfOnto | src/signature/bodysig/char_class.rs:55-69 | every one of the twelve flags is produced by some input |
| CharClasses.TryFrom | src/signature/bodysig/char_class.rs:73-84 | `B`, `L`, `W` name a class, any other byte is `Unknown` with that byte |
| CharClasses.ClassText | src/signature/bodysig/char_class.rs:86-94 | the class letter in parentheses |
| CharClasses.ClassTextRoundTrip | src/signature/bodysig/char_class.rs:73-94 | the exported letter reads back as the class; a flag's export is its class's export, with `!` when negated |
| Patterns.MatchByteText | src/signature/bodysig/pattern.rs:152-162 | every match byte's text is at least two characters |
| Patterns.MatchByteTextShape | src/signature/bodysig/pattern.rs:152-162 | a full byte is two hex digits of its value, `?x` keeps the low nyble, `x?` the high one, `??` is any byte, and only `{n}` starts with a brace, around the decimal size |
| Patterns.MatchByteTextInjective | src/signature/bodysig/pattern.rs:152-162 | no two match bytes of the shapes the parser builds share a text |
| Patterns.MatchBytesTextConcat | src/signature/bodysig/pattern.rs:120-127 | the text of a concatenation is the concatenation of the texts |
| Patterns.MatchBytesTextSnoc | src/signature/bodysig/pattern.rs:122-124 | one more byte extends the text by that byte's text |
| Patterns.FromBytes | src/signature/bodysig/pattern.rs:77-91 | each plain byte becomes a full match, in order |
| Patterns.FromBytesText | src/signature/bodysig/pattern.rs:77-91 | plain bytes export as their lower-case hex text |
| Patterns.ChunksShape | src/signature/bodysig/pattern.rs:240 | `chunks(width)`: non-empty pieces, all but the last `width` long, that put back together give the data |
| Patterns.ChunksOfConcat | src/signature/bodysig/pattern.rs:240 | pieces of one width, put back to back, are cut back into exactly those pieces |
| Patterns.Slices | src/signature/bodysig/pattern.rs:252-259 | one piece per range, the data between the range's bounds |
| Patterns.FlagsTextConcat | src/signature/bodysig/pattern.rs:206-208 | writing two lists of flags is writing one after the other |
| Patterns.PatternTextShape | src/signature/bodysig/pattern.rs:202-266 | only a wildcard exports as `*`; a byte range is in braces; a group is in parentheses, with a leading `!` when negated |
| Patterns.StringTextNotStar | src/signature/bodysig/pattern.rs:205-210 | a string never exports as `*` |
| Patterns.StringExportDropsRightFlags | src/signature/bodysig/pattern.rs:205-210 | as written, a string exports the same with or without its right-side flags (see Findings) |
| Patterns.StringTextKeepsRightFlags | src/signature/bodysig/pattern.rs:205-210 | the corrected export is the source's text followed by the right-side flags, so a string with any is written longer (see Findings) |
| Patterns.PatternAsWrittenAgrees | src/signature/bodysig/pattern.rs:205-210 | the source's export of a pattern is never longer than the corrected one, and is the same text exactly when the pattern is not a string with right-side flags |
| Patterns.AppendMatchBytes | src/signature/bodysig/pattern.rs:113-127 | the loop writes each match byte's text in turn after what was there |
| Patterns.AppendFlags | src/signature/bodysig/pattern.rs:206-208 | the loop writes each flag's text in turn |
| Patterns.AppendAlts | src/signature/bodysig/pattern.rs:239-260 | the group loop writes `(`, the alternatives with `|` between them, `)` |
| Patterns.AppendPattern | src/signature/bodysig/pattern.rs:202-266 | one pattern's export appended to the buffer: string, `*`, `byte[lo-hi]string` or `string[lo-hi]byte` with both bounds, `{range}`, or a group |
| Patterns.AppendString | src/signature/bodysig/pattern.rs:205-210 | a string's left flags, its bytes, then its right flags (the corrected export, see Findings) |
| Patterns.AppendAltStrings | src/signature/bodysig/pattern.rs:230-262 | a fixed-width group cut into `width`-sized pieces, `!` first when negated; a generic group cut at its ranges |
| Patterns.AnyBytesText | src/signature/bodysig/pattern.rs:274-282 | `*` exactly for an unbounded gap, otherwise `[lo-hi]` |
| BodySigs.PatternsTextConcat | src/signature/bodysig.rs:43-50 | export distributes over joining two pattern lists, and an empty list exports nothing |
| BodySigs.PatternsTextOne | src/signature/bodysig.rs:43-50 | a one-pattern signature exports as that pattern's text |
| BodySigs.AsWrittenAgrees | src/signature/bodysig.rs:43-50 | the source's export of a body signature is never longer than the corrected one; it is the same text exactly when no string has right-side flags, and shorter exactly when one has |
| BodySigs.PatternsAsWrittenAgrees | src/signature/bodysig.rs:43-50 | over a list of patterns, the two exports are the same text exactly when no string has right-side flags, and have the same length exactly then |
| BodySigs.AppendBodySig | src/signature/bodysig.rs:43-50 | the loop appends each pattern's export in order |
| BodySigs.BodySigNeedsNothing | src/signature/bodysig.rs:52-61 | the union of the per-pattern features is empty, since a pattern has the default empty set, so no flevel is computed |
| BodySigs.NoPatternFeatures | src/signature/bodysig/pattern.rs:284 | no pattern contributes a feature |
| BodySigs.ParsedExportable | src/signature/bodysig/parse.rs:959-969 | a parsed signature has at least one pattern, does not start with a wildcard, and every pattern can be exported |
| BodySigs.NoFlagsText | src/signature/bodysig/pattern.rs:205-210 | an empty flag set writes nothing |
| BodySigs.PlainStringText | src/signature/bodysig/pattern.rs:77-91 | a string of plain bytes exports as their hex text |
| BodySigs.HexRoundTrip | src/signature/bodysig/parse.rs:228-969 | the hex text of two or more bytes parses, and its export gives the same text back |
| BodySigParse.UsizeSubExact | src/signature/bodysig/parse.rs:295 | without underflow, the `usize` difference of a static range is the plain difference |
| BodySigParse.FlushStaticRange | src/signature/bodysig/parse.rs:292-301 | a finished run of two or more full bytes is recorded, and the current run is cleared |
| BodySigParse.PushPattern | src/signature/bodysig/parse.rs:533-573 | the pattern is appended exactly when its check passes: a string needs a recorded static run, a generic group may not be negated, and `*` or `{..}` may not come first (`LeadingWildcard`) |
| BodySigParse.PushMatchByte | src/signature/bodysig/parse.rs:510-530 | the byte joins the current string; inside parentheses a non-full byte makes the group generic |
| BodySigParse.UpdateDecValue | src/signature/bodysig/parse.rs:577-587 | one more decimal digit, or `DecimalOverflow` exactly when the value would pass `usize` |
| BodySigParse.HandleAnchoredByteRange | src/signature/bodysig/parse.rs:303-342 | no lower bound is `BracketRangeEmpty`; the upper bound (the lower one for `[n]`) must lie in 1..=32 and not below the lower one; no byte before `[` is an error; one byte makes a left anchor, several a right anchor |
| BodySigParse.HandleCcClose | src/signature/bodysig/parse.rs:347-361 | a class found in the parentheses becomes one flag, on the left side when no byte precedes it, with the current negation, which is then cleared |
| BodySigParse.PushAlternativeString | src/signature/bodysig/parse.rs:633-663 | the bytes become one more alternative; an empty final one with nothing before is `EmptyParens`; the group turns generic on an empty alternative or a length different from the first one's |
| BodySigParse.ResolvePending | src/signature/bodysig/parse.rs:371-423 | a left anchor needs at least two following bytes, a right anchor exactly one, and the anchored pattern is appended |
| BodySigParse.PushGroup | src/signature/bodysig/parse.rs:462-489 | a closed group is generic or fixed-width of the first alternative's width; a negated generic group is refused; negation is then cleared |
| BodySigParse.NonMatchByteChar | src/signature/bodysig/parse.rs:425-499 | `*` appends a wildcard; `|` outside parentheses is `UnexpectedPipeChar`; `)` with no open group is `UnmatchedClosingParen`; any other unexpected byte is `UnexpectedChar` |
| BodySigParse.StepNegate | src/signature/bodysig/parse.rs:894-910 | after `!` only `(` is accepted, opening a negated group |
| BodySigParse.StepCharacterClass | src/signature/bodysig/parse.rs:911-920 | after a class letter only `)` is accepted, closing the class |
| BodySigParse.StepCurlyBraceLower | src/signature/bodysig/parse.rs:757-795 | `{}` is `EmptyBraces`; `{n}` with n at most 128 is a `WildcardMany` byte of the current string; larger n is a standalone `ByteRange` |
| BodySigParse.UpperBraceRange | src/signature/bodysig/parse.rs:803-829 | `{n-m}` with m below n is `RangeBoundsInverted`; `{n-}` is from n; `{-m}` up to m; `{-}` is `NoBraceBounds` |
| BodySigParse.StepLowNyble | src/signature/bodysig/parse.rs:706-756 | a hex digit or `?` completes the byte, which joins the current string, after flushing inside parentheses: after a full high nyble a digit gives the full byte of both nybles and `?` the byte with that high nyble, after `?` a digit gives the byte with that low nyble and `?` any byte (a failed flush is returned as the error, see Findings); `)` in a group closes a class; anything else is `ExpectingLowNyble` |
| BodySigParse.StepCurlyBraceUpper | src/signature/bodysig/parse.rs:796-842 | `}` appends the brace range as a `ByteRange` pattern, or reports the range's error, or the error of the flush before it (see Findings) |
| BodySigParse.BracketLowerBound | src/signature/bodysig/parse.rs:850-868 | a lower bound above 32 is `AnchoredByteInvalidLowerBound`; `[-` without one is `BracketRangeMissingLowerBound` |
| BodySigParse.Step | src/signature/bodysig/parse.rs:674-921 | each step keeps the class state only inside parentheses |
| BodySigParse.RunFrom | src/signature/bodysig/parse.rs:674-922 | running the bytes keeps the same consistency |
| BodySigParse.FinalPatterns | src/signature/bodysig/parse.rs:954-973 | the end passes exactly when no modifier is left over and the list is non-empty and does not end with `*` or `{..}` |
| BodySigParse.Finish | src/signature/bodysig/parse.rs:924-973 | ending inside a byte is `ExpectingLowNyble(End)`; an open brace, bracket, `!` or class has its own error; a success does not end with a wildcard |
| BodySigParse.StepGood | src/signature/bodysig/parse.rs:674-921 | every step keeps the stored patterns exportable, not led by a wildcard, and the open group's ranges inside its data |
| BodySigParse.RunFromGood | src/signature/bodysig/parse.rs:674-922 | the same over a whole run |
| BodySigParse.ParseShape | src/signature/bodysig/parse.rs:959-969 | a successful parse is non-empty, neither starts nor ends with `*` or `{..}`, and every pattern exports |
| BodySigParse.ParseHex | src/signature/bodysig/parse.rs:669-973 | plain hex text is one string of full bytes; one byte is too few static bytes and no bytes is `Empty` |
| BodySigParse.ParseEmpty | src/signature/bodysig/parse.rs:961 | empty input is `Empty` |
| BodySigParse.LeadingStarRefused | src/signature/bodysig/parse.rs:563-567 | a signature starting with `*` is `LeadingWildcard` |
| BodySigParse.EmptyBracesRefused | src/signature/bodysig/parse.rs:765-772 | `{}` is `EmptyBraces` at the brace |
| BodySigParse.FlushUnwrapped | src/signature/bodysig/parse.rs:430 | `flush_match_bytes().unwrap()` as written (also at lines 715, 722 and 830): it panics exactly when the flush fails |
| BodySigParse.NegatedGroupPrefix | src/signature/bodysig/parse.rs:894-903 | after `aa!(b` a negated group is open, the byte awaits its second digit, and the one-byte string `aa` is still unflushed and too short to flush |
| BodySigParse.FirstByteInNegatedGroup | src/signature/bodysig/parse.rs:708-716 | as written, every text starting `aa!(bb` (such as `aa!(bbcc)`) panics in the unwrapped flush; the model reports `MinStaticBytes` (see Findings) |
| BodySigParse.FirstNybleInNegatedGroup | src/signature/bodysig/parse.rs:719-723 | as written, every text starting `aa!(b?` panics in the unwrapped flush; the model reports `MinStaticBytes` (see Findings) |
| BodySigParse.OpenRangePrefix | src/signature/bodysig/parse.rs:796-822 | after `aa{5-` the brace holds `5..` and the one-byte string `aa` is too short to flush |
| BodySigParse.OpenRangeAfterShortString | src/signature/bodysig/parse.rs:830 | as written, every text starting `aa{5-}` (such as `aa{5-}bbcc`) panics in the unwrapped flush; the model reports `MinStaticBytes` (see Findings) |
| BodySigParse.WildcardAfterNybleOnly | src/signature/bodysig/parse.rs:428-433 | as written, `a?*` panics in the unwrapped flush; the model reports `MinStaticBytes` (see Findings) |
| BodySigParse.HandleCcCloseAsWritten | src/signature/bodysig/parse.rs:347-348 | `handle_cc_close` as written unwraps the open group and panics without one |
| BodySigParse.CloseParenAfterHighNyble | src/signature/bodysig/parse.rs:732-735 | as written, `0)` panics; the model reports `ExpectingLowNyble` at the `)` (see Findings) |
| BodySigParser.ParenContext.PushAlternativeString | src/signature/bodysig/parse.rs:633-663 | the method updates the group as `PushAlternativeString` says |
| BodySigParser.ParseContext.FlushStaticRange | src/signature/bodysig/parse.rs:292-301 | the context afterwards is `FlushStaticRange` of the one before |
| BodySigParser.ParseContext.PushPattern | src/signature/bodysig/parse.rs:533-573 | the new context, or the error, is that of `PushPattern` |
| BodySigParser.ParseContext.FlushMatchBytes | src/signature/bodysig/parse.rs:270-290 | the new context, or the error, is that of `FlushMatchBytes` |
| BodySigParser.ParseContext.PushMatchByte | src/signature/bodysig/parse.rs:510-530 | never fails, and the new context is `PushMatchByte`'s |
| BodySigParser.ParseContext.UpdateDecValue | src/signature/bodysig/parse.rs:577-587 | the new context, or `DecimalOverflow`, as `UpdateDecValue` says |
| BodySigParser.ParseContext.HandleAnchoredByteRange | src/signature/bodysig/parse.rs:303-342 | returns `HighNyble` or the error of `HandleAnchoredByteRange`, leaving its context |
| BodySigParser.ParseContext.HandleCcClose | src/signature/bodysig/parse.rs:347-361 | the group is taken and the context is `HandleCcClose`'s |
| BodySigParser.ParseContext.ResolvePending | src/signature/bodysig/parse.rs:371-423 | the pending anchored byte resolved as `ResolvePending` says |
| BodySigParser.ParseContext.CloseGroup | src/signature/bodysig/parse.rs:462-493 | the group closed and stored as `CloseGroup` says |
| BodySigParser.ParseContext.PushGroup | src/signature/bodysig/parse.rs:463-489 | the closed group stored as `PushGroup` says |
| BodySigParser.ParseContext.NonMatchByteChar | src/signature/bodysig/parse.rs:425-499 | the state and context of `NonMatchByteChar` |
| BodySigParser.ParseContext.HandleNonMatchByte | src/signature/bodysig/parse.rs:366-503 | the state and context of `HandleNonMatchByte` |
| BodySigParser.ParseContext.StepHighNyble | src/signature/bodysig/parse.rs:676-705 | the `HighNyble` arm computes `StepHighNyble` |
| BodySigParser.ParseContext.StepLowNyble | src/signature/bodysig/parse.rs:706-756 | the `LowNyble` arm computes `StepLowNyble` |
| BodySigParser.ParseContext.StepCurlyBraceLower | src/signature/bodysig/parse.rs:757-795 | the `CurlyBraceLower` arm computes `StepCurlyBraceLower` |
| BodySigParser.ParseContext.StepCurlyBraceUpper | src/signature/bodysig/parse.rs:796-842 | the `CurlyBraceUpper` arm computes `StepCurlyBraceUpper` |
| BodySigParser.ParseContext.StepBracketLower | src/signature/bodysig/parse.rs:843-881 | the `BracketLower` arm computes `StepBracketLower` |
| BodySigParser.ParseContext.StepBracketUpper | src/signature/bodysig/parse.rs:882-893 | the `BracketUpper` arm computes `StepBracketUpper` |
| BodySigParser.ParseContext.Step | src/signature/bodysig/parse.rs:675-921 | one pass of the loop computes `Step` |
| BodySigParser.ParseContext.Finish | src/signature/bodysig/parse.rs:924-973 | the end-of-input checks compute `Finish` |
| BodySigParser.TryFrom | src/signature/bodysig/parse.rs:669-975 | the byte loop and the final checks compute `Parse`, so every property proved of `Parse` holds of the method |
| BodySigParser.ParenContext.constructor | src/signature/bodysig/parse.rs:609-629 | a new group at its `(`: nothing flushed, no alternatives, not generic, no class |
| BodySigParser.ParseContext.constructor | src/signature/bodysig/parse.rs:671 | the context starts as `ParseContext::default()` |
| BodySigParser.ParseContext.PushString | src/signature/bodysig/parse.rs:270-290 | the bytes read so far become a string pattern, as `PushString` says |
| BodySigParser.ParseContext.StarChar | src/signature/bodysig/parse.rs:428-433 | `*` flushes the bytes and appends a wildcard, as `NonMatchByteChar` says |
| BodySigParser.ParseContext.OpenParenChar | src/signature/bodysig/parse.rs:444-452 | `(` flushes the bytes and opens a group |
| BodySigParser.ParseContext.OpenGroup | src/signature/bodysig/parse.rs:447-451 | a fresh, empty group at the `(`, nothing else changed |
| BodySigParser.ParseContext.PipeChar | src/signature/bodysig/parse.rs:454-461 | `|` adds the bytes as an alternative of the open group, or fails outside one |
| BodySigRoundTrip.BodySigRoundTrip | src/signature/bodysig/parse.rs:669-975 | `BodySig::try_from` reads the export of every fragment body signature back as that signature: strings with left-side flags and negated right-side flags, `*`, ranges, plain and negated groups of alternatives and anchored bytes, in the orders the parser builds them |
| BodySigRoundTrip.ParsePatternsText | src/signature/bodysig/pattern.rs:202-272 | the text written for a fragment's pattern list parses back to exactly that list |
| BodySigRoundTrip.ReadPatterns | src/signature/bodysig/parse.rs:669-924 | the byte loop, run over the texts of fitting patterns, leaves every pattern stored in order, with only a last string or anchored byte still open |
| BodySigRoundTrip.ReadPattern | src/signature/bodysig/parse.rs:669-924 | the text of one fitting pattern, read after the patterns before it, adds exactly that pattern to those stored or open |
| BodySigRoundTrip.FinishPatterns | src/signature/bodysig/parse.rs:926-974 | at the end of a fragment's text the pending anchored byte is resolved and the open string flushed, and the result is the list itself |
| BodySigRoundTrip.FitsExportable | src/signature/bodysig/pattern.rs:202-272 | every pattern of a fitting list can be written |
| BodySigRoundTrip.ColonRefused | src/signature/bodysig/parse.rs:669-924 | no state of the parser accepts `:` |
| BodySigRoundTrip.RunHasNoColon | src/signature/bodysig/parse.rs:669-924 | a text the byte loop reads to its end holds no `:` |
| BodySigRoundTrip.ParsedHasNoColon | src/signature/bodysig/parse.rs:669-975 | a body the parser accepts holds no `:` and is not `*`, so it stays one field of an extended signature |
| BodySigReadBack.ReadFull | src/signature/bodysig/parse.rs:676-718 | the two hex digits of a byte push that full byte onto the bytes being read |
| BodySigReadBack.ReadLowNyble | src/signature/bodysig/parse.rs:698-731 | `?x` pushes a byte whose low nyble only is matched |
| BodySigReadBack.ReadHighNyble | src/signature/bodysig/parse.rs:676-731 | `x?` pushes a byte whose high nyble only is matched |
| BodySigReadBack.ReadAny | src/signature/bodysig/parse.rs:698-731 | `??` pushes a byte that matches anything |
| BodySigReadBack.ReadWildcardMany | src/signature/bodysig/parse.rs:757-795 | `{n}` with n at most 128 pushes a many-byte wildcard of that count |
| BodySigReadBack.ReadDec | src/signature/bodysig/parse.rs:577-631 | the decimal text of n, read in a counting state, leaves n as the number read |
| BodySigReadBack.StaticFull | src/signature/bodysig/parse.rs:510-531 | a full byte extends the run of static bytes being recorded, or starts one at its own index |
| BodySigReadBack.StaticOther | src/signature/bodysig/parse.rs:510-531 | any other byte ends the run of static bytes and records it when it is two bytes or longer |
| BodySigReadBack.ReadString | src/signature/bodysig/parse.rs:676-795 | the text of match bytes pushes exactly those bytes, with the static-byte record kept in step |
| BodySigReadItems.ReadStar | src/signature/bodysig/parse.rs:428-433 | `*` after at least one pattern stores what was open, then a wildcard |
| BodySigReadRight.ClassOfRightFlag | src/signature/bodysig/parse.rs:347-361 | a negated right-side flag is what `handle_cc_close` makes of its class when bytes have been read and the negation is set |
| BodySigReadRight.OpenRightParen | src/signature/bodysig/parse.rs:894-903 | `!(` after a string's bytes stores nothing (`!` only changes state, parse.rs:453): it opens a negated parenthesis at the `(` |
| BodySigReadRight.ReadRightClass | src/signature/bodysig/parse.rs:347-361 | a class letter and `)` inside that parenthesis, with bytes read, add the negated right-side flag to the open string's and close the parenthesis |
| BodySigReadRight.RightFlagRun | src/signature/bodysig/parse.rs:894-903 | the whole text of a negated right-side flag, after bytes read, runs to the context with that flag added |
| BodySigReadRight.ReadRightFlag | src/signature/bodysig/parse.rs:347-361 | one negated right-side flag after a string's bytes leaves the same string open with that flag added, and nothing pending |
| BodySigReadRight.ReadRightFlags | src/signature/bodysig/parse.rs:347-361 | the right-side flags written after a string's bytes, in order, leave that string open with exactly their set added |
| BodySigReadRight.ReadFlaggedString | src/signature/bodysig/pattern.rs:202-210 | the full text of a string, left-side flags, bytes and negated right-side flags, read after the patterns before it, makes that string, with all its flags, the one open |
| BodySigReadItems.ReadClass | src/signature/bodysig/parse.rs:347-361 | a class letter and `)` right after `(`, or after `!(` for a negative class, leave that left-side flag waiting |
| BodySigReadItems.ReadFlag | src/signature/bodysig/parse.rs:894-924 | the text of a left-side flag adds that flag to those waiting and leaves nothing else changed |
| BodySigReadItems.ReadFlags | src/signature/bodysig/parse.rs:894-924 | the flags written before a string, in order, leave exactly their set waiting |
| BodySigReadItems.ReadStringItem | src/signature/bodysig/parse.rs:270-290 | a string's flags and bytes, read after the patterns before it, make that string with that flag set the one open |
| BodySigReadItems.ReadRangeItem | src/signature/bodysig/parse.rs:757-842 | `{n-m}`, `{n-}`, `{-m}` and `{n}` above 128, after at least one pattern, store what was open, then that range |
| BodySigReadGroups.ReadGroupItem | src/signature/bodysig/parse.rs:444-492 | a group of alternatives, plain or negated, stores what was open, then that group |
| BodySigReadGroups.ReadPlainGroup | src/signature/bodysig/parse.rs:444-492 | a group of alternatives in parentheses stores what was open, then that group, fixed-width or generic as the parser decides |
| BodySigReadGroups.ReadNegatedGroup | src/signature/bodysig/parse.rs:894-910 | a group of alternatives after `!` stores what was open, then that negated fixed-width group |
| BodySigReadGroups.GroupedGeneric | src/signature/bodysig/parse.rs:633-667 | alternatives added to a group make it generic exactly when it already was or one of them has another width |
| BodySigReadGroups.FirstGeneric | src/signature/bodysig/parse.rs:633-667 | the alternatives of a new group make it generic exactly when they are of the kinds that make a group generic |
| BodySigReadAnchors.ReadRightAnchor | src/signature/bodysig/parse.rs:303-420 | `string[lo-hi]byte`, read where nothing is open, leaves that right-anchored byte open |
| BodySigReadAnchors.ReadLeftAnchor | src/signature/bodysig/parse.rs:303-420 | `byte[lo-hi]string`, read where nothing is open, leaves that left-anchored byte open |
| BodySigSample.SampleBodyRoundTrip | src/signature/ext_sig.rs:413-424 | the body of the `AllTheStuff-1` sample is the export of its pattern list, that list is a fragment, and the body parses back to it |
| BodySigSample.SampleText | src/signature/bodysig/pattern.rs:202-272 | the sample's patterns are written exactly as the sample's body text |
| BodySigSample.SampleFragment | src/signature/ext_sig.rs:413-414 | the sample's patterns are a fragment, and their text is the sample's body |
| BodySigSample.SampleFits | src/signature/bodysig/parse.rs:669-975 | every pattern of the sample fits after the ones before it |
| BodySigSample.ReadsBackAs | src/signature/bodysig/parse.rs:669-975 | a body that is the text of a fragment parses to the body signature of that fragment |
| BodySigLimits.RightFlagRefused | src/signature/bodysig/parse.rs:347-361 | a string whose one flag is a right-side word boundary, which the parser itself never builds, is written as its bytes then `(B)`, and that text is refused with `CharClassNothingAdjacent` at the end |
| BodySigLimits.ClassAfterHex | src/signature/bodysig/parse.rs:444-452 | `(` stores the bytes before it, so `(B)` after the hex text of two or more bytes waits as a left-side flag, and the end of the body refuses it |
| BodySigLimits.RightBoundaryText | src/signature/bodysig/pattern.rs:202-210 | with its right-side flags written (see Findings), a string of plain bytes with a right-side word boundary is its hex text, then `(B)` |
| SubSigModifiers.ModifierText | src/signature/logical_sig/subsig.rs:62-82 | at most the four letters, one per flag that is on |
| SubSigModifiers.ModifierRoundTrip | src/signature/logical_sig/subsig.rs:62-82 | the written letters are modifier letters and read back as the same flags |
| SubSigModifiers.TrailingRunIs | src/signature/logical_sig.rs:222-234 | the run of letters the backward scan reads is the one maximal trailing run |
| SubSigModifiers.FindModifier | src/signature/logical_sig.rs:213-242 | the backward loop with its two states computes `FindModifierSpec` |
| SubSigModifiers.FindModifierSplits | src/signature/logical_sig.rs:213-242 | no modifier leaves the text unchanged; a modifier is cut off with its `::`, and its flags are those of the letters |
| SubSigModifiers.FindWrittenModifier | src/signature/logical_sig.rs:213-242 | whatever precedes it, `::` and a written modifier are found again with the text before them |
| SubSigModifiers.FindLetters | src/signature/logical_sig.rs:222-236 | any run of the letters `a`, `i`, `w`, `f` after `::` is a modifier |
| SubSigModifiers.NoModifierAfter | src/signature/logical_sig.rs:233 | a text not ending in a letter or `:` has no modifier and is left whole |
| SubSigModifiers.NoModifierWithoutDelimiter | src/signature/logical_sig.rs:235-241 | without two `:` in a row nothing is cut off |
| MacroSigs.ParseInner | src/signature/logical_sig/subsig/macrosig.rs:101-129 | success means a `}` splits the id from the range, the range splits at `-`, and the three decimal numbers are the fields |
| MacroSigs.Parse | src/signature/logical_sig/subsig/macrosig.rs:95-136 | `MissingPrefix` exactly without `${`, `MissingSuffix` exactly without the closing `$`, otherwise the inner fields decide |
| MacroSigs.InnerErrorsIdentified | src/signature/logical_sig/subsig/macrosig.rs:67-74 | every error raised inside the frame is identified |
| MacroSigs.IdentifiedMeansFramed | src/signature/logical_sig/subsig/macrosig.rs:67-74 | an error is identified exactly when the text has the `${ … $` frame |
| MacroSigs.RoundTrip | src/signature/logical_sig/subsig/macrosig.rs:95-136 | the `${min-max}id$` form is read back as the same macro, for every value that fits a `usize` |
| SubSigs.MacroClaim | src/signature/logical_sig/subsig.rs:127-134 | the macro parser ends the dispatch, with success or error, exactly on a framed text |
| SubSigs.ByteCmpClaim | src/signature/logical_sig/subsig.rs:137-144 | the byte-compare parser ends the dispatch exactly on a `trigger(a#b#c)` text |
| SubSigs.FuzzyClaim | src/signature/logical_sig/subsig.rs:147-156 | the fuzzy-image parser ends the dispatch exactly when the first `#` field is `fuzzy_img` |
| SubSigs.ColonFrom | src/signature/logical_sig/subsig.rs:161-168 | the scan finds the first `:` among the first 32 bytes unless a `/` comes before it |
| SubSigs.OffsetColon | src/signature/logical_sig/subsig.rs:161-168 | the offset's `:` is the first `:` in the 32-byte window with no `:` or `/` before it, and none is found only when every `:` there has a `/` before it |
| SubSigs.ColonAt | src/signature/logical_sig/subsig.rs:161-168 | a `:` with no `:` or `/` before it is where the scan stops |
| SubSigs.SplitOffset | src/signature/logical_sig/subsig.rs:161-173 | no `:` leaves the text whole; otherwise the text before it is parsed as an offset, whose error is `OffsetParse`, and the rest follows the `:` |
| SubSigs.ParseBody | src/signature/logical_sig/subsig.rs:176-196 | a PCRE result exactly when the PCRE parser accepts, its identified error exactly when it claims the text, otherwise the body signature as an extended signature with no name and any target type |
| SubSigs.ParseUnframed | src/signature/logical_sig/subsig.rs:161-196 | results keep the modifier they were read with |
| SubSigs.Parse | src/signature/logical_sig/subsig.rs:122-197 | results keep the modifier they were read with |
| SubSigs.AfterMacro | src/signature/logical_sig/subsig.rs:137-197 | results keep the modifier they were read with |
| SubSigs.AfterByteCmp | src/signature/logical_sig/subsig.rs:147-197 | results keep the modifier they were read with |
| SubSigs.MacroFirst | src/signature/logical_sig/subsig.rs:127-134 | a framed macro text gets the macro parser's answer |
| SubSigs.ByteCmpSecond | src/signature/logical_sig/subsig.rs:137-144 | next, a byte-compare-shaped text gets the byte-compare parser's answer |
| SubSigs.FuzzyThird | src/signature/logical_sig/subsig.rs:147-156 | next, a `fuzzy_img` text gets the fuzzy-image parser's answer |
| SubSigs.FallThrough | src/signature/logical_sig/subsig.rs:158-196 | a text none of the three claims goes to the offset split, PCRE and body parsers |
| SubSigs.ResultKinds | src/signature/logical_sig/subsig.rs:122-197 | each kind of result comes from its own parser, after the earlier ones let the text pass |
| SubSigs.FeaturesOfKinds | src/signature/logical_sig/subsig/fuzzy_img.rs:70-74 | macros and extended signatures need no feature, a byte-compare needs `ByteCompareMin`, a fuzzy image `FuzzyImageMin` |
| SubSigs.MacroRoundTrip | src/signature/logical_sig/subsig.rs:127-134 | a macro's text is read back as that macro |
| SubSigs.ByteCmpRoundTrip | src/signature/logical_sig/subsig.rs:137-144 | a byte-compare's text is read back as that byte-compare |
| SubSigs.FuzzyRoundTrip | src/signature/logical_sig/subsig.rs:147-156 | a fuzzy image's text is read back as that fuzzy image |
| SubSigs.FuzzyPrefixIsNoBody | src/signature/logical_sig/subsig.rs:188 | `fuzzy_img` alone is refused by the body-signature parser |
| SubSigs.ExtendedTextParts | src/signature/logical_sig/subsig.rs:189-195 | an extended sub-signature's text is its offset and `:`, if any, then its body |
| SubSigs.SplitAfterOffset | src/signature/logical_sig/subsig.rs:161-170 | a short offset's text, `:` and a body split back into that offset and that body |
| SubSigs.SplitWithoutOffset | src/signature/logical_sig/subsig.rs:171-173 | a text without `:` has no offset |
| SubSigs.PlainBodySplit | src/signature/logical_sig/subsig.rs:161-173 | a plain extended sub-signature's text splits back into its offset and body text |
| SubSigs.PlainUnclaimed | src/signature/logical_sig/subsig.rs:127-156 | a text with no `#` and no `$` other than `fuzzy_img` is claimed by none of the framed parsers |
| SubSigs.NoHashNotShaped | src/signature/logical_sig/subsig.rs:137-144 | without `#` the byte-compare parameters never split into three |
| SubSigs.Fallback | src/signature/logical_sig/subsig.rs:187-196 | an unclaimed text whose body the PCRE parser leaves becomes an extended signature with that offset and body |
| SubSigs.ExtendedAsWrittenAgrees | src/signature/logical_sig/subsig.rs:189-195 | an extended sub-signature is written the same by the source and the corrected exporter exactly when its body has no string with right-side flags, and always without a body |
| SubSigs.ExtendedRoundTrip | src/signature/logical_sig/subsig.rs:158-196 | a plain extended sub-signature is read back from its text when the PCRE parser leaves its body |
| SubSigs.OffsetTextUnclaimed | src/signature/logical_sig/subsig.rs:158-173 | an offset, `:` and a body without `#` or `$` contain neither |
| FuzzyImgs.CheckHash | src/signature/logical_sig/subsig/fuzzy_img.rs:108-127 | the hash is accepted exactly when it is 16 hexadecimal digits, and is kept as written |
| FuzzyImgs.HexIsAscii | src/signature/logical_sig/subsig/fuzzy_img.rs:113-116 | hexadecimal digits always pass the UTF-8 check |
| FuzzyImgs.ParseDistance | src/signature/logical_sig/subsig/fuzzy_img.rs:133-143 | a distance is accepted exactly when it is a decimal `isize` that is not negative, and every refusal is `InvalidHammingDistance` |
| FuzzyImgs.Parse | src/signature/logical_sig/subsig/fuzzy_img.rs:92-158 | `MissingFuzzyImgHashPrefix` exactly when the first `#` field is not `fuzzy_img`; a result holds the 16-digit hash of the second field, a non-negative distance exactly when there is a third, and the modifier |
| FuzzyImgs.IdentifiedMeansPrefix | src/signature/logical_sig/subsig/fuzzy_img.rs:55-62 | an error is identified exactly when the first field is `fuzzy_img` |
| FuzzyImgs.SubSigFeatures | src/signature/logical_sig/subsig/fuzzy_img.rs:70-74 | the feature set is exactly `FuzzyImageMin` |
| FuzzyImgs.RoundTrip | src/signature/logical_sig/subsig/fuzzy_img.rs:76-158 | the export, with `#` before the distance, is read back as the same sub-signature |
| FuzzyImgs.ExportedDistanceRefused | src/signature/logical_sig/subsig/fuzzy_img.rs:83-86 | as written the distance is glued to the hash, and the text is refused as a hash of the wrong length |
| FuzzyImgs.TextHasNo | src/signature/logical_sig/subsig/fuzzy_img.rs:76-89 | the export holds no `:` and no `;` |
| ByteCmps.Comparisons | src/signature/logical/subsig/bytecmp.rs:166-172 | one or two `,`-separated comparison sets fill the two slots in order, the second only when there are two; `TooManyComparisons` only when there are more than two |
| ByteCmps.FillComparisons | src/signature/logical/subsig/bytecmp.rs:166-172 | the slot-filling loop computes `Comparisons` |
| ByteCmps.ComparisonsStop | src/signature/logical/subsig/bytecmp.rs:166-172 | where the loop stops, the filled slots, the third-comparison refusal or the first failing set are what `Comparisons` gives |
| ByteCmps.Trigger | src/signature/logical/subsig/bytecmp.rs:130-136 | the cut is at the last `(`: the parameters hold none, and there is no trigger exactly when the text has no `(` |
| ByteCmps.Parse | src/signature/logical/subsig/bytecmp.rs:123-181 | `MissingClosingParen` exactly without the final `)`; a result has a `(`, a trigger that fits a `u8`, valid options, a decimal offset and a first comparison, and keeps the modifier |
| ByteCmps.ParseInner | src/signature/logical/subsig/bytecmp.rs:130-181 | the error is one of the unidentified ones exactly when there are fewer than three `#` parameters or no `(` |
| ByteCmps.ParseFields | src/signature/logical/subsig/bytecmp.rs:151-180 | a result's trigger, offset, options and comparisons are what their own parsers read, and every error here is identified |
| ByteCmps.ComparisonsErrors | src/signature/logical/subsig/bytecmp.rs:166-172 | the comparisons fail only with a comparison-set error or `TooManyComparisons` |
| ByteCmps.UnidentifiedMeansShape | src/signature/logical/subsig/bytecmp.rs:72-84 | an error is unidentified exactly when the `)`, the three parameters or the `(` are missing |
| ByteCmps.SubSigFeatures | src/signature/logical/subsig/bytecmp.rs:106-110 | the feature set is exactly `ByteCompareMin` |
| ByteCmps.RoundTrip | src/signature/logical/subsig/bytecmp.rs:123-181 | the written form `trigger(offset#options#comparisons)` is read back as the same byte-compare |
| ByteCmps.TriggerOfText | src/signature/logical/subsig/bytecmp.rs:130-136 | the written form cuts back into its trigger and parameters |
| ByteCmps.ParamsOfText | src/signature/logical/subsig/bytecmp.rs:133-148 | the written parameters split back into offset, options and comparisons |
| ByteCmps.FieldsRoundTrip | src/signature/logical/subsig/bytecmp.rs:151-180 | the written fields are read back as the same byte-compare |
| ByteCmps.ComparisonsRoundTrip | src/signature/logical/subsig/bytecmp.rs:166-172 | written comparisons are read back into the same two slots |
| ByteCmps.TwoComparisonsRoundTrip | src/signature/logical/subsig/bytecmp.rs:166-172 | two written comparisons are read back into both slots |
| ByteCmps.ComparisonsOfParts | src/signature/logical/subsig/bytecmp.rs:166-172 | one or two sets that each read back fill the slots in order |
| CompSets.OpChar | src/signature/logical_sig/subsig/bytecmp/compset.rs:100-111 | every operator is written as `<`, `=` or `>` |
| CompSets.ParseOp | src/signature/logical_sig/subsig/bytecmp/compset.rs:100-111 | exactly `<`, `=` and `>` are operators, each read back from its own byte; every other byte is `UnknownOperator` |
| CompSets.Parse | src/signature/logical_sig/subsig/bytecmp/compset.rs:56-91 | `Empty` exactly on empty text, `MissingOperator` exactly on a leading digit, `UnknownOperator` on any other bad first byte, `TooLarge` exactly on a `0x` value above `i64::MAX`; a result records the base it was written in and the value read in that base |
| CompSets.HexValue | src/signature/logical_sig/subsig/bytecmp/compset.rs:69-76 | a hexadecimal `u64` is accepted exactly when it fits an `i64` |
| CompSets.DecimalValue | src/signature/logical_sig/subsig/bytecmp/compset.rs:77-82 | a decimal `i64`, and every refusal is `ParseValue` |
| CompSets.SetText | src/signature/logical_sig/subsig/bytecmp/compset.rs:56-91 | the written form begins with the operator's byte and has a value after it |
| CompSets.RoundTrip | src/signature/logical_sig/subsig/bytecmp/compset.rs:56-91 | the written form is read back as the same comparison, base included |
| CompSets.DecIsNotHex | src/signature/logical_sig/subsig/bytecmp/compset.rs:69 | decimal text never begins with `0x`, so it is never mistaken for the hexadecimal form |
| CompSets.TextHasNo | src/signature/logical_sig/subsig/bytecmp/compset.rs:56-91 | the written form holds no `#`, `(`, `)` or `,` |
| ByteOpts.LastOf | src/signature/logical_sig/subsig/bytecmp/byteopts.rs:55-68 | the last byte of a kind, absent exactly when no byte is of that kind |
| ByteOpts.Parse | src/signature/logical_sig/subsig/bytecmp/byteopts.rs:49-91 | the loop over the bytes and the checks after it compute `ParseSpec` |
| ByteOpts.ErrPersists | src/signature/logical_sig/subsig/bytecmp/byteopts.rs:65-66 | the first bad byte ends the scan, whatever follows |
| ByteOpts.ScanMeaning | src/signature/logical_sig/subsig/bytecmp/byteopts.rs:55-68 | a scan over letters only succeeds, and each variable holds what the last letter of its kind set |
| ByteOpts.LettersStep | src/signature/logical_sig/subsig/bytecmp/byteopts.rs:55-68 | one more option letter updates the state as one pass of the loop does |
| ByteOpts.ParseMeaning | src/signature/logical_sig/subsig/bytecmp/byteopts.rs:49-91 | success exactly when every byte is an option letter, a count is given and decimal is not little-endian; `MissingNumBytes` and `IncompatibleOptions` exactly in their cases; the last letter of each kind wins and decimal alone becomes big-endian |
| ByteOpts.ParseValid | src/signature/logical_sig/subsig/bytecmp/byteopts.rs:64-83 | every result has a count of 1, 2, 4 or 8 and is never decimal and little-endian |
| ByteOpts.ScanErrors | src/signature/logical_sig/subsig/bytecmp/byteopts.rs:65-66 | the loop only fails with `InvalidNumBytes` or `Unrecognized` |
| ByteOpts.FirstBadByte | src/signature/logical_sig/subsig/bytecmp/byteopts.rs:64-66 | the first byte that is no option decides the error: a digit is `InvalidNumBytes`, anything else `Unrecognized` |
| ByteOpts.RoundTrip | src/signature/logical_sig/subsig/bytecmp/byteopts.rs:49-91 | the written options are read back as the same options |
| ByteOpts.LettersOf | src/signature/logical_sig/subsig/bytecmp/byteopts.rs:55-68 | the last encoding and byte-order letters of the written options are the ones written for the fields |
| ByteOpts.EvaluateOf | src/signature/logical_sig/subsig/bytecmp/byteopts.rs:63 | the written options hold `e` exactly when the flag is set |
| ByteOpts.LastOfAppend | src/signature/logical_sig/subsig/bytecmp/byteopts.rs:55-68 | the last letter of a kind in `a + b` is `b`'s, or `a`'s when `b` has none |
| ByteOpts.EncodingLetter | src/signature/logical_sig/subsig/bytecmp/byteopts.rs:57-60 | each encoding's letter reads back as that encoding |
| ByteOpts.EndianLetter | src/signature/logical_sig/subsig/bytecmp/byteopts.rs:61-62 | each byte order's letter reads back as that byte order |
| ByteOpts.TextHasNo | src/signature/logical_sig/subsig/bytecmp/byteopts.rs:49-91 | the written options hold no `#`, `(`, `)` or `,` |
| ByteCmpOffsets.Parse | src/signature/logical_sig/subsig/bytecmp/offset.rs:51-69 | `MissingOffsetModifier` exactly without `>>` or `<<`; `>>` is positive, the value is the decimal `isize` after it, and the encoding is decimal |
| ByteCmpOffsets.OffsetText | src/signature/logical_sig/subsig/bytecmp/offset.rs:51-69 | the written form has the two direction bytes and a value |
| ByteCmpOffsets.RoundTrip | src/signature/logical_sig/subsig/bytecmp/offset.rs:51-69 | the written form is read back as the same offset |
| ByteCmpOffsets.TextHasNo | src/signature/logical_sig/subsig/bytecmp/offset.rs:51-69 | the written form holds no `#`, `(`, `)` or `,` |
| LogicalExpr.PositionOfStream | src/signature/logical_sig/expression/error.rs:68-76 | the end of the stream becomes `End`, a byte becomes its own position |
| LogicalExpr.PositionTextInjective | src/signature/logical_sig/expression/error.rs:51-64 | different positions are shown differently |
| LogicalExpr.FirstLetter | src/signature/logical_sig/expression/error.rs:51-64 | only positions inside the expression are shown beginning with `p` |
| LogicalExpr.BodyInjective | src/signature/logical_sig/expression/error.rs:55-61 | a single position and a range are never shown alike, nor two different ones of either kind |
| LogicalExpr.DecInjective | src/signature/logical_sig/expression/error.rs:55-61 | different numbers are shown differently |
| LogicalExpr.OperationTryFrom | src/signature/logical_sig/expression.rs:156-166 | exactly `&` and `|` are operations |
| LogicalExpr.OperationRoundTrip | src/signature/logical_sig/expression.rs:147-166 | an operation's character reads back as that operation, and an operation read back shows as its own byte |
| LogicalExpr.ModOpTryFrom | src/signature/logical_sig/expression.rs:182-193 | exactly `<`, `=` and `>` are modifier operators |
| LogicalExpr.ModOpRoundTrip | src/signature/logical_sig/expression.rs:172-193 | a modifier operator's character reads back as that operator, and one read back shows as its own byte |
| LogicalExpr.OrZero | src/signature/logical_sig/expression.rs:293 | a missing count counts as 0 |
| LogicalExpr.WithOperation | src/signature/logical_sig/expression.rs:116-118 | the element now has the given operation |
| LogicalExpr.WithModifier | src/signature/logical_sig/expression.rs:124-126 | the element now has the given modifier |
| LogicalExpr.Read | src/signature/logical_sig/expression.rs:274 | a byte and its position while the stream lasts, nothing after it |
| LogicalExpr.ApplyModifier | src/signature/logical_sig/expression.rs:390-415 | a missing required count is `ModifierMatchReqMissing`; inside the stream the modifier replaces that of the last element only (a panic when there is none); at the end it becomes the expression's; the state returns to `Initial` |
| LogicalExpr.Finish | src/signature/logical_sig/expression.rs:422-438 | a pending index becomes the last element with the pending operation and no modifier; otherwise the operation left belongs to the expression |
| LogicalExpr.ParseElement | src/signature/logical_sig/expression.rs:247-439 | a result is an expression at the depth asked for, ending within the input |
| LogicalExpr.Run | src/signature/logical_sig/expression.rs:273-420 | the loop's result is an expression at the same depth, ending within the input |
| LogicalExpr.InitialStep | src/signature/logical_sig/expression.rs:277-321 | the `Initial` state's result is an expression at the same depth, ending within the input |
| LogicalExpr.PushPending | src/signature/logical_sig/expression.rs:297-304 | a pending index becomes an element with the pending operation and modifier, which are then cleared |
| LogicalExpr.RunAtEnd | src/signature/logical_sig/expression.rs:319 | at the end of the stream the loop finishes |
| LogicalExpr.RunOpen | src/signature/logical_sig/expression.rs:278-283 | `(` parses a nested expression one level deeper, which takes the pending operation; a depth beyond 255 panics |
| LogicalExpr.RunClose | src/signature/logical_sig/expression.rs:284-290 | `)` ends a nested expression after the byte, and panics at the top level |
| LogicalExpr.RunSigDigit | src/signature/logical_sig/expression.rs:292-294 | a digit extends the pending index, and an index beyond 255 panics |
| LogicalExpr.RunOther | src/signature/logical_sig/expression.rs:296-318 | any other byte ends the pending index; a second operation is `UnexpectedOperator`, a modifier operator starts the required count, any other byte is `InvalidCharacter` |
| LogicalExpr.RunModDigit | src/signature/logical_sig/expression.rs:323-347 | a digit extends the count being read, remembering where its digits began; a count beyond `usize::MAX` is `ModifierMatchValueOverflow` over the digits read |
| LogicalExpr.RunModReqOther | src/signature/logical_sig/expression.rs:348-352 | after the required count `,` moves to the unique count; anything else applies the modifier to the same byte |
| LogicalExpr.RunModUniqOther | src/signature/logical_sig/expression.rs:380-388 | a missing unique count is `ModifierMatchUniqMissing` at that byte; otherwise the modifier is applied to the same byte |
| LogicalExpr.RunApplying | src/signature/logical_sig/expression.rs:390-415 | applying the modifier either fails or hands the same byte to `Initial` |
| LogicalExpr.StateOf | src/signature/logical_sig/expression.rs:251-261 | the state is `Initial` exactly in the initial phase |
| LogicalExpr.ElementParser.constructor | src/signature/logical_sig/expression.rs:263-271 | the loop's variables start empty in `Initial` |
| LogicalExpr.ElementParser.HandleInitial | src/signature/logical_sig/expression.rs:277-321 | each byte in `Initial` does what `Run` does with it: an error, the next position with the new variables, or the end of this expression |
| LogicalExpr.ElementParser.HandleModValue | src/signature/logical_sig/expression.rs:322-389 | each byte while reading a count does what `Run` does with it |
| LogicalExpr.ElementParser.HandleModDigit | src/signature/logical_sig/expression.rs:323-347 | a digit while reading a count does what `Run` does with it |
| LogicalExpr.ElementParser.HandleModOther | src/signature/logical_sig/expression.rs:348-352 | any other byte while reading a count does what `Run` does with it |
| LogicalExpr.ElementParser.HandleApplyModifier | src/signature/logical_sig/expression.rs:390-415 | applying the modifier does what `Run` does, leaving the state `Initial` |
| LogicalExpr.ParseElementAt | src/signature/logical_sig/expression.rs:247-439 | the loop that calls itself at each `(` computes `ParseElement` |
| LogicalExpr.TryFrom | src/signature/logical_sig/expression.rs:237-244 | the loop over the whole input computes `Parse` |
| ExprRoundTrip.ParseDisplay | src/signature/logical_sig/expression.rs:87-244 | the display of a whole expression in the form the parser builds parses back to the same expression; the one form left out, a modifier on the last top-level element with none on the expression, displays exactly as the expression's own modifier would |
| ExprRoundTrip.ParseWhole | src/signature/logical_sig/expression.rs:237-244 | the elements and modifier of a whole expression, displayed one after the other, parse to it |
| ExprRoundTrip.ElementsRun | src/signature/logical_sig/expression.rs:273-420 | reading the display of the elements of a group adds exactly those elements, in order |
| ExprRoundTrip.ElementRun | src/signature/logical_sig/expression.rs:273-420 | reading the display of one element adds exactly that element |
| ExprRoundTrip.IndexRun | src/signature/logical_sig/expression.rs:199-213 | reading an index's display (operator, digits, modifier) adds exactly that index |
| ExprRoundTrip.GroupRun | src/signature/logical_sig/expression.rs:87-109 | reading a group's display (operator, `(`, elements, `)`, modifier) adds exactly that group |
| ExprRoundTrip.ParseNested | src/signature/logical_sig/expression.rs:278-290 | the elements of a group and its `)` parse, one level deeper, to that group, ending after the `)` |
| ExprRoundTrip.OpenGroup | src/signature/logical_sig/expression.rs:278-283 | the group parsed after `(` joins the elements with the operation pending before it |
| ExprRoundTrip.ReadModifier | src/signature/logical_sig/expression.rs:322-389 | reading a modifier's display leaves exactly that modifier ready to apply |
| ExprRoundTrip.ApplyToLast | src/signature/logical_sig/expression.rs:401-408 | inside the stream a modifier read after an element goes to that element |
| ExprRoundTrip.SigDigits | src/signature/logical_sig/expression.rs:292-294 | the digits of an index read as that index |
| ExprRoundTrip.ReqDigits | src/signature/logical_sig/expression.rs:323-347 | the digits of a required count read as that count |
| ExprRoundTrip.UniqDigits | src/signature/logical_sig/expression.rs:355-379 | the digits of a unique count read as that count |
| LogicalSigs.ParseSubSigs | src/signature/logical_sig.rs:133-139 | every field parsed in order, or the first failing field reported with its number, every field before it having parsed |
| LogicalSigs.FirstInclusiveEngine | src/signature/logical_sig.rs:141-146 | the first Engine attribute that holds an inclusive range, and none exactly when no attribute does |
| LogicalSigs.ParseRest | src/signature/logical_sig.rs:122-139 | `MissingTargetDesc` exactly with no field after the name, `MissingExpression` exactly with only a valid block; a result is the block, the expression and the sub-signatures their parsers read |
| LogicalSigs.ParseSpec | src/signature/logical_sig.rs:113-156 | `NameNotUnicode` exactly when the first field is not UTF-8; a result's name is the first field and its flevel the block's first inclusive Engine range |
| LogicalSigs.ParseSubSigFields | src/signature/logical_sig.rs:133-139 | the loop that cuts each field's modifier off and parses it computes `ParseSubSigs` |
| LogicalSigs.FromSigBytes | src/signature/logical_sig.rs:113-156 | the parsing steps as the source runs them compute `ParseSpec` |
| LogicalSigs.SubSigErrorIndex | src/signature/logical_sig.rs:133-139 | a failing sub-signature is reported with its zero-based number among the sub-signature fields, and every field before it parses |
| LogicalSigs.RestSubSigError | src/signature/logical_sig.rs:133-139 | a failing sub-signature is the failure of the sub-signature fields |
| LogicalSigs.ShiftIndex | src/signature/logical_sig.rs:133-139 | the reported number counts from the fourth field |
| LogicalSigs.FlevelIsFirstEngine | src/signature/logical_sig.rs:141-146 | the parser only makes inclusive Engine ranges, so the flevel is that of the first Engine attribute, or none without one |
| LogicalSigs.ValidateSubelements | src/signature/logical_sig.rs:93-109 | the loop over the sub-signatures computes `ValidateSubelementsSpec` |
| LogicalSigs.ExtendedFromStep | src/signature/logical_sig.rs:97-106 | an extended sub-signature that fails validation is reported with its number; otherwise the rest decides |
| LogicalSigs.ExtendedNeverFail | src/signature/logical_sig.rs:97-106 | no extended sub-signature of a logical signature fails validation |
| LogicalSigs.SubelementsAreTargetDesc | src/signature/logical_sig.rs:93-109 | the sub-element check passes exactly when the block's does, and fails with the block's error |
| LogicalSigs.SubSigsFeatures | src/signature/logical_sig.rs:162-164 | exactly the features some sub-signature needs |
| LogicalSigs.SigFeatures | src/signature/logical_sig.rs:159-167 | exactly the features some sub-signature or the block needs |
| LogicalSigs.KindFeatures | src/signature/logical_sig.rs:159-167 | a byte-compare sub-signature brings `ByteCompareMin`, a fuzzy image `FuzzyImageMin` |
| LogicalSigs.ValidateMeaning | src/signature.rs:70-123 | a logical signature is valid exactly when its block is and it needs no feature, or it declares a minimum flevel no lower than each feature needs |
| LogicalSigs.DeclaredFlevelTooLow | src/signature/logical_sig.rs:402-416 | a declared minimum below what one feature needs is refused as `SpecifiedMinFLevelTooLow` with the declared minimum, a computed minimum at least that feature's, and the feature set |
| LogicalSigs.AsWrittenAgrees | src/signature/logical_sig.rs:175-203 | with at least one sub-signature, no Intermediates attribute in the block, no fuzzy image with a distance and no body string with right-side flags, the source's export and the corrected one are the same text |
| LogicalSigs.SubSigAsWrittenAgrees | src/signature/logical_sig.rs:199 | a sub-signature is written the same by the source and the corrected exporter exactly when it is not a fuzzy image with a distance nor an extended signature whose body has a string with right-side flags |
| LogicalSigs.AppendSubSig | src/signature/logical_sig.rs:178-201 | one sub-signature is appended as the record writes it |
| LogicalSigs.AppendExtended | src/signature/logical_sig.rs:182-198 | an extended sub-signature's offset, `:` and body are appended |
| LogicalSigs.AppendHead | src/signature/logical_sig.rs:175-177 | the name, the block and the expression are appended with `;` between them |
| LogicalSigs.AppendStep | src/signature/logical_sig.rs:178-181 | a `;` and the next sub-signature extend the joined fields by that sub-signature |
| LogicalSigs.AppendLogicalSig | src/signature/logical_sig.rs:170-204 | the record appended is `ExportText`: the fields joined by `;` |
| LogicalSigs.ElementTextHasNo | src/signature/logical_sig.rs:177 | an expression's display holds no `;` |
| LogicalSigs.ExtendedTextShape | src/signature/logical_sig.rs:182-194 | an extended sub-signature's text holds no `;` and no two `:` in a row |
| LogicalSigs.FindSuffix | src/signature/logical_sig.rs:195-198 | a modifier written after such a text is found again by `find_modifier`, with the text before it |
| LogicalSigs.ExtendedFieldRoundTrip | src/signature/logical_sig.rs:133-139 | an extended sub-signature's field reads back as it |
| LogicalSigs.FuzzyFieldRoundTrip | src/signature/logical_sig.rs:133-139 | a fuzzy image's field reads back as it |
| LogicalSigs.SubSigRoundTrip | src/signature/logical_sig.rs:133-139 | each readable sub-signature's field holds no `;` and reads back as it |
| LogicalSigs.ParseSubSigsEach | src/signature/logical_sig.rs:133-139 | fields that each read back give the list of them |
| LogicalSigs.SubSigFields | src/signature/logical_sig.rs:133-139 | the sub-signature fields of the export are free of `;` and read back |
| LogicalSigs.ReadFields | src/signature/logical_sig.rs:113-156 | a record joined from `;`-free fields is read field by field |
| LogicalSigs.ParseFromFields | src/signature/logical_sig.rs:113-156 | a record whose fields are a name, a block, an expression and sub-signatures parses to those |
| LogicalSigs.RoundTrip | src/signature/logical_sig.rs:113-204 | reading the export of a readable record gives it back, with the flevel of its first inclusive Engine range |
| LogicalSigs.NoSubSigExportRefused | src/signature/logical_sig.rs:177 | as written, a record with no sub-signature (and no Intermediates attribute) exports with a `;` after its expression, which reads back as an empty sub-signature field and is refused |
| LogicalSigs.EmptyFieldRefused | src/signature/logical_sig.rs:133-139 | an empty sub-signature field is refused unless the PCRE parser accepts the empty text |
| ExtSigs.ParseBody | src/signature/ext_sig.rs:104-110 | `*` exactly means no body; any other field is a body signature, its error wrapped as `BodySig` |
| ExtSigs.ParseFields | src/signature/ext_sig.rs:91-124 | `MissingTargetType` exactly with no field after the name, `MissingOffset` exactly with only a valid target type; a result holds what the target-type, offset, body and flevel parsers read |
| ExtSigs.Parse | src/signature/ext_sig.rs:80-136 | `NameNotUnicode` exactly when the first field is not UTF-8; a result is named by the first field, has an offset and no modifier, from at least four fields |
| ExtSigs.Name | src/signature/ext_sig.rs:317-323 | the name, or `anonymous` without one |
| ExtSigs.NeedsNothing | src/signature/ext_sig.rs:372-379 | an extended signature needs no feature |
| ExtSigs.AlwaysValid | src/signature/ext_sig.rs:325-369 | needing no feature, every extended signature passes validation whatever flevel it declares |
| ExtSigs.ExportText | src/signature/ext_sig.rs:381-401 | with a body without right-side string flags the export is the source's, with such flags it is longer; without a body it is the source's followed by `:*` |
| ExtSigs.BodyAsWritten | src/signature/ext_sig.rs:381-401 | the corrected and the source's export of a signature with a body differ only in the body's text: equal exactly without right-side string flags, longer otherwise |
| ExtSigs.AppendExtSig | src/signature/ext_sig.rs:381-401 | the export is appended piece by piece |
| ExtSigs.ExportFields | src/signature/ext_sig.rs:381-401 | the export is the name, target type, offset and body field joined by `:` |
| ExtSigs.RoundTrip | src/signature/ext_sig.rs:80-136 | reading the export of a readable signature gives it back, with no flevel |
| ExtSigs.FieldsRoundTrip | src/signature/ext_sig.rs:91-124 | the exported target type, offset and body fields read back as the signature's |
| ExtSigs.BodylessExportRefused | src/signature/ext_sig.rs:394-397 | as written, a signature without a body exports with no body field, which reads back as `MissingHexSignature` |
| ExtSigs.HexBodyReadsBack | src/signature/ext_sig.rs:104-110 | the hex text of two bytes or more is a body signature that reads back |
| ExtSigs.FragmentBodyReadsBack | src/signature/ext_sig.rs:104-110 | every fragment body meets the body condition of the extended round trip: its export is one field without `:`, is not `*`, and parses back to it |
| ExtSigs.ExportExact | src/signature/ext_sig.rs:382-399 | a named readable signature is written as its name, target type, offset and body joined by `:` |
| ExtSigs.FlevelFields | src/signature/ext_sig.rs:112-124 | the fields of a readable signature followed by two decimal flevels read back as the signature's fields with that inclusive flevel range |
| ExtSigs.FlevelRoundTrip | src/signature/ext_sig.rs:81-136 | the export of a readable signature followed by `:min:max` reads back as the signature with the flevel range min..=max |
| ExtSigSample.SampleExport | src/signature/ext_sig.rs:417-424 | the sample signature is readable and is written as the sample text |
| ExtSigSample.SampleRecordRoundTrip | src/signature/ext_sig.rs:413-424 | the `AllTheStuff-1` sample reads as its signature with no metadata, and that signature is written as the sample again |
| ExtSigSample.SampleFlevelRoundTrip | src/signature/ext_sig.rs:415-440 | the sample followed by `:99:101` reads as the same signature with flevel 99..=101, which is written without the flevels |
| Offsets.ParseSection | src/signature/ext_sig.rs:291-305 | a result is a start-of-section position whose numbers fit a `usize` |
| Offsets.ParseEPMinus | src/signature/ext_sig.rs:279-282 | a result is an entry-point position, the negation of the `isize` read |
| Offsets.ParsePos | src/signature/ext_sig.rs:268-313 | `*` exactly is any position, `VI` exactly the version-info one, digits an absolute position; every result fits its types |
| Offsets.Parse | src/signature/ext_sig.rs:246-262 | a result fits its types and floats exactly when the text has a `,`; without one the result is the position's |
| Offsets.AbsoluteValue | src/signature/ext_sig.rs:161-168 | a value exactly for a normal absolute offset |
| Offsets.AbsoluteOfDecimal | src/signature/ext_sig.rs:161-168 | a decimal number parses to the absolute offset of that number |
| Offsets.SignedText | src/signature/ext_sig.rs:185 | a sign always, `+` exactly when not negative |
| Offsets.PosText | src/signature/ext_sig.rs:181-192 | a position's text holds no `,` and no `:` |
| Offsets.PosTextHasNo | src/signature/ext_sig.rs:181-192 | a position's text holds none of the bytes that split an offset, a field or a record |
| Offsets.OffsetText | src/signature/ext_sig.rs:171-198 | the export is not empty and holds no `:` |
| Offsets.OffsetTextHasNo | src/signature/ext_sig.rs:171-198 | the export holds none of the bytes that frame a sub-signature or split a record |
| Offsets.FloatingAnyParses | src/signature/ext_sig.rs:182 | `*,5` parses to a floating offset at any position, whose export the source refuses with `unreachable!()` |
| Offsets.RoundTrip | src/signature/ext_sig.rs:171-262 | every offset that fits its types reads back from its export, a floating one at any position included |
| Offsets.PosRoundTrip | src/signature/ext_sig.rs:181-192 | every position that fits its types reads back from its text |
| Offsets.AbsoluteRoundTrip | src/signature/ext_sig.rs:183 | an absolute position reads back |
| Offsets.FromEOFRoundTrip | src/signature/ext_sig.rs:184 | an end-of-file position reads back |
| Offsets.EPPlusRoundTrip | src/signature/ext_sig.rs:185 | a non-negative entry-point position reads back through `EP+` |
| Offsets.EPMinusRoundTrip | src/signature/ext_sig.rs:185 | a negative entry-point position reads back through `EP-` |
| Offsets.ParsePosEP | src/signature/ext_sig.rs:275-282 | `EP+` reads an `isize`, `EP-` its negation |
| Offsets.SectionRoundTrip | src/signature/ext_sig.rs:186-188 | a start-of-section position reads back |
| Offsets.ParsePosSection | src/signature/ext_sig.rs:291 | `S` and a digit reach the section parser |
| Offsets.SectionTextRoundTrip | src/signature/ext_sig.rs:292-305 | a section number, `+` and an offset read back |
| Offsets.EntireSectionRoundTrip | src/signature/ext_sig.rs:189 | an entire-section position reads back |
| Offsets.LastSectionRoundTrip | src/signature/ext_sig.rs:190 | a start-of-last-section position reads back |
| FileHashes.ParseSizeField | src/signature/filehash.rs:78-84 | `*` exactly is an unknown size; otherwise a decimal `usize`, every refusal being `ParseSize` |
| FileHashes.Parse | src/signature/filehash.rs:69-110 | a result's hash, size and UTF-8 name are the first three `:` fields and its flevel the rest; `MissingFileSize` exactly after a lone hash, `MissingName` exactly after a hash and a size |
| FileHashes.FeaturesOf | src/signature/filehash.rs:42-52 | SHA-1 needs `HashSha1`, SHA-256 `HashSha256`, an unknown size with either of them `HashSizeUnknown`, and MD5 nothing |
| FileHashes.ValidateMeaning | src/signature/filehash.rs:42-52 | an MD5 record is always valid; another is valid exactly when it declares a minimum flevel that covers its hash feature and, with an unknown size, `HashSizeUnknown` |
| FileHashes.SizeText | src/signature/filehash.rs:59-63 | the size field holds no `:` |
| FileHashes.AsWrittenAgrees | src/signature/filehash.rs:54-67 | with a known size the source's export and the corrected one are the same |
| FileHashes.AppendSigBytes | src/signature/filehash.rs:54-67 | the export is appended piece by piece |
| FileHashes.HashTextHasNoColon | src/signature/filehash.rs:58 | a hash's hex text holds no `:` |
| FileHashes.SizeRoundTrip | src/signature/filehash.rs:78-84 | a size field reads back, `*` as unknown |
| FileHashes.ExportFields | src/signature/filehash.rs:54-67 | the export splits back into the hash, size and name fields |
| FileHashes.RoundTrip | src/signature/filehash.rs:54-110 | reading the export of a readable record gives it back, with no flevel |
| FileHashes.StarIsNoNumber | src/signature/filehash.rs:78-84 | a field beginning with `*` is not a decimal number |
| FileHashes.UnknownSizeExportRefused | src/signature/filehash.rs:61-64 | as written, an unknown size is exported as `*` with no `:` after it, glued to the name; the text is refused |
| FileHashes.ExportExact | src/signature/filehash.rs:54-110 | a record with a lower-case hash, a decimal size and a name reads as those three, and the source's exporter writes exactly that text back |
| FileHashes.Md5ExportExact | src/signature/filehash.rs:54-110 | the same for 32 hex digits, read as the MD5 digest they spell |
| FileHashes.EicarDigest | src/signature/filehash.rs:119 | the EICAR record's digest text is 32 lower-case hex digits |
| FileHashes.EicarName | src/signature/filehash.rs:119 | the EICAR record's name is UTF-8 without `:` |
| FileHashes.EicarExact | src/signature/filehash.rs:118-137 | `44d88612fea8a8f36de82e1278abb02f:68:Eicar-Test-Signature` reads as the MD5 of that digest, size 68 and name `Eicar-Test-Signature`, and exports as the same text |
| PhishingSigs.Fields | src/signature/phishing_sig.rs:217 | the fields split at unescaped `:` and join back into the record |
| PhishingSigs.UrlPair | src/signature/phishing_sig.rs:301-317 | a pair exactly when both URL fields are there and UTF-8; `MissingRealUrl`, `RealUrlRegexpParse` and `MissingDisplayedUrl` in their cases |
| PhishingSigs.PdbHostname | src/signature/phishing_sig.rs:319-329 | a displayed hostname exactly when the field is there and UTF-8; `MissingDisplayedHostname` or `DisplayedHostnameNotUnicode` otherwise |
| PhishingSigs.WdbHostname | src/signature/phishing_sig.rs:331-350 | the two hostnames exactly when both fields are there and UTF-8, and the error that the first missing or non-UTF-8 field causes |
| PhishingSigs.GsbPred | src/signature/phishing_sig.rs:239-273 | `P` makes a four-byte host prefix, `F` and `W` a SHA-256 hash; `W` means allow, refused after `S1`/`S2` with `AllowNotAllowed`; another hash kind is `InvalidGSBHashType`, another type `InvalidPredicateType` |
| PhishingSigs.ParseEntry | src/signature/phishing_sig.rs:219-281 | a prefix beginning with `R` or `H` makes a PDB entry, `S`, `S1`, `S2` a GSB one, `X` and `M` a WDB one, anything else `UnknownPrefix`; each with the errors of its fields |
| PhishingSigs.FlevelField | src/signature/phishing_sig.rs:287-295 | a field with `-` is an inclusive `u32` range, without one a minimum |
| PhishingSigs.Parse | src/signature/phishing_sig.rs:212-298 | a result is the entry's, with an flevel exactly when a field follows it; every error is the entry's or the flevel field's |
| PhishingSigs.Name | src/signature/phishing_sig.rs:139-151 | `Phishing.URL.Blocked` exactly for a GSB `S1` record, `?` for every other |
| PhishingSigs.SigFeatures | src/signature/phishing_sig.rs:153-158 | no feature |
| PhishingSigs.AlwaysValid | src/signature/phishing_sig.rs:153-158 | needing no feature, every phishing record passes validation |
| PhishingSigs.GsbPrefixText | src/signature/phishing_sig.rs:175-179 | a GSB prefix is written as `S`, `S1` or `S2` |
| PhishingSigs.ExportFields | src/signature/phishing_sig.rs:160-210 | two fields for a displayed hostname, three for every other record |
| PhishingSigs.AppendSigBytes | src/signature/phishing_sig.rs:160-210 | the export is appended piece by piece |
| PhishingSigs.WritePair | src/signature/phishing_sig.rs:164-169 | a prefix and the two URL fields are appended with `:` between them |
| PhishingSigs.WriteGsb | src/signature/phishing_sig.rs:174-194 | a GSB record is appended as its export |
| PhishingSigs.FieldsOfExport | src/signature/phishing_sig.rs:160-210 | the export splits back into its fields |
| PhishingSigs.GsbPredBack | src/signature/phishing_sig.rs:239-273 | an exported GSB predicate reads back as the same match type and predicate |
| PhishingSigs.RoundTrip | src/signature/phishing_sig.rs:160-298 | reading the export of a readable record gives it back, with no flevel |
| PhishingSigs.ParseIgnoresFilter | src/signature/phishing_sig.rs:222-227 | after `R` or `H` the rest of the prefix field is ignored |
| PhishingSigs.PrefixFilterIgnored | src/signature/phishing_sig.rs:222-227 | a record reads as it would with its prefix cut to the first letter |
| PhishingSigs.GsbExportExact | src/signature/phishing_sig.rs:542-559 | a GSB record of three fields with lower-case hex exports as the same text |
| ContainerMetadataSigs.TypeField | src/signature/container_metadata_sig.rs:122-128 | `*` exactly is no container type; otherwise the field is looked up among the type names, a miss being `ContainerType` |
| ContainerMetadataSigs.SizeField | src/signature/container_metadata_sig.rs:131-137 | `*` exactly is no size; otherwise the container-size parser decides |
| ContainerMetadataSigs.RegexpField | src/signature/container_metadata_sig.rs:140-146 | `*` exactly is no pattern; otherwise the field is kept when it is UTF-8 and refused when not |
| ContainerMetadataSigs.SizeRangeField | src/signature/container_metadata_sig.rs:149-178 | `*` exactly is no range; otherwise a `usize` range, refused with the range-type error unless exact or inclusive, and with the field's own error when it does not parse |
| ContainerMetadataSigs.EncryptedField | src/signature/container_metadata_sig.rs:181-187 | `*` exactly is unknown; `0` and `1` are the two values and everything else is refused |
| ContainerMetadataSigs.NumberField | src/signature/container_metadata_sig.rs:190-205 | `*` exactly is absent; otherwise a decimal number within its type, refused with the field's own error |
| ContainerMetadataSigs.FlevelField | src/signature/container_metadata_sig.rs:208-221 | no field, or an empty one, gives no flevel; otherwise the minimum and optional maximum, whose errors are the flevel ones |
| ContainerMetadataSigs.Assemble | src/signature/container_metadata_sig.rs:223-236 | the record holds the name and the fields read |
| ContainerMetadataSigs.ParseFront | src/signature/container_metadata_sig.rs:122-162 | the first four fields after the name are read in order, and a missing one is reported where the record ends |
| ContainerMetadataSigs.ParseBack | src/signature/container_metadata_sig.rs:165-205 | the next four fields are read in order, and a missing one is reported where the record ends |
| ContainerMetadataSigs.ParseRest | src/signature/container_metadata_sig.rs:122-221 | eight fields after the name are read and the rest is the flevel; a missing one is reported where the record ends |
| ContainerMetadataSigs.Parse | src/signature/container_metadata_sig.rs:106-237 | the fields split at unescaped `:`; a result has a UTF-8 name, eight fields read by their parsers and the flevel after them; `NameNotUnicode` exactly on a non-UTF-8 name; fewer than nine fields is an error naming the missing field |
| ContainerMetadataSigs.SigFeatures | src/signature/container_metadata_sig.rs:246-250 | exactly `ContentMetadataSig` |
| ContainerMetadataSigs.ValidateMeaning | src/signature/container_metadata_sig.rs:246-250 | valid exactly when the record declares a minimum flevel that covers `ContentMetadataSig` |
| ContainerMetadataSigs.FieldTexts | src/signature/container_metadata_sig.rs:252-326 | nine fields, the name first |
| ContainerMetadataSigs.AppendSigBytes | src/signature/container_metadata_sig.rs:252-326 | the export, with a `:` after every field, is appended |
| ContainerMetadataSigs.WriteFront | src/signature/container_metadata_sig.rs:257-279 | the name and the first four fields are appended |
| ContainerMetadataSigs.WriteBack | src/signature/container_metadata_sig.rs:281-323 | the last four fields and the final `:` are appended |
| ContainerMetadataSigs.TypeFieldBack | src/signature/container_metadata_sig.rs:260-265 | a container type's name reads back as that type |
| ContainerMetadataSigs.SizeFieldBack | src/signature/container_metadata_sig.rs:267-272 | a container size reads back |
| ContainerMetadataSigs.RegexpFieldBack | src/signature/container_metadata_sig.rs:274-279 | a pattern reads back |
| ContainerMetadataSigs.RangeFieldBack | src/signature/container_metadata_sig.rs:281-293 | an exact or inclusive range reads back |
| ContainerMetadataSigs.EncryptedFieldBack | src/signature/container_metadata_sig.rs:295-303 | the flag reads back |
| ContainerMetadataSigs.NumberFieldBack | src/signature/container_metadata_sig.rs:306-317 | a number within its type reads back |
| ContainerMetadataSigs.FieldsBack | src/signature/container_metadata_sig.rs:252-326 | every exported field reads back and holds no unescaped `:` |
| ContainerMetadataSigs.ExportFields | src/signature/container_metadata_sig.rs:252-326 | the export splits back into its nine fields and an empty tenth |
| ContainerMetadataSigs.RoundTrip | src/signature/container_metadata_sig.rs:106-326 | reading the export of a readable record gives it back, with no flevel, because its trailing field is empty |
| ContainerMetadataSigs.ToaName | src/signature/container_metadata_sig.rs:337-338 | the sample's name is UTF-8 and read whole |
| ContainerMetadataSigs.ToaRegexp | src/signature/container_metadata_sig.rs:337-338 | the sample's pattern `Courrt.{1,15}\.scr$` is UTF-8, not `*`, and read whole although it holds a `\` |
| ContainerMetadataSigs.JoinTen | src/signature/container_metadata_sig.rs:252-326 | ten fields joined by `:` are the fields with a `:` between each two |
| ContainerMetadataSigs.ToaExport | src/signature/container_metadata_sig.rs:252-326 | the sample record is written as the sample text |
| ContainerMetadataSigs.ToaSampleExact | src/signature/container_metadata_sig.rs:337-377 | `Email.Trojan.Toa-1:CL_TYPE_ZIP:1337:Courrt.{1,15}\.scr$:220-221:2008:0:2010:*:` reads as the record with those fields and no flevel, and exports as the same text |
| ContainerSizes.TryFrom | src/signature/container_metadata_sig/container_size.rs:54-64 | a text with `-` is an inclusive `usize` range, without one an exact size; an error exactly when that reading fails |
| ContainerSizes.ParseIsTryFrom | src/signature/container_metadata_sig/container_size.rs:66-72 | the free function and `try_from` agree on every input |
| ContainerSizes.Text | src/signature/container_metadata_sig/container_size.rs:41-52 | the written size is not empty and holds no `:` or `\\` |
| ContainerSizes.RoundTrip | src/signature/container_metadata_sig/container_size.rs:41-64 | the written size reads back and is never `*` |
| ContainerSizes.ExactExample | src/signature/container_metadata_sig/container_size.rs:78-82 | `12345` is the exact size 12345 |
| FTMagicSigs.OffsetField | src/signature/ftmagic.rs:113-114 | `*` exactly is no offset; otherwise the ext-sig offset parser decides, and its error is the field's error |
| FTMagicSigs.FlevelTail | src/signature/ftmagic.rs:140-160 | no field or a lone empty one gives no flevel; a minimum alone is open-ended, a maximum alone is up-to, both are inclusive; an error exactly when a present bound does not parse, the minimum's error taking precedence |
| FTMagicSigs.UpToExample | src/signature/ftmagic.rs:255-257 | the fields `` and `121` are the flevel up to 121 |
| FTMagicSigs.MagicBytesOf | src/signature/ftmagic.rs:162-185 | type `0`, `1` and `4` give direct-memory, body-signature and partition magic; `0` and `4` need an offset (`OffsetMissing`) that is absolute (`WrongOffsetType`) and hex content; `1` keeps the offset and parses a body signature; any other type is `UnknownMagicType` |
| FTMagicSigs.Parse | src/signature/ftmagic.rs:101-196 | fields split at `:`; a result has six or more fields, a UTF-8 name in the fourth, magic bytes read from the first three, both file types and the flevel tail; an unknown magic type or fewer than six fields is an error, and `MissingName` exactly when the record stops after three fields |
| FTMagicSigs.ParseTypes | src/signature/ftmagic.rs:119-185 | the fields from the name on are read in order, and a missing name is not reported from here |
| FTMagicSigs.ParseSixFields | src/signature/ftmagic.rs:101-196 | six fields that each read give that record with no flevel |
| FTMagicSigs.SigFeatures | src/signature/ftmagic.rs:236-245 | the features of the record type followed by those of the file type |
| FTMagicSigs.ValidateMeaning | src/signature/ftmagic.rs:236-245 | valid exactly when neither file type needs a feature, or a declared minimum flevel covers every feature of both |
| FTMagicSigs.FieldTexts | src/signature/ftmagic.rs:199-233 | six fields |
| FTMagicSigs.AsWrittenAgrees | src/signature/ftmagic.rs:204-214 | apart from direct-memory magic and body magic with right-side string flags, the written and corrected exports are the same |
| FTMagicSigs.AppendSigBytes | src/signature/ftmagic.rs:199-233 | the corrected export is appended |
| FTMagicSigs.OffsetBack | src/signature/ftmagic.rs:204-214 | the written offset holds no `:` and reads back as the body-signature offset or as the absolute offset |
| FTMagicSigs.ContentBack | src/signature/ftmagic.rs:218-223 | the written content holds no `:` and, with the written type, reads back as the same magic bytes |
| FTMagicSigs.ReadableExportable | src/signature/ftmagic.rs:199-233 | a record the parser can produce can be written |
| FTMagicSigs.ContentHasNoColon | src/signature/ftmagic.rs:208-223 | the written offset and magic bytes of such a record hold no `:` |
| FTMagicSigs.ExportFields | src/signature/ftmagic.rs:199-233 | the export splits back into its six fields |
| FTMagicSigs.RoundTrip | src/signature/ftmagic.rs:101-233 | reading the corrected export of a readable record gives it back with no flevel |
| FTMagicSigs.DirectMemoryExportMisread | src/signature/ftmagic.rs:205 | direct-memory magic written as type `1` never reads back as direct-memory magic |
| FTMagicSigs.DirectMemoryReadAsBody | src/signature/ftmagic.rs:205 | with a literal of at least two bytes that export reads back as body-signature magic at the same absolute offset |
| DigitalSigs.FlevelFields | src/signature/digital_sig.rs:129-152 | the minimum must parse (its error is `ParseMinFlevel`); a missing second field is `MissingField("max_flevel")`; an empty one is open-ended, a number an inclusive range; an error exactly in those cases or when the maximum does not parse |
| DigitalSigs.Parse | src/signature/digital_sig.rs:123-177 | a result has the format `pkcs7-pem`, UTF-8 signature bytes the PEM reader accepts once framed, and the flevel read; another format is `UnsupportedSigType`, missing format or bytes are their `MissingField` errors, and bytes the reader refuses are `InvalidValueFor` |
| DigitalSigs.ParseAsWritten | src/signature/digital_sig.rs:166-169 | agrees with the corrected reader wherever it returns, and panics exactly on signature bytes that are not UTF-8 |
| DigitalSigs.NotUnicodePanics | src/signature/digital_sig.rs:166-169 | the line `220::pkcs7-pem:\xFF` panics as written and is refused by the corrected reader |
| DigitalSigs.Dec220 | src/signature/digital_sig.rs:73 | `220` is the number 220 |
| DigitalSigs.Name | src/signature/digital_sig.rs:53-57 | the name is `Digital Signature` |
| DigitalSigs.SigFeatures | src/signature/digital_sig.rs:180-186 | exactly `DigitalSignaturePkcs7Pem` |
| DigitalSigs.ValidateMeaning | src/signature/digital_sig.rs:180-186 | valid exactly when a declared minimum flevel covers `DigitalSignaturePkcs7Pem` |
| DigitalSigs.Kept | src/signature/digital_sig.rs:83-96 | the `BEGIN`/`END` lines are dropped and no line is added |
| DigitalSigs.Without | src/signature/digital_sig.rs:98-103 | no byte removed remains, and nothing changes when it is absent |
| DigitalSigs.StripPem | src/signature/digital_sig.rs:79-103 | the stripped PEM holds no line break |
| DigitalSigs.AppendSigBytes | src/signature/digital_sig.rs:69-110 | `220::pkcs7-pem:` followed by the stripped PEM is appended |
| DigitalSigs.KeptBody | src/signature/digital_sig.rs:83-96 | body lines are all kept |
| DigitalSigs.KeptAppend | src/signature/digital_sig.rs:83-96 | filtering distributes over concatenation |
| DigitalSigs.KeptLayout | src/signature/digital_sig.rs:83-96 | the lines of a PEM layout keep their body lines and the empty line after the `END` line |
| DigitalSigs.StripLayout | src/signature/digital_sig.rs:79-103 | stripping a PEM layout gives its body lines joined |
| DigitalSigs.FieldsOfLine | src/signature/digital_sig.rs:69-110 | the written line splits into flevel minimum, maximum, format and bytes |
| DigitalSigs.RoundTrip | src/signature/digital_sig.rs:69-177 | reading the export gives the signature back with the flevel from 220 on, when the PEM reader reads the framed body as the same signature |
| DigitalSigs.ExportedFlevelValid | src/signature/digital_sig.rs:73 | the exported record is valid exactly when `DigitalSignaturePkcs7Pem` needs flevel 220 or less |
| SigMetas.ComputedLevel | src/feature.rs:17-24 | no level exactly when no feature is needed; otherwise the minimum level is the largest minimum flevel of the features |
| SigMetas.ValidateFlevel | src/signature.rs:85-123 | passes exactly when no minimum was computed or the record's own minimum is at least the computed one; `SpecifiedMinFLevelTooLow` carries both levels and the features, and `MinFLevelNotSpecified` is returned exactly when the record gives no minimum |
| SigMetas.ValidateFeatureFlevelMeaning | src/signature.rs:85-123 | a record passes exactly when it needs no feature, or its minimum flevel covers every feature it needs |
| SigMetas.ValidateFlevelMonotone | src/signature.rs:94 | raising the record's minimum flevel never makes a passing record fail |
| SigMetas.ValidateFlevelByStart | src/signature.rs:91-117 | only the minimum of the record's flevel matters, and a range with no minimum counts as none |
| SigMetas.Validate | src/signature.rs:70-74 | passes exactly when both steps pass, and the sub-element error comes first |
| SigMetas.ParseFlevelTail | src/signature/ext_sig.rs:112-124 | no field means no flevel; a minimum alone is open-ended and a second field makes it inclusive; an error exactly when a present bound is not a `u32` |
| SigMetas.FlevelTailText | src/signature/ext_sig.rs:112-124 | written flevel bounds read back as the range they denote |
| Signatures.Lift | src/signature.rs:238-273 | a record type's error is wrapped as the shared error, and `UnsupportedSigType` stays itself |
| Signatures.ParseFromCvdWithMeta | src/signature.rs:217-236 | each supported signature type is read by its own parser; bytecode and Yara records are `UnsupportedSigType` |
| Signatures.ParseFromCvd | src/signature.rs:189-194 | the same outcome as reading with metadata, the metadata dropped |
| Signatures.ParseFromFile | src/signature/sigtype.rs:57-64 | a record is read exactly when the file path names a signature type, and then as that type |
| Signatures.ToSigBytes | src/signature.rs:61-67 | a new buffer holding exactly the signature's export |
| Signatures.RoundTrip | src/signature.rs:61-67 | reading the export of a readable signature as its own type gives it back, with the metadata its export writes |
| Signatures.ReadsExtended | src/signature.rs:222 | an extended record is read by the extended-signature parser |
| Signatures.ReadsLogical | src/signature.rs:223 | a logical record is read by the logical-signature parser |
| Signatures.ReadsFileHash | src/signature.rs:224 | a file hash record is read by the file hash parser |
| Signatures.ReadsContainerMetadata | src/signature.rs:226-228 | a container metadata record is read by its parser |
| Signatures.ReadsPhishing | src/signature.rs:229 | a phishing record is read by the phishing parser |
| Signatures.ReadsFTMagic | src/signature.rs:230 | a file type magic record is read by its parser |
| Signatures.ReadsDigital | src/signature.rs:231 | a digital signature record is read by its parser |
| Signatures.ExtendedRoundTrip | src/signature.rs:217-236 | an exported extended signature reads back with no flevel |
| Signatures.LogicalRoundTrip | src/signature.rs:217-236 | an exported logical signature reads back with the flevel of its first Engine attribute |
| Signatures.FileHashRoundTrip | src/signature.rs:217-236 | an exported file hash signature reads back with no flevel |
| Signatures.ContainerMetadataRoundTrip | src/signature.rs:217-236 | an exported container metadata signature reads back with no flevel |
| Signatures.PhishingRoundTrip | src/signature.rs:217-236 | an exported phishing signature reads back with no flevel |
| Signatures.FTMagicRoundTrip | src/signature.rs:217-236 | an exported file type magic signature reads back with no flevel |
| Signatures.DigitalRoundTrip | src/signature.rs:217-236 | an exported digital signature reads back with the flevel from 220 on |
| Signatures.ExportThenParse | src/signature.rs:61-67 | exporting a readable signature into a buffer and reading the buffer back gives the signature and its written metadata |
| SigTypes.FromFileExtension | src/signature/sigtype.rs:69-148 | a recognised extension is one of its type's extensions, and none names a Yara signature |
| SigTypes.NotYetSupportedNone | src/signature/sigtype.rs:98-139 | the extensions announced as not yet supported name no type |
| SigTypes.ExtensionsName | src/signature/sigtype.rs:69-148 | each type's extensions name that type |
| SigTypes.EveryTypeButYaraNamed | src/signature/sigtype.rs:69-148 | a type has an extension naming it exactly when it is not Yara |
| SigTypes.FromStr | src/signature/sigtype.rs:151-157 | succeeds exactly on a recognised extension, and `Unknown` otherwise |
| SigTypes.Normal | src/signature/sigtype.rs:57-64 | the path's normalised parts are non-empty, not `.`, and taken from the path |
| SigTypes.FileName | src/signature/sigtype.rs:57-64 | a file name has no `/` and is not empty, `.` or `..` |
| SigTypes.Extension | src/signature/sigtype.rs:57-64 | an extension has no `.`, ends the name after a `.` and leaves a non-empty stem; a name without `.` has none |
| SigTypes.FromFilePath | src/signature/sigtype.rs:57-64 | the type of a path is that of its file name's extension, and a path with no file name has none |
| SigTypes.FileNameInDirectory | src/signature/sigtype.rs:57-64 | the last component of `dir/name` is `name` |
| SigTypes.FileNameBare | src/signature/sigtype.rs:57-64 | a bare name is its own file name |
| SigTypes.ExtensionOf | src/signature/sigtype.rs:57-64 | the extension of `stem.ext` is `ext` |
| SigTypes.HiddenHasNoExtension | src/signature/sigtype.rs:57-64 | a name that is a `.` and one word has no extension |
| SigTypes.FromFilePathByExtension | src/signature/sigtype.rs:57-64 | `dir/stem.ext` has the type `ext` names |

## Left out

- The file type table (src/filetype.rs) is a generated list of names; it is the parameter `tbl`, and a table of distinct `CL_TYPE_` names is assumed where round trips need it.
- FileTypes.Name: a file type id outside the name table stands for no variant and is written as empty text; in the source every value is a variant.
- The feature-to-flevel table is generated at build time from a data file; it is the parameter `minFlevel`, and the features of a file type the parameter `ftFeatures`.
- Memory reservation (`try_reserve_exact`, `with_capacity`) and the write errors of `fmt::Write` are not modelled: writing to the buffer always succeeds.
- `Debug` output of hashes and signature bytes is not modelled.
- IntMask.Format: a mask that covers part of a nyble makes the source panic; the model excludes it by precondition.
- TargetDescs.ValidateEngine: an Engine attribute whose range is not inclusive makes the source panic (`unreachable!`); the model excludes it by precondition, and the parser never produces one.
- `TargetDescAttrEmpty` and `UnknownFileType` are never produced by the parser and are left out of the error type.
- PCRE sub-signatures: the regular-expression parser is not part of this model; its verdict on a sub-signature's text is the parameter `pcre` (`SubSigs.PcreVerdict`), and PCRE sub-signatures are not exported.
- The PKCS#7 PEM reader and writer of OpenSSL are not part of this model: reading is the parameter `readPem`, and a signature is its PEM text.
- PE section hash records (src/signature/pehash.rs) are not part of this model: their parser and writer are the parameters `peParse` and `peText` of `Signatures.Env`.
- The container type table (src/signature/container_metadata.rs) is a list of names passed as the type table, like the file types.
- The macro and byte-compare exporters are `todo!()` in the source; `MacroSigs.MacroText` and `ByteCmps.ByteCmpText` write the text their parsers read, and the round trips are about that text.
- Inside a logical signature a fuzzy-image sub-signature is written by its own exporter, which writes no `::` modifier; the round trip of logical signatures therefore needs fuzzy images without one.
- A body signature that ends inside an unclosed group, such as `aabb(cc`, is not an error: the bytes after `(` are never flushed. The model keeps this.
- Console messages of `SigType::from_file_extension` for extensions that are not yet supported are not modelled; the result is `None`, as in the source.
- Offsets.ParseEPMinus: the source computes `0 - n` (src/signature/ext_sig.rs:281), which overflows when the number after `EP-` is the least `isize` (the text `EP--9223372036854775808`): a debug build panics and a release build wraps to `EP` at the least `isize`. The model returns the added error `EPNegationOverflow` instead, which the source's `OffsetPosParseError` (src/signature/ext_sig.rs:214-241) does not have.
- Offsets.ParsePos: returns `EPNegationOverflow` for `EP--9223372036854775808`, as `Offsets.ParseEPMinus` does, where the source overflows.
- Offsets.Parse: returns `OffsetPosParse(EPNegationOverflow)` for that position, as `Offsets.ParseEPMinus` does, where the source overflows.
- Offsets.RoundTrip: excludes `EP` at the least `isize`, whose `EP-` text holds a magnitude the parser's `isize` cannot negate back.
- ExprRoundTrip.ParseDisplay: covers the expressions in the form the parser builds (`ExprRoundTrip.Canonical`): indexes within `u8`, nesting within 255 levels, an operator before every element but the first, and a modifier on the whole expression whenever its last element has one.
- LogicalSigs.RoundTrip: covers records whose sub-signatures are extended or fuzzy-image ones without a modifier; the exporters of the other kinds are `todo!()` or not part of this model; its extended sub-signatures rest on `ExtSigs.BodyReadsBack` (see `ExtSigs.RoundTrip` below).
- LogicalSigs.ValidateSubelements: requires every Engine range to be inclusive, as the parser makes them (see `TargetDescs.ValidateEngine`).
- BodySigParse.StepLowNyble: returns the failed flush's error where the source panics (parse.rs:715, 722); see Findings.
- BodySigParse.StepCurlyBraceUpper: returns the failed flush's error where the source panics (parse.rs:830); see Findings.
- BodySigParser.ParseContext.StepLowNyble: where the source panics in the unwrapped flush before a group's first byte (parse.rs:715, 722), the method returns the flush's `MinStaticBytes` error instead (see Findings).
- BodySigParser.ParseContext.StepCurlyBraceUpper: where the source panics in the unwrapped flush after `}` (parse.rs:830), the method returns the flush's error instead (see Findings).
- BodySigParser.TryFrom: computes `Parse`, which returns an error where the source panics: at the unwrapped flushes (parse.rs:430, 715, 722, 830) and at a `)` after one hex digit outside a group (parse.rs:732-735); on every other input the two agree.
- DigitalSigs.RoundTrip: needs the PEM reader to read the framed body back as the same signature, which OpenSSL guarantees and the model takes as a hypothesis.
- ExtSigs.RoundTrip: covers signatures whose body meets `ExtSigs.BodyReadsBack` (its export is one field without `:`, is not `*`, and parses back to it); `ExtSigs.FragmentBodyReadsBack` proves this for every fragment body (`BodySigRoundTrip.Fragment`), the body of the `AllTheStuff-1` sample (src/signature/ext_sig.rs:413-416) among them. The bodies outside the fragment are those of the `BodySigRoundTrip.BodySigRoundTrip` line below.
- ExtSigs.FieldsRoundTrip: rests on the same body condition as `ExtSigs.RoundTrip`.
- BodySigs.HexRoundTrip: the plain-hex case, stated for its exact text; `BodySigRoundTrip.BodySigRoundTrip` covers every fragment body.
- BodySigRoundTrip.BodySigRoundTrip: covers the body signatures of `BodySigRoundTrip.Fragment`. The lists it leaves out are listed here, with the reason for each.
  - Two strings in a row, with no flag before the second: the parser reads their joined bytes as one string, so it never builds such a list.
  - A string after a string, whose first flag is negated: `!(` right after a string's bytes is read as a right-side flag of that string (parse.rs:894-910), so the parser never builds it.
  - An anchored byte right after a string or another anchored byte: the anchor takes all the bytes before `[` (parse.rs:318-337), so the parser never builds that order.
  - `*` or a range as the first pattern, and `*` as the last: the parser refuses both (parse.rs:563-568, 960-966).
  - A string without two full bytes side by side: storing it is refused with `MinStaticBytes` (parse.rs:533-546).
  - Strings with a right-side flag that is not negated: the parser never builds them, because `(` flushes the bytes before it (parse.rs:444-445). With the right-side flags written, such a string's text is refused (`BodySigLimits.RightFlagRefused`).
  - Anchored bytes whose string ends in full bytes after other kinds of byte (not `BodySigReadItems.AnchorStatic`): when the bytes before `[` go to the anchor, the parser does not clear its record of the static bytes being read (parse.rs:318-335). What it makes of the bytes that follow then depends on the anchor's own bytes, and the proof follows that record only when it is empty or starts at the anchor string's first byte.
- Signatures.RoundTrip: for extended, logical and file type magic signatures it rests on `ExtSigs.BodyReadsBack`, which `ExtSigs.FragmentBodyReadsBack` proves for fragment bodies.
- Signatures.ExtendedRoundTrip: rests on `ExtSigs.BodyReadsBack` through `ExtSigs.Readable`; see `ExtSigs.RoundTrip` above.
- Signatures.LogicalRoundTrip: the extended sub-signatures of the record rest on `ExtSigs.BodyReadsBack`; see `ExtSigs.RoundTrip` above.
- Signatures.FTMagicRoundTrip: body-signature magic rests on `ExtSigs.BodyReadsBack`; see `ExtSigs.RoundTrip` above.
- Signatures.ExportThenParse: for extended, logical and file type magic signatures it rests on `ExtSigs.BodyReadsBack`; see `ExtSigs.RoundTrip` above.
- SubSigs.ExtendedRoundTrip: rests on `ExtSigs.BodyReadsBack` for the sub-signature's body; see `ExtSigs.RoundTrip` above.
- FTMagicSigs.RoundTrip: body-signature magic rests on `ExtSigs.BodyReadsBack`; see `ExtSigs.RoundTrip` above.
- The logical-signature samples are not stated as exact texts. The second (src/signature/logical_sig.rs:295-304) holds a PCRE sub-signature and a `::w` modifier, which `LogicalSigs.RoundTrip` does not cover. The first (lines 287-293) has four plain hex bodies, which that lemma covers in general.

## Findings

| source | as written | input that shows it | evidently intended | confidence | as-written member | corrected member |
|---|---|---|---|---|---|---|
| src/signature/logical_sig/targetdesc.rs:413-420 | the Intermediates attribute is exported as its names only, without `Intermediates:` (the test at lines 451-466 expects this text) | `Intermediates:CL_TYPE_ZIP>CL_TYPE_RAR` exports as `CL_TYPE_ZIP>CL_TYPE_RAR`, which parses as an unknown attribute | `Intermediates:` followed by the names, like every other attribute | not executed | TargetDescs.IntermediatesExportAsWritten | TargetDescs.ExportParse |
| src/signature/bodysig/pattern.rs:205-210 | a string's export writes its left-side flags and bytes but never its right-side flags | `(B)0123!(W)45` parses with a negated right-side `W` flag and exports as `(B)012345` | the right-side flags written after the bytes, a text that reads back as the string with its flags (`BodySigRoundTrip.BodySigRoundTrip`) | not executed | Patterns.StringExportDropsRightFlags | Patterns.StringTextKeepsRightFlags |
| src/signature/bodysig/parse.rs:428-433 | `*` flushes the current bytes with `unwrap()` | `a?*`: the flush refuses a string with no static byte, and the parser panics | the flush's error returned like every other error | not executed | BodySigParse.WildcardAfterNybleOnly | BodySigParse.NonMatchByteChar |
| src/signature/bodysig/parse.rs:708-723 | the first byte inside parentheses flushes the bytes before the group with `unwrap()` | `aa!(bbcc)`: `!(` opens the group without flushing, the flush of `aa` (one static byte) fails, and the parser panics | the flush's error returned, as `(` outside a negation does | not executed | BodySigParse.FirstByteInNegatedGroup, BodySigParse.FirstNybleInNegatedGroup | BodySigParse.StepLowNyble |
| src/signature/bodysig/parse.rs:830 | closing `{n-m}`, `{n-}` or `{-m}` flushes the current bytes with `unwrap()` | `aa{5-}bbcc`: the flush of `aa` (one static byte) fails, and the parser panics | the flush's error returned | not executed | BodySigParse.OpenRangeAfterShortString | BodySigParse.StepCurlyBraceUpper |
| src/signature/bodysig/parse.rs:732-735 | `)` after a high nyble always closes a character class, which unwraps the open group | `0)`: no group is open, and the parser panics | `ExpectingLowNyble` at the `)` when no group is open | not executed | BodySigParse.CloseParenAfterHighNyble | BodySigParse.HandleCcClose |
| src/signature/ext_sig.rs:394-397 | a signature without a body is written with no body field | a signature read from `Sig:0:*:*` exports as `Sig:0:*`, which reads back as `MissingHexSignature` | `:*` written for the missing body | not executed | ExtSigs.BodylessExportRefused | ExtSigs.RoundTrip |
| src/signature/filehash.rs:61-64 | an unknown size is written as `*` with no `:` after it | a record read from `<hash>:*:Name` exports as `<hash>:*Name`, whose size field does not parse | `*:` for an unknown size | not executed | FileHashes.UnknownSizeExportRefused | FileHashes.RoundTrip |
| src/signature/logical_sig/subsig/fuzzy_img.rs:84-86 | the Hamming distance is written right after the hash | `fuzzy_img#af2ad01ed42993c7#1` exports as `fuzzy_img#af2ad01ed42993c71`, a hash of the wrong length | `#` before the distance | not executed | FuzzyImgs.ExportedDistanceRefused | FuzzyImgs.RoundTrip |
| src/signature/ftmagic.rs:205 | direct-memory magic is written with magic type `1` | `0:0:ffd8ff:JPEG:CL_TYPE_ANY:CL_TYPE_GRAPHICS` exports as type `1` and reads back as body-signature magic | magic type `0` | not executed | FTMagicSigs.DirectMemoryExportMisread | FTMagicSigs.RoundTrip |
| src/signature/logical_sig.rs:177 | a `;` is written after the expression even when no sub-signature follows | a record with no sub-signature exports with a trailing `;`, read back as an empty sub-signature and refused | `;` only before each sub-signature | not executed | LogicalSigs.NoSubSigExportRefused | LogicalSigs.RoundTrip |
| src/signature/digital_sig.rs:166-169 | the signature bytes are decoded as UTF-8 with `unwrap()` | `220::pkcs7-pem:` followed by the byte 0xFF panics | the record refused as an invalid PKCS#7 PEM value | not executed | DigitalSigs.NotUnicodePanics | DigitalSigs.Parse |
| src/signature/ext_sig.rs:182 | the exporter treats a floating offset at any position as impossible (`unreachable!()`) | the parser accepts `*,5` as such an offset, whose export then panics | `*,5` written back | not executed | Offsets.FloatingAnyParses | Offsets.RoundTrip |

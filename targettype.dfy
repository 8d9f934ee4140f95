/**
 * Target types of extended and logical signatures
 * (src/signature/targettype.rs): a small numbered enumeration.
 */
module TargetTypes {
  import opened Wrappers
  import opened ByteStr
  import Num
  import opened Features

  datatype TargetType = Any | PE | OLE2 | HTML | Mail | Graphics | ELF | Text | Unused | MachO | PDF | Flash | Java

  /** The numeric id (`to_usize`). */
  function Id(t: TargetType): (n: nat)
    ensures n <= 12
  {
    match t
    case Any => 0 case PE => 1 case OLE2 => 2 case HTML => 3 case Mail => 4
    case Graphics => 5 case ELF => 6 case Text => 7 case Unused => 8 case MachO => 9
    case PDF => 10 case Flash => 11 case Java => 12
  }

  /** `from_usize`: ids 0..=12 name a variant, nothing else does. */
  function FromId(n: nat): (r: Option<TargetType>)
    ensures r.Some? <==> n <= 12
    ensures r.Some? ==> Id(r.value) == n
  {
    if n == 0 then Some(Any) else if n == 1 then Some(PE) else if n == 2 then Some(OLE2)
    else if n == 3 then Some(HTML) else if n == 4 then Some(Mail) else if n == 5 then Some(Graphics)
    else if n == 6 then Some(ELF) else if n == 7 then Some(Text) else if n == 8 then Some(Unused)
    else if n == 9 then Some(MachO) else if n == 10 then Some(PDF) else if n == 11 then Some(Flash)
    else if n == 12 then Some(Java) else None
  }

  /** Ids tell the variants apart. */
  lemma IdInjective(a: TargetType, b: TargetType)
    ensures Id(a) == Id(b) ==> a == b
    ensures FromId(Id(a)) == Some(a)
  {
  }

  datatype TargetTypeParseError = ParseNumUsize(e: Num.NumberError) | Unknown

  /** `TargetType::try_from`: a decimal `usize`, then the id table. */
  function Parse(value: Bytes): (r: Result<TargetType, TargetTypeParseError>)
    ensures r.Ok? ==> Num.ParseDec(value, Num.USIZE_MAX) == Ok(Id(r.value))
    ensures r == Err(Unknown) <==> Num.ParseDec(value, Num.USIZE_MAX).Ok? && Num.ParseDec(value, Num.USIZE_MAX).value > 12
  {
    match Num.ParseDec(value, Num.USIZE_MAX)
    case Err(e) => Err(ParseNumUsize(e))
    case Ok(n) =>
      match FromId(n)
      case Some(t) => Ok(t)
      case None => Err(Unknown)
  }

  /** Export: the numeric id in decimal. */
  function IdText(t: TargetType): Bytes
  {
    Num.Dec(Id(t))
  }

  /** Parsing the exported id gives the type back. */
  lemma ParseText(t: TargetType)
    ensures Parse(IdText(t)) == Ok(t)
  {
    Num.ParseDecRoundTrip(Id(t), Num.USIZE_MAX);
    IdInjective(t, t);
    assert Num.ParseDec(IdText(t), Num.USIZE_MAX) == Ok(Id(t));
  }

  /** Features: PDF, Flash and Java each need one; the rest need none. */
  function FeaturesOf(t: TargetType): (r: FeatureSet)
    ensures |Items(r)| <= 1
    ensures |Items(r)| == 1 <==> t in {PDF, Flash, Java}
  {
    match t
    case PDF => Static([TargetTypePdf])
    case Flash => Static([TargetTypeFlash])
    case Java => Static([TargetTypeJava])
    case _ => DEFAULT
  }

  /** `is_native_executable`: the types loaded directly by the OS. */
  predicate IsNativeExecutable(t: TargetType)
  {
    t == PE || t == ELF || t == MachO
  }

  /**
   * The native executables are exactly ids 1, 6 and 9, and none of them
   * requires an engine feature.
   */
  lemma NativeExecutables(t: TargetType)
    ensures IsNativeExecutable(t) <==> Id(t) in {1, 6, 9}
    ensures IsNativeExecutable(t) ==> Items(FeaturesOf(t)) == []
  {
  }
}

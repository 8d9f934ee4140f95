/**
 * Engine features and functionality levels (src/feature.rs). A signature
 * element names the engine features it needs; each feature has a minimum
 * functionality level ("flevel"), and a signature needs the largest of them.
 *
 * The feature-to-level table is generated at build time from a data file
 * that is not part of this model, so it is the parameter `minFlevel`.
 */
module Features {
  import opened Wrappers

  /**
   * The features that the modelled signature elements require. Features that
   * only parts outside the model require (PCRE sub-signatures) are `Other`.
   */
  datatype Feature =
    | TargetTypePdf | TargetTypeFlash | TargetTypeJava
    | FuzzyImageMin | ByteCompareMin
    | HashSizeUnknown | HashSha1 | HashSha256
    | ContentMetadataSig | DigitalSignaturePkcs7Pem
    | Other(id: nat)

  /** `FeatureSet`: nothing, a static list, or a list built at run time. */
  datatype FeatureSet = NoFeatures | Static(list: seq<Feature>) | Built(list: seq<Feature>)

  /** Iterating a feature set: nothing for `None`, else the elements in order. */
  function Items(fs: FeatureSet): (r: seq<Feature>)
    ensures fs.NoFeatures? ==> r == []
    ensures !fs.NoFeatures? ==> r == fs.list
  {
    match fs
    case NoFeatures => []
    case Static(l) => l
    case Built(l) => l
  }

  /** The default `features()` of `EngineReq`. */
  const DEFAULT: FeatureSet := NoFeatures

  /** Largest minimum flevel over the features, `None` when there are none. */
  function MaxLevel(fs: seq<Feature>, minFlevel: Feature -> nat): (r: Option<nat>)
    ensures r.None? <==> |fs| == 0
    ensures r.Some? ==> forall i :: 0 <= i < |fs| ==> minFlevel(fs[i]) <= r.value
    ensures r.Some? ==> exists i :: 0 <= i < |fs| && minFlevel(fs[i]) == r.value
    decreases |fs|
  {
    if |fs| == 0 then None
    else match MaxLevel(fs[1..], minFlevel)
      case None => Some(minFlevel(fs[0]))
      case Some(m) =>
        assert forall i :: 1 <= i < |fs| ==> fs[i] == fs[1..][i - 1];
        Some(if minFlevel(fs[0]) >= m then minFlevel(fs[0]) else m)
  }

  /** `feature_levels`: the computed minimum, and never a maximum. */
  function FeatureLevels(fs: FeatureSet, minFlevel: Feature -> nat): (r: (Option<nat>, Option<nat>))
    ensures r.1.None?
    ensures r.0.None? <==> |Items(fs)| == 0
  {
    (MaxLevel(Items(fs), minFlevel), None)
  }

  /** The computed minimum depends only on which features occur, not on order or repeats. */
  lemma {:induction false} MaxLevelBySet(a: seq<Feature>, b: seq<Feature>, minFlevel: Feature -> nat)
    requires forall f :: f in a <==> f in b
    ensures MaxLevel(a, minFlevel) == MaxLevel(b, minFlevel)
  {
    var ma, mb := MaxLevel(a, minFlevel), MaxLevel(b, minFlevel);
    assert |a| == 0 <==> |b| == 0 by {
      if |a| > 0 { assert a[0] in b; }
      if |b| > 0 { assert b[0] in a; }
    }
    if |a| > 0 {
      var i :| 0 <= i < |a| && minFlevel(a[i]) == ma.value;
      var j :| 0 <= j < |b| && minFlevel(b[j]) == mb.value;
      assert a[i] in b;
      assert b[j] in a;
    }
  }

  /** Requiring more features never lowers the computed minimum. */
  lemma MaxLevelConcat(a: seq<Feature>, b: seq<Feature>, minFlevel: Feature -> nat)
    ensures MaxLevel(a, minFlevel).Some? ==> MaxLevel(a + b, minFlevel).Some? && MaxLevel(a, minFlevel).value <= MaxLevel(a + b, minFlevel).value
    ensures MaxLevel(b, minFlevel).Some? ==> MaxLevel(a + b, minFlevel).Some? && MaxLevel(b, minFlevel).value <= MaxLevel(a + b, minFlevel).value
  {
    var m := MaxLevel(a + b, minFlevel);
    if MaxLevel(a, minFlevel).Some? {
      var i :| 0 <= i < |a| && minFlevel(a[i]) == MaxLevel(a, minFlevel).value;
      assert (a + b)[i] == a[i];
    }
    if MaxLevel(b, minFlevel).Some? {
      var i :| 0 <= i < |b| && minFlevel(b[i]) == MaxLevel(b, minFlevel).value;
      assert (a + b)[|a| + i] == b[i];
    }
  }
}

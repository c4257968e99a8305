/** The closed set of protection algorithms a stored image or a validation
    record can be tagged with (`ProtectionAlgorithm` in app/models.py). The
    database column stores the member's name. */
module Models {
  import opened Common

  datatype ProtectionAlgorithm = EditGuard | OmniGuard | RobustWide

  function AlgorithmName(a: ProtectionAlgorithm): (s: string)
    ensures |s| > 0
  {
    match a
    case EditGuard => "EditGuard"
    case OmniGuard => "OmniGuard"
    case RobustWide => "RobustWide"
  }

  /** Looking a stored name back up (`ProtectionAlgorithm(value)`); any other
      string names no member. */
  function ParseAlgorithm(s: string): (r: Option<ProtectionAlgorithm>)
    ensures r.Some? ==> AlgorithmName(r.value) == s
  {
    if s == "EditGuard" then Some(EditGuard)
    else if s == "OmniGuard" then Some(OmniGuard)
    else if s == "RobustWide" then Some(RobustWide)
    else None
  }

  /** Every member survives being stored by name and read back. */
  lemma ParseAlgorithmName(a: ProtectionAlgorithm)
    ensures ParseAlgorithm(AlgorithmName(a)) == Some(a)
  {
    match a
    case EditGuard =>
    case OmniGuard =>
      assert AlgorithmName(a) != "EditGuard";
    case RobustWide =>
      assert AlgorithmName(a) != "EditGuard";
      assert AlgorithmName(a) != "OmniGuard";
  }
}

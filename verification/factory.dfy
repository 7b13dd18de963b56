/** `GraphAlgorithmFactory::create` (part7/factory.cpp) over the
    `AlgorithmType` enum (part7/factory.hpp). A strategy object is named by
    the algorithm it runs; a `nullptr` result is `None`. */
module Factory {
  import opened Wrappers

  datatype Strategy = MstStrategy | CliqueStrategy | SccStrategy | MaxFlowStrategy

  /** The enum value each strategy is created for: `MST = 1` and the rest
      numbered on from there. */
  function Code(s: Strategy): (k: int)
    ensures 1 <= k <= 4
  {
    match s
    case MstStrategy => 1
    case CliqueStrategy => 2
    case SccStrategy => 3
    case MaxFlowStrategy => 4
  }

  /** `create(type)`: a strategy for the four enum values, null for any other
      integer; it never fails. */
  function Create(k: int): (r: Option<Strategy>)
    ensures r.Some? <==> 1 <= k <= 4
    ensures r.Some? ==> Code(r.value) == k
  {
    if k == 1 then Some(MstStrategy)
    else if k == 2 then Some(CliqueStrategy)
    else if k == 3 then Some(SccStrategy)
    else if k == 4 then Some(MaxFlowStrategy)
    else None
  }

  /** Every strategy is created from its own enum value. */
  lemma CreateCode(s: Strategy)
    ensures Create(Code(s)) == Some(s)
  {
  }
}

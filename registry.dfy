/**
 * The token-kind registry: the closed, ordered set of token kinds, each with the
 * pattern the grammar author attached to it and whether its matches are dropped.
 *
 * A kind is identified by its position among the enumerators in ascending value
 * order (declaration order when the enumeration assigns no values), so looking a
 * kind up by index (the reflection helper `lookup<J>`) is the identity on `Kind`,
 * and the number of kinds (`token_count`) is the length of the table.
 */
module Registry {
  /** Position of a token kind among the enumerators; also its match priority. */
  type Kind = nat

  /**
   * `patterns[k]` is the pattern of kind `k` and `filterOut[k]` says whether
   * matches of kind `k` are consumed without being emitted.
   */
  datatype Grammar = Grammar(patterns: seq<string>, filterOut: seq<bool>) {
    /** One entry per kind, and at least one kind (an empty enumeration does not compile). */
    predicate Valid() {
      |patterns| >= 1 && |filterOut| == |patterns|
    }

    function TokenCount(): nat {
      |patterns|
    }
  }
}

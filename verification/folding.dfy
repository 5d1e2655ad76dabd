/** Keeping definitions out of the way of proofs that do not need to look inside them. */
module Folding {

  datatype Topic =
    | Layout | Tails | Ledgers | Draining | Receiving | Placing | Finding | Marking | Dealing | Finishing
    | Planning | Sweeping | Parenting | Chaining

  /** Always true. A definition guarded by `Unfold` of its topic is looked into only where a proof mentions that. */
  ghost predicate Unfold(topic: Topic, i: int) { true }
}

/** Session descriptions, their hashes and the errors of the offer protocol. */
module Offers {

  /** What `generateHash` returns: a digest that tells SDP texts apart, or the empty string. */
  datatype Hash = Empty | Digest(sdp: string)

  /** `id` tells apart descriptions that carry the same SDP text. */
  datatype Desc = Desc(id: nat, sdp: string)

  function HashOf(d: Desc): Hash { Digest(d.sdp) }

  datatype SubmitError = EmptyPending | EmptyHash | RaceCondition
}

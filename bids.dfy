/** The record stored in the tree (Bid.hpp) and the small wrappers the model uses. */
module Bids {

  /** The C++ `double amount`: the tree only carries it, it never computes with it. */
  type Amount = real

  /** One auction bid. `bidId` is the key the tree is ordered by. */
  datatype Bid = Bid(bidId: string, title: string, fund: string, amount: Amount)

  /**
   * What `Search` hands back when no node matches: a default-constructed Bid.
   * The constructor's body is not part of this model; the three std::string
   * members default to empty, and the amount is taken to be 0.0.
   */
  const NotFound: Bid := Bid("", "", "", 0.0)

  datatype Option<T> = None | Some(value: T) {
    function GetOr(default: T): T {
      match this
      case Some(v) => v
      case None => default
    }
  }
}

/** The error kinds and the result and option types shared by the contour pipeline and the cosine codec. */
module Results {

  /** The ways the pipeline stops without producing output. */
  datatype Error =
    | DegenerateSegment(pair: nat)           // boundary pair `pair` spans fewer than two onsets
    | EmptyBatch                             // padding asked for the maximum length of no rows
    | InvalidOrder(order: int)               // cosine order other than 1 or 2
    | IncompatibleShapes(left: nat, right: nat) // two signals that cannot be added element-wise

  datatype Option<+T> = None | Some(value: T)

  datatype Result<+T> = Success(value: T) | Failure(error: Error)
}

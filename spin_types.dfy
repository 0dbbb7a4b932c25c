/**
 * The records the spin service stores and reads: wheel segments and their
 * prizes, the wheel configuration document, spin records of the `spins`
 * collection and the errors a callable function throws.
 */
module SpinTypes {
  import opened Common

  /**
   * A prize payload. `kind` is the prize `type` (an open set; the empty
   * string stands for a missing type, which matches no bucket either way);
   * `amount` and `description` may be missing.
   */
  datatype Prize = Prize(kind: string, amount: Option<int>, description: Option<string>)

  /** One wedge of the wheel (`displayLabel` is the `label` field). Weights are whole numbers. */
  datatype Segment = Segment(id: int, displayLabel: string, weight: int, prize: Prize)

  /**
   * The `wheelConfig/default` document. `totalWeight` and `cooldownMinutes`
   * are stored but never read by the spin function: it sums the live weights
   * and uses a fixed five-minute cooldown. A missing `segments` field is the
   * empty sequence.
   */
  datatype WheelConfig = WheelConfig(
    segments: seq<Segment>,
    totalWeight: int,
    cooldownMinutes: int,
    version: Option<int>)

  /**
   * A document of the `spins` collection. `timestamp` is the server time in
   * milliseconds; `id` is the document id, modelled as the record's position
   * in the ledger. Records written by other tools may lack a prize.
   */
  datatype SpinRecord = SpinRecord(
    id: nat,
    userId: string,
    segmentId: int,
    prize: Option<Prize>,
    timestamp: int,
    clientRequestId: Option<string>,
    wheelVersion: int)

  /** The `HttpsError` codes the two callable functions throw. */
  datatype ErrorCode = Unauthenticated | InvalidArgument | NotFound | FailedPrecondition | Internal

  datatype HttpsError = HttpsError(code: ErrorCode, message: string)
}

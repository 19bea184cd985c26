/** The delete operation carried through the delete queue. */
module Operation {

  /** An opstamp is an unsigned 64-bit logical write-order stamp. */
  newtype Opstamp = x: int | 0 <= x < 0x1_0000_0000_0000_0000

  /** A timestamped delete operation; `target`, the weight selecting the
      documents to delete, is opaque to the queue. */
  datatype DeleteOperation<W> = DeleteOperation(opstamp: Opstamp, target: W)
}

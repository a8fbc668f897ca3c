/** Node records and routing-table entries, as far as the overlay looks into them. */
module NodeRecords {
  import opened Bytes
  import opened Distance

  /** `rlp` is the signed encoding, the only form a record has on the wire. */
  datatype Enr = Enr(id: Word, seqNo: nat, rlp: seq<u8>)

  /** A k-bucket entry: the record, the data radius the peer announced, and its status. */
  datatype Node = Node(enr: Enr, radius: nat, connected: bool)

  function Record(n: Node): Enr
  {
    n.enr
  }

  /** The order in which records are ranked for a target. */
  function ByDistance(target: Word): Enr -> nat
  {
    (e: Enr) => DistanceBetween(target, e.id)
  }
}

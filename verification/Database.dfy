/** What a client sees of a database transaction. */
module Database {
  /** How the database answers one transaction. */
  datatype Reply = Committed | Refused | CommittedButErrored
}

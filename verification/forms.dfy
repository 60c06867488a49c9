/** What a dialog shows above its buttons after a failed submit. */
module Forms {
  import opened Store

  /** A fixed message of the page, or the error the database returned. */
  datatype FormError = Message(text: string) | Database(error: DbError)
}

/** Files replaced by a synced temporary file and a rename. */
module AtomicWrite {

  /** A write that reports an error failed before the rename, or in the last sync after it. */
  datatype Write = Saved | Refused | SavedUnsynced {
    /** Whether the new contents are in place. */
    predicate InPlace() {
      !Refused?
    }
  }
}

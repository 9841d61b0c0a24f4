/** The logical-deletion flag shared by categories, products and orders
    (SoftDeleteUUIDModel in api/models.py). */
module SoftDelete {

  const NOT_DELETED: int := 0
  const DELETED: int := 1

  /** What every default manager (`objects`) keeps: rows whose flag reads "not deleted".
      `all_objects` / `with_deleted` keep every row. */
  predicate IsLive(deleteStatus: int) {
    deleteStatus == NOT_DELETED
  }
}

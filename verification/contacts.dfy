/** The `Contacts` entity: one row of the app's Room table. */
module Contacts {

  /** A data class, so equality is structural over all five fields. `id` is
      the primary key, declared with `autoGenerate = true`; all text fields
      are non-null strings and `description` may be empty. */
  datatype Contact = Contact(
    id: int,
    name: string,
    mobileNumber: string,
    emailAddress: string,
    description: string
  )

  /** The default `id`. With `autoGenerate = true`, Room binds it as
      `nullif(id, 0)`, so 0 means "not assigned yet: the store chooses". */
  const Unassigned: int := 0
}

/** The user record the pages list, edit and send. */
module UserFields {

  /** `UserField`: a numeric id, first and last name, email, and whether the user is active. */
  datatype UserField = UserField(id: int, firstName: string, lastName: string, email: string, status: bool)
}

/** The user record fetched from the remote endpoint, reduced to the fields
    the list view reads: the identifier, the display name, the email and the
    company's name. */
module Users {

  datatype Company = Company(name: string)

  datatype User = User(id: int, name: string, email: string, company: Company)
}

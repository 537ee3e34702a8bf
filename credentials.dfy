/** The one hard-coded credential pair that both the API's Basic-auth check
    and the login screen accept. */
module Credentials {

  const AdminUsername: string := "admin"
  const AdminPassword: string := "password123"

  predicate IsStaticCredential(username: string, password: string)
  {
    username == AdminUsername && password == AdminPassword
  }
}

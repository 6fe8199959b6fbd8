/** The user record of the application's schema, with the defaults the schema
    declares applied when a document is built. */
module UserModel {
  import opened Wrappers

  const DefaultBio: string := "No bio yet..."

  /** The salted hash that the passport-local-mongoose plugin keeps for a
      password. The hashing itself is not visible, so the model keeps it as a
      symbolic term naming the password it was derived from. */
  datatype Credential = SaltedHashOf(password: string)

  /** A user document. `None` stands for a field that is `undefined`.
      `password` is the schema's own field, which no handler writes; the
      plugin's hash and salt are `credential`. */
  datatype User = User(
    username: string,
    email: string,
    avatar: Option<string>,
    bio: string,
    password: Option<string>,
    resetPasswordToken: Option<string>,
    resetPasswordExpires: Option<int>,
    isAdmin: bool,
    credential: Option<Credential>)

  /** `new User({...})`: the given fields, `bio` and `isAdmin` defaulted when
      absent, every other field unset. */
  function NewUser(username: string, email: string, avatar: Option<string>,
                   bio: Option<string>, isAdmin: Option<bool>): (u: User)
    ensures u.username == username && u.email == email && u.avatar == avatar
    ensures bio.None? ==> u.bio == DefaultBio
    ensures bio.Some? ==> u.bio == bio.value
    ensures isAdmin.None? ==> !u.isAdmin
    ensures isAdmin.Some? ==> u.isAdmin == isAdmin.value
    ensures u.resetPasswordToken.None? && u.resetPasswordExpires.None?
    ensures u.password.None? && u.credential.None?
  {
    User(username, email, avatar,
         if bio.Some? then bio.value else DefaultBio,
         None, None, None,
         if isAdmin.Some? then isAdmin.value else false,
         None)
  }
}

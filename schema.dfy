/** Rows of the tables the account and upload routes read and write (index.js, CREATE TABLE statements,
    together with the columns migration v1 adds). */
module Schema {
  import opened Wrappers

  /** A row of `users`. `isAdmin` is SQLite's integer encoding of BOOLEAN; `banner` may be NULL.
      The CREATE TABLE of index.js has no `banner` column: it comes from migration v1 (or the v2/v3
      tables), and without it the banner UPDATE fails (the route's `updateOk`). */
  datatype User = User(
    id: int,
    username: string,
    password: string,   // the bcrypt hash as stored
    pfp: string,
    theme: string,
    biography: string,
    isAdmin: int,
    banner: Option<string>)

  /** A row of `posts`. `user_id` and `title` are taken from the session and the request body, which
      may lack them; the CREATE TABLE of index.js declares both NOT NULL, so there such a row is refused
      by the INSERT (the upload's `insertOk`). */
  datatype Post = Post(id: int, userId: Option<int>, title: Option<string>, createdAt: string, filename: string)

  /** `req.session.user`: every field may be null. */
  datatype SessionUser = SessionUser(id: Option<int>, username: Option<string>, isAdmin: Option<bool>)

  /** The record logout leaves behind. */
  const LoggedOut := SessionUser(None, None, None)

  const DefaultPfp := "https://firebasestorage.googleapis.com/v0/b/hydraulisc.appspot.com/o/defaultpfp.png?alt=media&token=6f61981c-9f14-48a3-b32d-a3edf506ec95&format=webp"
  const DefaultTheme := "default"
  const DefaultBiography := "User has not written their Bio."
}

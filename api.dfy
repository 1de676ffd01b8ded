/** The upload and profile-picture routes: guarded writes to the tables of the same store. */
module Api {
  import opened Wrappers
  import opened Schema
  import opened Http
  import opened Admission
  import opened Accounts

  const NoFile := "No file!"

  /** POST /upload. `file` is the name multer stored the upload under, `now` the ISO timestamp,
      `insertOk` the outcome of the INSERT. */
  method Upload(site: Site, file: Option<string>, title: Option<string>, now: string, insertOk: bool)
    returns (resp: Response)
    requires site.Valid()
    modifies site`posts, site`nextPostId
    ensures site.Valid()
    ensures old(site.session).None? ==>
              resp == Status(401, NotAuthenticated) && site.posts == old(site.posts)
    ensures old(site.session).Some? && file.None? ==>
              resp == Status(400, NoFile) && site.posts == old(site.posts)
    ensures old(site.session).Some? && file.Some? && !insertOk ==>
              resp == Status(500, DatabaseError) && site.posts == old(site.posts)
    ensures old(site.session).Some? && file.Some? && insertOk ==>
              resp == Redirect("/")
              && site.posts == old(site.posts) + [Post(old(site.nextPostId), old(site.session).value.id, title, now, file.value)]
              && site.nextPostId == old(site.nextPostId) + 1
    ensures site.posts == old(site.posts) ==> site.nextPostId == old(site.nextPostId)
  {
    if site.session.None? {
      return Status(401, NotAuthenticated);
    }
    if file.None? {
      return Status(400, NoFile);
    }
    if !insertOk {
      return Status(500, DatabaseError);
    }
    site.posts := site.posts + [Post(site.nextPostId, site.session.value.id, title, now, file.value)];
    site.nextPostId := site.nextPostId + 1;
    resp := Redirect("/");
  }

  /** `UPDATE users SET <column> = value WHERE id = uid`: the rows whose id equals `uid` get `update(row)`.
      A null `uid` equals no id, so then nothing changes. */
  function UpdateWhereId(users: seq<User>, uid: Option<int>, update: User -> User): (r: seq<User>)
    ensures |r| == |users|
    ensures forall i :: 0 <= i < |users| ==> r[i] == if uid == Some(users[i].id) then update(users[i]) else users[i]
    ensures uid.None? ==> r == users
  {
    seq(|users|, i requires 0 <= i < |users| => if uid == Some(users[i].id) then update(users[i]) else users[i])
  }

  /** POST /avatarUpdate. `updateOk` is the outcome of the UPDATE. */
  method AvatarUpdate(site: Site, file: Option<string>, updateOk: bool) returns (resp: Response)
    requires site.Valid()
    modifies site`users
    ensures site.Valid()
    ensures old(site.session).None? ==> resp == Status(401, NotAuthenticated) && site.users == old(site.users)
    ensures old(site.session).Some? && file.None? ==> resp == Status(400, NoFile) && site.users == old(site.users)
    ensures old(site.session).Some? && file.Some? && !updateOk ==>
              resp == Status(500, DatabaseError) && site.users == old(site.users)
    ensures old(site.session).Some? && file.Some? && updateOk ==>
              resp == Redirect("/settings")
              && |site.users| == |old(site.users)|
              && forall i :: 0 <= i < |site.users| ==>
                   site.users[i] == if old(site.session).value.id == Some(old(site.users)[i].id)
                                    then old(site.users)[i].(pfp := "/avatars/" + file.value)
                                    else old(site.users)[i]
    // the record logout leaves passes the guard but matches no row
    ensures old(site.session) == Some(LoggedOut) ==> site.users == old(site.users)
  {
    if site.session.None? {
      return Status(401, NotAuthenticated);
    }
    if file.None? {
      return Status(400, NoFile);
    }
    if !updateOk {
      return Status(500, DatabaseError);
    }
    var pfp := "/avatars/" + file.value;
    site.users := UpdateWhereId(site.users, site.session.value.id, (u: User) => u.(pfp := pfp));
    resp := Redirect("/settings");
  }

  /** POST /bannerUpdate. `updateOk` is the outcome of the UPDATE. */
  method BannerUpdate(site: Site, file: Option<string>, updateOk: bool) returns (resp: Response)
    requires site.Valid()
    modifies site`users
    ensures site.Valid()
    ensures old(site.session).None? ==> resp == Status(401, NotAuthenticated) && site.users == old(site.users)
    ensures old(site.session).Some? && file.None? ==> resp == Status(400, NoFile) && site.users == old(site.users)
    ensures old(site.session).Some? && file.Some? && !updateOk ==>
              resp == Status(500, DatabaseError) && site.users == old(site.users)
    ensures old(site.session).Some? && file.Some? && updateOk ==>
              resp == Redirect("/settings")
              && |site.users| == |old(site.users)|
              && forall i :: 0 <= i < |site.users| ==>
                   site.users[i] == if old(site.session).value.id == Some(old(site.users)[i].id)
                                    then old(site.users)[i].(banner := Some("/banners/" + file.value))
                                    else old(site.users)[i]
    ensures old(site.session) == Some(LoggedOut) ==> site.users == old(site.users)
  {
    if site.session.None? {
      return Status(401, NotAuthenticated);
    }
    if file.None? {
      return Status(400, NoFile);
    }
    if !updateOk {
      return Status(500, DatabaseError);
    }
    var banner := Some("/banners/" + file.value);
    site.users := UpdateWhereId(site.users, site.session.value.id, (u: User) => u.(banner := banner));
    resp := Redirect("/settings");
  }
}

/** The WebAuthn user store (database/auth.go): users keyed by SRN, each holding the
    list of passkey credentials registered for them. The users table is a sequence of
    rows in insertion order; GORM's First returns the earliest row for an SRN, and
    Save writes the fetched row back in place. */
module Credentials {
  import opened Wrappers

  /** A credential as the store sees it: its ID bytes, compared with bytes.Equal, and
      the rest of the record, which is carried along unread. */
  datatype Credential = Credential(id: seq<bv8>, payload: seq<bv8>)

  datatype User = User(srn: string, credentials: seq<Credential>)

  /** The zero value GetUser returns alongside an error. */
  const ZeroUser := User("", [])

  const RecordNotFound := "record not found"
  const CredentialNotFound := "credential not found"

  /** Index of the first row for this SRN, or |users| when there is none. */
  function RowOf(users: seq<User>, srn: string): (i: nat)
    ensures i <= |users|
    ensures i < |users| ==> users[i].srn == srn
    ensures forall k :: 0 <= k < i ==> users[k].srn != srn
  {
    if users == [] then 0
    else if users[0].srn == srn then 0
    else 1 + RowOf(users[1..], srn)
  }

  /** Index of the first credential with this ID, or |creds| when there is none. */
  function FirstById(creds: seq<Credential>, id: seq<bv8>): (i: nat)
    ensures i <= |creds|
    ensures i < |creds| ==> creds[i].id == id
    ensures forall k :: 0 <= k < i ==> creds[k].id != id
  {
    if creds == [] then 0
    else if creds[0].id == id then 0
    else 1 + FirstById(creds[1..], id)
  }

  /** The credential list with the first entry sharing `cred`'s ID replaced by `cred`,
      or None when no entry has that ID. */
  function ReplaceFirstById(creds: seq<Credential>, cred: Credential): (r: Option<seq<Credential>>)
    ensures r.None? <==> forall k :: 0 <= k < |creds| ==> creds[k].id != cred.id
    ensures r.Some? ==>
      && |r.value| == |creds|
      && exists i :: 0 <= i < |creds| && creds[i].id == cred.id && r.value[i] == cred
           && (forall k :: 0 <= k < i ==> creds[k].id != cred.id)
           && (forall k :: 0 <= k < |creds| && k != i ==> r.value[k] == creds[k])
  {
    var i := FirstById(creds, cred.id);
    if i == |creds| then None else Some(creds[i := cred])
  }

  /** Replacing twice with the same credential is the same as replacing once. */
  lemma {:induction false} ReplaceIsIdempotent(creds: seq<Credential>, cred: Credential)
    requires ReplaceFirstById(creds, cred).Some?
    ensures ReplaceFirstById(ReplaceFirstById(creds, cred).value, cred) == ReplaceFirstById(creds, cred)
  {
    var once := ReplaceFirstById(creds, cred).value;
    var i := FirstById(creds, cred.id);
    assert FirstById(once, cred.id) == i by {
      FirstByIdStable(creds, once, cred.id, i);
    }
    assert once[i := cred] == once;
  }

  /** The first match does not move when entries are changed only from that match on
      and the match keeps its ID. */
  lemma {:induction false} FirstByIdStable(s: seq<Credential>, t: seq<Credential>, id: seq<bv8>, i: nat)
    requires i < |s| == |t| && i == FirstById(s, id)
    requires t[i].id == id
    requires forall k :: 0 <= k < i ==> t[k] == s[k]
    ensures FirstById(t, id) == i
  {
    if i > 0 {
      FirstByIdStable(s[1..], t[1..], id, i - 1);
    }
  }

  /** The users table. */
  class UserStore {
    var users: seq<User>

    constructor()
      ensures users == []
    {
      users := [];
    }

    /** CreateUser: the returned user has the SRN and no credentials whether or not the
        insert fails; a successful insert adds it as a new row. */
    method CreateUser(srn: string, createError: Option<string>) returns (user: User, err: Option<string>)
      modifies this
      ensures user == User(srn, [])
      ensures err == createError
      ensures users == if err.None? then old(users) + [user] else old(users)
    {
      user := User(srn, []);
      if createError.Some? {
        return user, createError;
      }
      users := users + [user];
      return user, None;
    }

    /** GetUser: the earliest row for the SRN, or the zero user with a not-found error. */
    method GetUser(srn: string) returns (user: User, err: Option<string>)
      ensures err.None? <==> exists k :: 0 <= k < |users| && users[k].srn == srn
      ensures err.None? ==> user in users && user.srn == srn && user == users[RowOf(users, srn)]
      ensures err.Some? ==> user == ZeroUser && err == Some(RecordNotFound)
    {
      var i := RowOf(users, srn);
      if i == |users| {
        return ZeroUser, Some(RecordNotFound);
      }
      return users[i], None;
    }

    /** Overwrites the row the user was read from. */
    method Save(i: nat, user: User, saveError: Option<string>) returns (err: Option<string>)
      requires i < |users|
      modifies this
      ensures err == saveError
      ensures users == if err.None? then old(users)[i := user] else old(users)
    {
      if saveError.Some? {
        return saveError;
      }
      users := users[i := user];
      return None;
    }

    /** AddCredential: appends the credential to the user's list and saves the user; an
        unknown SRN is reported and nothing changes. */
    method AddCredential(srn: string, cred: Credential, saveError: Option<string>) returns (err: Option<string>)
      modifies this
      ensures
        var i := RowOf(old(users), srn);
        && (i == |old(users)| ==> err == Some(RecordNotFound) && users == old(users))
        && (i < |old(users)| ==>
              && err == saveError
              && users == if err.None?
                   then old(users)[i := old(users)[i].(credentials := old(users)[i].credentials + [cred])]
                   else old(users))
    {
      var user;
      user, err := GetUser(srn);
      if err.Some? {
        return;
      }
      var i := RowOf(users, srn);
      user := user.(credentials := user.credentials + [cred]);
      err := Save(i, user, saveError);
    }

    /** UpdateCredential: replaces the first credential with the same ID and saves the
        user; an unknown SRN or a missing ID is reported and nothing changes. */
    method UpdateCredential(srn: string, cred: Credential, saveError: Option<string>) returns (err: Option<string>)
      modifies this
      ensures
        var i := RowOf(old(users), srn);
        && (i == |old(users)| ==> err == Some(RecordNotFound) && users == old(users))
        && (i < |old(users)| ==>
              var replaced := ReplaceFirstById(old(users)[i].credentials, cred);
              && (replaced.None? ==> err == Some(CredentialNotFound) && users == old(users))
              && (replaced.Some? ==>
                    && err == saveError
                    && users == if err.None?
                         then old(users)[i := old(users)[i].(credentials := replaced.value)]
                         else old(users)))
    {
      var user;
      user, err := GetUser(srn);
      if err.Some? {
        return;
      }
      var i := RowOf(users, srn);
      var creds := user.credentials;
      var j := FindCredential(creds, cred.id);
      if j == |creds| {
        return Some(CredentialNotFound);
      }
      creds := creds[j := cred];
      user := user.(credentials := creds);
      err := Save(i, user, saveError);
    }
  }

  /** The search loop of UpdateCredential: the index of the first credential whose ID
      equals `id`, or |creds| when there is none. */
  method FindCredential(creds: seq<Credential>, id: seq<bv8>) returns (j: nat)
    ensures j <= |creds|
    ensures j < |creds| ==> creds[j].id == id
    ensures forall k :: 0 <= k < j ==> creds[k].id != id
  {
    j := 0;
    while j < |creds|
      invariant j <= |creds|
      invariant forall k :: 0 <= k < j ==> creds[k].id != id
    {
      if creds[j].id == id {
        return;
      }
      j := j + 1;
    }
  }
}

/**
 * UserInfo: a user record with a fixed username and email and a replaceable
 * encoded password. The Java object is mutable; here setEncodedPassword
 * returns the record as it is after the call.
 */
module UserModel {

  datatype UserInfo = UserInfo(username: string, email: string, encodedPassword: string)

  /** The constructor stores its three arguments verbatim. */
  function NewUserInfo(username: string, email: string, encodedPassword: string): (u: UserInfo)
    ensures GetUsername(u) == username && GetEmail(u) == email && GetEncodedPassword(u) == encodedPassword
  {
    UserInfo(username, email, encodedPassword)
  }

  /** getUsername: the final username component. */
  function GetUsername(u: UserInfo): (r: string)
    ensures r == u.username
  {
    u.username
  }

  /** getEmail: the final email component. */
  function GetEmail(u: UserInfo): (r: string)
    ensures r == u.email
  {
    u.email
  }

  /** getEncodedPassword: the current encoded password. */
  function GetEncodedPassword(u: UserInfo): (r: string)
    ensures r == u.encodedPassword
  {
    u.encodedPassword
  }

  /** setEncodedPassword: the password is replaced; username and email are final and stay. */
  function SetEncodedPassword(u: UserInfo, encodedPassword: string): (u': UserInfo)
    ensures GetEncodedPassword(u') == encodedPassword
    ensures GetUsername(u') == GetUsername(u) && GetEmail(u') == GetEmail(u)
  {
    u.(encodedPassword := encodedPassword)
  }

  /** The record is determined by its three getters, so setEncodedPassword changes nothing else. */
  lemma SetEncodedPasswordOnlyChangesPassword(u: UserInfo, p: string, v: UserInfo)
    requires GetUsername(v) == GetUsername(u) && GetEmail(v) == GetEmail(u) && GetEncodedPassword(v) == p
    ensures SetEncodedPassword(u, p) == v
  {
  }

  /** Setting twice keeps only the last password; setting the current password changes nothing. */
  lemma SetEncodedPasswordLastWins(u: UserInfo, p: string, q: string)
    ensures SetEncodedPassword(SetEncodedPassword(u, p), q) == SetEncodedPassword(u, q)
    ensures SetEncodedPassword(u, GetEncodedPassword(u)) == u
  {
  }

  /** The record after a sequence of setEncodedPassword calls, in order. */
  function SetAll(u: UserInfo, passwords: seq<string>): UserInfo
    decreases |passwords|
  {
    if |passwords| == 0 then u
    else SetAll(SetEncodedPassword(u, passwords[0]), passwords[1..])
  }

  /**
   * Over the whole life of a record: username and email are the constructor's
   * arguments whatever passwords are set, and the password is the last one
   * set, or the constructor's when none was.
   */
  lemma {:induction false} GettersOverLifetime(username: string, email: string, initial: string, passwords: seq<string>)
    ensures GetUsername(SetAll(NewUserInfo(username, email, initial), passwords)) == username
    ensures GetEmail(SetAll(NewUserInfo(username, email, initial), passwords)) == email
    ensures GetEncodedPassword(SetAll(NewUserInfo(username, email, initial), passwords))
      == if |passwords| == 0 then initial else passwords[|passwords| - 1]
    decreases |passwords|
  {
    if |passwords| > 0 {
      var next := SetEncodedPassword(NewUserInfo(username, email, initial), passwords[0]);
      assert next == NewUserInfo(username, email, passwords[0]);
      GettersOverLifetime(username, email, passwords[0], passwords[1..]);
      if |passwords| > 1 {
        assert passwords[1..][|passwords[1..]| - 1] == passwords[|passwords| - 1];
      }
    }
  }
}

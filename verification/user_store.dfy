/**
 * UserStore (deprecated in the application, kept for reference): an
 * in-memory map from username to UserInfo, seeded with one admin account.
 * The password encoder it is built with is any function from plaintext to
 * stored text.
 */
module UserStore {
  import opened Wrappers
  import opened JavaStrings
  import opened UserModel
  import PasswordEncoder

  type Store = map<string, UserInfo>

  const AdminUsername: string := "admin"
  const AdminEmail: string := "admin@example.com"
  const AdminPassword: string := "1234"

  /** The constructor: exactly one entry, the admin account with the encoded default password. */
  function NewUserStore(encode: string -> string): (store: Store)
    ensures store.Keys == {AdminUsername}
    ensures GetUsername(store[AdminUsername]) == AdminUsername
    ensures GetEmail(store[AdminUsername]) == AdminEmail
    ensures GetEncodedPassword(store[AdminUsername]) == encode(AdminPassword)
  {
    map[AdminUsername := NewUserInfo(AdminUsername, AdminEmail, encode(AdminPassword))]
  }

  /** findByUsername: the record stored under exactly that key; empty exactly when the key is absent. */
  function FindByUsername(store: Store, username: string): (r: Option<UserInfo>)
    ensures r.None? <==> username !in store
    ensures r.Some? ==> username in store && r.value == store[username]
  {
    if username in store then Some(store[username]) else None
  }

  /**
   * findByEmail: some stored record whose email equals the query ignoring
   * case, or empty exactly when there is none. The map's iteration order is
   * unspecified, so which of several matching records comes back is too.
   */
  method FindByEmail(store: Store, email: string) returns (r: Option<UserInfo>)
    ensures r.Some? ==> r.value in store.Values && EqualsIgnoreCase(GetEmail(r.value), email)
    ensures r.None? <==> forall u :: u in store.Values ==> !EqualsIgnoreCase(GetEmail(u), email)
  {
    var remaining := store.Values;
    while remaining != {}
      invariant remaining <= store.Values
      invariant forall u :: u in store.Values - remaining ==> !EqualsIgnoreCase(GetEmail(u), email)
      decreases remaining
    {
      var u :| u in remaining;
      if EqualsIgnoreCase(GetEmail(u), email) {
        return Some(u);
      }
      remaining := remaining - {u};
    }
    return None;
  }

  /**
   * updatePassword: false and the same store when the username is absent;
   * otherwise true, and only that user's encoded password is replaced.
   */
  function UpdatePassword(store: Store, username: string, newEncodedPassword: string): (r: (bool, Store))
    ensures r.0 <==> username in store
    ensures !r.0 ==> r.1 == store
    ensures r.1.Keys == store.Keys
    ensures r.0 ==> (
      && GetEncodedPassword(r.1[username]) == newEncodedPassword
      && GetUsername(r.1[username]) == GetUsername(store[username])
      && GetEmail(r.1[username]) == GetEmail(store[username]))
    ensures forall k :: k in store && k != username ==> r.1[k] == store[k]
  {
    if username !in store then (false, store)
    else (true, store[username := SetEncodedPassword(store[username], newEncodedPassword)])
  }

  /** Every record is stored under its own username. */
  ghost predicate KeyedByUsername(store: Store) {
    forall k :: k in store ==> GetUsername(store[k]) == k
  }

  /** Applies a sequence of updatePassword calls, in order. */
  function ApplyUpdates(store: Store, updates: seq<(string, string)>): Store
    decreases |updates|
  {
    if |updates| == 0 then store
    else ApplyUpdates(UpdatePassword(store, updates[0].0, updates[0].1).1, updates[1..])
  }

  /**
   * No sequence of updates adds or removes a key, moves a record, or touches
   * a username or email: only encoded passwords ever change.
   */
  lemma {:induction false} UpdatesPreserveIdentity(store: Store, updates: seq<(string, string)>)
    ensures ApplyUpdates(store, updates).Keys == store.Keys
    ensures forall k :: k in store ==>
      GetUsername(ApplyUpdates(store, updates)[k]) == GetUsername(store[k])
      && GetEmail(ApplyUpdates(store, updates)[k]) == GetEmail(store[k])
    ensures KeyedByUsername(store) ==> KeyedByUsername(ApplyUpdates(store, updates))
    decreases |updates|
  {
    if |updates| > 0 {
      var next := UpdatePassword(store, updates[0].0, updates[0].1).1;
      UpdatesPreserveIdentity(next, updates[1..]);
    }
  }

  /** Starting from the constructor, the key set stays exactly {admin} with the admin's email. */
  lemma StoreKeepsOnlyAdmin(encode: string -> string, updates: seq<(string, string)>)
    ensures ApplyUpdates(NewUserStore(encode), updates).Keys == {AdminUsername}
    ensures GetEmail(ApplyUpdates(NewUserStore(encode), updates)[AdminUsername]) == AdminEmail
    ensures KeyedByUsername(ApplyUpdates(NewUserStore(encode), updates))
  {
    UpdatesPreserveIdentity(NewUserStore(encode), updates);
  }

  /** A lookup after an update sees the new password. */
  lemma FindAfterUpdate(store: Store, username: string, p: string)
    requires username in store
    ensures FindByUsername(UpdatePassword(store, username, p).1, username)
      == Some(SetEncodedPassword(store[username], p))
  {
  }

  /**
   * With the application's encoder plugged in, the seeded admin logs in with
   * the default password; a store seeded under other settings does not.
   */
  lemma AdminSeedMatches(jdk: PasswordEncoder.Jdk, e: PasswordEncoder.Encoder, other: PasswordEncoder.Encoder)
    ensures PasswordEncoder.Matches(jdk, e, AdminPassword,
      GetEncodedPassword(NewUserStore(raw => PasswordEncoder.Encode(jdk, e, raw))[AdminUsername]))
    ensures other != e ==> !PasswordEncoder.Matches(jdk, e, AdminPassword,
      GetEncodedPassword(NewUserStore(raw => PasswordEncoder.Encode(jdk, other, raw))[AdminUsername]))
  {
    PasswordEncoder.MatchesEncoded(jdk, e, AdminPassword);
    if other != e {
      PasswordEncoder.CrossSettingsNeverMatch(jdk, other, e, AdminPassword, AdminPassword);
    }
  }
}

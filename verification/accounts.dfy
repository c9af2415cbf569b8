/** The account tables of the catalog store: users, invite codes, and the per-user
    favourites and watchlist relations, with the statements of the account query module. */
module Accounts {
  import opened Common
  import opened Sorting
  import opened Catalog

  // ---------------------------------------------------------------- users

  predicate HasUser(st: Store, id: int) {
    exists i :: 0 <= i < |st.users| && st.users[i].id == id
  }

  predicate NameTaken(st: Store, username: string) {
    exists i :: 0 <= i < |st.users| && st.users[i].username == username
  }

  /** The user table's own constraints: keys in order below the next key, and
      `username` `UNIQUE`. */
  predicate UsersValid(st: Store) {
    (forall i, j :: 0 <= i < j < |st.users| ==> st.users[i].id < st.users[j].id)
    && (forall i :: 0 <= i < |st.users| ==> st.users[i].id < st.nextUser)
    && (forall i, j :: 0 <= i < j < |st.users| ==> st.users[i].username != st.users[j].username)
  }

  /** `getUserCount`. */
  function UserCount(st: Store): (r: nat)
    ensures r == 0 <==> forall id :: !HasUser(st, id)
  {
    if |st.users| > 0 then assert HasUser(st, st.users[0].id); |st.users| else 0
  }

  /** `getUserByUsername`. */
  function UserByUsername(st: Store, username: string): (r: Option<User>)
    ensures r.None? <==> !NameTaken(st, username)
    ensures r.Some? ==> r.value in st.users && r.value.username == username
    decreases |st.users|
  {
    if |st.users| == 0 then None
    else if st.users[0].username == username then Some(st.users[0])
    else
      var rest := UserByUsername(st.(users := st.users[1..]), username);
      assert forall i :: 1 <= i < |st.users| ==> st.users[i] == st.users[1..][i - 1];
      assert NameTaken(st.(users := st.users[1..]), username) ==> NameTaken(st, username);
      rest
  }

  /** `createUser`: a row under the next key; a taken username violates `UNIQUE` and the
      insert fails (`None`). Returns the new key. */
  function CreateUser(st: Store, username: string, passwordHash: string, displayName: string,
                      role: Role, now: int): (r: Option<(Store, int)>)
    ensures r.None? <==> NameTaken(st, username)
    ensures r.Some? ==> r.value.1 == st.nextUser
    ensures r.Some? ==> r.value.0 == st.(users := st.users + [User(st.nextUser, username, passwordHash, displayName, role, now)],
                                         nextUser := st.nextUser + 1)
  {
    if NameTaken(st, username) then None
    else
      var u := User(st.nextUser, username, passwordHash, displayName, role, now);
      Some((st.(users := st.users + [u], nextUser := st.nextUser + 1), st.nextUser))
  }

  /** Creating a user keeps the table valid, adds one to the count, and the new user is
      then found under its name. */
  lemma CreateUserSpec(st: Store, username: string, passwordHash: string, displayName: string, role: Role, now: int)
    requires UsersValid(st) && !NameTaken(st, username)
    ensures var r := CreateUser(st, username, passwordHash, displayName, role, now).value;
      UsersValid(r.0) && UserCount(r.0) == UserCount(st) + 1
      && UserByUsername(r.0, username) == Some(User(r.1, username, passwordHash, displayName, role, now))
  {
    var r := CreateUser(st, username, passwordHash, displayName, role, now).value;
    var u := User(r.1, username, passwordHash, displayName, role, now);
    assert r.0 == st.(users := st.users + [u], nextUser := st.nextUser + 1);
    assert UserCount(r.0) == |st.users| + 1 && UserCount(st) == |st.users|;
    AppendKeepsValid(st, u);
    LookupAppended(st, u);
  }

  lemma AppendKeepsValid(st: Store, u: User)
    requires UsersValid(st) && u.id == st.nextUser && !NameTaken(st, u.username)
    ensures UsersValid(st.(users := st.users + [u], nextUser := st.nextUser + 1))
  {
    var users := st.users + [u];
    forall i, j | 0 <= i < j < |users|
      ensures users[i].id < users[j].id && users[i].username != users[j].username
    {
      assert users[i] == st.users[i];
      if j < |st.users| {
        assert users[j] == st.users[j];
      }
    }
  }

  /** A name not yet taken is found as the row appended under it. */
  lemma {:induction false} LookupAppended(st: Store, u: User)
    requires !NameTaken(st, u.username)
    ensures UserByUsername(st.(users := st.users + [u]), u.username) == Some(u)
    decreases |st.users|
  {
    var grown := st.(users := st.users + [u]);
    if |st.users| > 0 {
      var rest := st.(users := st.users[1..]);
      assert grown.users[1..] == rest.users + [u];
      forall i | 0 <= i < |rest.users| ensures rest.users[i].username != u.username {
        assert rest.users[i] == st.users[i + 1];
      }
      LookupAppended(rest, u);
      assert grown.(users := grown.users[1..]) == rest.(users := rest.users + [u]);
    }
  }

  /** A user row without its password hash. */
  datatype SafeUser = SafeUser(id: int, username: string, displayName: string, role: Role, createdAt: int)

  function ToSafe(u: User): (r: SafeUser)
    ensures r.id == u.id && r.username == u.username && r.displayName == u.displayName
    ensures r.role == u.role && r.createdAt == u.createdAt
  {
    SafeUser(u.id, u.username, u.displayName, u.role, u.createdAt)
  }

  predicate OlderFirst(a: SafeUser, b: SafeUser) {
    a.createdAt <= b.createdAt
  }

  lemma OlderFirstPreorder()
    ensures TotalPreorder(OlderFirst)
  {
  }

  /** `getAllUsers`: every user once, without the hash, oldest first. */
  function AllUsers(st: Store): (r: seq<SafeUser>)
    ensures SortedBy(r, OlderFirst)
    ensures multiset(r) == multiset(seq(|st.users|, i requires 0 <= i < |st.users| => ToSafe(st.users[i])))
  {
    var safe := seq(|st.users|, i requires 0 <= i < |st.users| => ToSafe(st.users[i]));
    OlderFirstPreorder();
    SortBySorted(safe, OlderFirst);
    SortBy(safe, OlderFirst)
  }

  /** Listing users loses no one: each stored user appears exactly as its public part. */
  lemma AllUsersComplete(st: Store, i: nat)
    requires i < |st.users|
    ensures ToSafe(st.users[i]) in AllUsers(st)
    ensures forall s :: s in AllUsers(st) ==> exists j :: 0 <= j < |st.users| && s == ToSafe(st.users[j])
  {
    var safe := seq(|st.users|, i requires 0 <= i < |st.users| => ToSafe(st.users[i]));
    assert safe[i] == ToSafe(st.users[i]);
    assert safe[i] in multiset(AllUsers(st));
    forall s | s in AllUsers(st) ensures exists j :: 0 <= j < |st.users| && s == ToSafe(st.users[j]) {
      assert s in multiset(safe);
      var j :| 0 <= j < |safe| && safe[j] == s;
    }
  }

  // ---------------------------------------------------------------- invite codes

  predicate HasCode(st: Store, code: string) {
    exists i :: 0 <= i < |st.invites| && st.invites[i].code == code
  }

  /** `code` is the primary key and the creator and user are foreign keys into `users`. */
  predicate InvitesValid(st: Store) {
    (forall i, j :: 0 <= i < j < |st.invites| ==> st.invites[i].code != st.invites[j].code)
    && (forall i :: 0 <= i < |st.invites| ==> HasUser(st, st.invites[i].createdBy))
    && (forall i :: 0 <= i < |st.invites| && st.invites[i].usedBy.Some? ==> HasUser(st, st.invites[i].usedBy.value))
  }

  /** `createInviteCode`: an unused code; a repeated code or an unknown creator makes the
      insert fail (`None`). */
  function CreateInviteCode(st: Store, code: string, createdBy: int, now: int): (r: Option<Store>)
    ensures r.None? <==> HasCode(st, code) || !HasUser(st, createdBy)
    ensures r.Some? ==> r.value == st.(invites := st.invites + [Invite(code, createdBy, None, now, None)])
  {
    if HasCode(st, code) || !HasUser(st, createdBy) then None
    else Some(st.(invites := st.invites + [Invite(code, createdBy, None, now, None)]))
  }

  /** `getInviteCode`. */
  function GetInviteCode(st: Store, code: string): (r: Option<Invite>)
    ensures r.None? <==> !HasCode(st, code)
    ensures r.Some? ==> r.value in st.invites && r.value.code == code
    decreases |st.invites|
  {
    if |st.invites| == 0 then None
    else if st.invites[0].code == code then Some(st.invites[0])
    else
      var rest := GetInviteCode(st.(invites := st.invites[1..]), code);
      assert forall i :: 1 <= i < |st.invites| ==> st.invites[i] == st.invites[1..][i - 1];
      assert HasCode(st.(invites := st.invites[1..]), code) ==> HasCode(st, code);
      rest
  }

  /** `markInviteCodeUsed`: the code's row records its user and the time; an unknown code
      changes nothing; writing an unknown user into a row violates the foreign key (`None`). */
  function MarkInviteCodeUsed(st: Store, code: string, usedBy: int, now: int): (r: Option<Store>)
    ensures r.None? <==> HasCode(st, code) && !HasUser(st, usedBy)
    ensures r.Some? ==> |r.value.invites| == |st.invites| && r.value == st.(invites := r.value.invites)
    ensures r.Some? ==> forall i :: 0 <= i < |st.invites| ==>
      r.value.invites[i] == if st.invites[i].code == code then st.invites[i].(usedBy := Some(usedBy), usedAt := Some(now))
                            else st.invites[i]
  {
    if HasCode(st, code) && !HasUser(st, usedBy) then None
    else
      var inv := st.invites;
      Some(st.(invites := seq(|inv|, i requires 0 <= i < |inv| =>
        if inv[i].code == code then inv[i].(usedBy := Some(usedBy), usedAt := Some(now)) else inv[i])))
  }

  /** After marking, the code reads back as used by that user; the table stays valid. */
  lemma MarkUsedReadsBack(st: Store, code: string, usedBy: int, now: int)
    requires InvitesValid(st) && HasUser(st, usedBy) && HasCode(st, code)
    ensures var r := MarkInviteCodeUsed(st, code, usedBy, now).value;
      InvitesValid(r) && GetInviteCode(r, code).value.usedBy == Some(usedBy)
  {
    var r := MarkInviteCodeUsed(st, code, usedBy, now).value;
    MarkUsedValid(st, code, usedBy, now);
    var i :| 0 <= i < |st.invites| && st.invites[i].code == code;
    assert r.invites[i].code == code;
    var g := GetInviteCode(r, code).value;
    var k :| 0 <= k < |r.invites| && r.invites[k] == g;
    assert r.invites[k] == st.invites[k].(usedBy := Some(usedBy), usedAt := Some(now));
  }

  lemma MarkUsedValid(st: Store, code: string, usedBy: int, now: int)
    requires InvitesValid(st) && HasUser(st, usedBy)
    ensures InvitesValid(MarkInviteCodeUsed(st, code, usedBy, now).value)
  {
    var r := MarkInviteCodeUsed(st, code, usedBy, now).value;
    assert forall i :: 0 <= i < |r.invites| ==> r.invites[i].code == st.invites[i].code && r.invites[i].createdBy == st.invites[i].createdBy;
    assert forall i :: 0 <= i < |r.invites| && r.invites[i].usedBy.Some? ==>
      r.invites[i].usedBy == st.invites[i].usedBy || r.invites[i].usedBy == Some(usedBy);
  }

  predicate NewerCodeFirst(a: Invite, b: Invite) {
    a.createdAt >= b.createdAt
  }

  lemma NewerCodeFirstPreorder()
    ensures TotalPreorder(NewerCodeFirst)
  {
  }

  /** `getInviteCodes`: the codes that user created, newest first. */
  function InviteCodes(st: Store, createdBy: int): (r: seq<Invite>)
    ensures SortedBy(r, NewerCodeFirst)
    ensures forall c :: c in r <==> c in st.invites && c.createdBy == createdBy
  {
    var mine := Keep(st.invites, (c: Invite) => c.createdBy == createdBy);
    NewerCodeFirstPreorder();
    SortBySorted(mine, NewerCodeFirst);
    var r := SortBy(mine, NewerCodeFirst);
    assert forall c :: c in r <==> c in multiset(mine);
    r
  }

  /** `deleteInviteCode`: only an unused code goes; a used one stays. */
  function DeleteInviteCode(st: Store, code: string): (r: Store)
    ensures forall c :: c in r.invites <==> c in st.invites && !(c.code == code && c.usedBy.None?)
    ensures r == st.(invites := r.invites)
  {
    st.(invites := Keep(st.invites, (c: Invite) => !(c.code == code && c.usedBy.None?)))
  }

  /** Deleting a used code is a no-op; deleting an unused one leaves the code unknown. */
  lemma DeleteInviteCodeSpec(st: Store, code: string)
    requires InvitesValid(st)
    ensures GetInviteCode(st, code).Some? && GetInviteCode(st, code).value.usedBy.Some? ==>
      DeleteInviteCode(st, code) == st
    ensures GetInviteCode(st, code).None? || GetInviteCode(st, code).value.usedBy.None? ==>
      !HasCode(DeleteInviteCode(st, code), code)
  {
    var p := (c: Invite) => !(c.code == code && c.usedBy.None?);
    var g := GetInviteCode(st, code);
    if g.Some? && g.value.usedBy.Some? {
      forall i | 0 <= i < |st.invites| ensures p(st.invites[i]) {
        var k :| 0 <= k < |st.invites| && st.invites[k] == g.value;
        if st.invites[i].code == code { assert i == k; }
      }
      KeepSame(st.invites, p, (c: Invite) => true);
      KeepAll(st.invites);
    } else {
      var r := DeleteInviteCode(st, code);
      forall i | 0 <= i < |r.invites| ensures r.invites[i].code != code {
        assert r.invites[i] in st.invites;
        var k :| 0 <= k < |st.invites| && st.invites[k] == r.invites[i];
      }
    }
  }

  // ---------------------------------------------------------------- per-user relations

  /** `toggleUserFavorite` / `toggleUserWatchlist` on one relation: a present pair is
      deleted (false), an absent one inserted (true). Both columns are foreign keys, so
      inserting for an unknown user or item fails (`None`). */
  function TogglePair(rel: set<(int, int)>, user: int, item: int, known: bool): (r: Option<(set<(int, int)>, bool)>)
    ensures r.None? <==> (user, item) !in rel && !known
    ensures r.Some? ==> (r.value.1 <==> (user, item) !in rel)
    ensures r.Some? ==> ((user, item) in r.value.0 <==> r.value.1)
    ensures r.Some? ==> forall p :: p != (user, item) ==> (p in r.value.0 <==> p in rel)
  {
    if (user, item) in rel then Some((rel - {(user, item)}, false))
    else if !known then None
    else Some((rel + {(user, item)}, true))
  }

  function ToggleUserFavorite(st: Store, user: int, item: int): (r: Option<(Store, bool)>)
    ensures r.Some? ==> r.value.0 == st.(favorites := r.value.0.favorites)
    ensures r.Some? ==> forall u, i :: u != user ==> ((u, i) in r.value.0.favorites <==> (u, i) in st.favorites)
    ensures r.None? <==> (user, item) !in st.favorites && !(HasUser(st, user) && HasItem(st, item))
  {
    var t := TogglePair(st.favorites, user, item, HasUser(st, user) && HasItem(st, item));
    if t.None? then None else Some((st.(favorites := t.value.0), t.value.1))
  }

  function ToggleUserWatchlist(st: Store, user: int, item: int): (r: Option<(Store, bool)>)
    ensures r.Some? ==> r.value.0 == st.(watchlist := r.value.0.watchlist)
    ensures r.Some? ==> forall u, i :: u != user ==> ((u, i) in r.value.0.watchlist <==> (u, i) in st.watchlist)
    ensures r.None? <==> (user, item) !in st.watchlist && !(HasUser(st, user) && HasItem(st, item))
  {
    var t := TogglePair(st.watchlist, user, item, HasUser(st, user) && HasItem(st, item));
    if t.None? then None else Some((st.(watchlist := t.value.0), t.value.1))
  }

  /** Toggling twice restores the relation, and the two answers differ. */
  lemma TogglePairTwice(rel: set<(int, int)>, user: int, item: int, known: bool)
    requires known
    ensures var once := TogglePair(rel, user, item, known).value;
      var twice := TogglePair(once.0, user, item, known).value;
      twice.0 == rel && twice.1 == !once.1
  {
    var once := TogglePair(rel, user, item, known).value;
    if (user, item) in rel {
      assert once.0 + {(user, item)} == rel;
    } else {
      assert once.0 - {(user, item)} == rel;
    }
  }

  /** `toggleUserFavorite` twice restores the store. */
  lemma ToggleUserFavoriteTwice(st: Store, user: int, item: int)
    requires HasUser(st, user) && HasItem(st, item)
    ensures var once := ToggleUserFavorite(st, user, item).value;
      ToggleUserFavorite(once.0, user, item) == Some((st, !once.1))
  {
    var once := ToggleUserFavorite(st, user, item).value;
    assert HasUser(once.0, user) && HasItem(once.0, item);
    TogglePairTwice(st.favorites, user, item, true);
  }

  /** `toggleUserWatchlist` twice restores the store. */
  lemma ToggleUserWatchlistTwice(st: Store, user: int, item: int)
    requires HasUser(st, user) && HasItem(st, item)
    ensures var once := ToggleUserWatchlist(st, user, item).value;
      ToggleUserWatchlist(once.0, user, item) == Some((st, !once.1))
  {
    var once := ToggleUserWatchlist(st, user, item).value;
    assert HasUser(once.0, user) && HasItem(once.0, item);
    TogglePairTwice(st.watchlist, user, item, true);
  }

  // ---------------------------------------------------------------- migration

  /** SQL `column = 1`: an integer or real one. */
  predicate IsOne(v: Value) {
    v == VInt(1) || v == VReal(1.0)
  }

  /** The items whose global flag in `column` is 1, paired with `user`. */
  function Flagged(items: seq<Item>, user: int, column: string): (r: set<(int, int)>)
    ensures forall p :: p in r <==> p.0 == user && exists i :: 0 <= i < |items| && items[i].id == p.1 && IsOne(Col(items[i].row, column))
  {
    set i | 0 <= i < |items| && IsOne(Col(items[i].row, column)) :: (user, items[i].id)
  }

  /** `migrateGlobalFavoritesAndWatchlist`: `INSERT OR IGNORE` of the flagged items into the
      user's favourites and watchlist; the user is a foreign key (`None` when unknown). */
  function Migrate(st: Store, user: int): (r: Option<Store>)
    ensures r.None? <==> !HasUser(st, user) && (Flagged(st.items, user, "is_favorite") != {} || Flagged(st.items, user, "in_watchlist") != {})
    ensures r.Some? ==> r.value == st.(favorites := r.value.favorites, watchlist := r.value.watchlist)
  {
    var fav := Flagged(st.items, user, "is_favorite");
    var wl := Flagged(st.items, user, "in_watchlist");
    if !HasUser(st, user) && (fav != {} || wl != {}) then None
    else Some(st.(favorites := st.favorites + fav, watchlist := st.watchlist + wl))
  }

  /** After migration every globally flagged item is in that user's relation; nothing
      of any other user's changes; running it again changes nothing. */
  lemma MigrateSpec(st: Store, user: int, i: nat, u: int, m: int)
    requires HasUser(st, user) && i < |st.items|
    ensures var r := Migrate(st, user).value;
      (IsOne(Col(st.items[i].row, "is_favorite")) ==> (user, st.items[i].id) in r.favorites)
      && (IsOne(Col(st.items[i].row, "in_watchlist")) ==> (user, st.items[i].id) in r.watchlist)
      && (u != user ==> ((u, m) in r.favorites <==> (u, m) in st.favorites))
      && (u != user ==> ((u, m) in r.watchlist <==> (u, m) in st.watchlist))
      && Migrate(r, user) == Some(r)
  {
    var r := Migrate(st, user).value;
    assert HasUser(r, user);
    assert r.favorites + Flagged(r.items, user, "is_favorite") == r.favorites;
    assert r.watchlist + Flagged(r.items, user, "in_watchlist") == r.watchlist;
  }
}

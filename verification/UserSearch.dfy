/** User search: ascending pages by (username, id). The collation of the database is a parameter. */
module UserSearch {
  import opened Common
  import opened Orders
  import opened Keyset

  datatype User = User(id: int, username: string)
  datatype UserCursor = UserCursor(u: string, i: int)
  datatype Collation = Collation(lt: (string, string) -> bool)

  ghost predicate Total(c: Collation) {
    StrictOrder(c.lt) && forall a, b :: a != b ==> c.lt(a, b) || c.lt(b, a)
  }

  predicate UserBefore(c: Collation, a: User, b: User) {
    c.lt(a.username, b.username) || (a.username == b.username && a.id < b.id)
  }

  function EncodeUserCursor(last: User): UserCursor {
    UserCursor(last.username, last.id)
  }

  predicate PassesUserCursor(c: Collation, cursor: UserCursor, row: User) {
    c.lt(cursor.u, row.username) || (row.username == cursor.u && row.id > cursor.i)
  }

  function UserListing(c: Collation): Listing<User, UserCursor> {
    Listing((a, b) => UserBefore(c, a, b), EncodeUserCursor, (k, r) => PassesUserCursor(c, k, r))
  }

  /** `q` picks the rows by an ILIKE pattern (a parameter) and leaves the searching user out. */
  function Matches(users: set<User>, me: int, raw: string, ilike: (string, string) -> bool): set<User> {
    set x | x in users && ilike(x.username, raw) && x.id != me
  }

  lemma UserCursorExact(c: Collation, table: set<User>)
    requires Total(c)
    ensures Exact(UserListing(c), table)
    ensures forall start :: StartIsClosed(UserListing(c), table, start)
  {
  }

  function SearchUsersPage(
    c: Collation, space: char -> bool, ilike: (string, string) -> bool,
    users: set<User>, me: int, q: string, limit: int, cursor: Option<UserCursor>): Page<User, UserCursor>
    requires Total(c)
  {
    var raw := Strip(space, q);
    if |raw| < 2 then Page([], false, None) else
      var table := Matches(users, me, raw, ilike);
      UserCursorExact(c, table);
      Fetch(UserListing(c), table, cursor, Clamp(limit, 1, 50))
  }

  /**
   Following the cursors of a search delivers every matching user exactly once in (username, id)
   order, whatever limits are asked for.
   */
  lemma SearchDeliversEachUserOnce(
    c: Collation, space: char -> bool, ilike: (string, string) -> bool,
    users: set<User>, me: int, q: string, limits: seq<int>, pages: seq<Page<User, UserCursor>>)
    requires Total(c) && |Strip(space, q)| >= 2
    requires Session((cursor, limit) => SearchUsersPage(c, space, ilike, users, me, q, limit, cursor), limits, pages)
    ensures PagesThrough((a, b) => UserBefore(c, a, b), Matches(users, me, Strip(space, q), ilike), pages)
    ensures forall i, j :: 0 <= i < j < |AllItems(pages)| ==>
      var a, b := AllItems(pages)[i], AllItems(pages)[j];
      c.lt(a.username, b.username) || (a.username == b.username && a.id < b.id)
    ensures forall x :: x in AllItems(pages) ==> x in users && ilike(x.username, Strip(space, q)) && x.id != me
    ensures !Last(pages).hasMore ==>
      forall x :: x in users && ilike(x.username, Strip(space, q)) && x.id != me ==> x in AllItems(pages)
  {
    var found := Matches(users, me, Strip(space, q), ilike);
    UserCursorExact(c, found);
    SessionDelivers(
      (cursor, limit) => SearchUsersPage(c, space, ilike, users, me, q, limit, cursor),
      UserListing(c), found, 50, limits, pages);
    assert UserListing(c).lt == ((a, b) => UserBefore(c, a, b));
  }

  /** The other users whose names match and who come after the cursor. */
  function UsersLeft(c: Collation, ilike: (string, string) -> bool, users: set<User>, me: int, raw: string,
                     cursor: Option<UserCursor>): set<User> {
    set x | x in users && ilike(x.username, raw) && x.id != me
         && (cursor.Some? ==> UserBefore(c, User(cursor.value.i, cursor.value.u), x))
  }

  /** A page of a search holds as many of the remaining users as asked for, between 1 and 50. */
  lemma SearchPageIsFull(
    c: Collation, space: char -> bool, ilike: (string, string) -> bool,
    users: set<User>, me: int, q: string, limit: int, cursor: Option<UserCursor>)
    requires Total(c)
    ensures var raw := Strip(space, q); var page := SearchUsersPage(c, space, ilike, users, me, q, limit, cursor);
      && (|raw| < 2 ==> page == Page([], false, None))
      && (|raw| >= 2 ==>
            var left := UsersLeft(c, ilike, users, me, raw, cursor);
            var size := if limit < 1 then 1 else if limit > 50 then 50 else limit;
            |page.items| == (if |left| < size then |left| else size) && (page.hasMore <==> |left| > size))
  {
    var raw := Strip(space, q);
    if |raw| >= 2 {
      var table := Matches(users, me, raw, ilike);
      UserCursorExact(c, table);
      PageIsFull(UserListing(c), table, cursor, Clamp(limit, 1, 50));
      assert Past(UserListing(c), table, cursor) == UsersLeft(c, ilike, users, me, raw, cursor);
    }
  }
}

/** The `users` table and the three queries the handlers run against it:
    `SELECT ... WHERE email = $1`, `SELECT ... WHERE id = $1` and
    `INSERT ... RETURNING`. The table is a sequence of rows; a query's
    `users[0]` is the first row, in table order, that matches. */
module Users {
  import opened Wrappers
  import opened Crypto

  /** One row of `users`, every column the INSERT writes plus the
      generated `id` and `created_at`. */
  datatype UserRow = UserRow(
    id: int,
    name: string,
    email: string,
    phoneNumber: Option<string>,
    passwordHash: string,
    profileImageUrl: Option<string>,
    createdAt: Time)

  /** The projection sent back to clients: the row without `password_hash`. */
  datatype Profile = Profile(
    id: int,
    name: string,
    email: string,
    phoneNumber: Option<string>,
    profileImageUrl: Option<string>,
    createdAt: Time)

  function ToProfile(row: UserRow): Profile {
    Profile(row.id, row.name, row.email, row.phoneNumber, row.profileImageUrl, row.createdAt)
  }

  /** The WHERE clause of a lookup. */
  datatype Key = ByEmail(email: string) | ById(id: int)

  predicate Matches(row: UserRow, key: Key) {
    match key
    case ByEmail(e) => row.email == e
    case ById(i) => row.id == i
  }

  /** Index of the first row that satisfies the WHERE clause, if any. */
  function FirstMatch(rows: seq<UserRow>, key: Key): (index: Option<nat>)
    ensures index.Some? ==>
      index.value < |rows| && Matches(rows[index.value], key) &&
      forall j :: 0 <= j < index.value ==> !Matches(rows[j], key)
    ensures index.None? ==> forall j :: 0 <= j < |rows| ==> !Matches(rows[j], key)
  {
    if rows == [] then None
    else if Matches(rows[0], key) then Some(0)
    else match FirstMatch(rows[1..], key)
      case None => None
      case Some(i) => Some(i + 1)
  }

  /** `(await sql`SELECT ... WHERE ...`)[0]`: the first matching row, or
      `None` when the result set is empty. */
  function Select(rows: seq<UserRow>, key: Key): (found: Option<UserRow>)
    ensures found.None? <==> forall j :: 0 <= j < |rows| ==> !Matches(rows[j], key)
    ensures found.Some? ==>
      exists i :: 0 <= i < |rows| && rows[i] == found.value && Matches(rows[i], key) &&
        forall j :: 0 <= j < i ==> !Matches(rows[j], key)
  {
    match FirstMatch(rows, key)
    case None => None
    case Some(i) => Some(rows[i])
  }

  /** The table's invariant: ids are drawn from a serial counter starting
      at 1 (so every id is below `nextId` and none repeats), and no two
      rows share an email, which the register handler's existence check
      maintains. */
  ghost predicate WellFormed(rows: seq<UserRow>, nextId: int) {
    && 1 <= nextId
    && (forall i :: 0 <= i < |rows| ==> 1 <= rows[i].id < nextId)
    && (forall i, j :: 0 <= i < j < |rows| ==> rows[i].id != rows[j].id)
    && (forall i, j :: 0 <= i < j < |rows| ==> rows[i].email != rows[j].email)
  }

  /** Appending a row that matches a key no existing row matches makes
      that key select the new row. */
  lemma SelectAppendedRow(rows: seq<UserRow>, row: UserRow, key: Key)
    requires forall j :: 0 <= j < |rows| ==> !Matches(rows[j], key)
    requires Matches(row, key)
    ensures Select(rows + [row], key) == Some(row)
  {
    var all := rows + [row];
    assert all[|rows|] == row;
    assert forall j :: 0 <= j < |rows| ==> all[j] == rows[j];
  }
}

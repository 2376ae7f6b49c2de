/**
 * The `users` relation (lib/types.ts, schema of lib/migrations.ts:7-12):
 * `id serial primary key`, `email varchar unique not null`,
 * `password varchar not null`, and the queries the handlers run on it.
 *
 * The table is a map from e-mail to row, so the unique e-mail constraint
 * holds by construction; `nextId` is the serial sequence.
 */
module Store {
  import opened Optional
  import Crypto

  /** A full record of the table, as lib/types.ts declares it. */
  datatype User = User(id: int, email: string, password: string)

  /** The `{ id, email }` projection handed to clients. */
  datatype Profile = Profile(id: int, email: string)

  /** What the table holds under one e-mail. */
  datatype Row = Row(id: int, password: string)

  /** The record with its password column dropped. */
  function WithoutPassword(user: User): Profile {
    Profile(user.id, user.email)
  }

  class UsersTable {
    var rows: map<string, Row>
    var nextId: int

    /** Ids come from the sequence: positive, below the next value, one per row. */
    ghost predicate Valid()
      reads this
    {
      && 1 <= nextId
      && (forall e :: e in rows ==> 1 <= rows[e].id < nextId)
      && (forall e, e' :: e in rows && e' in rows && rows[e].id == rows[e'].id ==> e == e')
    }

    /** Every password column holds a bcrypt string, never a plaintext. */
    predicate PasswordsHashed()
      reads this
    {
      forall e :: e in rows ==> Crypto.IsDigest(rows[e].password)
    }

    /** The freshly migrated, empty table. */
    constructor ()
      ensures Valid() && PasswordsHashed()
      ensures rows == map[] && nextId == 1
    {
      rows := map[];
      nextId := 1;
    }

    /** findUserByEmail: the whole row with the given e-mail, if any. */
    function FindByEmail(email: string): (found: Option<User>)
      reads this
      ensures found.Some? <==> email in rows
      ensures found.Some? ==> found.value.email == email && Row(found.value.id, found.value.password) == rows[email]
    {
      if email in rows then Some(User(rows[email].id, email, rows[email].password)) else None
    }

    /** The `{ id, email }` of the row with the given id, if any. */
    function FindById(id: int): (found: Option<Profile>)
      reads this
      requires Valid()
      ensures found.Some? <==> exists e :: e in rows && rows[e].id == id
      ensures found.Some? ==> found.value.id == id && found.value.email in rows && rows[found.value.email].id == id
    {
      if exists e :: e in rows && rows[e].id == id then
        var e :| e in rows && rows[e].id == id;
        Some(Profile(id, e))
      else None
    }

    /** Insert a row with the next id of the sequence; the store returns its id and e-mail. */
    method Insert(email: string, password: string) returns (created: Profile)
      requires Valid() && email !in rows
      modifies this
      ensures Valid()
      ensures rows == old(rows)[email := Row(old(nextId), password)] && nextId == old(nextId) + 1
      ensures created == Profile(old(nextId), email)
      ensures old(PasswordsHashed()) && Crypto.IsDigest(password) ==> PasswordsHashed()
      ensures forall e :: e in old(rows) ==> old(rows)[e].id < created.id
    {
      created := Profile(nextId, email);
      rows := rows[email := Row(nextId, password)];
      nextId := nextId + 1;
    }

    /** Set the password column of the rows with the given e-mail: none or one changes, and its id stays. */
    method UpdatePassword(email: string, password: string)
      requires Valid()
      modifies this
      ensures Valid() && nextId == old(nextId)
      ensures rows == if email in old(rows) then old(rows)[email := Row(old(rows)[email].id, password)] else old(rows)
      ensures old(PasswordsHashed()) && Crypto.IsDigest(password) ==> PasswordsHashed()
    {
      if email in rows {
        rows := rows[email := Row(rows[email].id, password)];
      }
    }
  }
}

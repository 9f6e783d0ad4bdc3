/** `User.get_or_create`: find the first user with an e-mail address, or
    build one and, when asked to, save it. */
module Users {
  import opened Wrappers
  import opened Seqs
  import opened Store

  /** A `User` row. */
  class User {
    const email: string

    constructor (email: string)
      ensures this.email == email
    {
      this.email := email;
    }
  }

  /** The first user with that address in query order, if any. */
  function FindUser(rows: seq<User>, email: string): (r: Option<nat>)
  {
    FirstIndex(rows, (u: User) => u.email == email)
  }

  /** A match with no match before it is the first match. */
  lemma FindUserAt(rows: seq<User>, email: string, i: nat)
    requires i < |rows| && rows[i].email == email
    requires forall j | 0 <= j < i :: rows[j].email != email
    ensures FindUser(rows, email) == Some(i)
  {
  }

  /** The `User` table as the session's queries see it, in query order. */
  class UserTable {
    var rows: seq<User>
    const session: Session

    constructor (session: Session, rows: seq<User>)
      ensures this.session == session && this.rows == rows
    {
      this.session := session;
      this.rows := rows;
    }

    /** `User.get_or_create(email, autosave)`: the first stored user with the
        address; otherwise a new user with it, which is added and committed
        only when `autosave` holds. */
    method GetOrCreate(email: string, autosave: bool) returns (u: User)
      modifies this, session
      ensures u.email == email
      ensures match FindUser(old(rows), email)
        case Some(i) => u == old(rows)[i] && unchanged(this, session)
        case None =>
          && fresh(u)
          && (if autosave then
                && rows == old(rows) + [u] && session.added == old(session.added) + [u]
                && session.commits == old(session.commits) + 1
              else unchanged(this, session))
      ensures session.flushes == old(session.flushes)
      ensures autosave ==> FindUser(rows, email).Some? && rows[FindUser(rows, email).value] == u
    {
      var i := 0;
      while i < |rows|
        invariant 0 <= i <= |rows|
        invariant forall j | 0 <= j < i :: rows[j].email != email
      {
        if rows[i].email == email {
          FindUserAt(rows, email, i);
          return rows[i];
        }
        i := i + 1;
      }
      u := new User(email);
      if autosave {
        session.Add(u);
        session.Commit();
        FirstIndexAppend(rows, u, (v: User) => v.email == email);
        rows := rows + [u];
      }
    }
  }

  /** Two saving calls with the same address return the same user. */
  method GetOrCreateTwice(table: UserTable, email: string) returns (first: User, second: User)
    modifies table, table.session
    ensures first == second && first.email == email
    ensures |table.rows| <= |old(table.rows)| + 1
  {
    first := table.GetOrCreate(email, true);
    second := table.GetOrCreate(email, true);
  }
}

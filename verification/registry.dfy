/** The user registry: rows of the `users` table and the statements the
    handlers run against it. */
module Registry {
  import opened Wrappers

  /** One row of the `users` table. `used` is the INTEGER flag: 0 until the
      user's spin commits, 1 afterwards. */
  datatype User = User(id: int, name: string, used: int)

  /** Rows are kept in insertion order, and AUTOINCREMENT ids increase along the table. */
  predicate UsersOrdered(us: seq<User>)
  {
    forall i, j :: 0 <= i < j < |us| ==> us[i].id < us[j].id
  }

  /** The `name TEXT UNIQUE` constraint. */
  predicate NamesDistinct(us: seq<User>)
  {
    forall i, j :: 0 <= i < j < |us| ==> us[i].name != us[j].name
  }

  /** The flag only ever holds the values the handlers write: 0 or 1. */
  predicate FlagsValid(us: seq<User>)
  {
    forall u :: u in us ==> u.used == 0 || u.used == 1
  }

  /** `SELECT * FROM users WHERE id=?` with `fetchone()`: the first row with that id, if any. */
  function FindUser(us: seq<User>, id: int): (r: Option<User>)
    ensures r.Some? <==> exists i :: 0 <= i < |us| && us[i].id == id
    ensures r.Some? ==> r.value in us && r.value.id == id
  {
    if us == [] then None
    else if us[0].id == id then Some(us[0])
    else
      assert forall i :: 1 <= i < |us| ==> us[i] == us[1..][i - 1];
      FindUser(us[1..], id)
  }

  /** Whether a row with this name exists: the case in which the UNIQUE
      constraint refuses an INSERT. */
  function HasName(us: seq<User>, name: string): (r: bool)
    ensures r <==> exists i :: 0 <= i < |us| && us[i].name == name
  {
    if us == [] then false
    else
      assert forall i :: 1 <= i < |us| ==> us[i] == us[1..][i - 1];
      us[0].name == name || HasName(us[1..], name)
  }

  /** `UPDATE users SET used=1 WHERE id=?`: the rows with that id are marked,
      every other row is untouched. */
  function MarkUsed(us: seq<User>, id: int): (r: seq<User>)
    ensures |r| == |us|
    ensures forall i :: 0 <= i < |us| && us[i].id == id ==> r[i] == us[i].(used := 1)
    ensures forall i :: 0 <= i < |us| && us[i].id != id ==> r[i] == us[i]
    ensures forall i :: 0 <= i < |us| ==> r[i].id == us[i].id && r[i].name == us[i].name
  {
    if us == [] then []
    else [if us[0].id == id then us[0].(used := 1) else us[0]] + MarkUsed(us[1..], id)
  }

  /** `UPDATE users SET used=0`: every row is cleared, ids and names kept. */
  function ResetUsed(us: seq<User>): (r: seq<User>)
    ensures |r| == |us|
    ensures forall i :: 0 <= i < |us| ==> r[i] == us[i].(used := 0)
  {
    if us == [] then [] else [us[0].(used := 0)] + ResetUsed(us[1..])
  }

  /** `DELETE FROM users WHERE id=?`: drops the rows with that id and keeps the
      rest in order. */
  function RemoveUser(us: seq<User>, id: int): (r: seq<User>)
    ensures |r| <= |us|
    ensures forall u :: u in r <==> u in us && u.id != id
  {
    if us == [] then []
    else
      assert us == [us[0]] + us[1..];
      (if us[0].id == id then [] else [us[0]]) + RemoveUser(us[1..], id)
  }

  // ---------------------------------------------------------------------------
  // Lemmas
  // ---------------------------------------------------------------------------

  /** After the spin's UPDATE, looking the user up finds the same row with its
      flag set; looking up anyone else finds what it found before. */
  lemma {:induction false} FindAfterMark(us: seq<User>, id: int, x: int)
    ensures FindUser(MarkUsed(us, id), x).Some? == FindUser(us, x).Some?
    ensures FindUser(us, x).Some? ==>
              FindUser(MarkUsed(us, id), x).value
              == if x == id then FindUser(us, x).value.(used := 1) else FindUser(us, x).value
  {
    if us != [] {
      var m := MarkUsed(us, id);
      assert m[1..] == MarkUsed(us[1..], id);
      FindAfterMark(us[1..], id, x);
    }
  }

  /** The spin's UPDATE keeps the table well formed. */
  lemma MarkKeepsTable(us: seq<User>, id: int)
    requires UsersOrdered(us) && NamesDistinct(us) && FlagsValid(us)
    ensures UsersOrdered(MarkUsed(us, id)) && NamesDistinct(MarkUsed(us, id)) && FlagsValid(MarkUsed(us, id))
  {
  }

  /** The admin reset keeps the table well formed. */
  lemma ResetKeepsTable(us: seq<User>)
    requires UsersOrdered(us) && NamesDistinct(us)
    ensures UsersOrdered(ResetUsed(us)) && NamesDistinct(ResetUsed(us)) && FlagsValid(ResetUsed(us))
  {
  }

  /** A spin whose user row has been deleted marks nobody. */
  lemma MarkAbsent(us: seq<User>, id: int)
    requires FindUser(us, id).None?
    ensures MarkUsed(us, id) == us
  {
    assert forall i :: 0 <= i < |us| ==> us[i].id != id;
  }

  /** After the admin reset, every user is found again, with the flag cleared. */
  lemma {:induction false} FindAfterReset(us: seq<User>, x: int)
    ensures FindUser(ResetUsed(us), x).Some? == FindUser(us, x).Some?
    ensures FindUser(us, x).Some? ==> FindUser(ResetUsed(us), x).value == FindUser(us, x).value.(used := 0)
  {
    if us != [] {
      var r := ResetUsed(us);
      assert r[1..] == ResetUsed(us[1..]);
      FindAfterReset(us[1..], x);
    }
  }

  /** A row appended with an id above every existing one is what a lookup of that id finds. */
  lemma {:induction false} FindAppended(us: seq<User>, u: User)
    requires forall i :: 0 <= i < |us| ==> us[i].id < u.id
    ensures FindUser(us + [u], u.id) == Some(u)
  {
    if us != [] {
      assert (us + [u])[1..] == us[1..] + [u];
      FindAppended(us[1..], u);
    }
  }

  /** With ids increasing along the table, a lookup of any row's id finds that row. */
  lemma {:induction false} FindOrdered(us: seq<User>)
    requires UsersOrdered(us)
    ensures forall i :: 0 <= i < |us| ==> FindUser(us, us[i].id) == Some(us[i])
  {
    if us != [] {
      assert UsersOrdered(us[1..]);
      FindOrdered(us[1..]);
      forall i | 1 <= i < |us| ensures FindUser(us, us[i].id) == Some(us[i]) {
        assert us[1..][i - 1] == us[i];
      }
    }
  }

  /** Deleting rows keeps the remaining ids increasing. */
  lemma {:induction false} RemoveKeepsOrder(us: seq<User>, id: int)
    requires UsersOrdered(us)
    ensures UsersOrdered(RemoveUser(us, id))
  {
    if us != [] {
      var rest := RemoveUser(us[1..], id);
      assert UsersOrdered(us[1..]);
      RemoveKeepsOrder(us[1..], id);
      forall u | u in rest ensures us[0].id < u.id {
        assert u in us[1..];
        var k :| 0 <= k < |us[1..]| && us[1..][k] == u;
        assert us[k + 1] == u;
      }
    }
  }

  /** Deleting rows keeps the remaining names distinct. */
  lemma {:induction false} RemoveKeepsNames(us: seq<User>, id: int)
    requires NamesDistinct(us)
    ensures NamesDistinct(RemoveUser(us, id))
  {
    if us != [] {
      var rest := RemoveUser(us[1..], id);
      assert NamesDistinct(us[1..]);
      RemoveKeepsNames(us[1..], id);
      forall u | u in rest ensures us[0].name != u.name {
        assert u in us[1..];
        var k :| 0 <= k < |us[1..]| && us[1..][k] == u;
        assert us[k + 1] == u;
      }
    }
  }
}

/** The application: the three database tables and the session's `user` slot,
    and the request handlers that change them in place. */
module Wheel {
  import opened Wrappers
  import opened Inventory
  import opened Registry

  /** One row of the `winners` table: the winner's name and the amount won are
      copies, not references, and the date is the timestamp text of the spin. */
  datatype Winner = Winner(name: string, prize: int, date: string)

  /** The JSON bodies `/spin` answers with: the prize, or one of three errors. */
  datatype SpinResult = Won(prize: int) | NoUser | AlreadySpun | NoPrizesLeft

  /** The refusal test at the head of a spin: the user's row exists and its flag
      is 1. A user whose row is gone does not count as having spun. */
  function HasSpun(us: seq<User>, id: int): (r: bool)
    ensures r ==> exists i :: 0 <= i < |us| && us[i].id == id && us[i].used == 1
    ensures UsersOrdered(us) ==> (r <==> exists i :: 0 <= i < |us| && us[i].id == id && us[i].used == 1)
  {
    if UsersOrdered(us) then FindOrdered(us); FindUser(us, id).Some? && FindUser(us, id).value.used == 1
    else FindUser(us, id).Some? && FindUser(us, id).value.used == 1
  }

  /** The guard of select_user: the row exists, its flag is 0, and the sum of
      all quantities is positive. */
  function Selectable(us: seq<User>, ps: seq<Prize>, id: int): (r: bool)
    ensures r ==> Pool(ps) != []
    ensures UsersOrdered(us) ==>
              (r <==> (exists i :: 0 <= i < |us| && us[i].id == id && us[i].used == 0) && TotalQuantity(ps) > 0)
  {
    TotalBoundsPool(ps);
    if UsersOrdered(us) then FindOrdered(us); FindUser(us, id).Some? && FindUser(us, id).value.used == 0 && TotalQuantity(ps) > 0
    else FindUser(us, id).Some? && FindUser(us, id).value.used == 0 && TotalQuantity(ps) > 0
  }

  /** What the schema and the handlers keep true of the tables: ids increase
      along each table and stay below the next AUTOINCREMENT value, user names are
      unique, and every flag is 0 or 1. */
  predicate Consistent(us: seq<User>, ps: seq<Prize>, nextUserId: int, nextPrizeId: int)
  {
    && UsersOrdered(us) && NamesDistinct(us) && FlagsValid(us)
    && (forall i :: 0 <= i < |us| ==> us[i].id < nextUserId)
    && TiersOrdered(ps)
    && (forall i :: 0 <= i < |ps| ==> ps[i].id < nextPrizeId)
  }

  /** A winning spin's three statements keep the tables consistent. */
  lemma CommitKeepsConsistent(us: seq<User>, ps: seq<Prize>, nu: int, np: int, id: int, won: int)
    requires Consistent(us, ps, nu, np)
    ensures Consistent(MarkUsed(us, id), Decrement(ps, won), nu, np)
  {
    MarkKeepsTable(us, id);
    DecrementKeepsOrder(ps, won, np);
    assert forall i :: 0 <= i < |us| ==> MarkUsed(us, id)[i].id < nu;
  }

  class App {
    var users: seq<User>
    var prizes: seq<Prize>
    var winners: seq<Winner>
    /** The session's `user` entry: a snapshot of the row taken when the user was
        selected. It is not refreshed when the row changes or is deleted. */
    var bound: Option<User>
    /** The next AUTOINCREMENT ids of the `users` and `prizes` tables. */
    var nextUserId: int
    var nextPrizeId: int

    ghost predicate Valid()
      reads this
    {
      Consistent(users, prizes, nextUserId, nextPrizeId)
    }

    /** A new database: three empty tables, no session binding. */
    constructor ()
      ensures Valid()
      ensures users == [] && prizes == [] && winners == [] && bound == None
      ensures nextUserId == 1 && nextPrizeId == 1
    {
      users, prizes, winners, bound := [], [], [], None;
      nextUserId, nextPrizeId := 1, 1;
    }

    /** init_db's seeding: an empty `prizes` table receives the default tiers,
        one INSERT per tier; a table with rows is left alone. */
    method SeedDefaultPrizes()
      requires Valid()
      modifies this`prizes, this`nextPrizeId
      ensures Valid()
      ensures old(prizes) == [] ==>
                prizes == SeedRows(old(nextPrizeId)) && nextPrizeId == old(nextPrizeId) + |DefaultTiers|
      ensures old(prizes) != [] ==> prizes == old(prizes) && nextPrizeId == old(nextPrizeId)
    {
      if prizes == [] {
        var i := 0;
        while i < |DefaultTiers|
          invariant 0 <= i <= |DefaultTiers|
          invariant Valid()
          invariant nextPrizeId == old(nextPrizeId) + i
          invariant prizes == SeedRows(old(nextPrizeId))[..i]
        {
          ghost var seeded := SeedRows(old(nextPrizeId));
          assert seeded[..i + 1] == seeded[..i] + [seeded[i]];
          prizes := prizes + [Prize(nextPrizeId, DefaultTiers[i].0, DefaultTiers[i].1)];
          nextPrizeId := nextPrizeId + 1;
          i := i + 1;
        }
      }
    }

    /** admin_add_prize: the INSERT appends a row with the next id; the wheel's
        pool grows at its end by `quantity` copies of `amount`. */
    method AddPrize(amount: int, quantity: int)
      requires Valid()
      modifies this`prizes, this`nextPrizeId
      ensures Valid()
      ensures prizes == old(prizes) + [Prize(old(nextPrizeId), amount, quantity)]
      ensures nextPrizeId == old(nextPrizeId) + 1
      ensures Pool(prizes) == old(Pool(prizes)) + Repeat(amount, quantity)
    {
      PoolAppend(prizes, Prize(nextPrizeId, amount, quantity));
      prizes := prizes + [Prize(nextPrizeId, amount, quantity)];
      nextPrizeId := nextPrizeId + 1;
    }

    /** admin_delete_prize: the rows with that id go, the others stay in order. */
    method DeletePrize(id: int)
      requires Valid()
      modifies this`prizes
      ensures Valid()
      ensures prizes == RemoveTier(old(prizes), id)
      ensures forall p :: p in prizes <==> p in old(prizes) && p.id != id
    {
      RemoveTierKeepsOrder(prizes, id);
      prizes := RemoveTier(prizes, id);
    }

    /** add_user: a new name is appended with the next id and the flag 0; a
        name already present makes the INSERT fail, the exception is swallowed
        and nothing is committed, so nothing changes. */
    method AddUser(name: string)
      requires Valid()
      modifies this`users, this`nextUserId
      ensures Valid()
      ensures HasName(old(users), name) ==> users == old(users) && nextUserId == old(nextUserId)
      ensures !HasName(old(users), name) ==>
                users == old(users) + [User(old(nextUserId), name, 0)] &&
                nextUserId == old(nextUserId) + 1 &&
                FindUser(users, old(nextUserId)) == Some(User(old(nextUserId), name, 0))
    {
      if !HasName(users, name) {
        var u := User(nextUserId, name, 0);
        FindAppended(users, u);
        users := users + [u];
        nextUserId := nextUserId + 1;
      }
    }

    /** admin_add_user: `INSERT OR IGNORE`. A new name is appended as in
        add_user. A name already present is skipped, but SQLite draws the
        AUTOINCREMENT id before it checks the UNIQUE constraint and records it
        when the statement ends, so the ignored row still uses up an id. */
    method AdminAddUser(name: string)
      requires Valid()
      modifies this`users, this`nextUserId
      ensures Valid()
      ensures HasName(old(users), name) ==> users == old(users) && nextUserId == old(nextUserId) + 1
      ensures !HasName(old(users), name) ==>
                users == old(users) + [User(old(nextUserId), name, 0)] &&
                nextUserId == old(nextUserId) + 1 &&
                FindUser(users, old(nextUserId)) == Some(User(old(nextUserId), name, 0))
    {
      if !HasName(users, name) {
        var u := User(nextUserId, name, 0);
        FindAppended(users, u);
        users := users + [u];
      }
      nextUserId := nextUserId + 1;
    }

    /** admin_delete_user: the rows with that id go. A session bound to the
        deleted user keeps its snapshot. */
    method DeleteUser(id: int)
      requires Valid()
      modifies this`users
      ensures Valid()
      ensures users == RemoveUser(old(users), id)
      ensures forall u :: u in users <==> u in old(users) && u.id != id
    {
      RemoveKeepsOrder(users, id);
      RemoveKeepsNames(users, id);
      users := RemoveUser(users, id);
    }

    /** select_user: binds a snapshot of the row exactly when the user exists,
        has not spun, and the quantities add up to more than zero; otherwise
        the session is left as it was. A successful selection guarantees the
        pool is not empty at that moment. */
    method SelectUser(id: int) returns (ok: bool)
      requires Valid()
      modifies this`bound
      ensures Valid()
      ensures ok <==> Selectable(users, prizes, id)
      ensures ok ==> bound == FindUser(users, id) && Pool(prizes) != []
      ensures !ok ==> bound == old(bound)
    {
      var user := FindUser(users, id);
      var prizesLeft := TotalQuantity(prizes);
      if user.Some? && user.value.used == 0 && prizesLeft > 0 {
        TotalBoundsPool(prizes);
        bound := user;
        ok := true;
      } else {
        ok := false;
      }
    }

    /** spin. `k` is the position random.choice picks in the pool.
        - No binding: "No user", nothing changes.
        - The bound user's row has the flag 1: "already spun", the binding is
          cleared, the tables are unchanged.
        - The pool is empty: "No prizes left", nothing changes, the binding stays.
        - Otherwise the drawn amount is won: every tier with that amount and
          stock left loses one unit, the user's row (if it still exists) is
          marked, one winner row with the snapshot's name is appended, and the
          binding is cleared. */
    method Spin(k: nat, date: string) returns (r: SpinResult)
      requires Valid()
      requires Pool(prizes) != [] ==> k < |Pool(prizes)|
      modifies this`users, this`prizes, this`winners, this`bound
      ensures Valid()
      ensures old(bound).None? ==>
                r == NoUser && bound == old(bound) &&
                users == old(users) && prizes == old(prizes) && winners == old(winners)
      ensures old(bound).Some? && HasSpun(old(users), old(bound).value.id) ==>
                r == AlreadySpun && bound == None &&
                users == old(users) && prizes == old(prizes) && winners == old(winners)
      ensures old(bound).Some? && !HasSpun(old(users), old(bound).value.id) && old(Pool(prizes)) == [] ==>
                r == NoPrizesLeft && bound == old(bound) &&
                users == old(users) && prizes == old(prizes) && winners == old(winners)
      ensures old(bound).Some? && !HasSpun(old(users), old(bound).value.id) && old(Pool(prizes)) != [] ==>
                r == Won(old(Pool(prizes))[k]) && bound == None &&
                prizes == Decrement(old(prizes), r.prize) &&
                users == MarkUsed(old(users), old(bound).value.id) &&
                winners == old(winners) + [Winner(old(bound).value.name, r.prize, date)]
      ensures r.Won? ==> r.prize in old(Pool(prizes)) && |Pool(prizes)| < |old(Pool(prizes))|
      ensures r.Won? && old(FindUser(users, bound.value.id)).Some? ==>
                HasSpun(users, old(bound).value.id) && !Selectable(users, prizes, old(bound).value.id)
      ensures r.Won? && old(FindUser(users, bound.value.id)).None? ==> users == old(users)
    {
      if bound.None? {
        return NoUser;
      }
      var user := bound.value;
      var live := Available(prizes);
      var status := FindUser(users, user.id);
      if status.Some? && status.value.used == 1 {
        bound := None;
        return AlreadySpun;
      }
      var weighted := Weighted(live);
      if weighted == [] {
        return NoPrizesLeft;
      }
      var won := weighted[k];
      PoolIsWeighted(prizes);
      DrawShrinksPool(prizes, won);
      if status.None? {
        MarkAbsent(users, user.id);
      }
      Commit(user, won, date);
      r := Won(won);
    }

    /** The commit of a winning spin: the three statements run in order (stock
        decrement, user flag, winner row), then the session entry is popped. */
    method Commit(user: User, won: int, date: string)
      requires Valid()
      modifies this`users, this`prizes, this`winners, this`bound
      ensures Valid()
      ensures prizes == Decrement(old(prizes), won)
      ensures users == MarkUsed(old(users), user.id)
      ensures winners == old(winners) + [Winner(user.name, won, date)]
      ensures bound == None
      ensures old(FindUser(users, user.id)).Some? ==>
                HasSpun(users, user.id) && !Selectable(users, prizes, user.id)
    {
      FindAfterMark(users, user.id, user.id);
      CommitKeepsConsistent(users, prizes, nextUserId, nextPrizeId, user.id, won);
      prizes := Decrement(prizes, won);
      users := MarkUsed(users, user.id);
      winners := winners + [Winner(user.name, won, date)];
      bound := None;
    }

    /** admin_reset: every flag back to 0 and the winners table emptied, in one
        commit; prizes and the session are untouched. */
    method Reset()
      requires Valid()
      modifies this`users, this`winners
      ensures Valid()
      ensures users == ResetUsed(old(users)) && winners == []
      ensures forall id :: FindUser(old(users), id).Some? ==> (Selectable(users, prizes, id) <==> TotalQuantity(prizes) > 0)
    {
      ResetKeepsTable(users);
      forall id | FindUser(users, id).Some?
        ensures FindUser(ResetUsed(users), id).Some? && FindUser(ResetUsed(users), id).value.used == 0
      {
        FindAfterReset(users, id);
      }
      users := ResetUsed(users);
      winners := [];
    }
  }
}

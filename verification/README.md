# Prize wheel: a Dafny model of its spin engine

The application is a promotional prize wheel, served by Flask over SQLite.
Users are registered by name. An operator selects one of them for the wheel,
which binds a snapshot of the user row into the session. The user then spins
once. A spin draws an amount from a pool in which every prize tier appears as
many times as it has units left. It then decrements the stock, marks the user
as used and records a winner row. An administrator adds and deletes prize
tiers and users. The administrator can also reset the game, which clears
every user's flag and the winner history.

The model has four modules:

- `Wrappers`: an `Option` type, for a single-row query result and for the session slot.
- `Inventory`: the `prizes` table as a sequence of `Prize` rows. It has the
  `WHERE quantity > 0` filter (`Available`), the weighted list
  (`Weighted`, `Pool`), the totals on the index and admin pages, the
  decrement of a winning spin (`Decrement`) and the deletion of a tier.
  The lemmas say what the pool holds, how the totals relate to it, and what
  the decrement takes from it.
- `Registry`: the `users` table as a sequence of `User` rows, with the lookup
  by id, the name check behind the UNIQUE constraint, the two flag updates
  and the deletion. The lemmas say what a lookup finds after each update.
- `Wheel`: the class `App`. Its fields are the three tables (`users`,
  `prizes`, `winners`), the session's `user` entry (`bound`) and the two
  AUTOINCREMENT counters. Its methods are the request handlers, and each
  one updates the fields in place. `Valid()` is what the schema and the
  handlers keep true: ids increase along each table and stay below the counter,
  names are unique, and every flag is 0 or 1.

The random draw is an argument `k`, the position in the pool that
`random.choice` picks. The spin's timestamp is an opaque `date` string.

The model follows the code where the code departs from a clean design:

- A winning spin's `UPDATE` decrements every tier with the won amount and
  stock left, not exactly one tier. `SharedAmountTakesTwoUnits` shows two
  equal tiers both emptied by one spin. `DecrementPool` states in general
  that the pool loses one copy per matching tier.
- The "No prizes left" answer leaves the session binding in place. Only the
  "already spun" answer and a win clear it.
- A user whose row was deleted after selection is not refused. The spin goes
  ahead: the flag update touches no row, and a winner row is written with
  the snapshot's name.
- A refused selection leaves an earlier binding in the session untouched.
- The selection guard sums all quantities, negative ones included. The spin
  draws from the positive ones only. `TotalBoundsPool` shows that a positive
  sum still guarantees a non-empty pool.

## Model

| member | source | states |
|---|---|---|
| `Inventory.Weighted` | app.py:189 | every entry of the comprehension is the amount of a tier with a positive quantity |
| `Inventory.Pool` | app.py:181-189 | every entry is the amount of a tier with stock left, and the pool has as many entries as the positive quantities add up to |
| `Inventory.StockOf` | app.py:181-189 | an amount's stock is never negative, and it is positive exactly when some tier with that amount has units left |
| `Inventory.TotalQuantityBounds` | app.py:151 | a positive `SUM(quantity)` needs a tier with a positive quantity; without negative quantities the sum is non-negative and at least every tier's quantity (the same sum is shown at app.py:126 and 232) |
| `Inventory.TotalValueBounds` | app.py:127 | the `total_prize_pool` figure is non-negative when no amount and no quantity is, and zero when every quantity is zero (the same sum is shown at app.py:233) |
| `Inventory.Repeat` | app.py:189 | `range(q)` yields q copies of the amount when q is positive and none otherwise |
| `Inventory.Available` | app.py:181 | the tiers kept are exactly the tiers of the table with quantity above zero |
| `Inventory.Matching` | app.py:196 | the UPDATE touches at least one row exactly when some tier has the amount and stock left |
| `Inventory.Decrement` | app.py:196 | every tier with the won amount and quantity above zero loses exactly one unit; every other row is unchanged; no quantity drops below zero; ids and amounts are kept |
| `Inventory.RemoveTier` | app.py:275 | the rows left are exactly the old rows whose id differs from the deleted one |
| `Inventory.RemoveTierKeepsOrder` | app.py:275 | deleting a tier keeps the remaining ids increasing |
| `Inventory.DecrementKeepsOrder` | app.py:196 | the decrement keeps every id, so the table order and the id bound survive |
| `Inventory.SeedRows` | app.py:111-112 | the seeded rows are the seven default tiers in order, with consecutive ids |
| `Inventory.SeedTotals` | app.py:111 | the default tiers hold 32 units worth 60,000, and the pool has 32 entries |
| `Inventory.PoolIsWeighted` | app.py:181-189 | filtering out tiers without stock does not change the weighted list |
| `Inventory.PoolAppend` | app.py:266 | a tier added at the end of the table extends the pool at its end by its copies |
| `Inventory.PoolCount` | app.py:189-194 | each amount occupies as many pool entries as it has units in stock, so the draw picks it with probability stock / pool size |
| `Inventory.PoolMembership` | app.py:189 | an amount is in the pool exactly when some tier with that amount has quantity above zero |
| `Inventory.TotalBoundsPool` | app.py:151-154 | the quantity sum never exceeds the pool length and equals it without negative quantities; a positive sum implies a non-empty pool |
| `Inventory.TotalValueIsPoolSum` | app.py:127 | without negative quantities, the total prize value equals the sum of the pool's entries |
| `Inventory.DecrementPool` | app.py:194-196 | the decrement removes from the pool exactly one copy of the won amount per matching tier and nothing else |
| `Inventory.DrawShrinksPool` | app.py:194-196 | an amount drawn from the pool matches at least one tier, so the pool shrinks |
| `Inventory.SingleTierDecrement` | app.py:196 | when one tier carries the won amount, the pool loses exactly one copy of it |
| `Inventory.SharedAmountTakesTwoUnits` | app.py:196 | two one-unit tiers of the same amount, whatever their ids and amount, are both emptied by a single win |
| `Registry.FindUser` | app.py:147 | the lookup finds a row exactly when some row has the id, and what it finds is such a row |
| `Registry.HasName` | app.py:137-140 | true exactly when some row carries the name |
| `Registry.MarkUsed` | app.py:197 | rows with the id get the flag 1, every other row is unchanged, ids and names are kept |
| `Registry.ResetUsed` | app.py:303 | every row gets the flag 0 and keeps its id and name |
| `Registry.RemoveUser` | app.py:294 | the rows left are exactly the old rows whose id differs from the deleted one |
| `Registry.FindAfterMark` | app.py:197 | after the flag update, the marked user is found with the flag set and anyone else is found as before |
| `Registry.MarkKeepsTable` | app.py:197 | the flag update keeps ids ordered, names distinct and flags in {0, 1} |
| `Registry.MarkAbsent` | app.py:183-197 | when the bound user's row is gone, the flag update changes nothing |
| `Registry.FindAfterReset` | app.py:303 | after the reset, every user is found as before with the flag 0 |
| `Registry.ResetKeepsTable` | app.py:303 | the reset keeps ids ordered and names distinct, and leaves every flag 0 |
| `Registry.FindOrdered` | app.py:147 | with ids increasing along the table, looking up any row's id finds exactly that row |
| `Registry.FindAppended` | app.py:137 | a row appended with an id above all others is what a lookup of that id finds |
| `Registry.RemoveKeepsOrder` | app.py:294 | deleting users keeps the remaining ids increasing |
| `Registry.RemoveKeepsNames` | app.py:294 | deleting users keeps the remaining names distinct |
| `Wheel.HasSpun` | app.py:183-184 | true only if some row with the id has the flag 1, and exactly then when ids are unique; a user whose row is gone has not spun |
| `Wheel.Selectable` | app.py:147-154 | a selectable user guarantees a non-empty pool; with unique ids, selectable exactly when a row with the id has the flag 0 and the quantity sum is positive |
| `Wheel.CommitKeepsConsistent` | app.py:196-198 | the decrement and the flag update keep the tables consistent |
| `Wheel.App.constructor` | app.py:64-81 | a new database has three empty tables, ids starting at 1, and nobody bound |
| `Wheel.App.SeedDefaultPrizes` | app.py:109-113 | an empty prize table receives the default tiers with the next ids; a non-empty one is untouched |
| `Wheel.App.AddPrize` | app.py:260-268 | one row with the next id is appended, and the pool grows by that tier's copies at its end |
| `Wheel.App.DeletePrize` | app.py:271-278 | the tier with that id is removed and the other rows stay |
| `Wheel.App.AddUser` | app.py:132-142 | a new name is appended with the next id and flag 0, and lookups find it; a taken name makes the INSERT fail, the error is swallowed, and the table and the id counter are unchanged |
| `Wheel.App.AdminAddUser` | app.py:280-288 | a new name is appended as in add_user; a taken name is ignored, leaving the table unchanged, but the id counter still advances by one |
| `Wheel.App.DeleteUser` | app.py:290-297 | the user with that id is removed, the table stays consistent, and the session binding is kept |
| `Wheel.App.SelectUser` | app.py:144-160 | binds the row's snapshot exactly when the row exists, its flag is 0 and the quantity sum is positive, and then the pool is not empty; otherwise the session is unchanged |
| `Wheel.App.Spin` | app.py:175-203 | no binding: "No user" and no change. Flag 1: "already spun", binding cleared, tables unchanged. Empty pool: "No prizes left", nothing changed, binding kept. Otherwise: the k-th pool entry is won, the stock is decremented, the user's row is marked, one winner row with the snapshot's name, the amount and the date is appended, the binding is cleared and the pool shrinks. A deleted user's spin leaves the users table unchanged, and a marked user can no longer be selected |
| `Wheel.App.Commit` | app.py:196-202 | the three statements of a win in order, then the session pop; the tables stay consistent and the marked user has spun |
| `Wheel.App.Reset` | app.py:299-307 | every flag is set to 0 and the winners table is emptied; prizes and the session are untouched; every user becomes selectable again when stock remains |

## Left out

- HTTP plumbing: routing, redirects, templates, JSON encoding and the cookie session. The session is the `bound` field only.
- The wheel page (app.py:162-173) only renders `Available(prizes)` for the bound user, so it is not modelled beyond `Available`.
- The admin login check at the head of each admin handler is left out. The admin operations are modelled as called by a logged-in administrator.
- Password hashing, admin login, password change and the admin row seeding (app.py:23-45, 97-107, 207-220, 309-319). These are calls into PBKDF2 and the OS random source.
- Admin logout (app.py:321-324). It only removes the `admin` entry from the session, and the admin session is not modelled.
- Schema creation beyond empty tables, and the `PRAGMA`/`ALTER TABLE` migration (app.py:90-95).
- The currency filter (app.py:48-57). It is locale formatting with a floating-point fallback.
- The CSV export (app.py:238-258). It is a wrapper over the csv module and response headers.
- The index and admin pages' `ORDER BY id DESC LIMIT n` winner lists, which are only displayed.
- `random.choice`: modelled as a chosen index `k`. Which amount is drawn is proved to lie in the pool, and each amount's share of the pool is proved (`PoolCount`). The distribution of the random source itself is not.
- `datetime.now()`: the date text is a parameter.
- Concurrency: each handler is modelled as one sequential step on the whole state. The code takes no locks and the model does not claim atomicity between requests.
- Wheel.App.AdminAddUser: the id taken by an ignored `INSERT OR IGNORE` follows SQLite's implementation, which draws the AUTOINCREMENT id before the UNIQUE check and records it at the end of the statement. SQLite's documentation only says that such a failed insert may leave a gap.
- SQLite storage classes: `amount` and `quantity` from the admin form are taken as integers. Non-numeric text stored by SQLite's type affinity is not modelled, and neither is 64-bit overflow of `SUM`.
- The client-side wheel animation in static/js/wheel.js. It is canvas drawing and floating-point angle arithmetic.

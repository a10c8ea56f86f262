# Hit-point service: a Dafny model of its damage, healing and seeding logic

The service keeps tabletop-game characters in a document store. At start-up it seeds the
store from character files, inserting a file's character only when no stored name matches it.
Three HTTP routes then change a character in place:

- `/dealDamage` looks up the first defense entry for the damage type. Immunity stops the hit.
  Resistance halves it, rounding down. Temporary HP absorbs what it can. Hit points never drop
  below zero.
- `/heal` adds the healing amount to the hit points, with no cap.
- `/addTemporaryHP` replaces the temporary-HP buffer when it is empty or smaller than the new amount.

The project has four modules:

- `Wrappers` (wrappers.dfy): `Option` and `Max`.
- `Resolver` (resolver.dfy): the damage and temporary-HP arithmetic as pure functions, with lemmas.
- `Characters` (character.dfy): class `Character`. Its methods reassign the same locals as the
  handlers, write `hitPoints` and `tempHP` in place, and are proved against the `Resolver` functions.
- `Seeder` (seeder.dfy): case-insensitive name matching and the first-match lookup. It also holds
  the seeding loop as a method over a `Store` class, specified by the fold `Seed`, with lemmas about `Seed`.

Temporary-HP absorption follows the code as written. When the buffer is smaller than the hit,
app.js:101 sets `tempHP` to 0, and only then does app.js:102 compute `finalDamage - tempHP`.
That subtraction therefore takes nothing off, so the whole hit reaches the hit points and the
buffer is lost as well. The dead subtraction and the name `finalDamageNotAbsorbed` suggest the
authors meant to let through only what exceeds the buffer. `Resolver.Absorb` and
`Characters.Character.DealDamage` model the code. `Resolver.AbsorbBufferFirst` is the other
reading, kept only for comparison: `Resolver.AbsorbAgreesWithBufferFirstIff` proves that the
two agree exactly when the buffer covers the hit or is empty, and
`Resolver.AbsorbTenAgainstFifteen` shows a buffer of 10 against a hit of 15 (15 gets through
as written, 5 under the other reading).

The source does not validate amounts, and neither does the model. A negative healing amount
lowers hit points. A negative temporary-HP grant replaces an empty buffer. A negative damage
can grow the buffer. Whatever the old values, a damage that is not stopped by immunity always
leaves both numbers non-negative.

## Model

| member | source | states |
|---|---|---|
| `Resolver.FirstMatch` | app.js:83 | returns the index of the first defense whose type equals the damage type exactly (every earlier entry has another type), or None when no entry has that type |
| `Resolver.Mitigate` | app.js:82-91 | the hit is stopped exactly when the consulted entry's defense is "immunity"; with "resistance" the damage is floor(damage/2) (2f <= damage < 2f+2); with any other defense or no entry it is the full damage |
| `Resolver.Absorb` | app.js:93-103 | the buffer never goes negative; a buffer at least as large as the hit absorbs all of it (buffer minus hit, nothing through); a smaller buffer becomes 0 and the whole hit passes through |
| `Resolver.AbsorbAgreesWithBufferFirstIff` | app.js:100-102 | the handler's absorption equals "subtract the buffer first" if and only if the buffer covers the hit or is 0 |
| `Resolver.AbsorbTenAgainstFifteen` | app.js:100-102 | a buffer of 10 against a hit of 15 lets 15 through as written, where buffer-first would let 5 through |
| `Resolver.HitPointsAfter` | app.js:107-113 | new hit points are max(0, hitPoints - passThrough), so never negative |
| `Resolver.Resolve` | app.js:81-113 | immune exactly when the first matching defense is "immunity"; otherwise the final damage obeys the resistance rule, both new numbers are >= 0, a covering buffer loses the final damage and hit points become max(0, old), and a smaller buffer becomes 0 and hit points become max(0, old - finalDamage) |
| `Resolver.DamageNeverHeals` | app.js:82-113 | a non-negative damage never raises hit points or the buffer above max(0, old value) |
| `Resolver.ResolveMonotone` | app.js:82-113 | with a non-negative buffer, a larger damage of the same type leaves no more hit points and no more buffer than a smaller one |
| `Resolver.EntriesAfterFirstMatchIgnored` | app.js:83-91 | once an entry for the type exists, appending more defense entries does not change the outcome |
| `Resolver.PlainHitLosesExactlyTheDamage` | app.js:97-113 | with no defense for the type, an empty buffer and 0 <= damage < hitPoints, the hit is not stopped, the buffer stays 0, and the new hit points plus the reported damage equal the old hit points |
| `Resolver.ReplacesTempHP` | app.js:147 | the replace condition (buffer 0, or amount larger); it has no contract of its own: `Characters.Character.AddTemporaryHP` reports it as its `replaced` flag and `Resolver.NewTempHP`'s contract gives the buffer it produces |
| `Resolver.NewTempHP` | app.js:147-151 | the result is the old buffer or the new amount; an empty buffer is always replaced; unless the buffer is empty and the amount negative, the result is the larger of the two |
| `Resolver.NewTempHPIdempotent` | app.js:147-151 | granting the same temporary HP twice gives the same buffer as granting it once |
| `Characters.Character.DealDamage` | app.js:81-115 | reports immunity exactly when `Resolve` says so and then leaves hit points and buffer unchanged; otherwise stores `Resolve`'s hit points and buffer (both >= 0) and returns its final damage; name and defenses are untouched |
| `Characters.Character.Heal` | app.js:132 | hit points become exactly old + healingAmount, with no cap; nothing else changes |
| `Characters.HealUndoesPlainHit` | app.js:132 | after `DealDamage` with no defense for the type, an empty buffer and 0 <= damage < hitPoints, healing the reported damage gives back exactly the old hit points and leaves the buffer 0 |
| `Characters.Character.AddTemporaryHP` | app.js:147-151 | replaces the buffer exactly when it is 0 or the amount is larger, otherwise leaves it unchanged; hit points are untouched |
| `Seeder.LowerChar` | app.js:59 | the case folding of option `i` on one character: the result is never an upper-case ASCII letter, and it is the character itself or its lower-case form |
| `Seeder.Lower` | app.js:59 | folds a name character by character: same length, no upper-case ASCII letter left |
| `Seeder.LowerIdempotent` | app.js:59 | folding an already folded name changes nothing |
| `Seeder.Contains` | app.js:59 | the substring scan; it has no contract of its own, and `Seeder.ContainsIff` states that it succeeds exactly when the query occurs at some position |
| `Seeder.ContainsIff` | app.js:59 | the containment scan succeeds exactly when the query occurs at some position of the name |
| `Seeder.NameMatches` | app.js:59 | stand-in for the `$regex` test with option `i`; it has no contract of its own: `Seeder.NameMatchesIff` and `Seeder.NameMatchesIgnoresCase` state what it means |
| `Seeder.NameMatchesIff` | app.js:59 | a stored name matches exactly when the folded query occurs at some position of the folded name |
| `Seeder.NameMatchesIgnoresCase` | app.js:59 | folding the stored name or the query never changes whether they match |
| `Seeder.NameMatchesItself` | app.js:59 | under the containment stand-in, a name always matches itself |
| `Seeder.FindByName` | app.js:59 | picks the first record in insertion order whose name contains the query case-insensitively, or None exactly when no record matches |
| `Seeder.Seed` | app.js:54-66 | the fold that stands for the loop; its contract keeps the old store as a prefix and adds at most one record per file; `Seeder.LoadOne`, `Seeder.SeedKeepsExisting`, `Seeder.SeedMatchesEveryFile`, `Seeder.SeedNothingNew` and `Seeder.SeedIdempotent` state the rest |
| `Seeder.LoadOne` | app.js:58-64 | appends the file's record exactly when no stored name matches, leaves the store unchanged otherwise, and afterwards the file's name matches a stored record |
| `Seeder.SeedKeepsExisting` | app.js:54-66 | the store before seeding is a prefix of the store after it, and every added record comes from the files |
| `Seeder.SeedMatchesEveryFile` | app.js:54-66 | after a pass, every file's name matches a stored record |
| `Seeder.SeedNothingNew` | app.js:54-66 | a pass over files whose names all match already inserts nothing |
| `Seeder.SeedIdempotent` | app.js:54-66 | a second pass over the same files leaves the store as the first pass left it |
| `Seeder.SeedKeepsNamesDistinct` | app.js:58-64 | seeding never creates two stored records with the same name |
| `Seeder.Store.Save` | app.js:61-62 | saving a new document appends it to the collection |
| `Seeder.LoadCharacters` | app.js:54-66 | the loop leaves the store equal to `Seed` of the old store and the files, keeps the old records as a prefix, and makes every file's name match |

## Left out

- HTTP routing, body parsing, status codes and response texts (app.js:41-42, 73-79, 119, 135, 155, 159-173) are I/O. The methods return the flag that picks the response and the reported damage.
- The MongoDB schema, connection, `findOne` and `save` calls (app.js:7-39, 45-47, 117, 133, 153) are a foreign library. The handlers' character lookup and its "not found" reply are left out: each `Character` method starts from the loaded document. `Seeder.FindByName` models the same name query.
- Full regular-expression semantics of `$regex` with option `i` (app.js:59, 75, 125, 141, 160) are left out. The lookup is modelled as ASCII case-insensitive substring containment, which is faithful only for names without regex metacharacters or non-ASCII letters.
- Directory reading, the `.json` suffix filter and `readJson` (app.js:51-56) are file I/O, so the seeding loop takes already parsed records. A file that fails to parse is not modelled.
- Concurrent requests racing on one character are left out: each operation is one sequential step.
- JavaScript coercion is left out. Quantities are unbounded integers, so `Math.floor(damage / 2)` is Dafny's `damage / 2`. `!character.tempHP` is read as `tempHP == 0` (an `undefined`, `null` or `NaN` buffer is not representable). Fractional amounts are not modelled.
- The unused fields `level`, `classes`, `stats` and `items` are left out.
- Characters.Character.DealDamage: on the immunity path the returned `finalDamage` is unspecified, because the source's response does not report it.
- Seeder.FindByName: picks the first match in insertion order, where the store promises only some match in its natural order.
- Seeder.NameMatchesItself, Seeder.SeedMatchesEveryFile, Seeder.SeedIdempotent and Seeder.SeedKeepsNamesDistinct hold only under the containment stand-in. In the source a name with regex metacharacters such as `a+b` does not match itself, so its file is inserted again on every start, and a malformed pattern such as `Jo(e` makes the query fail and stops the loop.

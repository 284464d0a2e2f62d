# kitchenBot helpers in Dafny

kitchenBot is a Telegram bot that gathers the people who want to go to lunch
together, cuts the list of registered people into fixed-size lunch groups and
announces them. The logic that decides anything lives in two helpers of
`src/utils.js`, and this project models and proves them:

- `chunkArray(db, chunk)` cuts the ordered list of registered people into
  consecutive groups of `chunk` people; the last group takes what is left.
- `isParticipant(db, from)` tells whether someone with the same `id` as the
  person `from` is already registered, so that nobody signs up twice.

Layout:

- `js_array.dfy`, module `JsArray`: the JavaScript array operations the
  helpers use, on immutable sequences. `Slice` is `Array.prototype.slice`
  (negative and out-of-range arguments included), and `Some` is
  `Array.prototype.some`. `Flat` joins a list of lists in order; no helper
  calls it, and it serves only to state that the groups rebuild `db`.
- `utils.dfy`, module `Utils`: `Person` (a record whose `id` is of any
  type with equality), `ChunkArray` with its reference definition `Chunks`,
  `IsParticipant`, and the lemmas about them.

`ChunkArray` keeps the source's shape: a `while` loop that advances `i` by
`chunk` and appends `Slice(db, i, i + chunk)` to a local list. It is proved
equal to `Chunks`, a recursive definition (first group, then the groups of
the rest). The promised properties are lemmas about `Chunks`:
joining the groups gives back the input, the group count is the ceiling of
`|db| / chunk`, every group but the last is full, the last holds the
remainder, and the k-th group is `db[k * chunk .. min((k + 1) * chunk, |db|)]`.

The precondition of `ChunkArray` is `db == [] || chunk >= 1`. The loop ends
exactly then: when `chunk <= 0` and `db` is not empty, `i` never reaches
`db.length`. When `db` is empty, the body never runs and the result is `[]`
for any `chunk`.

The last group is never empty: when `chunk` divides `|db|` it is a full
group, and otherwise it holds the remainder `|db| % chunk`
(`Utils.LastChunkSize`).

## Model

| member | source | states |
|---|---|---|
| `JsArray.RelativeIndex` | src/utils.js:12 | `slice` turns an argument into a position in `[0, len]`: a non-negative argument is capped at `len`, a negative one counts back from the end and stops at 0 |
| `JsArray.Slice` | src/utils.js:12 | `s.slice(start, end)` has `max(to - from, 0)` elements, element `k` being `s[from + k]`, where `from` and `to` are the positions `RelativeIndex` gives for `start` and `end` |
| `JsArray.Some` | src/utils.js:25 | `db.some(test)` is true exactly when some element passes `test` |
| `Utils.ChunkArray` | src/utils.js:8-16 | the counting loop returns exactly the groups `Chunks(db, chunk)`, and they join back to `db`; it terminates whenever `db` is empty or `chunk >= 1` |
| `Utils.FlatChunks` | src/utils.js:11-13 | joining the groups in order gives back `db`: nobody is dropped, duplicated or reordered |
| `Utils.ChunkCount` | src/utils.js:9-12 | there are `ceil(|db| / chunk)` groups; an empty list gives no group at all (not one empty group); a non-empty list no longer than `chunk` gives exactly one group, `db` itself |
| `Utils.InnerChunksFull` | src/utils.js:11-12 | every group except the last has exactly `chunk` people |
| `Utils.LastChunkSize` | src/utils.js:11-12 | the last group has between 1 and `chunk` people: `|db| % chunk`, or `chunk` when that remainder is 0 |
| `Utils.ChunkAt` | src/utils.js:11-12 | the k-th group starts inside `db` at `k * chunk` and is `db[k * chunk .. min(k * chunk + chunk, |db|)]` |
| `Utils.IsParticipant` | src/utils.js:25 | true if and only if some index `j` has `db[j].id == from.id`; so false on an empty list |
| `Utils.IsParticipantByIds` | src/utils.js:25 | the answer depends only on `from.id` and the set of ids in `db`, not on names or other fields |
| `Utils.JoinMakesParticipant` | src/utils.js:25 | after `from` is appended to `db`, `from` is a participant |
| `Utils.LeaveEndsParticipation` | src/utils.js:25 | after everyone with `from.id` is removed, `from` is not a participant |
| `Utils.LeaveKeepsOthers` | src/utils.js:25 | after everyone with `from.id` is removed, anyone with another id keeps their answer |
| `Utils.IsParticipantConcat` | src/utils.js:25 | membership in `a + b` is membership in `a` or in `b` |

## Left out

- `src/index.js` (Express server setup, environment loading, the Telegram and joke-API URLs) is wiring with no decisions in it.
- `src/keyboards.js` builds the reply keyboard through `telegraf`'s `Markup`, an external library.
- The registration, withdrawal, list and count command handlers, the weekday scheduler, the reshuffle timer, the file-backed directory and the broadcasts are not part of this model. They are not among the modelled files, and they rest on timers, file I/O and network sends. `Utils.WithoutId` stands in for withdrawal only to state `Utils.LeaveEndsParticipation` and `Utils.LeaveKeepsOthers`.
- `chunk` is an integer here. A JavaScript Number can also be fractional, infinite or `NaN`, and those cases are not modelled (for example, `chunkArray(db, Infinity)` returns `[db]` for a non-empty `db`).
- A `null` or `undefined` `db` makes either helper throw a `TypeError`. In `isParticipant`, a null element or `from` throws only when the scan reaches it. `chunkArray` copies elements without reading them. The typed model has no such values.
- `db` is an immutable sequence. So the fact that `chunkArray` does not modify its input holds by construction. Aliasing of the JavaScript array is not modelled.
- Ids are compared with Dafny's equality. JavaScript's `===` on mixed types is not modelled.

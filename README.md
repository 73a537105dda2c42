# Policy selection in dm-kit-php, modelled in Dafny

This project models the policy-selection engine of the dm-kit-php dialog
manager. For every conversational turn the manager decides which authored
rule (a *policy*) fires. A policy has a *trigger* (intent, required slots,
required changed slots, optional dialog state), named *params* and an
ordered list of *outputs*. The model covers:

- `PolicyTrigger` (module `Triggers`). The constructor normalises its fields.
  `hitTrigger` runs four checks in a fixed order (intent, state, slots,
  changed slots) and returns either a score or `false`, given here as `None`.
- `PolicyManager::load` (modules `Catalog` and `Manager`). It builds the
  intent → policies index once. Empty intents go to the `dm_non_intent`
  bucket, and declaration order is kept within a bucket.
- `PolicyManager::output` (modules `Turns` and `Manager`). This is the
  per-turn driver:
  - overlay the recognised slots on the session slots;
  - look up the intent's bucket;
  - collect the matching policies and pick the top-ranked one;
  - try its outputs in order;
  - if none answers, fall back to silence in the initial state, or elsewhere
    to whatever the bot's `retry()` answers;
  - decide whether the session store is cleaned, written or left alone.
- The guards of `setRequestParams` (a `cuid` is required) and `setQuResults`
  (a bot id is required).

How the model is laid out:

- Pure code is written as functions and lemmas. The trigger, the catalog and
  the turn have specifications in `Triggers`, `Catalog` and `Turns`.
- The manager is a class, `Manager.PolicyManager`. Its fields are the ones the
  source updates: `policyMap`, `requestParams`, `botId` and `quResult`.
- Its loops are methods with invariants, each proved equal to the matching
  specification function.
- The session store and the bot are the class stand-ins `Store.Session` and
  `Store.Bot`. `Store.Session` keeps the in-memory session object and a log of
  the store operations (`Loaded`, `Cleaned`, `Written(snapshot)`). This log
  shows which turns write, and how many times.
- Collaborators whose code is not part of this model are fields of the
  `Turns.Env` parameter:
  - what `read()` loads;
  - `QuResult::buildChangedSlots`;
  - the outputs' `output($session)`;
  - `PolicyTriggerScore::isGreaterThan`;
  - `Bot::retry`.

Behaviour of the code that a reader might not expect:

- `usort`'s comparator in `output` never returns 0, so the code has no
  tie-break between equally ranked matches. The model's scan keeps the
  earliest of them (see `Turns.Best` under "## Left out").
- `load` itself does not check params: every entry of `params` becomes a
  `PolicyParam`, whatever its fields. `PolicyParam`'s constructor is not part
  of this model.
- An unregistered intent calls `clean()` and never `write()`.
- After the outputs all decline outside `dm_init`, the session is written and
  whatever `Bot::retry()` answers is returned, `false` included.

## Model

| member | source | states |
|---|---|---|
| `Triggers.NewTrigger` | src/Policy/PolicyTrigger.php:48-67 | the intent is never empty (an empty one becomes `dm_non_intent`); slots and changed slots are the configured list, or empty when that is not an array; the state is kept as given |
| `Triggers.CheckState` | src/Policy/PolicyTrigger.php:96-117 | the state check passes iff the state is undeclared (an empty string or array, or a scalar that is neither) or the current state is among the values of the string or array; on success the state score is 1 exactly when a constraint was declared |
| `Triggers.FullIntersectIffSubset` | src/Policy/PolicyTrigger.php:120-133 | `count($xs) === count(array_intersect($xs, keys))` holds iff every listed name is a key |
| `Triggers.HitTrigger` | src/Policy/PolicyTrigger.php:83-135 | a different intent always rejects; a score is returned iff the intent is equal, the state check passes, every slot name is a key of the recognised slots and every changed-slot name is a key of the changed slots; the score is (1, state score, number of slot names, number of changed-slot names) |
| `Triggers.AnyStateIsLiteral` | src/Policy/PolicyTrigger.php:109-110 | a trigger with state `dm_any` matches only when the current state is literally `dm_any` |
| `Policies.BuildParam` | src/Policy/PolicyManager.php:134 | a param keeps its configured name, kind and value; `required` is true only when configured true (absent gives false) and `options` are the configured ones, or empty when absent |
| `Catalog.BuildTrigger` | src/Policy/PolicyManager.php:128 | a trigger built from an entry is always valid, with a non-empty intent |
| `Catalog.BucketKey` | src/Policy/PolicyManager.php:152 | the bucket key is never empty and equals the built trigger's intent |
| `Catalog.ParamIndexKeys` | src/Policy/PolicyManager.php:130-137 | params are keyed by exactly the declared names |
| `Catalog.LastParamWins` | src/Policy/PolicyManager.php:130-137 | the param stored under a name is the last one declared with that name |
| `Catalog.BuildOutputs` | src/Policy/PolicyManager.php:139-149 | a string output gives one function output, an array gives one conditional output per element in order, anything else gives none |
| `Catalog.CatalogIsBuckets` | src/Policy/PolicyManager.php:125-159 | the catalog has a bucket for exactly the keys of the entries, and each bucket is the in-order list of the policies whose key it is |
| `Catalog.BucketKeepsOrder` | src/Policy/PolicyManager.php:153-157 | a bucket of a concatenation is the bucket of the first part followed by that of the second, so declaration order is kept |
| `Catalog.BucketHasEntry` | src/Policy/PolicyManager.php:157 | every entry's policy is in the bucket for its key |
| `Catalog.EntryInItsBucket` | src/Policy/PolicyManager.php:152-157 | every entry's key is a catalog key, and its policy is in that bucket |
| `Catalog.BucketHoldsItsIntent` | src/Policy/PolicyManager.php:152-157 | every policy in bucket `k` has trigger intent `k`, so an entry lands in no other bucket |
| `Catalog.BuildCatalog` | src/Policy/PolicyManager.php:122-159 | the built catalog is empty iff there are no entries, so only an empty configuration leaves the cache unset; its buckets are given by `Catalog.CatalogIsBuckets` |
| `Turns.MergeSlots` | src/Policy/PolicyManager.php:181-186 | the merged slots have the keys of both maps; a recognised value wins on collision and other session values are kept |
| `Turns.Matches` | src/Policy/PolicyManager.php:195-210 | every collected match is a bucket policy whose trigger hits with that score, and every bucket policy that hits is collected |
| `Turns.Best` | src/Policy/PolicyManager.php:214-218 | the chosen position is a position of the matches |
| `Turns.BestKeepsFirst` | src/Policy/PolicyManager.php:215-218 | the first match is chosen iff no later match ranks strictly above it, so of equally ranked matches the earliest is kept |
| `Turns.BestIsMaximal` | src/Policy/PolicyManager.php:215-218 | if the ranking is a strict order, no match ranks strictly above the chosen one |
| `Turns.Winner` | src/Policy/PolicyManager.php:195-218 | a chosen policy is in the bucket and its trigger hits; none is chosen only when no trigger in the bucket hits; its rank is given by `Turns.WinnerIsBestMatch` |
| `Turns.WinnerIsBestMatch` | src/Policy/PolicyManager.php:212-218 | under a strict order no hitting policy of the bucket outranks the chosen one |
| `Turns.RunFrom` | src/Policy/PolicyManager.php:221-231 | a reply is always the answer of one of the outputs from the given position on; which one, and the session it sees, is given by `Turns.RunFromThreads` |
| `Turns.ReplyFromThreads` | src/Policy/PolicyManager.php:221-231 | from any position, a reply is the answer of some output there, every output between having declined on the session the previous one left |
| `Turns.SilenceFromThreads` | src/Policy/PolicyManager.php:221-231 | from any position, no reply means every remaining output declined, and the session is the one the last of them left |
| `Turns.RunFromThreads` | src/Policy/PolicyManager.php:221-231 | trying outputs from any position: a reply is the answer of the first output from there that does not decline, and no reply means all remaining outputs declined |
| `Turns.FirstOutputWins` | src/Policy/PolicyManager.php:221-231 | a reply is the answer of the first output that does not return `false`, each earlier one having declined; no reply means every output declined |
| `Turns.Conclude` | src/Policy/PolicyManager.php:221-241 | for a registered intent: the store is never cleaned; an output's reply is returned as is, after one write; with no reply the turn is silent, without a write, iff the state is `dm_init`, and otherwise returns what `retry()` gives (`false` included) after one write; every write saves the session object the outputs left |
| `Turns.Turn` | src/Policy/PolicyManager.php:178-241 | a turn reads the session first; it cleans iff the intent has no bucket, returning `false` without a write; otherwise it writes exactly once unless it is silent in `dm_init`, so a returned value always follows one write, and that write saves the session object the turn ends with; it asks for a retry only outside `dm_init`; the NLU result gets the changed slots derived from the session as loaded and is otherwise unchanged |
| `Turns.OnlyWinnerIsTried` | src/Policy/PolicyManager.php:212-241 | a reply comes from the chosen policy's first answering output; otherwise all of its outputs declined (or nothing matched) and no other policy is tried |
| `Manager.CollectParams` | src/Policy/PolicyManager.php:130-137 | the params loop builds the name-indexed params map |
| `Manager.CollectOutputs` | src/Policy/PolicyManager.php:139-149 | the outputs loop builds the outputs of an entry |
| `Manager.CollectCatalog` | src/Policy/PolicyManager.php:123-160 | the policies loop builds the catalog |
| `Manager.OverlaySlots` | src/Policy/PolicyManager.php:181-184 | the overlay loop yields the merged slots |
| `Manager.CollectMatches` | src/Policy/PolicyManager.php:195-210 | the matching loop yields the matches of the bucket |
| `Manager.RunBucket` | src/Policy/PolicyManager.php:195-241 | matching, trying the chosen outputs and the fallback leave the reply, the session object and the store operations of `Turns.Conclude` |
| `Manager.TryOutputs` | src/Policy/PolicyManager.php:221-231 | outputs run in order on the session; the first reply is returned after exactly one write; if all decline, nothing is written |
| `Manager.PolicyManager.constructor` | src/Policy/PolicyManager.php:57-62 | a new manager has no catalog, no bot id and no NLU result |
| `Manager.PolicyManager.SetBotId` | src/Policy/PolicyManager.php:256-260 | sets the bot id |
| `Manager.PolicyManager.SetRequestParams` | src/Policy/PolicyManager.php:71-80 | the params are stored in every case; a missing or empty `cuid` is an error that leaves the session and the bot alone; otherwise the session is keyed by the `cuid` and the bot gets the params |
| `Manager.PolicyManager.SetQuResults` | src/Policy/PolicyManager.php:89-102 | without a bot id it is an error and nothing changes; otherwise the NLU result is the bot's entry, or none, and a present one is handed to the bot |
| `Manager.PolicyManager.Load` | src/Policy/PolicyManager.php:120-163 | while the cache is empty the catalog of the argument is built and stored; once it is non-empty every call returns it unchanged, whatever the argument |
| `Manager.PolicyManager.Output` | src/Policy/PolicyManager.php:172-242 | without an NLU result it returns `false` and leaves the session alone; otherwise the reply, the session object, the store log and the stored NLU result are those of `Turns.Turn` |
| `Scenarios.BookFlightFires` | src/Policy/PolicyManager.php:195-231 | `book_flight` in state `greet` with `destination` recognised fires `confirmBooking` and writes the session once, with the merged slots |
| `Scenarios.DeclinedOutputsRetry` | src/Policy/PolicyManager.php:221-241 | when the matched policy's only output declines outside `dm_init`, the retry prompt is returned after one write |

## Left out

- Logging: the Monolog `debug` calls are observability only.
- Formatting: `__toString` and the `json_encode` in it only produce text.
- PHP loose typing. Intents and states are plain strings compared exactly.
  This leaves out `==` coercions, loose `in_array` and `empty('0')`.
- Configuration shapes. An absent trigger intent is the empty string.
  An intent that is not a string is not modelled. A PHP array in `slots`,
  `changed_slots` or `state`, keyed or not, is the list of its values; the
  keys are not kept, and no check reads them.
- Params order. Params are a Dafny `map`, so the insertion order of the PHP
  array is not kept. Names and values are kept.
- Turns.Best: the source sorts the matches with `usort`, and `isGreaterThan`
  is not part of this model. The model picks a maximal match with a linear
  scan over an abstract relation. It proves that the chosen policy matched,
  that no match ranks strictly above it when the relation is a strict order,
  and that of equally ranked matches it keeps the earliest
  (`Turns.BestKeepsFirst`). PHP's sort need not do the same: its comparator
  answers 1 for a tie, so for two equally ranked matches it swaps them and
  the later policy's outputs run. Where matches tie, the model and PHP may
  choose different policies.
- The session store (`AbstractSession`) is not part of this model.
  - `read()` loads `Env.loaded`.
  - `clean()` resets the in-memory object to state `dm_init` with no slots.
  - `write()` records a snapshot in the log.
  - `setUuid()` records the key.
- Output executors (`PolicyOutput`, `PolicyFunctionOutput`) are not part of
  this model. They are `Env.exec`: an executor may change the session object,
  but it is taken not to issue store operations.
- `Bot` is not part of this model. `retry()` answers `Env.retry` (`None`
  standing for `false`), and its setters only record what they are given.
- Aliasing of the NLU result: in PHP the bot and the manager hold the same
  `QuResult` object, so `buildChangedSlots` in `output` also changes the
  bot's copy. The model's `Store.Bot.quResult` keeps the value it was handed,
  without the derived changed slots.
- `Parser::parse` is not part of this model. `SetQuResults` takes the parsed
  map as its argument.
- `QuResult::buildChangedSlots` is not part of this model. It is
  `Env.changedSlots`, applied to the session object as loaded, before the
  merged slots are stored, as in the source.
- `setBot`, the getters and the constructor's parser and logger. The bot is
  given to the constructor instead of through `setBot`.
- `$unitSay` is a by-reference parameter in the source. Here it is the `say`
  result, absent when there is no NLU result.
- `hitTrigger` reaches the session and the NLU result through back-references
  (`policy->policyManager`). Here they are passed as arguments. As a function
  it cannot change the trigger or the session.
- Exceptions (`DmException`) are `Outcome` values.

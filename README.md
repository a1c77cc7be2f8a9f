# require-fastifyroutes, modelled in Dafny

The library scans one directory for route declarations. It imports every
`.js` file there except `index.js`. It stores each module under a name taken
from its file name. Then it collects every module that looks like a Fastify
route declaration into a single `routes` list. This project models that
pipeline after the I/O. Three host operations are parameters: the
directory listing and each dynamic import come in as settled results (`Ok`
or `Err`), and `dirname(fileURLToPath(url))` is a function `parentDir`. The
rest of `index.js`, except its debug logging, is modelled, and its
properties are proved.

- `js_value.dfy` (module `JsValue`): JavaScript values (undefined, null,
  booleans, integers, strings, functions, arrays, objects), `Truthy`
  (ToBoolean), optional-chaining reads `v?.key`, and `||` / `&&`, which
  return an operand rather than a boolean. It also holds the errors a call
  rejects with, and `Result`, a settled promise.
- `plain_object.dfy` (module `PlainObject`): the plain object `modules` that
  the loader fills. Keys are kept in insertion order. `Put` is `obj[k] = v`:
  a new key goes last, and an existing key keeps its place. `Entries` is
  `Object.entries`.
- `loader.dfy` (module `Loader`): `autoLoadModules` and `loadModule`. It
  covers the eligibility filter and the module name, which is
  `file.replace('.js', '')`. That call cuts out the FIRST `.js`, so
  `foo.jsx.js` becomes `foox.js`. The import loop stops at the first failed
  import. `LoadAll` specifies the loop. Lemmas about it cover all-or-nothing
  failure, the set of names, the order of the keys, last-write-wins, and
  that ineligible files are never imported.
- `routes.dfy` (module `Routes`): `isRoute` and the four-way classification
  of a module. The rules, in priority order, are: a truthy `routes`
  property, a non-empty array led by a route, a single route, nothing.
  `Contribution` gives the batch each rule adds. A truthy `routes` value is
  spread: an array gives its elements, a string gives its characters, and
  anything else throws a TypeError.
- `require_directory.dfy` (module `Aggregator`): `requireDirectory`.
  `CollectRoutes` is the loop over the entries and keeps the source's
  if/else-if chain. `Collect` specifies it. The result then gets
  `routes = list`. Lemmas cover: concatenation in entry order, rejection
  at the first throwing entry, loaded modules staying in the result, and
  the case with no eligible files.
- `entry.dfy` (module `Entry`): the default export. A string is used as the
  directory. Anything else goes through `dirname(fileURLToPath(mod.url))`,
  which is a parameter. Reading `url` of null or undefined throws first.

The comment at `index.js:33` says the module name is the file name with
`.js` removed. The code on the next line, `file.replace('.js', '')`, cuts
out the FIRST `.js` wherever it occurs (`ModuleNameCutsFirstOccurrence`).
They agree when `.js` occurs nowhere but at the end
(`ModuleNameStripsExtension`); otherwise they can differ, as for
`foo.jsx.js` (`ModuleNameCutsFirstOccurrence`). So two eligible files can get the same name:
`foo.jsx.js` and `foox.js.js` both become `foox.js` (`ModuleNameCollision`).
The model follows the code. Of two files with the same name, the later one
in listing order wins (`LoadAllLastWins`).

## Model

| member | source | states |
|---|---|---|
| `JsValue.Truthy` | index.js:9-11 | the truthiness test behind the `or` and `and` operators and the `if` tests: exactly undefined, null, false, 0 and the empty string are falsy |
| `JsValue.Get` | index.js:9-10 | `v?.key`: a non-object (null and undefined included) gives undefined instead of throwing; an object gives its own property, or undefined when it has none |
| `JsValue.Or` | index.js:9 | the `or` operator yields one of its operands, the first one whenever that is truthy, and is truthy iff either operand is |
| `JsValue.And` | index.js:11 | `a && b` yields one of its operands and is truthy iff both operands are |
| `PlainObject.Dict.Put` | index.js:41 | assigning a key keeps the object well formed; a new key is appended to the key order, an existing key keeps its position and only its value changes |
| `PlainObject.Dict.Entries` | index.js:51 | `Object.entries` lists every key once, in key order, with its value |
| `Routes.IsRoute` | index.js:8-12 | a value is a route iff (`handler` or `config.handler` is truthy) and `path` is truthy; only objects can be routes, so null, undefined and arrays are not |
| `Loader.Eligible` | index.js:31 | definition: ends in `.js` (`EndsWith`, which is `endsWith`) and is not `index.js`; its contract states that `index.js` itself is never eligible; characterised further by `LoadAllImportsOnlyEligible` |
| `Loader.IndexOf` | index.js:34 | the search behind `replace`: the result is an occurrence of the pattern and no earlier position holds one, or -1 when none does |
| `Loader.CutFirst` | index.js:34 | `replace(pat, '')` with a string pattern and an empty replacement: a string without the pattern is returned unchanged; otherwise the result is the string with its first occurrence of the pattern cut out, and is that much shorter |
| `Loader.ModuleName` | index.js:34 | a file name without `.js` is its own module name; otherwise the name is three characters shorter; characterised by `ModuleNameCutsFirstExtension` |
| `Loader.ModuleNameCutsFirstExtension` | index.js:34 | the name of a `.js` file is three characters shorter and is the file name with its first `.js` occurrence cut out |
| `Loader.ModuleNameStripsExtension` | index.js:33-34 | when `.js` occurs only at the end, the name is the file name without its extension |
| `Loader.ModuleNameCutsFirstOccurrence` | index.js:34 | `foo.jsx.js` gets the name `foox.js`, not `foo.jsx` |
| `Loader.ModuleNameOfDoubleExtension` | index.js:34 | `foox.js.js` gets the name `foox.js`: the first `.js` is cut, the extension stays |
| `Loader.ModuleNameCollision` | index.js:31-34 | `foo.jsx.js` and `foox.js.js` are both eligible and both get the name `foox.js` |
| `Loader.LoadModule` | index.js:14-23 | an import failure is rethrown unchanged; otherwise the value is the default export when that is truthy, and the whole namespace when it is not |
| `Loader.LoadAll` | index.js:29-44 | what the loop settles with after visiting a listing in order; whenever it fulfils, the object lists every key exactly once |
| `Loader.AutoLoadModules` | index.js:25-45 | the loop rejects with the listing's error, or settles exactly as `LoadAll` over the listing: one step per listed file, skipping ineligible ones, stopping at the first failed import |
| `Loader.LoadAllFailurePersists` | index.js:38 | once a prefix of the listing has failed, the whole call rejects with that error whatever follows |
| `Loader.LoadAllSucceeds` | index.js:29-42 | the call fulfils iff every eligible file imports |
| `Loader.LoadAllFails` | index.js:19-22 | the call rejects with `e` iff the first eligible file whose import fails fails with `e` |
| `Loader.LoadAllImportsOnlyEligible` | index.js:31 | files that do not end in `.js`, and `index.js` itself, are never imported: their import outcome cannot change the result |
| `Loader.LoadAllNames` | index.js:29-41 | the loaded keys are exactly the module names of the eligible files; no other file's name appears |
| `Loader.FirstOccurrencesOrdered` | index.js:41 | the reference key order lists each name where it first occurs: of two listed names, the earlier one first occurs earlier |
| `Loader.LoadAllOrder` | index.js:41 | the key order is the order in which module names first occur among the eligible files |
| `Loader.LoadAllLastWins` | index.js:41 | each key holds the module of the last eligible file with that name |
| `Loader.LoadAllNothingEligible` | index.js:26-44 | a listing without eligible files gives the empty object |
| `Routes.LeadsWithRoute` | index.js:57-59 | definition: a non-empty array whose first element is a route; its contract states that such an array is never a route itself and has no truthy `routes` property, so the rules before it never take it |
| `Routes.Classify` | index.js:52-66 | rules are tried in priority order: a truthy `routes` property wins even over a module that is itself a route; an array led by a route is a route array; a single route only when it has no truthy `routes`; otherwise nothing |
| `Routes.Spread` | index.js:55 | spreading succeeds iff the value is an array or a string; an array gives exactly its elements; a string gives one one-character string per character, in order; any other value throws a TypeError |
| `Routes.Contribution` | index.js:52-66 | a truthy `routes` property adds exactly its spread, and only it can throw, with a TypeError; a route array adds all its elements, a single route adds itself, a non-route adds nothing; the batches of rules 2 and 3 start with a checked route |
| `Routes.RoutesPropertyUnchecked` | index.js:52-55 | the elements of a `routes` array are added as they are, whether or not they are routes |
| `Routes.RouteArrayTailUnchecked` | index.js:57-61 | of an array led by a route, every later element is added without being checked |
| `Routes.PathOnlyAddsNothing` | index.js:8-12 | an object whose only property is a non-empty `path` string adds no route (the invalid-route case of test/test.js:121-133) |
| `Routes.ConfigHandlerRoute` | index.js:9-11 | an object whose only properties are a non-empty `path` string and a `config` object holding a function `handler` is added once, as itself |
| `Aggregator.Collect` | index.js:49-67 | what the loop over the entries settles with; whenever it rejects, the error is a TypeError, since only a spread can throw; characterised by `CollectConcat` and `CollectSucceeds` |
| `Aggregator.CollectRoutes` | index.js:49-67 | the loop over the entries, with the source's three-branch test, settles exactly as `Collect` |
| `Aggregator.CollectFailurePersists` | index.js:55 | once an entry's spread has thrown, the whole call rejects with that error |
| `Aggregator.CollectConcat` | index.js:51-67 | the route list of two runs of entries is the first run's list followed by the second's; the first rejection wins |
| `Aggregator.CollectSnoc` | index.js:51-66 | one more entry appends its contribution to the list, or rejects with its error if the list so far was fulfilled |
| `Aggregator.CollectSingle` | index.js:52-66 | one entry adds exactly its contribution |
| `Aggregator.CollectSucceeds` | index.js:51-67 | the aggregation fulfils iff no entry's contribution throws |
| `Aggregator.CollectNonRoutes` | index.js:51-67 | modules that match no rule add nothing to the list |
| `Aggregator.Aggregate` | index.js:47-71 | what `requireDirectory` settles with: a `readdir` error rejects the call with that error; otherwise it fulfils iff loading fulfils and no spread throws, and rejects with the loading error, or else with the spread's error; whenever it fulfils, the object, `routes` included, lists every key exactly once |
| `Aggregator.RequireDirectory` | index.js:47-71 | settles exactly as `Aggregate`: load, collect, then store the list under `routes` |
| `Aggregator.AggregateKeys` | index.js:69-70 | the result's keys are the eligible files' module names plus `routes`, and `routes` holds the collected list even when a module was named `routes` |
| `Aggregator.AggregateKeepsModules` | index.js:41 | every loaded module not named `routes` stays in the result under its name, whether it contributed routes or not |
| `Aggregator.AggregateImportFailure` | index.js:48 | a failed import rejects the whole call with that error and no object |
| `Aggregator.AggregateNothingEligible` | index.js:47-71 | a directory without eligible files gives an object whose only key is `routes`, holding an empty list |
| `Entry.Directory` | index.js:74 | a string is the directory itself; null or undefined throws a TypeError; an object goes through the URL-to-directory conversion of its `url`; any other value converts `undefined` |
| `Entry.Load` | index.js:73-76 | an input that yields no directory rejects with that error and nothing else runs; otherwise the call settles as the aggregation of that directory |

## Left out

- Listing a directory and importing a module are host I/O. They are
  parameters: `listing` is what `readdir` settled with, and `imp(file)` is
  what importing that file settled with. Error kinds such as `ENOENT` or a
  SyntaxError are whatever those parameters return. They are passed on
  unchanged.
- `join(directory, file)` and `new URL(...)` are folded into the import
  parameter. `fileURLToPath` and `dirname` are one parameter, `parentDir`.
- `debug` logging has no effect on behaviour and is not modelled.
- `async`/`await`: every step waits for the previous one, so the model is
  ordinary sequential code.
- Numbers are integers. NaN, -0 and other floating-point truthiness are not
  modelled.
- `Object.entries` puts integer-like keys (a file `42.js`) before the others
  in ascending order. The model keeps plain insertion order for every key.
- A file named `__proto__.js` would set the prototype of `modules` instead
  of adding a key. This is not modelled.
- Property reads see own properties of plain objects only. Inherited
  properties, getters and properties attached to functions or arrays are
  not modelled.
- Spread accepts arrays and strings. Other iterables (Map, Set, objects with
  `Symbol.iterator`) in a truthy `routes` property are modelled as
  non-iterable, which throws. The text of the TypeErrors is not the host's.
- `routes.push(...batch)` can hit the engine's argument-count limit for a
  very large batch. This is not modelled.
- Updating `modules` and `dirModules` in place is modelled as reassigning a
  value. No other reference to that object exists until it is returned.
- Calling the library twice on an unchanged directory gives equal results.
  This holds by construction, because every member is a function of its
  inputs. No separate lemma states it.
- The test harness and the `test/testRoutes/index.js` wrapper are not
  modelled. They have no logic of their own.

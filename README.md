# Filter state and process counts, modelled in Dafny

This project models two pieces of the Nussknacker designer front end and proves properties of the model.

**The filter-state engine** (`filtersContext.tsx`) keeps a record of named filter values in step with the address-bar query. It has four parts:

- **Query codec.** A record is written as a list of key/value pairs, one per array element or one per scalar. A query is read back by a left fold:
  - the literal `"true"` becomes boolean `true`;
  - a repeated key turns into an array under a rule that depends on the truthiness of the stored value and on equality with it.
- **Pruning setter.** It writes one key and then drops every falsy value and empty array.
- **Value linker.** An optional, caller-supplied rule. Its extra update runs after the plain setter.
- **Two-view store.** The store holds three things:
  - a *live* record, changed at once by `setFilter`;
  - a *settled* record, which `getFilter` and `activeKeys` read;
  - the query that the live record is written back to.

  The two debounce timers of the original become explicit steps: `Settle` (settled := live) and `FlushQuery` (query := encoding of live).

**Process-count reconciliation** (`displayProcessCounts.ts`):

- `displayProcessCounts` builds the display action.
- `checkActualCounts` does three things:
  - sorts the count keys, and the graph's nodes in place, by id;
  - picks the nodes whose id differs from the key at the same sorted position;
  - in a copy of the counts, gives each of them zero counts.

Modules:

- `filter_values.dfy`: `Optional` and `FilterValues`.
  - A record is an ordered list of entries with distinct keys. JavaScript key order decides both the order of the query pairs and the order of `activeKeys`, so a `map` would lose information.
  - The module also defines property read, spread-write and JavaScript truthiness.
- `query_codec.dfy`: `QueryCodec`, covering `serializeToQuery` and `deserializeFromQuery`.
- `value_setter.dfy`: `ValueSetter`, covering `getValueSetter` and `getValueSetterWithLinker`.
- `filters_store.dfy`: `FiltersContext`, covering `ensureArray` and the class `FilterStore`, whose fields are `live`, `settled` and `query`.
- `string_order.dfy`: `StringOrder`, the order `localeCompare` stands for.
- `process_counts.dfy`: `ProcessCounts`.

Values are modelled as follows:

- A filter value is `Undefined`, one scalar, or an array of scalars. A scalar is a string or a boolean.
- Scalars are written to the query as `String(x)` would write them: `true` becomes `"true"`, and `undefined` becomes `"undefined"`.

Some of the code's behaviour is easy to misread; the model follows the code:

- **Repeated keys.** A repeated key is compared with a *truthy* stored value only. A falsy stored value (`""`) is replaced, not turned into an array (`QueryCodec.Merge`).
- **Array read of a falsy scalar.** `getFilter(k, true)` on a falsy scalar (`""`, `false`) returns `[]`, not a one-element array (`FiltersContext.EnsureArray`).
- **Pruning and the linker.** Pruning happens inside the plain setter, *before* a linker's update runs. A linked update can therefore leave falsy values, and the record is proved pruned only for updates without a linker (`ValueSetter.UnlinkedUpdatePrunes`).
- **The seed is not pruned.** The seed decoded from the query may hold a falsy value, such as `?q=` giving `""` (`FiltersContext.SeedMayHoldFalsy`).
- **Round trip.** Decoding the encoding gives the record back for a precisely stated class of values (`QueryCodec.RoundTrips`). That class is wider than the scalar-only case and includes arrays. A one-element array does not round-trip; it comes back as its element (`QueryCodec.SingletonArrayCollapses`).

## Model

Source paths are relative to the repository root.

| member | source | states |
|---|---|---|
| FilterValues.Lookup | ui/submodules/packages/components/src/common/filters/filtersContext.tsx:122 | property read: a key the record does not hold reads as `undefined` |
| FilterValues.Put | ui/submodules/packages/components/src/common/filters/filtersContext.tsx:86-89 | `{...current, [id]: value}`: an existing key keeps its position, a new key is appended at the end |
| FilterValues.PutLookup | ui/submodules/packages/components/src/common/filters/filtersContext.tsx:86-89 | after the write the key holds the new value and every other key reads as before |
| FilterValues.PutKeepsDistinct | ui/submodules/packages/components/src/common/filters/filtersContext.tsx:86-89 | the written object still has no repeated key |
| FilterValues.PutSame | ui/submodules/packages/components/src/common/filters/filtersContext.tsx:86-89 | writing back the value a present key holds leaves the object unchanged, order included |
| QueryCodec.Text | ui/submodules/packages/components/src/common/filters/filtersContext.tsx:18-22 | how a written scalar reads in the query: the text is `"true"` exactly for boolean `true` and the string `"true"`, which is why the string `"true"` does not survive the round trip |
| QueryCodec.Coerce | ui/submodules/packages/components/src/common/filters/filtersContext.tsx:26 | a raw value becomes boolean exactly when it is `"true"` (and then `true`); every other string, `""` included, is kept verbatim; writing the result gives the raw value back |
| QueryCodec.CoerceText | ui/submodules/packages/components/src/common/filters/filtersContext.tsx:26 | reading back a written scalar gives it back exactly when it is `true` or a string other than `"true"` |
| QueryCodec.Merge | ui/submodules/packages/components/src/common/filters/filtersContext.tsx:29 | a repeated key: a falsy or missing stored value is replaced, an equal scalar stays, a different truthy scalar becomes the two-element array, an array is appended to (duplicates included) |
| QueryCodec.ValuesFor | ui/submodules/packages/components/src/common/filters/filtersContext.tsx:25-26 | the values of one key are the coerced raw values of its pairs, in query order |
| QueryCodec.StepNew | ui/submodules/packages/components/src/common/filters/filtersContext.tsx:27-30 | a pair under a key not yet seen appends that key holding the pair's coerced value |
| QueryCodec.Step | ui/submodules/packages/components/src/common/filters/filtersContext.tsx:25-31 | one call of the reduce callback: the pair's key keeps its position when already present and is appended when new, and no other key is added; `StepLookup` states the values |
| QueryCodec.StepLookup | ui/submodules/packages/components/src/common/filters/filtersContext.tsx:25-31 | one reduce step merges into the pair's key and leaves every other key as it was |
| QueryCodec.DecodeIntoKey | ui/submodules/packages/components/src/common/filters/filtersContext.tsx:25-31 | keys decode independently: each key holds the fold of its own values |
| QueryCodec.DecodeIntoKeys | ui/submodules/packages/components/src/common/filters/filtersContext.tsx:25-31 | a key is in the decoded record exactly when it was already there or occurs in the query |
| QueryCodec.Decode | ui/submodules/packages/components/src/common/filters/filtersContext.tsx:24-32 | `deserializeFromQuery`: the keys of the decoded record are exactly the keys the query carries a value under; `DecodeIntoKey`, `DecodeRepeatedScalar`, `DecodeRepeatedArray` and `DecodeEncode` state what each key holds |
| QueryCodec.FoldMany | ui/submodules/packages/components/src/common/filters/filtersContext.tsx:29 | once a key holds an array every later value is appended, duplicates included |
| QueryCodec.FoldScalar | ui/submodules/packages/components/src/common/filters/filtersContext.tsx:29 | while no value switches the key to an array, it holds the latest scalar |
| QueryCodec.FoldSwitch | ui/submodules/packages/components/src/common/filters/filtersContext.tsx:29 | from the first switch on, the key holds the array of all values since the one before the switch |
| QueryCodec.DecodeRepeatedScalar | ui/submodules/packages/components/src/common/filters/filtersContext.tsx:24-32 | a repeated key that never switches decodes to its last value as a scalar |
| QueryCodec.DecodeRepeatedArray | ui/submodules/packages/components/src/common/filters/filtersContext.tsx:24-32 | a repeated key that first switches at position `t` decodes to the array of its values from `t - 1` on |
| QueryCodec.DecodeExample | ui/submodules/packages/components/src/common/filters/filtersContext.tsx:24-32 | `status=true&color=red&color=blue` decodes to `{status: true, color: ["red", "blue"]}` |
| QueryCodec.Encode | ui/submodules/packages/components/src/common/filters/filtersContext.tsx:18-22 | `serializeToQuery`: one pair per array element and one per other entry; `EncodeAppend` states the record order, `EncodeKey` what each key carries |
| QueryCodec.EncodeAppend | ui/submodules/packages/components/src/common/filters/filtersContext.tsx:18-22 | entries are written in record order: the query of two joined records is the query of the first followed by that of the second |
| QueryCodec.ArrayPairs | ui/submodules/packages/components/src/common/filters/filtersContext.tsx:20 | an array gives one pair per element, each under its key |
| QueryCodec.ArrayPairsFor | ui/submodules/packages/components/src/common/filters/filtersContext.tsx:20 | an array's pairs carry its elements' texts in array order under its key and nothing under any other key |
| QueryCodec.EntryPairsFor | ui/submodules/packages/components/src/common/filters/filtersContext.tsx:19-21 | one entry gives one raw value per array element, or exactly one |
| QueryCodec.EncodeKey | ui/submodules/packages/components/src/common/filters/filtersContext.tsx:18-22 | the query of a record carries under each key exactly the values it holds, in order, and nothing under a key it lacks |
| QueryCodec.RawValuesForAppend | ui/submodules/packages/components/src/common/filters/filtersContext.tsx:25 | the values a key carries in two joined queries are those of the first followed by those of the second |
| QueryCodec.DecodeIntoAppend | ui/submodules/packages/components/src/common/filters/filtersContext.tsx:25-31 | reading two joined queries is reading the first, then the second from there |
| QueryCodec.DecodeEntry | ui/submodules/packages/components/src/common/filters/filtersContext.tsx:18-32 | the pairs of one round-tripping entry under a new key read back as that entry, appended |
| QueryCodec.DecodeEncode | ui/submodules/packages/components/src/common/filters/filtersContext.tsx:18-32 | round trip: a record whose values are all `true`, strings other than `"true"` (the empty string included), or arrays of at least two canonical scalars with a truthy first and differing first two, reads back from its query exactly, key order included |
| QueryCodec.SingletonArrayCollapses | ui/submodules/packages/components/src/common/filters/filtersContext.tsx:18-32 | a one-element array reads back as its element |
| ValueSetter.Prune | ui/submodules/packages/components/src/common/filters/filtersContext.tsx:85-91 | `pickBy`: keeps only entries of the input, only those whose value passes `isArray(v) ? v.length : !!v`, and never grows the record; `PruneLookup` states which keys survive |
| ValueSetter.PruneLookup | ui/submodules/packages/components/src/common/filters/filtersContext.tsx:85-91 | `pickBy` keeps a key's value when it is truthy or a non-empty array, and removes the key otherwise |
| ValueSetter.PruneDistinct | ui/submodules/packages/components/src/common/filters/filtersContext.tsx:85-91 | `pickBy` gives an object |
| ValueSetter.PrunePruned | ui/submodules/packages/components/src/common/filters/filtersContext.tsx:90 | no falsy value or empty array survives `pickBy` |
| ValueSetter.PruneIdle | ui/submodules/packages/components/src/common/filters/filtersContext.tsx:85-91 | `pickBy` leaves a pruned object unchanged, order included |
| ValueSetter.PruneAppend | ui/submodules/packages/components/src/common/filters/filtersContext.tsx:85-91 | `pickBy` works entry by entry |
| ValueSetter.PrunedLookup | ui/submodules/packages/components/src/common/filters/filtersContext.tsx:90 | in a pruned record a key is present exactly when its value passes the test |
| ValueSetter.SetValue | ui/submodules/packages/components/src/common/filters/filtersContext.tsx:83-92 | the plain setter: `id` holds `value` if it is truthy or a non-empty array and is absent otherwise; every other key keeps its value unless falsy or an empty array; no falsy value or empty array is left |
| ValueSetter.SetValueIdempotent | ui/submodules/packages/components/src/common/filters/filtersContext.tsx:83-92 | setting the same key to the same value twice equals setting it once |
| ValueSetter.SetValueLastWins | ui/submodules/packages/components/src/common/filters/filtersContext.tsx:83-92 | of two writes to a key only the last shows, under every key |
| ValueSetter.SetValueKeyOrder | ui/submodules/packages/components/src/common/filters/filtersContext.tsx:83-92 | on a pruned record a kept value is written in place, keeping the key order, or appended under a new key, which fixes the order of `activeKeys` and of the query |
| ValueSetter.PlainSetter | ui/submodules/packages/components/src/common/filters/filtersContext.tsx:83-97 | the setter handed to the linker is the plain setter: every update it builds leaves a pruned record |
| ValueSetter.LinkedUpdate | ui/submodules/packages/components/src/common/filters/filtersContext.tsx:94-101 | with no linker, or a linker that gives no update, the plain setter; otherwise the linker's update applied to the plain setter's result |
| ValueSetter.UnlinkedUpdatePrunes | ui/submodules/packages/components/src/common/filters/filtersContext.tsx:94-101 | without a linker an update always leaves a pruned record |
| ValueSetter.LinkerClearsDependent | ui/submodules/packages/components/src/common/filters/filtersContext.tsx:94-101 | a linker that clears `b` when `a` is set leaves `b` absent whatever it held, and `a` as the plain setter leaves it |
| FiltersContext.EnsureArray | ui/submodules/packages/components/src/common/filters/filtersContext.tsx:34-36 | `ensureArray`: `[]` for a missing or falsy value, `[x]` for a truthy scalar, the elements of an array |
| FiltersContext.EnsureArrayEncoded | ui/submodules/packages/components/src/common/filters/filtersContext.tsx:34-36 | on a pruned record, the array read of a key lists as text exactly what the query carries under it |
| FiltersContext.EmptyQuerySeed | ui/submodules/packages/components/src/common/filters/filtersContext.tsx:147 | an empty query seeds an empty record, so no filter is active |
| FiltersContext.SeedMayHoldFalsy | ui/submodules/packages/components/src/common/filters/filtersContext.tsx:147 | the record seeded from `?q=` holds `""` and is not pruned |
| FiltersContext.FilterStore.constructor | ui/submodules/packages/components/src/common/filters/filtersContext.tsx:147 | the live record is decoded from the query, the settled record starts equal to it |
| FiltersContext.FilterStore.SetFilter | ui/submodules/packages/components/src/common/filters/filtersContext.tsx:103-109 | the linked update applies to the live record only; settled record and query are untouched |
| FiltersContext.FilterStore.SetFilterImmediately | ui/submodules/packages/components/src/common/filters/filtersContext.tsx:111-118 | the same update applies to both records, each from its own previous value; without a linker the calling consumer's next read of the key sees the value written |
| FiltersContext.FilterStore.Settle | ui/submodules/packages/components/src/common/filters/filtersContext.tsx:79 | the settled record catches up with the live one |
| FiltersContext.FilterStore.FlushQuery | ui/submodules/packages/components/src/common/filters/filtersContext.tsx:149-151 | the query is replaced by the encoding of the live record, and carries under each key exactly the values the live record holds |
| FiltersContext.FilterStore.GetFilter | ui/submodules/packages/components/src/common/filters/filtersContext.tsx:120-126 | reads the settled record; `undefined` for a key it lacks |
| FiltersContext.FilterStore.GetFilterAsArray | ui/submodules/packages/components/src/common/filters/filtersContext.tsx:120-126 | the settled value as an array; on a pruned settled record it lists as text exactly the values the encoding of the settled record carries under the key (the query itself holds the live record once written back) |
| FiltersContext.FilterStore.ActiveKeys | ui/submodules/packages/components/src/common/filters/filtersContext.tsx:133 | the keys of the settled record, in order; on a pruned record exactly the keys holding a kept value |
| FiltersContext.CoalescedWrites | ui/submodules/packages/components/src/common/filters/filtersContext.tsx:103-109 | two writes to a key within one settle window: after settling every read sees what the last write alone leaves |
| FiltersContext.WriteBack | ui/submodules/packages/components/src/common/filters/filtersContext.tsx:149-151 | after a write, with or without a linker, and the write-back, the query is the encoding of the live record and decodes back to it when its values round-trip |
| FiltersContext.ScenarioWrite | ui/submodules/packages/components/src/common/filters/filtersContext.tsx:83-92 | setting `color` to `"green"` in `{status: true, color: ["red", "blue"]}` replaces the array in place, keeping key order |
| FiltersContext.ScenarioEncode | ui/submodules/packages/components/src/common/filters/filtersContext.tsx:18-22 | `{status: true, color: "green"}` is written as `status=true&color=green` |
| FiltersContext.EndToEndScenario | ui/submodules/packages/components/src/common/filters/filtersContext.tsx:103-151 | `?status=true&color=red&color=blue`, then `setFilter("color", "green")`, then the write-back gives `?status=true&color=green` |
| StringOrder.LeReflexive | designer/client/src/actions/nk/displayProcessCounts.ts:20 | the comparison order is reflexive |
| StringOrder.LeTotal | designer/client/src/actions/nk/displayProcessCounts.ts:20 | any two strings are comparable |
| StringOrder.LeAntisymmetric | designer/client/src/actions/nk/displayProcessCounts.ts:20 | two strings each sorting no later than the other are equal |
| StringOrder.LeTransitive | designer/client/src/actions/nk/displayProcessCounts.ts:20 | the comparison order is transitive |
| ProcessCounts.DisplayProcessCounts | designer/client/src/actions/nk/displayProcessCounts.ts:12-17 | the action is tagged `DISPLAY_PROCESS_COUNTS` and carries the counts unchanged |
| ProcessCounts.LeastExists | designer/client/src/actions/nk/displayProcessCounts.ts:20 | a non-empty set of keys has a least key |
| ProcessCounts.SortedKeys | designer/client/src/actions/nk/displayProcessCounts.ts:20 | the sorted keys are ascending without repeats and are exactly the keys of the counts |
| ProcessCounts.SortedListingUnique | designer/client/src/actions/nk/displayProcessCounts.ts:20 | there is one ascending listing of the keys, whatever order `Object.keys` gives them in |
| ProcessCounts.SortById | designer/client/src/actions/nk/displayProcessCounts.ts:21-22 | the nodes array is sorted by id in place and holds the same nodes |
| ProcessCounts.MisplacedFrom | designer/client/src/actions/nk/displayProcessCounts.ts:21-23 | the `.filter` over the sorted nodes: keeps only nodes of the list, never more than it holds; `MisplacedIds` states which ones |
| ProcessCounts.MisplacedIds | designer/client/src/actions/nk/displayProcessCounts.ts:23 | an id is among the filtered nodes exactly when some sorted position holds it and differs from the key there (or lies past the last key) |
| ProcessCounts.NoneMisplaced | designer/client/src/actions/nk/displayProcessCounts.ts:23 | when every position lines up, the filter keeps no node |
| ProcessCounts.Zeroed | designer/client/src/actions/nk/displayProcessCounts.ts:26-32 | the loop over the filtered nodes: the keys afterwards are the keys of the counts plus the ids of the listed nodes; `ZeroedLookup` states the values |
| ProcessCounts.ZeroedLookup | designer/client/src/actions/nk/displayProcessCounts.ts:26-32 | the loop gives each listed id zero counts and leaves every other key as it was |
| ProcessCounts.Reconciled | designer/client/src/actions/nk/displayProcessCounts.ts:22-34 | what `checkActualCounts` returns: no key is removed, and with no count keys the counts come back unchanged; `ReconciledKeys`, `ReconciledZeroes` and `ReconciledKeepsOthers` state the rest |
| ProcessCounts.CheckActualCounts | designer/client/src/actions/nk/displayProcessCounts.ts:19-35 | sorts the nodes in place and returns the reconciliation of the counts against the sorted keys and nodes |
| ProcessCounts.ReconciledKeys | designer/client/src/actions/nk/displayProcessCounts.ts:24-33 | no key of the counts is removed, and the only keys added are node ids |
| ProcessCounts.ReconciledAligned | designer/client/src/actions/nk/displayProcessCounts.ts:22-25 | with no keys, or every sorted node id equal to the key at its position, the counts come back unchanged |
| ProcessCounts.ReconciledZeroes | designer/client/src/actions/nk/displayProcessCounts.ts:23-32 | every node whose position does not line up gets `{all: undefined, errors: 0, fragmentCounts: {}}`, provided there is a key |
| ProcessCounts.ReconciledKeepsOthers | designer/client/src/actions/nk/displayProcessCounts.ts:24-33 | a key that is not the id of a misplaced node keeps its counts |
| ProcessCounts.ShiftedKeyLosesCount | designer/client/src/actions/nk/displayProcessCounts.ts:20-32 | counts for `a` and `c` with nodes `a`, `b`, `c`: the real counts of `c` are replaced by zero counts |
| ProcessCounts.FillMissingCounts | designer/client/src/actions/nk/displayProcessCounts.ts:19-35 | corrected: existing counts are kept, only node ids without counts get zero counts, and every node then has counts |
| ProcessCounts.FillMissingAgreesWhenAligned | designer/client/src/actions/nk/displayProcessCounts.ts:19-35 | when there are no counts, or the sorted nodes line up with the sorted keys, the corrected and the original reconciliation both return the counts unchanged |

## Left out

- React wiring is not modelled: the context, the provider and the `useContext`/`useMemo`/`useCallback`/`useEffect` mechanics. The store is an explicit object instead.
- Debounce timers and their 200 ms and 100 ms windows are not modelled. They become the explicit `Settle` and `FlushQuery` steps, with no clock. Pending timers cancelled on unmount are not modelled either.
- The store models one consumer's settled view. Each `useFilterContext` caller runs its own `useDebouncedValue(model, 200)` (filtersContext.tsx:79), so it holds its own settled copy. `setModelImmediately` updates only the caller's copy, and other consumers see a write only after their own settle window.
- `useSearchParams` is not modelled, nor the replace navigation that writes the query. The query is a sequence of already-split key/value pairs.
- Percent-encoding and the parsing done by `URLSearchParams` are not modelled.
- Lodash `curry` calling conventions are not modelled. Only the full two-argument setter is.
- Filter values other than strings, booleans, arrays of these, and `undefined` are not modelled. These include numbers, `null` and nested objects.
- Prototype-inherited keys are not modelled. Decoding a query key such as `constructor` reads the inherited property in JavaScript; here every absent key reads as `undefined`.
- JavaScript's ordering of integer-like keys ahead of other keys is not modelled. Records keep pure insertion order.
- A missing linker and a linker that gives no update are both `None`. A linker that returns no setter at all for the plain setter is not modelled, nor is an exception a linker throws.
- A context accessor called outside the provider is not modelled.
- `localeCompare` locale rules are not modelled. Ids and keys are compared by Unicode code point, lexicographically, which differs from UTF-16 code-unit order above U+FFFF.
- ProcessCounts.SortById: does not state that nodes with equal ids keep their relative order, as the stable JavaScript sort does.
- A node carries only its id and a kind. The other node fields play no part in reconciliation.
- `fetchAndDisplayProcessCounts` and `HttpService.fetchProcessCounts` are not modelled, because they are network I/O.

## Findings

| source | as written | input that shows it | evidently intended | confidence | as-written member | corrected member |
|---|---|---|---|---|---|---|
| designer/client/src/actions/nk/displayProcessCounts.ts:23-32 | a node gets zero counts whenever its id differs from the count key at the same sorted position, even when counts for it exist | counts for `a` and `c`, nodes `a`, `b`, `c`: position 1 compares `b` with `c`, position 2 compares `c` with no key, so `b` and `c` both get zero counts and the real counts of `c` are lost | only nodes without counts get zero counts; existing counts are kept | not executed | ProcessCounts.ShiftedKeyLosesCount | ProcessCounts.FillMissingCounts |

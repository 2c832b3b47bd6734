# denormalize: a Dafny model of the property-path engine

`denormalize` (index.js) converts between a nested JSON-like document and a
flat map from path strings such as `dates[0].type` to leaf values. This project
models that engine and proves properties about it. The engine has four parts:

- **The path grammar.** `parsePropertyName` is a one-pass tokenizer that keeps a
  `prevDelim` state. `createPropertyName` is its inverse. Both are modelled as
  methods with loops (`PropertyNames.ParsePropertyName`,
  `PropertyNames.CreatePropertyName`). Each is proved equal to a
  specification function over keys `Name(string) | Index(nat)`:
  - `Parse` is a fold of one-character `Step`s over a `Scan` state;
  - `PropertyName` is the serialized text.
- **The accessors.**
  - `getProperty` is a `while` loop (`Accessors.GetProperty`) proved equal to
    `GetByName`.
  - `setProperty` / `_setProperty` are modelled on values (`Accessors.SetProperty`,
    `Accessors.SetPath`). Each write returns the updated tree. Missing
    intermediates are created by looking at the next key.
- **Flattening and rebuilding.**
  - `denormalizeProperties` is a recursive method that threads the accumulator
    `current` through the recursion (`Flattening.DenormalizeProperties`). Its
    array branch is a `for` loop in index order. Its object branch loops over
    the keys in an arbitrary order.
  - `normalizeProperties` is a `for` loop reassigning `retval`
    (`Normalizing.NormalizeProperties`). It is proved equal to `Normalized`, a
    left fold of `SetProperty` starting from `Null`.
- **Compaction.** `normalizeArrayProperties` is the pure function
  `Compaction.NormalizeArrays`.

Documents are the datatype `Values.Value`:
- `Undefined`;
- `Null`;
- a primitive;
- an object, `map<string, Value>`;
- an array, `seq<Value>`, in which `Undefined` is a hole.

An error is a `Result`. Each `throw` of the parser is one constructor of
`SyntaxError`. A property access on `null` or `undefined` is `TypeError`.

The main result is `RoundTrip.NormalizeDenormalized`. It concerns regular documents:
- the root is a non-empty object or array;
- names are valid;
- no `undefined` appears;
- no container is empty;
- no array sits directly inside an array.

For such a document, folding `setProperty` over the flat map rebuilds it in
any enumeration order, with or without compaction. `RoundTrip.DenormalizedIsFlat`
shows that the map `DenormalizeProperties` builds is such a flat map.
`RoundTrip.NestedArraysFail` shows that the last restriction is needed:
`createPropertyName` writes an array inside an array as `[i][j]`, and
`parsePropertyName` rejects `][`.

## Model

| member | source | states |
|---|---|---|
| PropertyNames.CreatePropertyName | index.js:40-55 | the loop's joined tokens are `PropertyName(args)`: `[n]` for an index, the bare name in first position, `.name` elsewhere |
| PropertyNames.DecimalRoundTrip | index.js:49 | the decimal text written for an index is a non-empty digit string whose value is the index |
| PropertyNames.IndexValue | index.js:91-94 | the text before `]` gives an index exactly when it is all digits; the empty text gives 0 |
| PropertyNames.ParsePropertyName | index.js:61-111 | the character loop, with its early throws, returns exactly `Parse(s)` |
| PropertyNames.RunAppend | index.js:65-106 | tokenizing `s + t` is tokenizing `s`, then `t` from the state reached, stopping at the first error |
| PropertyNames.ScanState | index.js:62-106 | after any accepted prefix, the pending buffer is the trailing segment, `prevDelim` is the last delimiter, and every pushed name is valid |
| PropertyNames.ParseEmpty | index.js:61-111 | `parsePropertyName("")` is `[]` |
| PropertyNames.ParseNamesValid | index.js:67-109 | every name token returned (pushed at lines 72, 82 and 108) is non-empty and contains no `.`, `[` or `]` |
| PropertyNames.StepLegal | index.js:66-105 | one more character is accepted exactly when `Legal` allows it after the text read so far |
| PropertyNames.ParseOkIff | index.js:61-111 | parsing succeeds if and only if every character is legal after the text before it |
| PropertyNames.ParseRejects | index.js:67-104 | each throw site: an empty segment before `.` not after `]`, `[` or `]` after a delimiter, a non-numeric index, a character right after `]` |
| PropertyNames.ParseOfPropertyName | index.js:40-111 | parsing the text of a key path with valid names and no index right after an index gives back the key path |
| PropertyNames.PropertyNameInjective | index.js:40-55 | two such key paths with the same text are equal |
| PropertyNames.PropertyNamePrefix | index.js:40-55 | the text of a prefix of a key path is a prefix of its text |
| PropertyNames.AdjacentIndicesRejected | index.js:48-80 | a key path with two indices in a row serializes to text containing `][` (line 49), which the guard at line 78 rejects |
| PropertyNames.RoundTripIff | index.js:40-111 | for valid names, the text round trip succeeds if and only if no index directly follows an index |
| Accessors.Child | index.js:13 | `data[key]`: the field or element when present, `Undefined` for a missing key, an index past the end or a hole |
| Accessors.GetProperty | index.js:9-19 | the `shift` loop returns exactly `GetByName(data, name)`, including its syntax and `TypeError` throws |
| Accessors.GetEmptyPath | index.js:9-19 | the empty path returns the document itself |
| Accessors.GetAppend | index.js:11-17 | reading along `ks1 + ks2` reads `ks1`, then `ks2` from there, unless the first part stopped or threw |
| Accessors.GetStopsAtMissing | index.js:14-16 | once a key is missing, every longer path through it reads `undefined` without throwing |
| Accessors.GetThrowsIff | index.js:9-19 | a read throws if and only if some prefix of the path reaches `null` (or the root is `undefined`) |
| Accessors.Store | index.js:183 | an array write keeps the other elements, grows the array to cover the index, and leaves holes in between |
| Accessors.Assign | index.js:183 | the write throws exactly on `null`/`undefined` or a key of the other kind; otherwise the key holds the value and every other key is unchanged; a primitive is left as it is |
| Accessors.EmptyFor | index.js:189-193 | an index key asks for `[]` and a name key for `{}` (also the `null` root policy of line 31) |
| Accessors.SetPath | index.js:180-198 | the result keeps the root's kind, and a primitive root is returned unchanged |
| Accessors.SetProperty | index.js:25-34 | a syntax error is rethrown; the empty path returns `data`; a `null` root becomes an array if and only if the first key is an index |
| Accessors.SetEmptyPath | index.js:27-29 | with the empty path, `setProperty` returns `data` unchanged |
| Accessors.GetAfterSet | index.js:180-198 | after a successful write, reading the same path gives the value, unless the target's parent is a primitive, whose write leaves the document unchanged |
| Accessors.ChildUnchanged | index.js:195 | writing a container's own child back changes nothing, so folding the recursive result back in agrees with the in-place update |
| Accessors.SetFrame | index.js:180-198 | every path that diverges from the written path reads what it read before |
| Accessors.SetCreatesIntermediates | index.js:185-194 | each missing intermediate becomes an array if and only if the next key is an index, and an object if and only if it is a name |
| Accessors.GetAfterSetProperty | index.js:25-34 | after `setProperty(data, name, v)` with a non-empty path, `getProperty(result, name)` is `v` unless the parent is a primitive |
| Compaction.Present | index.js:159 | the filter keeps no `undefined` element and only elements of the input |
| Compaction.NormalizeArrays | index.js:154-170 | no array at any depth holds `undefined`; kinds and object keys are kept; array length is the number of present elements; `null` and scalars are returned unchanged |
| Compaction.PresentAppend | index.js:159 | the filter distributes over concatenation, so the surviving elements keep their order |
| Compaction.PresentSingle | index.js:159 | one element survives exactly when it is not `undefined` |
| Compaction.NormalizeArraysAppend | index.js:158-161 | compacting `a + b` gives the compaction of `a` followed by that of `b` |
| Compaction.NormalizeArraysSingle | index.js:158-161 | a single hole disappears; any other element is compacted in place |
| Compaction.PresentNoHoles | index.js:159 | the filter keeps an array without holes as it is |
| Compaction.NormalizeArraysFixesHoleFree | index.js:154-170 | compaction leaves a document without array holes unchanged |
| Compaction.NormalizeArraysIdempotent | index.js:154-170 | compacting twice is compacting once |
| Flattening.DenormalizeProperties | index.js:117-132 | the keys added are exactly the texts of the leaf paths below `names`, other accumulator entries are kept, and each leaf's value is stored under its text whenever different leaves have different texts (`Distinct`) |
| Flattening.DenormalizeElements | index.js:120-123 | the array branch adds exactly the names of the present elements' leaves, skipping holes, with the same frame, and with the same values whenever the leaf texts are distinct |
| Flattening.DenormalizeFields | index.js:124-127 | the object branch, in any key order, adds exactly the names of the fields' leaves, with the same frame, and with the same values whenever the leaf texts are distinct |
| Flattening.ValidNamesDistinct | index.js:117-132 | when every name on every leaf path is valid, different leaves have different texts, arrays inside arrays included, so `DenormalizeProperties` fixes every value |
| Flattening.RecoverableDistinct | index.js:117-132 | leaf texts that parse back to their paths are pairwise distinct |
| PropertyNames.PropertyNameInjectiveValid | index.js:40-55 | two key paths with valid names and the same text are equal, even with an index right after an index |
| Flattening.AtGet | index.js:11-17 | along a path that follows present properties and elements, the `getProperty` walk neither throws nor stops early and finds the value at that path |
| Flattening.LeafReadBack | index.js:9-19 | a leaf whose text parses back is what `getProperty` returns for that text |
| RoundTrip.FlatReadsBack | index.js:9-132 | every entry of the flat map of a regular document is what `getProperty` reads from the document under that name |
| Flattening.LeafPathsStep | index.js:120-127 | a leaf path of a container starts with one of its keys (a present element for arrays) and continues with a leaf path of that child |
| Flattening.LeafPathsExtend | index.js:120-127 | a key of a container followed by a leaf path of that child is a leaf path |
| Flattening.LeafPathsIff | index.js:117-132 | a path is a leaf path if and only if it reaches a present value that is neither an object nor an array |
| Flattening.LeafRecorded | index.js:118-130 | a leaf (`null` or a scalar) is recorded under `createPropertyName(...names)` and nothing else changes |
| Flattening.ScalarRootName | index.js:128-130 | a scalar or `null` root is recorded under the empty name |
| Flattening.NoLeavesInEmpty | index.js:120-127 | empty objects, empty arrays and arrays of holes contribute no entries |
| Normalizing.NormalizeProperties | index.js:138-148 | the `forEach` fold, stopping at the first throw, returns exactly `Normalized(properties, normalizeArrays)` |
| Normalizing.FoldLast | index.js:140-142 | one more entry is one more `setProperty` on the tree so far |
| Normalizing.FoldStopsAtError | index.js:140-142 | once a prefix of the entries throws, the whole normalization throws the same error |
| Normalizing.BadNameFails | index.js:140-142 | an entry whose name does not parse makes its `setProperty` throw (line 26), and so the whole normalization |
| Normalizing.NormalizeEmpty | index.js:138-148 | `normalizeProperties({})` is `null`, with or without compaction |
| RoundTrip.RegularLeafPaths | index.js:117-132 | a regular document has leaves, each leaf path is serializable, and the first key matches the root's kind |
| RoundTrip.RegularRecoverable | index.js:40-132 | every leaf text of a regular document parses back to its path |
| RoundTrip.RegularNoHoles | index.js:154-170 | a regular document has no array holes, so compaction keeps it |
| RoundTrip.TrimStore | index.js:183 | writing a present element commutes with dropping trailing holes |
| RoundTrip.SetStep | index.js:180-198 | writing one more leaf of `d` into the tree built from some leaves gives the tree built from those leaves and that one |
| RoundTrip.SetPropertyStep | index.js:25-34 | the same for `setProperty`, where the first entry turns the `null` root into a container of the right kind |
| RoundTrip.PartialFull | index.js:117-148 | the tree built from all leaf paths of `d` is `d` |
| RoundTrip.FoldPartial | index.js:139-142 | after any number of entries, the fold has built the tree of the leaves those entries name |
| RoundTrip.NormalizeDenormalized | index.js:117-148 | for a regular document, normalizing its flat map, in any enumeration order, gives back the document with or without compaction |
| RoundTrip.DenormalizedIsFlat | index.js:117-132 | `DenormalizeProperties` of a regular document into `{}` builds exactly its flat map |
| RoundTrip.NestedArraysFail | index.js:40-148 | when a leaf path has an index right after an index, normalizing the flat map throws |

## Left out

- Accessors.Child: names inherited from `Object.prototype` are modelled as absent own keys. In JavaScript `data[key]` on line 13 finds inherited members: `getProperty({}, "toString")` returns a function, where the model reads `Undefined`. `GetAfterSet`, `SetFrame` and `GetProperty` speak only about the model's own-key semantics.
- Accessors.Assign: the same for writes. At line 185 an inherited name such as `constructor` counts as defined, so `setProperty({}, "constructor.x", 1)` writes into the `Object` function and returns `{}`. The model instead creates `{constructor: {x: 1}}`. A path that goes through `__proto__` (`"__proto__.p"`) finds `Object.prototype` at line 185 and descends into it at line 195. The write then lands on the shared prototype, so afterwards every object reads `p`. `SetFrame`'s promise that diverging paths are unchanged therefore does not cover such paths in JavaScript. When `__proto__` is the key written, as in the one-key path `"__proto__"` at line 183, the object's `__proto__` setter runs instead. No own key is stored. A primitive value is ignored, and an object or `null` becomes that one object's prototype. The model stores an own key `"__proto__"` like any other name.
- Compaction.NormalizeArrays: its promise that object keys are kept fails in JavaScript for an own key `"__proto__"`, which `JSON.parse` can create. `retval["__proto__"] = …` at line 165 runs the setter, so the key is dropped.
- Flattening.DenormalizeProperties: an own key `"__proto__"` at the root gives the leaf name `"__proto__"`, and `current["__proto__"] = leaf` at lines 119 and 129 runs the setter of the accumulator instead of recording an entry. The model records it.
- RoundTrip.NormalizeDenormalized: `"__proto__"` is a valid name, so `{"__proto__": 1}` is regular. In JavaScript it flattens to `{}` and then rebuilds to `null`. The round trip is proved for the model's own-key semantics only.
- Accessors.Store: an index is an unbounded `nat` that always grows the array. In JavaScript an index of 2^32 - 1 or more makes an ordinary property rather than an element, and `+token` (line 91) rounds integers above 2^53.
- PropertyNames.DecimalString: `${arg}` on line 49 writes indices of 10^21 and above in exponent form (`1e+21`); the model always writes plain digits.
- Cross-kind access, `Accessors.Child` and `Accessors.Assign`:
  - In JavaScript `obj[0]` is `obj["0"]`, a name can be set on an array, and strings can be indexed.
  - The model reads such a key as `Undefined` and makes such a write fail with `KindMismatch`.
  - A read on a primitive gives `Undefined`. A sloppy-mode write onto a primitive is dropped, which matches JavaScript.
- `PropertyNames.IndexValue`: `+token` also accepts whitespace, signs, hexadecimal and exponent forms. The model accepts only digit strings, plus the empty text as 0; everything else is `InvalidIndex`.
- `PropertyNames.ParseOfPropertyName`: `"]"` parses to `[Index(0)]`, whose text is `"[0]"`. So text → keys → text is not the identity, and only keys → text → keys is proved.
- Flattening.DenormalizeProperties, Flattening.DenormalizeElements, Flattening.DenormalizeFields: the values are stated only when different leaves have different texts (`Distinct`); `ValidNamesDistinct` shows that valid names always give this, arrays inside arrays included. Two different paths share a text only when a name contains a delimiter or is empty: `{"a.b": 1, a: {b: 2}}` writes `a.b` twice. In that case the entry depends on the order in which object keys are visited, which the model does not fix.
- `RoundTrip.NormalizeDenormalized` covers regular documents only:
  - an object field holding `undefined`, which denormalization records, is excluded;
  - empty containers, which leave no entries, are excluded;
  - arrays directly inside arrays are excluded; `RoundTrip.NestedArraysFail` proves they fail.
- Holes and explicit `undefined`: `forEach` skips true holes but visits explicit `undefined` elements. The datatype cannot tell them apart, and the model treats both as holes.
- Object identity and aliasing: `_setProperty` mutates containers in place and returns the same root. The model returns the updated tree as a value; sharing between the caller's tree and the result is not modelled.
- The order of `Object.keys` is not modelled. Objects are maps, and the flat map's entries are an arbitrary enumeration.
- Numbers are unbounded integers. Scalars are never inspected by the engine.
- The text of error messages is not modelled. Also omitted is the `Invalid argument type` branch of `createPropertyName`, which a typed key cannot reach.
- `copyProperties`, the fallback argument of `getProperty`, the `console.log` self-test and `module.exports` are not modelled. The tests also expect a `null` intermediate to be tolerated and `setProperty(null, '', 5)` to return 5, which index.js does not do. index.js is modelled as written.

# Parabun runtime helpers, modelled and proved in Dafny

Parabun inlines a set of helpers into every program it compiles. This project models the ones
that carry real algorithms, and proves what they promise. Each part has three layers: the
algorithm as functions on values, theorems about those functions, and the algorithm as it runs,
with classes, arrays and loops that are proved to compute exactly those functions.

## The recursive-schema engine

Declarations live in a registry and refer to each other by `$ref`, so the schema graph may have
loops; values live on a heap, so they may be shared and may have loops too.

- **Validator** (`Validator`, `Paths`, `Validate`). A depth-first walk over (object, declaration) pairs
  with an in-flight map, a memo of accepted pairs, per-declaration depth counters, and
  acceptance at a back edge when the declaration allows cycles. `Rules` states what validity
  means without any of that machinery, and `RuleBook` the same in terms of the keywords alone.
  On heaps where no limit can be reached (no depth cap is below the number of objects, no bound on
  cycles below the number of pairs), the validator accepts exactly the greatest fixpoint of the
  rules when every declaration is cyclic, and exactly the least when none is. For a mixture
  (`ValidatorSound`), acceptance has a justification in finishing order, whatever the limits.
  `Limits` gives the exact meaning of `cyclic(x)` on loops and of `depth(n)` on chains of every
  length. Each pair is walked at most once. These results ask for *tame* unions, in which an arm
  that enters a declaration is followed only by arms that accept no object, as in `Node | null` or
  in a union of plain objects whose last arm is recursive; soundness needs that only if some
  declaration is cyclic. With two recursive arms and a cyclic declaration the memo of a failed arm
  can make the validator accept a value outside the greatest fixpoint, and `UnionMemo` spells one
  out. One result asks for more than tame unions: that every cycle of an accepted value passes
  through a declaration that allows cycles is proved where all arms of a union but one reject
  objects, as in `Node | null`. For tame unions in general it is false, because a cycle through an arm
  that was not taken needs no licence, and `UntakenArm` gives such a value. A declaration without
  references is walked with no machinery at all, and `FastPath` proves that its verdicts are the
  same. `SelfLoop` runs the main results on the smallest recursive schema.
- **Escape check** (`Escape`, `EscapeRun`, `EscapeReject`, `EscapeExact`, `Inhabitation`,
  `EscapeCycles`). A walk over paths of the schema graph that rejects a declaration with no finite
  inhabitant. When mandatory keywords stand where the walker reads them, a rejected declaration has
  no value in any heap, whatever unions and cyclic declarations stand beside it. `CheckExact` is an
  equivalence: without cyclic declarations, if leaves are satisfiable and every union has an arm that
  is not recursive, the check passes if and only if every reachable declaration has a value, which
  the proof builds. An arm is not recursive if all it demands lies lower in an order that does not
  rise along demands, where a value that may be null and a value that may not be are two different
  demands; so null is a way out of an array or an optional property, and not of a required one.
  That condition is exact: an acyclic declaration has a value if and only if finitely many rounds of
  its demands derive it, and so all have values if and only if the check passes and there is such an
  order (`PassingIsEnoughExactly`). With cyclic declarations, `CyclesExact` is the same equivalence as
  `CheckExact`: the value that the proof builds unrolls the schema until a chosen cyclic declaration
  comes round again, and refers back to the object that stands for it. It can need a tail before its
  loop, because the validator rejects a way back to an acyclic declaration on a loop that the check
  exempts; and behind an acyclic name for a cyclic declaration there may be no value at all
  (`CyclicExamples`). The lemmas of `EscapeExamples` mark the other borders: the check follows keywords
  that a declaration's `type` switches off; it takes every arm of a union for a way out, so that a
  union of looping arms passes and is empty; it takes a null arm for a way out also where the property
  is required; and it rejects a root over a loop that the root can do without.
- **Graph codec** (`MsgPack`, `MsgBuffers`, `Codec`, `EncodingHalts`, `EncoderRun`, `DecoderRun`).
  Schema-driven MessagePack with backreferences in preorder. `TokenTables` and `ReadTables` hold the
  bytes against the tables of the MessagePack specification, and `CodecLaws` says what is refused,
  what is rejected, and how two small graphs come out byte for byte. The encoder's functions report two
  facts of their walk that the encoder of the source does not compute: `shallow`, that no token
  lies under more than 1024 containers, and `licensed`, that no primitive lies beyond a depth cap
  and that every reference to an open ancestor is allowed by its declaration. These are the
  guards that only the decoder has. `RoundTrip` proves that whatever follows them, the encoded
  bytes decode if and only if `shallow && licensed`, are consumed exactly, and give a replica of
  the graph, cycles and sharing included. `EncodeSucceeds` discharges all of these conditions
  from the heap and the registry alone: `AcyclicRoundTrip` says that a value without cycles whose
  nesting exceeds neither 1024 nor any depth cap is encoded and round-trips, and `GraphRoundTrip`
  says the same of graphs whose cycles run between objects of cyclic declarations.
  `EncodingHalts` shows that the encoder ends on every finite heap, unless an array is reached in a
  schema-less region that holds itself through arrays alone; there the source recurses until the
  engine stops it. `EncodingReach` shows that an encoding that succeeds has visited everything that
  the schema reaches from the root, so that a loop without a tracked declaration is refused
  wherever it is reached. `Truncation` shows that an encoding cut short fails with the end of the
  input, wherever it is cut. On arbitrary bytes the decoder stays within bounds, builds a proper heap,
  and nests at most 1025 containers between one tracked object and the next.

The walks are total functions, so their termination on cyclic heaps is part of what is verified.
The validator and the codec require a *guarded* registry (no declaration reaches itself without
crossing an `items` or `properties` edge): primitives skip the in-flight test, so on any other
registry a primitive that reaches the unguarded loop makes the source recurse without end. The codec
theorems about decoding allow aliases, declarations whose body is itself a bare reference or a wrapped
declaration, where neither the alias nor what it leads to is tracked (`PlainAliases`); `Aliases` shows
how the source fails with each other kind.

## Decimals

`Decimals` proves addition, subtraction and multiplication exact over the reals, and comparison
the order of the numbers. `DecimalQuotient` proves three equivalences about `dividedBy`: it is within
six tenths of a unit in the last kept place if and only if the integer part of the coefficients'
quotient has at most `precision + 1` digits, because otherwise the second loop drops digits that
the exponent is not told of; within that range its digits are correctly rounded half to even
if and only if the one guard digit does not make a tie out of something that is none; and it is
exact on quotients that fit in `precision` digits if and only if it is in range. `DecimalText`
proves that the parser accepts exactly a grammar, and that printing and parsing are inverse.
`DecimalRun` holds the growing table of powers and the loops. The same class exists twice, in
`src/runtime.bun.js` and in `src/runtime.js`.

## The memoizer, disposal, and the Unicode tables

- `Memo` is a machine over a flat map, in which a call is two events so that the memoized function
  can call, forget and clear in between. `MemoRun` proves that the flag, the map and the trie of
  nested maps refine it. A rejection evicts what is cached under its key even if that is a newer
  result, and a clear during a call makes the trie lose a result that the flat caches keep.
- `Disposal` covers `using` and `await using`: the stack is at all times exactly what has not been
  disposed, each entry is disposed once and in LIFO order, and the final error is the left fold of
  `SuppressedError` over the failures, none of which is lost.
- `UnicodeTables` and `UnicodeRun` cover the three-stage table generator and the bit-packed table
  that is emitted: the lookup is the predicate if and only if the predicate is false at code
  point 0. A generator object that is used twice emits an empty second stage.

## Model

| member | source | states |
|---|---|---|
| Validator.ValDecl | src/runtime.bun.js:435-502 | whatever the verdict, the path and the in-flight map come back as they were and the memo only grows; primitives leave no trace |
| Validator.ValNode | src/runtime.bun.js:1091-1192 | the same for one schema node; the walk ends on every cyclic heap |
| Rules.HoldsMonotone | src/runtime.bun.js:1091-1192 | the structural rules are monotone, so they have a least and a greatest fixpoint |
| ValidatorSound.DeclSound | src/runtime.bun.js:443-500 | after an accepted entry every memoized pair obeys the rules given earlier pairs and cyclic ones; with no cyclic declaration also after a rejected one |
| ValidatorSound.AnySound | src/runtime.bun.js:1107-1113 | what a failed union arm leaves in the memo is either right or never read: an arm without declarations leaves nothing, and after any other no arm accepts an object |
| ValidatorSound.AcceptSound | src/runtime.bun.js:435-502 | an accepted value has a stratified justification, whatever the depth caps and cycle bounds |
| ValidatorComplete.AcceptComplete | src/runtime.bun.js:435-502 | a value with levels that fall into acyclic declarations is accepted, if the levels hold no more pairs of a declaration than its depth cap and no more pairs than any bound on cycles |
| ValidatorComplete.DeclNeverRaises | src/runtime.bun.js:269-274 | if every reference resolves, validation never throws |
| ValidatorTheorems.CyclicSound | src/runtime.bun.js:443-500 | the memo at the end of an accepting run is a post-fixed point that contains the root |
| ValidatorTheorems.CyclicExact | src/runtime.bun.js:435-502 | when every declaration is cyclic and unions are tame, a value is accepted if and only if it is in the greatest fixpoint, on heaps with no more objects than any depth cap and no more pairs than any bound on cycles |
| ValidatorTheorems.AcyclicExact | src/runtime.bun.js:435-502 | when no declaration is cyclic, a value is accepted if and only if it is in the least fixpoint, unions included, on heaps with no more objects than any depth cap |
| RuleBook.HoldsIsFits | src/runtime.bun.js:1107-1191 | the rules that verdicts are measured against are the keywords as they read: length bounds, every element, every required key neither `undefined` nor null, every property that is neither, some arm |
| RuleBook.FixpointsOfFits | src/runtime.bun.js:1107-1191 | the greatest and the least fixpoint, in terms of the keywords |
| RuleBook.FieldIsRead | src/runtime.bun.js:1168-1182 | a name reads as the value of the own field with that key, and as `undefined` where there is none and on arrays |
| RuleBook.FieldsInOrder | src/runtime.bun.js:1176-1182 | the fields that are present, neither `undefined` nor null, are checked in the order in which they are declared |
| RuleBook.ElementsInOrder | src/runtime.bun.js:1157-1167 | the elements are checked in theirs |
| Limits.CyclicMeansLoopLength | src/runtime.bun.js:453-459 | a loop of n objects under `cyclic(x)` is accepted if and only if n is at most x, for every n, whatever accepted leaves the objects hold besides the link |
| Limits.ReturnsDecided | src/runtime.bun.js:443-460 | an entry that the same object has made before is decided at once: accepted if it has finished, and otherwise as `cyclic` says, over the number of entries since |
| Limits.DepthMeansNesting | src/runtime.bun.js:462-473 | a chain is accepted if and only if the references that nest it number at most n under `depth(n)`, and at most 128 where a declaration with references names no depth, for every length, whatever accepted leaves the objects hold besides the link |
| ValidatorTheorems.AcceptedCyclesAreLicensed | src/runtime.bun.js:446-460 | where all arms of a union but one reject objects, every cycle of pairs reachable from an accepted value passes through a declaration that allows cycles |
| UntakenArm.CycleWithoutLicense | src/runtime.bun.js:1107-1113 | with other tame unions that fails: a cycle through an arm that was not taken is accepted without any licence |
| ValidatorTheorems.LinearWork | src/runtime.bun.js:303-312 | each (object, declaration) pair is walked at most once per root call, so at most objects times declarations are walked, and what is memoized was walked |
| UnionMemo.AcceptsOutsideTheFixpoint | src/runtime.bun.js:1107-1113 | with two object arms the memo of a failed arm makes the validator accept a value outside the greatest fixpoint |
| UnionMemo.ExampleIsPoisoned | src/runtime.bun.js:493-500 | a concrete registry and heap on which this happens |
| Paths.PushCoherent | src/runtime.bun.js:465-481 | entering keeps each depth counter equal to the number of `$ref` entries on the path, and within its cap |
| Paths.PopCoherent | src/runtime.bun.js:486-491 | leaving restores the path and the in-flight map, and keeps the counters in agreement with the path |
| Paths.DeclCoherent | src/runtime.bun.js:435-502 | whatever the verdict, a walk leaves the counters, the in-flight map and the path in agreement |
| Paths.ContextFits | src/runtime.bun.js:462-473 | a path enters a declaration at most once for each pair of it, and is no longer than there are pairs |
| Validate.Context.Enter | src/runtime.bun.js:465-481 | the updated fields are those of the pushed context, and the bookkeeping invariant holds |
| Validate.Context.Leave | src/runtime.bun.js:486-491 | the updated fields are those of the popped context, and the bookkeeping invariant holds |
| Validate.Context.ValidateDecl | src/runtime.bun.js:435-502 | the verdict and the new context are the specified ones, and the invariant holds at every exit, throws included |
| Validate.Context.Walk | src/runtime.bun.js:1091-1119 | the same for the dispatch on one schema node |
| Validate.Context.WalkUnion | src/runtime.bun.js:1107-1114 | the same for the loop over arms |
| Validate.Context.WalkArray | src/runtime.bun.js:1157-1167 | the same for the loop over elements |
| Validate.Context.WalkObject | src/runtime.bun.js:1168-1182 | the same for the loops over required keys and properties |
| Validate.Context.WalkProperties | src/runtime.bun.js:1176-1182 | the same for the loop over properties, absent ones skipped |
| Validate.Parse | src/runtime.bun.js:413-432 | a root call with a fresh context returns the specified verdict |
| SelfLoop.LoopNeedsLicense | src/runtime.bun.js:446-460 | an object that is its own `next` is accepted under a cyclic list declaration and rejected under an acyclic one |
| SelfLoop.ListIsInhabited | src/runtime.bun.js:322-329 | the escape check passes a list with an optional `next`, which has a value |
| SelfLoop.LoopNeedsTracking | src/runtime.bun.js:718-748 | that object is refused by the encoder without identity tracking, and round-trips with it |
| FastPath.FastPathAgrees | src/runtime.bun.js:284-296 | a declaration without references gets the same verdict without any machinery, on cyclic values too |
| FastPath.DeclAgrees | src/runtime.bun.js:413-414 | the memo and the in-flight map never change the verdict of such a declaration |
| EscapeReject.DeclRejects | src/runtime.bun.js:335-359 | when the check throws, a loop of acyclic declarations and mandatory edges passes through the declaration it names |
| EscapeReject.NamedClosesLoop | src/runtime.bun.js:335-351 | the declaration that the exception names is the first of the loop on the path from the root: the loop runs from it, along acyclic declarations and mandatory edges, to the end of the path and back to it |
| EscapeReject.ItemsGoFirst | src/runtime.bun.js:383-385 | of several failures the one that is named comes from the items, if they fail, |
| EscapeReject.ArmsGoNext | src/runtime.bun.js:386-392 | and else from the first arm that fails, |
| EscapeReject.FieldsGoLast | src/runtime.bun.js:393-399 | and else from the first field that fails |
| EscapeReject.MandatoryHolds | src/runtime.bun.js:1157-1182 | a valid value contains a valid value of every declaration that its schema makes mandatory |
| EscapeReject.DeclCloses | src/runtime.bun.js:435-502 | the validator accepts no entry into a loop of acyclic declarations and mandatory keywords and memoizes none of its pairs, whatever its verdict, its path, and the unions and cyclic declarations of the registry |
| EscapeReject.RejectionIsSound | src/runtime.bun.js:322-351 | when the check throws, the validator accepts no value for the declaration it names, in any heap, whatever other declarations and unions there are and whatever keywords off the mandatory paths are switched off by a `type` |
| EscapeAccept.LoopThrows | src/runtime.bun.js:337-351 | walking into a loop of acyclic declarations and mandatory edges makes the check throw |
| EscapeAccept.RouteThrows | src/runtime.bun.js:353-357 | so does a route of references that leads to such a loop |
| EscapeAccept.Build | src/runtime.bun.js:1157-1182 | a satisfiable schema has a value in an extended heap, given values of what it demands, not null only where null may not stand; of a union the arm that is not recursive gives it |
| EscapeExact.RejectedIsEmpty | src/runtime.bun.js:322-403 | when the check throws, a reachable declaration has no value in any heap |
| EscapeExact.CheckExact | src/runtime.bun.js:322-403 | without cyclic declarations, and if the leaves are satisfiable and every union has an arm all of whose demands lie lower in an order that does not rise along demands, the check passes if and only if every reachable declaration has a value that the validator accepts |
| Inhabitation.DeclDerives | src/runtime.bun.js:435-502 | whatever a walk accepts or memoizes can be derived from satisfiable leaves in finitely many rounds of demands, among acyclic declarations |
| Inhabitation.InhabitedExactly | src/runtime.bun.js:435-502 | an acyclic declaration has a value that the validator accepts if and only if finitely many rounds derive it |
| Inhabitation.PassingIsEnoughExactly | src/runtime.bun.js:322-403 | every reachable declaration has a value if and only if the check passes and there is an order that does not rise along demands and in which every union has a non-recursive arm |
| Anchors.DeclAnchored | src/runtime.bun.js:435-502 | a reference is accepted if it leads down, or back to a pair of a cyclic declaration that the levels say is on the path, provided that no cap or bound on cycles lies below the longest path |
| Anchors.AnchoredComplete | src/runtime.bun.js:435-502 | so a value is accepted whose loops lead back to pairs of cyclic declarations |
| EscapeCycles.StockBreaker | src/runtime.bun.js:340-345 | in a heap with values for the anchors of a stage, a cyclic declaration gets a value inside which it refers back to itself, and no other value changes |
| EscapeCycles.FoldableIsInhabited | src/runtime.bun.js:322-351 | if the check passes, loops through cyclic declarations included, every reachable declaration has a value that the validator accepts, where unions have a non-recursive arm and each loop can be broken at an object or array of a cyclic declaration |
| EscapeCycles.CyclesExact | src/runtime.bun.js:322-403 | under those conditions the check passes if and only if every reachable declaration has a value |
| CyclicExamples.PairingIsInhabited | src/runtime.bun.js:340-345 | an acyclic and a cyclic declaration that require each other pass and have values |
| CyclicExamples.LoopNeedsTail | src/runtime.bun.js:340-345 | the check passes them, but an object of the acyclic one that is reached again from its own field is rejected, so its value needs a tail before the loop |
| CyclicExamples.RenamedIsEmpty | src/runtime.bun.js:340-345 | the check passes an acyclic name for a cyclic declaration that requires the name, and no heap has a value for it |
| CyclicExamples.RenamedIsNotFoldable | src/runtime.bun.js:340-345 | no order admits that name, so it is a case that the equivalence leaves out |
| EscapeExamples.IgnoredKeyword | src/runtime.bun.js:383-399 | the check rejects a declaration that has values, because of a keyword its `type` switches off |
| EscapeExamples.LoopingArmsAreEmpty | src/runtime.bun.js:386-392 | the check passes a union all of whose arms loop, and no heap has a value for it |
| EscapeExamples.LoopingArmsAreRecursive | src/runtime.bun.js:386-392 | no order admits such a union, so it is a case that the equivalence leaves out |
| EscapeExamples.RequiredNullableIsEmpty | src/runtime.bun.js:386-399 | the check passes a required property of type `T` or null inside `T`, and no heap has a value for it, because a required property may not be null |
| EscapeExamples.RequiredNullableIsRecursive | src/runtime.bun.js:386-399 | such a property has no place in any order, so the equivalence leaves it out |
| EscapeExamples.NullableIsBuildable | src/runtime.bun.js:386-399 | recursion through null elements of a non-empty array is inside the equivalence, also beside a required property that needs the same declaration not null |
| EscapeExamples.OptionalLoopRejectsRoot | src/runtime.bun.js:393-399 | the check rejects a root that has a value, because of a loop behind an optional field |
| EscapeRun.Checker.EnterDecl | src/runtime.bun.js:335-359 | the mutable maps and the counter compute the specified outcome, and are restored when the check does not throw |
| EscapeRun.Checker.VisitNode | src/runtime.bun.js:383-399 | the same for the edges of a schema node, in visiting order |
| EscapeRun.RunCheck | src/runtime.bun.js:330-403 | the check that runs computes the specified outcome |
| MsgPack.HeadBack | src/runtime.bun.js:624-697 | every token is read back, consuming exactly its own bytes; `undefined` reads as null |
| MsgPack.NumBack | src/runtime.bun.js:627-656 | every integer of the int format family is read back with its sign |
| MsgPack.StrBack | src/runtime.bun.js:598-613 | every string token is read back |
| TokenTables.IntTokens | src/runtime.bun.js:627-652 | each integer has the first byte and the big-endian payload of the first format of the int family that holds it |
| TokenTables.NoShorterInt | src/runtime.bun.js:627-652 | and no token that the decoder takes for the integer is shorter |
| TokenTables.StrTokens | src/runtime.bun.js:598-613 | a string has the shortest head for its length, and its bytes |
| TokenTables.ContainerTokens | src/runtime.bun.js:668-698 | arrays and objects have the shortest head for their size |
| TokenTables.OtherTokens | src/runtime.bun.js:624-666 | nil, booleans, float 64 and the 64-bit integers have their tokens, and a bigint has one if and only if it is in [-2^63, 2^64) |
| TokenTables.ReferenceTokens | src/runtime.bun.js:581-596 | a backreference is an ext 8 of type 0x50 whose length byte counts its payload, the index as an unsigned integer in its shortest format |
| ReadTables.HeadIsRead | src/runtime.bun.js:882-939 | every first byte and the number after it mean what the specification of the format says, and give the end of the input or an unsupported token otherwise |
| ReadTables.TextIsRead | src/runtime.bun.js:902-905 | a string is read at the length that its head announces, or fails at the end of the input |
| ReadTables.KeyIsText | src/runtime.bun.js:927-933 | a key that is no string fails |
| ReadTables.ReferenceIsRead | src/runtime.bun.js:844-861 | a backreference is read in every spelling: fixext 1 to 8 or ext 8 with any length byte, and any format of an unsigned integer up to 32 bits |
| ReadTables.ReadIsReference | src/runtime.bun.js:844-861 | and nothing else is read as one |
| ReadTables.ReferenceErrors | src/runtime.bun.js:844-861 | another ext type, a payload that is no such integer and the end of the input have their errors |
| MsgBuffers.Writer.Ensure | src/runtime.bun.js:533-541 | growing by doubling makes room and keeps what was written |
| MsgBuffers.Writer.Raw | src/runtime.bun.js:571-575 | the bytes are appended, whether or not the buffer was replaced |
| MsgBuffers.Reader.Bytes | src/runtime.bun.js:788-790 | nothing past the end is read, and what is read is consumed |
| Codec.EncDecl | src/runtime.bun.js:714-770 | the identity table only gains entries; encoding ends on every cyclic heap |
| Codec.EncVal | src/runtime.bun.js:617-710 | the same for a value at a schema position |
| Codec.DecDecl | src/runtime.bun.js:942-1006 | on every byte string decoding ends, consumes input on success, leaves existing cells alone, and builds no more values than bytes |
| Codec.DecVal | src/runtime.bun.js:864-940 | the same for a value at a schema position, filling the shell it was given |
| Codec.PropertyAt | src/runtime.bun.js:699-702 | a field is written and read at the schema of the property with its key, and without a schema if there is none |
| CodecLaws.KeptInOrder | src/runtime.bun.js:688-690 | the fields that are not `undefined` are written, in their order |
| CodecLaws.PutIsAssignment | src/runtime.bun.js:934-934 | a key that comes twice holds the value that came last, and no other key changes |
| CodecLaws.EntriesRefused | src/runtime.bun.js:730-757 | an object that encloses itself at the same acyclic declaration is refused, with or without `preserve`, and so is one nested through `$ref` beyond its cap |
| CodecLaws.EntriesReferred | src/runtime.bun.js:722-742 | an object with an index is written as that index where its declaration is cyclic or preserves identity |
| CodecLaws.ValuesRefused | src/runtime.bun.js:657-686 | an object without a declaration that encloses itself is refused, and so are unknown names and bigints of more than 64 bits |
| CodecLaws.ReferencesFollowed | src/runtime.bun.js:947-972 | a backreference is followed if and only if its declaration is cyclic or preserves identity, its index is known, and an object still open is referred to as `cyclic` allows; each failure has its error |
| CodecLaws.RingBytes | src/runtime.bun.js:735-742 | a ring through the second of two properties is written as one object and a backreference, byte for byte |
| CodecLaws.RingReturns | src/runtime.bun.js:617-1012 | and those bytes decode to a ring, with anything after them |
| CodecLaws.SharedBytes | src/runtime.bun.js:717-742 | an object that an array lists twice is written once and referred to if its declaration preserves identity, and twice if not |
| ReadTables.StrayReferenceFails | src/runtime.bun.js:872-879 | where no declaration is entered a backreference fails as misplaced, and a malformed one as what it is |
| ReadTables.EntryFails | src/runtime.bun.js:947-981 | at a declaration a malformed backreference fails as such, and any value fails beyond the cap on nesting |
| CodecReplay.RefBack | src/runtime.bun.js:581-596 | a backreference token is read back as its index |
| CodecReplay.DeclReplays | src/runtime.bun.js:714-1006 | from states in step, the decoder replays the encoder: the next index equals the number of objects seen, every index resolves to the counterpart, and finished cells are replicas |
| CodecReplay.TrackedReplays | src/runtime.bun.js:740-762 | the same where a shell is registered before it is filled, so that ancestors can be referred to |
| CodecReplay.ValReplays | src/runtime.bun.js:617-940 | the same for a value at a schema position |
| CodecReplay.FieldsReplay | src/runtime.bun.js:686-706 | the same for the fields of an object, `undefined` ones dropped |
| CodecTheorems.RoundTrip | src/runtime.bun.js:617-1012 | encoded bytes, with anything after them, decode if and only if the decoder's own guards hold; they are consumed exactly and give a replica in which each tracked object has one image; untracked aliases of untracked declarations are included |
| CodecTheorems.RoundTripUncapped | src/runtime.bun.js:960-981 | without caps, and with unbounded cycles or none in the heap, what the encoder returned decodes if and only if no token lies under more than 1024 containers; untracked aliases included |
| Truncation.DecodingStays | src/runtime.bun.js:786-1012 | what decodes does not depend on the bytes after it, and what fails before its input ends fails alike whatever comes next |
| Truncation.CutEncodingFails | src/runtime.bun.js:786-1012 | an encoding that decodes, cut anywhere short of its end, fails with the end of the input, never with a value and never with another error |
| EncodeSucceeds.EncodableEncodes | src/runtime.bun.js:714-770 | a graph is encoded, not refused, if heights fall along all references except those between objects of cyclic declarations and no depth cap is below the number of objects (plus one for a root that is an alias), and the decoder's guards hold unless that number exceeds 1024 or, counted once for every alias of the longest chain, a bound on cycles; untracked aliases of untracked declarations are included |
| EncodeSucceeds.GraphRoundTrip | src/runtime.bun.js:617-1012 | under those conditions on the heap and the registry, in which a field is met at the schema of the property with its key, the graph round-trips, with anything after it |
| EncodeSucceeds.AcyclicEncodes | src/runtime.bun.js:617-770 | an acyclic value is encoded, and passes the decoder's guards, if references resolve, bigints fit and its nesting (plus one for a root that is an alias) exceeds no depth cap and not 1024 |
| EncodeSucceeds.AcyclicRoundTrip | src/runtime.bun.js:617-1012 | such a value round-trips to a replica, with anything after it, consumed exactly; the condition speaks of the heap and the registry only |
| EncodeSucceeds.AcyclicRoundTripUncapped | src/runtime.bun.js:617-1012 | without caps an acyclic value of any nesting is encoded, and the bytes decode if and only if no token lies under more than 1024 containers |
| EncodingHalts.EncodingHalts | src/runtime.bun.js:617-770 | the encoder returns or throws one of its own errors on every finite heap, unless an array is reached in a schema-less region that holds itself through arrays alone |
| EncodingHalts.EncodingHaltsEverywhere | src/runtime.bun.js:617-770 | in particular from every root of a heap on which a height falls from each array to the arrays among its elements |
| EncodingHalts.RingExhausts | src/runtime.bun.js:668-680 | arrays that lead back to each other through first elements never end where no schema reaches them, from any state |
| EncodingReach.VisitedSites | src/runtime.bun.js:617-770 | an encoding that succeeds has visited everything that the schema reaches, tracked objects at one tracked declaration each, and no loop without a tracked declaration is among it |
| EncodingReach.ReachedLoopRefused | src/runtime.bun.js:682-770 | a loop without a tracked declaration is refused wherever a route leads to it from the root, across tracked declarations too where each object on the way is met at one tracked body |
| CodecTheorems.SiteRefused | src/runtime.bun.js:682-706 | a walk that enters a loop without a tracked declaration is refused, in every state and from every member of the loop |
| Aliases.AliasNeverDecodes | src/runtime.bun.js:717-762 | an object of a tracked declaration whose body is another tracked declaration is registered twice, and its encoding never decodes |
| Aliases.AliasRefusesReference | src/runtime.bun.js:942-973 | behind an untracked alias of a tracked declaration, the encoder writes a reference to an object it has met before, and the decoder refuses it there |
| Aliases.AliasShellStaysEmpty | src/runtime.bun.js:983-1000 | behind a tracked alias the decoder registers a shell that stays empty and returns another object, so a later reference reads as an empty container |
| CodecTheorems.DecodeBounded | src/runtime.bun.js:1008-1012 | no more values are built than bytes are given, and a value consumes at least one byte, if no tracked declaration is an alias |
| Aliases.AliasOutgrowsInput | src/runtime.bun.js:986-999 | behind such an alias one byte builds two objects |
| Aliases.BoundExactly | src/runtime.bun.js:983-1012 | where aliases lead to declarations that can be entered, the decoder builds no more values than bytes on every input if and only if no tracked declaration is an alias |
| DecodedHeap.DecodedIsProper | src/runtime.bun.js:1008-1012 | whatever decodes is a value of a closed heap with distinct own keys |
| DecodedNesting.DecodedIsLayered | src/runtime.bun.js:864-940 | every cell has a level of at most 1024, and what a cell holds is one level below it or a tracked object |
| DecodedNesting.DecodedNesting | src/runtime.bun.js:864-940 | so no path in a decoded value has more than 1025 objects between one tracked object and the next |
| DecodedNesting.DeepTokenFails | src/runtime.bun.js:880-880 | a token under 1025 containers fails, and a primitive under 1024 does not |
| EncoderRun.Encoder.EncodeDecl | src/runtime.bun.js:714-770 | the encoder that updates its context in place writes the specified bytes or raises the specified error, and restores its path |
| EncoderRun.Encoder.EncodeEntered | src/runtime.bun.js:746-769 | registration in preorder, and restoration whatever the outcome |
| EncoderRun.Encoder.Register | src/runtime.bun.js:750-762 | entering marks the pair in flight, counts the reference, and gives a tracked object the next index, before its children |
| EncoderRun.Encoder.EncodeVal | src/runtime.bun.js:617-710 | the same for a value at a schema position |
| EncoderRun.Encoder.EncodeObject | src/runtime.bun.js:682-708 | the same for an object, its raw stack entry removed on every exit |
| EncoderRun.Encoder.WriteNumber | src/runtime.bun.js:627-653 | the shortest format of the int family is appended |
| EncoderRun.Encoder.WriteReference | src/runtime.bun.js:735-741 | the ext8 token of a backreference is appended |
| EncoderRun.KeptFields | src/runtime.bun.js:688-690 | the keys that are written are those of fields that are not undefined, in order |
| EncoderRun.RunEncode | src/runtime.bun.js:772-783 | the encoder that runs ends, and returns the specified bytes or error, on every heap without a schema-less loop of arrays alone |
| DecoderRun.Decoder.DecodeMaybeRef | src/runtime.bun.js:842-862 | a backreference is read if one comes next, and otherwise nothing is consumed |
| DecoderRun.Decoder.DecodeEntered | src/runtime.bun.js:975-1005 | the depth counter and the path depth are restored whatever the outcome |
| DecoderRun.Decoder.DecodeBody | src/runtime.bun.js:983-1000 | the shell is registered before it is filled, and marked finished afterwards |
| DecoderRun.Decoder.DecodeVal | src/runtime.bun.js:864-940 | the decoder that updates its context in place does the specified step |
| DecoderRun.Decoder.DecodeElems | src/runtime.bun.js:912-920 | the same for the loop over elements |
| DecoderRun.Decoder.DecodeFields | src/runtime.bun.js:921-938 | the same for the loop over keyed fields |
| DecoderRun.RunDecode | src/runtime.bun.js:1008-1012 | the decoder that runs returns the specified value and heap, or the specified fault |
| Decimals.SumsAreExact | src/runtime.bun.js:118-163 | addition, subtraction and negation are exact, at the smaller of the two exponents |
| Decimals.AbsIsExact | src/runtime.bun.js:204-206 | the absolute value is exact |
| Decimals.ProductIsExact | src/runtime.bun.js:164-167 | multiplication is exact |
| Decimals.ComparisonIsOrder | src/runtime.bun.js:207-211 | comparison is the order of the numbers, however they are written |
| Decimals.ComparisonIsTotal | src/runtime.bun.js:207-226 | comparison is a total order, and equality is equality of value |
| Decimals.ComparisonRespectsSums | src/runtime.bun.js:154-211 | adding to both sides keeps the order, subtracting both reverses it |
| Decimals.ComparisonRespectsProducts | src/runtime.bun.js:164-211 | multiplying both sides by a positive number keeps the order |
| DecimalDivision.DigitCount | src/runtime.bun.js:60-74 | the number of digits brackets the number between powers of ten |
| DecimalDivision.RoundingIsHalfEven | src/runtime.bun.js:123-135 | dropping digits rounds to the nearest integer, ties to even |
| DecimalDivision.Settles | src/runtime.bun.js:176-186 | in range the scaling loop runs at most once, and the quotient then has exactly one digit more than the precision |
| DecimalDivision.KeptIsNear | src/runtime.bun.js:187-190 | the kept digits against the quotient, in integers: within six tenths, and half-even unless there is a false tie |
| DecimalDivision.KeptIsFar | src/runtime.bun.js:187-189 | out of range the second loop drops digits that nothing accounts for |
| DecimalQuotient.StripKeepsValue | src/runtime.bun.js:192-195 | moving trailing zeros into the exponent keeps the value, and leaves none |
| DecimalQuotient.DivisionAccuracy | src/runtime.bun.js:168-197 | the result is within six tenths of a unit in the last place if and only if the quotient of the coefficients is in range |
| DecimalQuotient.DivisionRounds | src/runtime.bun.js:168-197 | in range the result has the leading digits of the quotient, rounded half to even if and only if there is no false tie |
| DecimalQuotient.QuotientThatFits | src/runtime.bun.js:168-197 | a quotient that fits in the precision is returned exactly if and only if it is in range |
| DecimalQuotient.DivisionOfZero | src/runtime.bun.js:170-171 | division fails if and only if the divisor is zero, and zero divided by anything else is the pair (0, 0) |
| DecimalQuotient.DefaultPrecision | src/runtime.bun.js:172-172 | a missing precision and 0 are 20, and a negative one is 1 |
| DecimalQuotient.LargeQuotientShrinks | src/runtime.bun.js:187-189 | at one digit of precision 1000 / 1 comes out as 10 |
| DecimalQuotient.FalseTieRoundsDown | src/runtime.bun.js:190-190 | at one digit of precision 51 / 2 comes out as 20 |
| DecimalText.ParserIsGrammar | src/runtime.bun.js:75-117 | the parser accepts exactly the literals of a grammar, and reads each as what it denotes |
| DecimalText.LiteralParses | src/runtime.bun.js:80-117 | every literal of the grammar is accepted |
| DecimalText.ParsedIsLiteral | src/runtime.bun.js:80-117 | nothing else is accepted |
| DecimalText.LiteralValue | src/runtime.bun.js:110-116 | what a literal denotes is the number of its whole digits and of those after the point, with its sign, shifted by its exponent |
| DecimalText.TailErrors | src/runtime.bun.js:100-112 | after a number comes nothing, or an exponent with a digit and nothing else: each other tail has its error |
| DecimalText.FrontErrors | src/runtime.bun.js:77-98 | a string is invalid if and only if it is not empty and does not begin with a number |
| DecimalText.TrimIs | src/runtime.bun.js:76-76 | what is trimmed is white space on both sides, and what is left neither begins nor ends with any |
| DecimalText.PrintedPlainly | src/runtime.bun.js:236-245 | what is printed has a minus sign at most at its front, digits and a point, and no exponent |
| DecimalText.PrintParse | src/runtime.bun.js:236-245 | what is printed reads back as the same number, and as the identical pair exactly when no positive exponent was written out and no zero lost its exponent |
| DecimalRun.PowerTable.Power | src/runtime.bun.js:51-57 | entry i of the table is 10^i at all times, and the table only grows |
| DecimalRun.PowerTable.CountDigits | src/runtime.bun.js:60-74 | counting sixteen digits at a time gives the number of digits |
| DecimalRun.PowerTable.DividedBy | src/runtime.bun.js:168-197 | the loops compute the specified quotient |
| DecimalRun.PowerTable.ScaleUp | src/runtime.bun.js:176-186 | the scaling loop ends, at the specified shift |
| DecimalRun.PowerTable.ShortenTo | src/runtime.bun.js:187-189 | the rounding loop ends, at the specified quotient |
| DecimalRun.PowerTable.StripZeros | src/runtime.bun.js:192-195 | the stripping loop ends, at the specified decimal |
| DecimalRun.ParseText | src/runtime.js:389-431 | the index-based parser computes the specified result, errors included |
| Memo.MemoIsSound | src/runtime.js:608-690 | in every run, each entry is what the function returned for exactly that key, and no rejection of that very result has been seen; a result that is no promise is never rejected |
| Memo.MemoIsTransparent | src/runtime.js:325-342 | memoizing a function of the key changes no answer |
| Memo.EntryPersists | src/runtime.js:608-690 | while nothing invalidates an entry it stays, and the function is not run again for its key |
| Memo.MemoRunsOnce | src/runtime.js:667-673 | once a call has returned at a live place, calls with its key give its value and do not run the function, until the entry is invalidated |
| Memo.RejectedStaysOut | src/runtime.js:339-341 | once the rejection of a stored result has been seen, no entry holds that result again |
| Memo.ClearForgetsAll | src/runtime.js:624-685 | after a clear, in each of the three wrappers, every entry was stored by a return that came after it, and the next call runs the function |
| Memo.ForgetForgetsOne | src/runtime.js:624-684 | the same after a forget, of its own key, while the entries of other keys stay |
| Memo.CutOffChangesNothing | src/runtime.js:667-685 | with nested maps a call that a clear has cut off changes no entry when it returns or its result rejects |
| Memo.KeysAgree | src/runtime.js:608-666 | two calls share an entry always, if their first arguments agree, or if all do |
| Memo.StaleRejectionEvicts | src/runtime.js:616-621 | a rejection that comes late evicts a newer result under the same key |
| Memo.EvictsAnother | src/runtime.js:616-690 | a rejection evicts the result of another call if and only if its own place is live and the entry under its key has another ticket |
| Memo.EvictsOwnUntilInvalidated | src/runtime.js:608-690 | while nothing has invalidated the entry since the call returned, what stands under its key is its own result, so its rejection evicts no other |
| Memo.ClearDuringCall | src/runtime.js:667-685 | a clear while a call runs: nested maps lose its result, the flat caches keep it |
| MemoRun.MemoZero.Enter | src/runtime.js:612-615 | the flag and the cached value refine the flat map |
| MemoRun.MemoZero.Forget | src/runtime.js:624-629 | forgetting empties the cache and tells whether there was a value |
| MemoRun.MemoOne.Leave | src/runtime.js:637-645 | the single map refines the flat map |
| MemoRun.MemoMany.Enter | src/runtime.js:655-667 | walking the trie, making nodes on the way, hits exactly the keys of the flat map; prefixes never collide |
| MemoRun.MemoMany.Walk | src/runtime.js:655-666 | the nodes on the path of the arguments exist afterwards, and the cache is what it was |
| MemoRun.MemoMany.Leave | src/runtime.js:668-669 | storing at a node the call holds updates exactly its key, or nothing once a clear has cut the node off |
| MemoRun.MemoMany.Reject | src/runtime.js:670-672 | an eviction removes exactly the key of its node, or nothing |
| MemoRun.MemoMany.Find | src/runtime.js:676-682 | a path is followed without making nodes, and breaks off exactly where the trie does |
| MemoRun.MemoMany.Forget | src/runtime.js:675-684 | forgetting removes one key, makes no nodes, and tells whether there was an entry |
| MemoRun.MemoMany.Clear | src/runtime.js:685-685 | clearing cuts off every node but the root |
| Disposal.Scope.Using | src/runtime.bun.js:4-17 | a declaration pushes one entry or none, and a failing one leaves the stack alone |
| Disposal.DeclareChooses | src/runtime.bun.js:8-13 | `await using` takes the asynchronous disposer and falls back on the other where there is none, `using` looks at the synchronous one only, and what is no function is an error |
| Disposal.DeclareOfPrimitives | src/runtime.bun.js:5-15 | null and `undefined` are skipped, though `await using` waits once, and any other primitive is an error |
| Disposal.FailsOrWaits | src/runtime.bun.js:1336-1344 | a disposer fails if it throws or is awaited and its promise rejects, and keeps the caller waiting if it is awaited and does not throw |
| Disposal.NothingIsLost | src/runtime.bun.js:1330-1335 | the final error carries the body's error and then every failure, in order of disposal, each once |
| Disposal.CleanIffNoFailure | src/runtime.bun.js:1345-1345 | disposal ends without an error if and only if nothing failed |
| Disposal.FinalStep | src/runtime.bun.js:1337-1344 | disposing of the top entry first and folding its failure does not change the final error |
| Disposal.Cleanup.Next | src/runtime.bun.js:1336-1346 | up to the next suspension the stack is exactly what is not yet disposed, each position was disposed once from the top down, and the final error is unchanged |
| Disposal.Cleanup.Resume | src/runtime.bun.js:1340-1340 | the same across a suspension, whether the promise is fulfilled or rejected |
| Disposal.DisposeAll | src/runtime.bun.js:1330-1347 | the outcome is the left fold over all failures, the order is LIFO, and the caller waits once for each entry that suspends |
| UnicodeTables.LookupIsFaithful | misctools/unicode-generator.ts:30-91 | the three stages give every code point its own element, or one that the comparison takes for it |
| UnicodeTables.TablesAreCompact | misctools/unicode-generator.ts:43-76 | the blocks of the second stage are distinct rows of code points, and the elements of the third stage are distinct |
| UnicodeTables.ReusedGeneratorForgets | misctools/unicode-generator.ts:15-18 | a generator that has run before emits no second stage |
| UnicodeTables.SetBitSets | misctools/gen-unicode-table.ts:31-34 | setting a bit changes that bit only |
| UnicodeTables.EmittedComparesWithZero | misctools/gen-unicode-table.ts:50-59 | the emitted lookup tells whether the predicate differs from its value at code point 0 |
| UnicodeTables.EmittedEnds | misctools/gen-unicode-table.ts:52-52 | past the last code point the emitted lookup is false |
| UnicodeTables.EmittedIsPredicate | misctools/gen-unicode-table.ts:50-59 | the emitted lookup is the predicate if and only if the predicate is false at code point 0 |
| UnicodeRun.Generator.Generate | misctools/unicode-generator.ts:30-91 | the single pass gives the specified tables, or an error exactly when an index does not fit 16 bits |
| UnicodeRun.Generator.PutIndex | misctools/unicode-generator.ts:40-56 | a code point gets the number of its element, found or added, in its place of the block, unless the number exceeds 16 bits |
| UnicodeRun.Generator.AddBlock | misctools/unicode-generator.ts:68-83 | a block is stored once and found again by content |
| UnicodeRun.PackBits | misctools/gen-unicode-table.ts:26-38 | bit k of word w is entry 64 w + k, the words fit 64 bits, and the bits past the end are clear |
| UnicodeRun.GenerateTable | misctools/gen-unicode-table.ts:40-65 | a table exists if and only if its offsets fit 16 bits, and looks the predicate up if and only if the predicate is false at code point 0 |

## Left out

- UTF-8 transcoding, IEEE doubles and `-0`: strings are byte sequences shorter than 2^32, and a number that is not written in an integer format is an opaque 8-byte payload.
- Leaf validators (`minLength`, `pattern`, `format`, `minimum`, dates, functions): a scalar declaration is an arbitrary predicate on primitives, and there are no function or Date values.
- Models that validate themselves (DSL form, lines 409-412), field accessors, property descriptors, prototype keys such as `__proto__`, and the text of error messages.
- Named reads on arrays: `length` and index keys read as absent, and a non-array object has only its own fields.
- The order that JavaScript gives to integer-like keys: fields keep the order in which they were added.
- The nested in-flight and memo maps (object to declaration) are maps and sets of pairs; garbage collection of weak keys is not modelled.
- The module slot `__paraValCtx` and the once-only flag of the escape check: each root call makes its own context, and validation starts after the check has passed. Registries do not change during a call.
- ValidatorTheorems.CyclicExact: asks for tame unions, resolved references and limits that the heap cannot reach; `AcceptsOutsideTheFixpoint` shows why unions matter, and `Limits` what limits do where they are reached.
- ValidatorTheorems.AcceptedCyclesAreLicensed: asks for unions all of whose arms but one reject objects; `CycleWithoutLicense` shows why.
- EscapeExact.CheckExact: does not cover unions all of whose arms are recursive, required properties that can only be null, cyclic declarations (`CyclesExact` does), depth caps of 0 (or of 1 where a declaration is demanded both with and without null), unsatisfiable leaves or misplaced mandatory keywords; the lemmas of `EscapeExamples` show where the equivalence fails.
- EscapeCycles.CyclesExact: gives a condition that is sufficient and not shown necessary: a chosen cyclic declaration that breaks a loop is an object or an array, an acyclic name on the loop does not lead to it, and caps and bounds on cycles are no smaller than the longest path the order makes room for; `RenamedIsEmpty` shows what an acyclic name can do.
- Validator.ValNode: delegates where the source walks in place, as the next line says of `ValDecl`.
- Validate.Context.Walk: the same, since it computes `ValNode`.
- Validator.ValDecl: enters `t` when the body of a declaration is itself the wrapped declaration `t`, where the source walks the keywords copied from `t` in place (line 1101); such a declaration is modelled by giving it the body of `t`.
- EncoderRun.RunEncode: excludes heaps in which an array is reached in a schema-less region that holds itself through arrays alone, which the raw stack does not guard and on which the source recurses until the engine stops it (`RingExhausts`).
- CodecTheorems.RoundTrip: states its exact condition through `shallow` and `licensed`, because the bound of `cyclic(x)` constrains depth-first back edges and not the graph; `GraphRoundTrip` and `AcyclicRoundTrip` give conditions on the heap. It asks that aliases are untracked and lead to untracked declarations; `Aliases` shows what goes wrong otherwise.
- EncodeSucceeds.GraphRoundTrip: asks that no `cyclic(x)` allows only cycles shorter than the number of objects (times the longest chain of aliases), and that no alias is tracked or leads to a tracked declaration.
- CodecTheorems.DecodeBounded: asks that no tracked declaration is an alias; `BoundExactly` shows the bound failing otherwise.
- DecimalText.PrintParse: does not model `parseInt` losing digits of an exponent above 2^53, nor decimals made from numbers by way of their own printing.
- DecimalDivision.Divide: takes an integer or missing `precision`; fractional and NaN options are not modelled.
- Memo.MemoIsSound: leaves out thenables that call back while `then` is being called, the receiver, and arguments beyond the key that the function can still see.
- Disposal.DisposeAll: the code that runs while a disposal is suspended is not modelled, since it cannot reach the stack; getters that throw while a declaration looks a method up are left out.
- UnicodeRun.Generator.Generate: blocks are keyed by their content instead of its SHA-256 hash; no block is ever padded, because the last code point ends one.
- The emitted Zig text, the module and decorator helpers, ranges and defer, and everything under bench, demos, scripts, docs and editors.

# result containers — a Dafny model

This project models `io.github.artkonr.result`, a small Java library for
value-based error handling. It has two immutable containers, and each is
either OK or ERR. An ERR result always carries an exception.

- `Result<V, E>` carries an item when it is OK.
- `FlagResult<E>` carries nothing when it is OK.

Both containers extend `BaseResult`, which holds the single nullable `error`
field. When two results are combined and both failed, the `TakeFrom` rule
(`HEAD` or `TAIL`) decides which error survives.

The model has five modules:

- `Runtime` covers the Java pieces the library relies on:
  - null and `Optional`, as `Option`;
  - exception classes as a chain of superclasses (`Kind`), with
    `isAssignableFrom` as `AssignableFrom`;
  - exception objects, as `Exception(kind, identity)`, where `identity` stands
    for the object reference (Java compares exceptions by reference);
  - what an action does when run (`Outcome`, `Completion`);
  - what a call throws (`Signal`, `Call`).
- `BaseResults` models `BaseResult.java`. `BaseResult` is the error field
  alone, and both containers expose it through `AsBase()`. Java methods that
  take a `BaseResult` take this view.
- `Rules` models `TakeFrom.java`.
- `Results` models `Result.java`. Instance methods are members of the
  `Result<V>` datatype. Static methods (`from`, `join`, `wrap`) are module-level
  functions.
- `FlagResults` models `FlagResult.java`. It also holds `Result.drop` as
  `Drop`, because Dafny does not allow two modules to import each other.
  `chain` is a method with a loop. Its second out-parameter records which
  suppliers were invoked, in order.

Every other operation is a function. The model covers three kinds of
callback differently:

- A callback that the Java code calls becomes a Dafny function argument.
- Where the library promises not to call a callback, the argument is a
  partial function (`-->`), and it only has to be defined where the code
  calls it. Examples are `flatMap` on ERR and the predicate of `isErrAnd`
  on OK.
- A hook that only has a side effect (`ifOk`, `ifErr`, `peek`, `peekErr`)
  returns whether its callback runs and what argument the callback
  receives.

`join` and `chain` take a Java `Collection`. The model uses a sequence, so
"first" and "last" mean sequence order.

## Model

| member | source | states |
|---|---|---|
| BaseResults.BaseResult.IsErr | src/main/java/io/github/artkonr/result/BaseResult.java:38-48 | `isErr` is the exact complement of `isOk` |
| BaseResults.BaseResult.IsErrAndKind | src/main/java/io/github/artkonr/result/BaseResult.java:59-61 | true iff the result is ERR and the error's class is assignable to the given type |
| BaseResults.BaseResult.IsErrAnd | src/main/java/io/github/artkonr/result/BaseResult.java:71-73 | true iff ERR and the predicate holds on the stored error; the predicate need not be defined on OK, where it is never called |
| BaseResults.BaseResult.GetErr | src/main/java/io/github/artkonr/result/BaseResult.java:80-86 | returns exactly the stored error on ERR; throws IllegalState on OK |
| BaseResults.BaseResult.IfOk | src/main/java/io/github/artkonr/result/BaseResult.java:128-132 | the action runs iff the result is OK |
| BaseResults.BaseResult.IfErr | src/main/java/io/github/artkonr/result/BaseResult.java:140-144 | the action runs iff the result is ERR |
| BaseResults.BaseResult.IfErrAccept | src/main/java/io/github/artkonr/result/BaseResult.java:152-156 | the consumer runs iff ERR, and it receives what `getErr` returns |
| BaseResults.HooksPartitionStates | src/main/java/io/github/artkonr/result/BaseResult.java:128-156 | exactly one of `ifOk` and `ifErr` runs; the consumer form gets the stored error |
| BaseResults.IsErrAndExceptionIsIsErr | src/main/java/io/github/artkonr/result/BaseResult.java:59-61 | `isErrAnd(Exception.class)` equals `isErr` |
| BaseResults.IsErrAndKindWidens | src/main/java/io/github/artkonr/result/BaseResult.java:59-61 | a match against a class is also a match against each of its superclasses |
| BaseResults.IsErrAndKindIsPredicate | src/main/java/io/github/artkonr/result/BaseResult.java:59-73 | the type form equals the predicate form with the assignability test as predicate |
| BaseResults.OkNeverErrAnd | src/main/java/io/github/artkonr/result/BaseResult.java:59-73 | both `isErrAnd` forms are false on OK |
| Runtime.ExceptionAssignableFromAll | src/main/java/io/github/artkonr/result/BaseResult.java:60 | every exception class is assignable to `Exception` |
| Runtime.AssignableTransitive | src/main/java/io/github/artkonr/result/BaseResult.java:60 | `isAssignableFrom` is transitive |
| Runtime.AssignableAntisymmetric | src/main/java/io/github/artkonr/result/BaseResult.java:60 | two classes assignable to each other are the same class |
| Runtime.AssignableNotDeeper | src/main/java/io/github/artkonr/result/BaseResult.java:60 | a class is assignable only to classes no deeper in the hierarchy |
| Runtime.StandardKinds | src/main/java/io/github/artkonr/result/Result.java:49 | NoSuchElementException is not an IllegalStateException; IllegalState and IllegalArgument are RuntimeExceptions; IOException is not |
| Runtime.NonNull | src/main/java/io/github/artkonr/result/Result.java:120-122 | filtering nulls keeps exactly the present elements, none added |
| Runtime.NonNullPrepend | src/main/java/io/github/artkonr/result/Result.java:120-122 | filtering nulls keeps the sequence order |
| Rules.TakeFrom.TakeError | src/main/java/io/github/artkonr/result/TakeFrom.java:31-49 | present iff some input is ERR, and always one of the inputs' own errors; with both ERR, HEAD takes head's and TAIL takes tail's error; with one ERR, that one's error |
| Rules.RuleMattersOnlyWhenBothErr | src/main/java/io/github/artkonr/result/TakeFrom.java:32-48 | HEAD and TAIL agree unless both inputs are ERR |
| Rules.RulesMirror | src/main/java/io/github/artkonr/result/TakeFrom.java:31-49 | HEAD on (h, t) equals TAIL on (t, h) |
| Results.Result.Item | src/main/java/io/github/artkonr/result/Result.java:22 | the item field is set exactly on OK |
| Results.Result.AsBase | src/main/java/io/github/artkonr/result/Result.java:450-453 | the base view has the same state and the very same error |
| Results.Result.Get | src/main/java/io/github/artkonr/result/Result.java:141-147 | returns the item on OK; throws IllegalState on ERR |
| Results.Result.Fuse | src/main/java/io/github/artkonr/result/Result.java:165-176 | OK with `Fuse(this.item, another.item)` iff both are OK; otherwise the error that `TakeFrom.HEAD` selects |
| Results.Result.FuseBase | src/main/java/io/github/artkonr/result/Result.java:196-206 | OK iff both are OK, keeping this item; the error is the one `TakeFrom.HEAD` selects |
| Results.Result.Map | src/main/java/io/github/artkonr/result/Result.java:243-249 | same state and same error; the item is remapped on OK |
| Results.Result.Swap | src/main/java/io/github/artkonr/result/Result.java:228-230 | same state and same error; the new item on OK |
| Results.Result.FlatMap | src/main/java/io/github/artkonr/result/Result.java:262-268 | ERR keeps the same error without calling `remap`; OK gives `remap`'s result |
| Results.Result.MapErr | src/main/java/io/github/artkonr/result/Result.java:279-285 | same state; OK keeps the same item; ERR carries the remapped error |
| Results.Result.Taint | src/main/java/io/github/artkonr/result/Result.java:300-306 | always ERR; OK takes the factory's error and ERR keeps its own |
| Results.Result.TaintIf | src/main/java/io/github/artkonr/result/Result.java:325-336 | ERR iff ERR before or the condition holds on the item; the new error is built from the item |
| Results.Result.IfOkAccept | src/main/java/io/github/artkonr/result/Result.java:344-348 | the consumer runs iff OK, and it receives the item `get` returns |
| Results.Result.UnwrapOr | src/main/java/io/github/artkonr/result/Result.java:358-364 | the item on OK, the fallback on ERR |
| Results.Result.UnwrapOrGet | src/main/java/io/github/artkonr/result/Result.java:375-381 | the item on OK, the factory's value on ERR |
| Results.Result.Unwrap | src/main/java/io/github/artkonr/result/Result.java:391-397 | the item on OK; on ERR a Failure whose cause is the stored error |
| Results.From | src/main/java/io/github/artkonr/result/Result.java:70-76 | same state, with the very same item or error |
| Results.Equals | src/main/java/io/github/artkonr/result/Result.java:410-418 | equal results have the same state |
| Results.FirstErrIndex | src/main/java/io/github/artkonr/result/Result.java:124-127 | the first present ERR element, or none: no earlier element is ERR |
| Results.Items | src/main/java/io/github/artkonr/result/Result.java:128-130 | the items of all-OK results, one per result, in order |
| Results.Join | src/main/java/io/github/artkonr/result/Result.java:119-132 | ERR iff some element is ERR, carrying the first ERR's error in sequence order; otherwise OK with the items of the non-null elements, in order |
| Results.ConstructorsAndAccessors | src/main/java/io/github/artkonr/result/Result.java:86-100 | `ok(v)` is OK and `get` returns v; `err(e)` is ERR and `getErr` returns e; each accessor throws IllegalState in the other state |
| Results.FromIsCopy | src/main/java/io/github/artkonr/result/Result.java:70-76 | `from` returns an equal result |
| Results.EqualsIsStructural | src/main/java/io/github/artkonr/result/Result.java:410-418 | `equals` holds iff both are OK with equal items or both are ERR with the same error |
| Results.MapFunctor | src/main/java/io/github/artkonr/result/Result.java:243-249 | mapping the identity changes nothing, and two maps compose |
| Results.MapIsFlatMapOfOk | src/main/java/io/github/artkonr/result/Result.java:243-268 | `map(f)` equals `flatMap(v -> ok(f(v)))` |
| Results.FlatMapMonad | src/main/java/io/github/artkonr/result/Result.java:262-268 | left identity, right identity and associativity of `flatMap` with `ok` |
| Results.MapErrComposes | src/main/java/io/github/artkonr/result/Result.java:279-285 | `mapErr` with the identity changes nothing, and two error maps compose |
| Results.TaintLaws | src/main/java/io/github/artkonr/result/Result.java:300-336 | tainting twice keeps the first error; a condition that never holds changes nothing |
| Results.ExtractorsAgree | src/main/java/io/github/artkonr/result/Result.java:141-147 | on OK, `get`, `unwrap` and `unwrapOr` agree; on ERR, `unwrap` throws a Failure caused by `getErr`'s error and `unwrapOr` falls back |
| Results.FuseBaseKeepsLeftItem | src/main/java/io/github/artkonr/result/Result.java:165-206 | fusing with a base view equals fusing and keeping the left item |
| Results.JoinEmpty | src/main/java/io/github/artkonr/result/Result.java:119-132 | joining nothing is OK with an empty list |
| Results.JoinPrepend | src/main/java/io/github/artkonr/result/Result.java:119-132 | a null head is skipped, an ERR head decides the error, an OK head's item goes first; with JoinEmpty this fixes `join` |
| Results.JoinTwoIsFuse | src/main/java/io/github/artkonr/result/Result.java:119-176 | joining two results equals fusing them and listing the pair |
| Results.WrapAsWritten | src/main/java/io/github/artkonr/result/Result.java:43-57 | the code as written: a null return is caught and then treated like a thrown IllegalArgumentException, giving ERR with it when the expected class accepts IllegalArgumentException and IllegalState otherwise, the same as the corrected `wrap` on that thrown exception |
| Results.WrapAsWrittenSwallowsNullReturn | src/main/java/io/github/artkonr/result/Result.java:43-57 | as written, a null return gives ERR (RuntimeException expected) or IllegalState (IOException expected); the corrected `wrap` throws IllegalArgument in both cases |
| Results.Wrap | src/main/java/io/github/artkonr/result/Result.java:43-57 | a returned item gives OK; a null return gives IllegalArgument; a thrown exception of the expected class gives ERR with that very exception; any other gives IllegalState |
| Results.WrapAgreesExceptOnNull | src/main/java/io/github/artkonr/result/Result.java:43-57 | the code as written and the corrected `wrap` differ only on a null return |
| Results.WrapExpectingExceptionNeverUnexpected | src/main/java/io/github/artkonr/result/Result.java:49-54 | expecting `Exception` captures every thrown exception |
| Results.WrapScenarios | src/main/java/io/github/artkonr/result/Result.java:43-57 | a thrown IOException that was expected is captured as itself; a NoSuchElementException where IllegalStateException was expected gives IllegalState |
| FlagResults.FlagResult.AsBase | src/main/java/io/github/artkonr/result/FlagResult.java:533-535 | the base view has the same state and the very same error |
| FlagResults.FlagResult.Populate | src/main/java/io/github/artkonr/result/FlagResult.java:210-216 | OK gives `ok(item)`; ERR gives `err` with the same error |
| FlagResults.FlagResult.PopulateGet | src/main/java/io/github/artkonr/result/FlagResult.java:228-230 | like `populate`, with the factory's value |
| FlagResults.FlagResult.FuseBy | src/main/java/io/github/artkonr/result/FlagResult.java:267-272 | OK iff both are OK; the error is `rule.takeError(this, another)` |
| FlagResults.FlagResult.Fuse | src/main/java/io/github/artkonr/result/FlagResult.java:246-248 | OK iff both are OK; otherwise this's error if this is ERR, else another's |
| FlagResults.FlagResult.Peek | src/main/java/io/github/artkonr/result/FlagResult.java:281-286 | returns the same flag; the action runs iff OK |
| FlagResults.FlagResult.PeekErr | src/main/java/io/github/artkonr/result/FlagResult.java:295-301 | returns the same flag; the consumer receives the stored error iff ERR |
| FlagResults.FlagResult.PeekErrKind | src/main/java/io/github/artkonr/result/FlagResult.java:311-318 | returns the same flag; the consumer runs iff the error is of the given class |
| FlagResults.FlagResult.PeekErrIf | src/main/java/io/github/artkonr/result/FlagResult.java:329-336 | returns the same flag; the consumer runs iff the predicate accepts the error |
| FlagResults.FlagResult.MapErr | src/main/java/io/github/artkonr/result/FlagResult.java:357-363 | OK stays OK; ERR carries the remapped error |
| FlagResults.FlagResult.FlatMap | src/main/java/io/github/artkonr/result/FlagResult.java:374-380 | ERR returns the same error without calling `remap`; OK returns `remap`'s result |
| FlagResults.FlagResult.Taint | src/main/java/io/github/artkonr/result/FlagResult.java:395-401 | always ERR; OK takes the factory's error and ERR keeps its own |
| FlagResults.FlagResult.Fork | src/main/java/io/github/artkonr/result/FlagResult.java:414-420 | always ERR; OK takes the factory's error; ERR is returned unchanged |
| FlagResults.FlagResult.Recover | src/main/java/io/github/artkonr/result/FlagResult.java:426-428 | always OK |
| FlagResults.FlagResult.RecoverIf | src/main/java/io/github/artkonr/result/FlagResult.java:438-446 | OK iff it was OK or the condition holds on the error; otherwise the same error |
| FlagResults.FlagResult.RecoverKind | src/main/java/io/github/artkonr/result/FlagResult.java:455-465 | OK iff it was OK or the error's class is assignable to the type; otherwise the same error |
| FlagResults.FlagResult.Unwrap | src/main/java/io/github/artkonr/result/FlagResult.java:473-477 | nothing on OK; on ERR a Failure whose cause is the stored error |
| FlagResults.FlagResult.UnwrapChecked | src/main/java/io/github/artkonr/result/FlagResult.java:484-488 | nothing on OK; on ERR the stored error itself is thrown |
| FlagResults.From | src/main/java/io/github/artkonr/result/FlagResult.java:82-88 | the flag's base view is the source's: same state, same error, item dropped |
| FlagResults.Drop | src/main/java/io/github/artkonr/result/Result.java:214-220 | the result's state and very same error, without the item |
| FlagResults.Wrap | src/main/java/io/github/artkonr/result/FlagResult.java:30-37 | OK iff the action completes; otherwise ERR with the exception it threw |
| FlagResults.WrapExpecting | src/main/java/io/github/artkonr/result/FlagResult.java:56-70 | OK if the action completes; ERR with the very exception if it is of the expected class; otherwise IllegalState |
| FlagResults.Equals | src/main/java/io/github/artkonr/result/FlagResult.java:505-512 | equal flags have the same state |
| FlagResults.Errored | src/main/java/io/github/artkonr/result/FlagResult.java:186-189 | holds only ERR results, and is non-empty iff some element is ERR |
| FlagResults.ErroredFirst | src/main/java/io/github/artkonr/result/FlagResult.java:186-193 | the first entry of the filtered list is the first ERR element of the collection |
| FlagResults.ErroredLast | src/main/java/io/github/artkonr/result/FlagResult.java:186-194 | the last entry of the filtered list is the last ERR element of the collection |
| FlagResults.JoinBy | src/main/java/io/github/artkonr/result/FlagResult.java:184-199 | nulls are discarded; ERR iff some element is ERR; HEAD takes the first ERR element's error, TAIL the last one's |
| FlagResults.Join | src/main/java/io/github/artkonr/result/FlagResult.java:163-165 | ERR iff some element is ERR, with the first ERR element's error |
| FlagResults.ChainedFromFirstFailure | src/main/java/io/github/artkonr/result/FlagResult.java:128-141 | from a given position on, `chain` ends in ERR iff some later non-null supplier returns ERR, and then with the first such supplier's error |
| FlagResults.ChainedFindsFirstFailure | src/main/java/io/github/artkonr/result/FlagResult.java:122-145 | `chain` returns ERR iff some non-null supplier returns ERR, with the first such supplier's error; OK otherwise |
| FlagResults.InvokedFromInOrder | src/main/java/io/github/artkonr/result/FlagResult.java:127-130 | the suppliers invoked are non-null ones, each once, in increasing position order |
| FlagResults.InvokedFromStopsAtFailure | src/main/java/io/github/artkonr/result/FlagResult.java:129-134 | only the last invoked supplier can fail; it fails iff some supplier fails, and its error is the outcome |
| FlagResults.InvokedFromComplete | src/main/java/io/github/artkonr/result/FlagResult.java:129-134 | a non-null supplier is invoked whenever no earlier supplier failed |
| FlagResults.ChainInvokesUntilFirstFailure | src/main/java/io/github/artkonr/result/FlagResult.java:122-145 | `chain` invokes only non-null suppliers, in order; with OK it invoked all of them and none failed; with ERR it invoked exactly those up to the first that fails, that one last with its error returned, and none after it |
| FlagResults.Chain | src/main/java/io/github/artkonr/result/FlagResult.java:122-145 | returns what `Chained` defines, and the suppliers it invokes are exactly those `Invoked` lists, in that order |
| FlagResults.FromRestoresFlag | src/main/java/io/github/artkonr/result/FlagResult.java:82-88 | `from` of a flag's base view gives back the flag |
| FlagResults.DropIsFrom | src/main/java/io/github/artkonr/result/Result.java:214-220 | `drop` equals `FlagResult.from` applied to the result |
| FlagResults.DropThenPopulate | src/main/java/io/github/artkonr/result/FlagResult.java:210-216 | `drop().populate(x)` is `ok(x)` from OK and the original error from ERR, i.e. `swap(x)` |
| FlagResults.PopulateThenDrop | src/main/java/io/github/artkonr/result/FlagResult.java:210-216 | `populate(x).drop()` gives back the flag |
| FlagResults.DropCommutes | src/main/java/io/github/artkonr/result/Result.java:196-306 | `drop` commutes with `mapErr`, `taint` and `fuse` |
| FlagResults.FuseOkNeutral | src/main/java/io/github/artkonr/result/FlagResult.java:267-272 | OK is neutral for `fuse` under either rule |
| FlagResults.FuseMirror | src/main/java/io/github/artkonr/result/FlagResult.java:267-272 | `a.fuse(b, HEAD)` equals `b.fuse(a, TAIL)` |
| FlagResults.FuseAssociative | src/main/java/io/github/artkonr/result/FlagResult.java:267-272 | `fuse` is associative under either rule |
| FlagResults.ErroredAppend | src/main/java/io/github/artkonr/result/FlagResult.java:186-189 | appending an ERR element appends it to the filtered list; any other element leaves the list unchanged |
| FlagResults.JoinByAppend | src/main/java/io/github/artkonr/result/FlagResult.java:184-272 | joining one more element fuses it onto the join of the others with the same rule; a null is skipped |
| FlagResults.JoinIsFuseFold | src/main/java/io/github/artkonr/result/FlagResult.java:184-272 | `join(results, rule)` equals fusing the non-null elements left to right with the same rule |
| FlagResults.ChainIsJoinOfResults | src/main/java/io/github/artkonr/result/FlagResult.java:122-199 | `chain` selects the same error as `join` with HEAD over the suppliers' results |
| FlagResults.ResultJoinAgreesWithFlagJoin | src/main/java/io/github/artkonr/result/Result.java:119-132 | dropping the items of `Result.join` gives `FlagResult.join` of the dropped elements |
| FlagResults.EqualsIsStructural | src/main/java/io/github/artkonr/result/FlagResult.java:505-512 | `equals` holds iff the errors are equal, so all OK flags are equal |
| FlagResults.RecoverLaws | src/main/java/io/github/artkonr/result/FlagResult.java:426-465 | recovering `Exception`, or on a condition that always holds, is `recover()`; a condition that never holds changes nothing; the type form is the predicate form with the assignability test |
| FlagResults.FlatMapLaws | src/main/java/io/github/artkonr/result/FlagResult.java:374-380 | on ERR even a supplier that cannot be called leaves the error; on OK it is the supplier's result |
| FlagResults.TaintLaws | src/main/java/io/github/artkonr/result/FlagResult.java:395-420 | `fork` and `taint` agree; tainting twice keeps the first error |
| FlagResults.UnwrapForms | src/main/java/io/github/artkonr/result/FlagResult.java:473-488 | both unwraps throw in the same states; `unwrap`'s cause is what `unwrapChecked` throws |
| FlagResults.PeekIsBaseHook | src/main/java/io/github/artkonr/result/FlagResult.java:281-318 | `peek` and `peekErr` call back exactly when `ifOk` and `ifErr` would; peeking for `Exception` peeks at every error |
| FlagResults.WrapIsWrapExpectingException | src/main/java/io/github/artkonr/result/FlagResult.java:30-70 | untyped `wrap` equals typed `wrap` expecting `Exception` |

## Left out

- Lombok's `@NonNull` checks on arguments. Dafny values cannot be null, so no
  argument is ever null and the IllegalArgument path is not reachable. The
  exception is `wrap`'s action: a null return is modelled because it exposes the
  finding below. The same goes for callbacks that return null (`map`, `mapErr`,
  `taint`, `flatMap`, `populate(factory)`, `unwrapOr(factory)`): their results
  are never null. `join` and `chain` do filter nulls, so they take `Option`
  elements.
- Callback side effects are left out. Hooks only report whether their callback
  runs and what it receives. Exceptions thrown by callbacks are left out, except
  in `wrap`, where catching them is the whole point.
- `hashCode` is left out: it depends on Java's object hashes and on 32-bit
  overflow. `toString` is left out: it is string formatting.
- `FlagResult.upcast` only changes the static type.
  `BaseResult.taintMatching` is declared but not implemented by either class;
  `FlagResult.fork` is modelled in its place.
- Generic error types are left out. Every error is one concrete `Exception`
  value, so changing the static type (as in `taint`, `mapErr`) cannot be seen.
- `Failure.java`, `Wrap.java` and `Internal.java` are not part of this model.
  A thrown `Failure` is the `Failure(cause)` signal.
- The `getClass()` test in `equals` is not modelled. Each `Equals` compares
  two values of one container type, so a `Result` is never compared with a
  `FlagResult`.
- `chain` has an `isEmpty` branch that returns OK. The loop returns OK on an
  empty list anyway, so the model has no separate branch.

## Findings

| source | as written | input that shows it | evidently intended | confidence | as-written member | corrected member |
|---|---|---|---|---|---|---|
| src/main/java/io/github/artkonr/result/Result.java:45-56 | `Result.ok(item)` runs inside the `try`. When the action returns null, its null check throws IllegalArgumentException. The `catch (Exception)` catches it. The result is ERR when `errType` accepts IllegalArgumentException, and IllegalStateException otherwise | `wrap(RuntimeException.class, () -> null)` returns ERR holding an IllegalArgumentException. `wrap(IOException.class, () -> null)` throws IllegalStateException | throw IllegalArgumentException on a null return, as the method's own documentation says | high (not executed) | Results.WrapAsWritten, Results.WrapAsWrittenSwallowsNullReturn | Results.Wrap |

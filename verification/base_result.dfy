/** The state shared by both containers (BaseResult.java): one final
    `error` field, absent for an OK result and present for an ERR result,
    with the state predicates, the partial error accessor and the
    conditional hooks defined on it. */
module BaseResults {
  import opened Runtime

  /** A result seen only through its `error` field. Result and FlagResult
      each give their own view of this shape through `AsBase`. */
  datatype BaseResult = BaseResult(error: Option<Exception>) {

    /** `isOk`: the error field is null. */
    predicate IsOk()
    {
      error.None?
    }

    /** `isErr`: the error field is set; OK and ERR are exact complements. */
    predicate IsErr()
      ensures IsErr() <==> !IsOk()
    {
      error.Some?
    }

    /** `isErrAnd(type)`: ERR, and the stored error's class is `type` or a subclass of it. */
    predicate IsErrAndKind(kind: Kind)
      ensures IsErrAndKind(kind) ==> IsErr()
      ensures IsErrAndKind(kind) ==> AssignableFrom(kind, error.value.kind)
      ensures IsErr() && AssignableFrom(kind, error.value.kind) ==> IsErrAndKind(kind)
    {
      IsErr() && AssignableFrom(kind, error.value.kind)
    }

    /** `isErrAnd(predicate)`. The predicate only has to be defined on the
        stored error of an ERR result: on OK it is never consulted. */
    predicate IsErrAnd(test: Exception --> bool)
      requires IsErr() ==> test.requires(error.value)
      ensures IsErrAnd(test) ==> IsErr() && test(error.value)
      ensures IsErr() && test(error.value) ==> IsErrAnd(test)
    {
      IsErr() && test(error.value)
    }

    /** `getErr`: the stored error itself, or IllegalStateException on OK. */
    function GetErr(): (r: Call<Exception>)
      ensures r.Returns? <==> IsErr()
      ensures r.Returns? ==> error == Some(r.value)
      ensures r.Throws? ==> r.signal == IllegalState
    {
      if IsErr() then Returns(error.value) else Throws(IllegalState)
    }

    /** `ifOk(Runnable)`: whether the action runs. */
    function IfOk(): (invoked: bool)
      ensures invoked <==> IsOk()
    {
      IsOk()
    }

    /** `ifErr(Runnable)`: whether the action runs. */
    function IfErr(): (invoked: bool)
      ensures invoked <==> IsErr()
    {
      IsErr()
    }

    /** `ifErr(Consumer)`: the argument the consumer receives, or None when it is not called. */
    function IfErrAccept(): (argument: Option<Exception>)
      ensures argument.Some? <==> IsErr()
      ensures argument.Some? ==> GetErr() == Returns(argument.value)
    {
      if IsErr() then Some(error.value) else None
    }
  }

  /** Exactly one of the two Runnable hooks runs, and the consumer hook
      receives precisely what `getErr` would return. */
  lemma HooksPartitionStates(b: BaseResult)
    ensures b.IfOk() != b.IfErr()
    ensures b.IfErrAccept() == (if b.GetErr().Returns? then Some(b.GetErr().value) else None)
  {
  }

  /** Asking for java.lang.Exception is the same as asking `isErr`. */
  lemma IsErrAndExceptionIsIsErr(b: BaseResult)
    ensures b.IsErrAndKind(ExceptionKind) <==> b.IsErr()
  {
    if b.IsErr() {
      ExceptionAssignableFromAll(b.error.value.kind);
    }
  }

  /** A match against a class is also a match against each of its superclasses. */
  lemma IsErrAndKindWidens(b: BaseResult, narrow: Kind, wide: Kind)
    requires b.IsErrAndKind(narrow) && AssignableFrom(wide, narrow)
    ensures b.IsErrAndKind(wide)
  {
    AssignableTransitive(wide, narrow, b.error.value.kind);
  }

  /** The type test is the predicate test with the assignability check as predicate. */
  lemma IsErrAndKindIsPredicate(b: BaseResult, kind: Kind)
    ensures b.IsErrAndKind(kind) == b.IsErrAnd((e: Exception) => AssignableFrom(kind, e.kind))
  {
  }

  /** An OK result never satisfies `isErrAnd`, whatever the type or predicate. */
  lemma OkNeverErrAnd(kind: Kind, test: Exception --> bool)
    ensures !BaseResult(None).IsErrAndKind(kind)
    ensures !BaseResult(None).IsErrAnd(test)
  {
  }
}

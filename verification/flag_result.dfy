/** The payload-less container (FlagResult.java): OK carries nothing, ERR
    carries an exception. `chain` runs caller-supplied steps one after the
    other and is modelled as a loop; everything else builds a new value. */
module FlagResults {
  import opened Runtime
  import opened BaseResults
  import opened Rules
  import Results

  datatype FlagResult = FlagOk | FlagErr(error: Exception) {

    /** This flag seen as a BaseResult: the state and the very same error. */
    function AsBase(): (b: BaseResult)
      ensures b.IsOk() <==> FlagOk?
      ensures FlagErr? ==> b.error == Some(error)
    {
      BaseResult(if FlagOk? then None else Some(error))
    }

    /** `populate(item)`: OK with the item, or ERR with the same error. */
    function Populate<V>(item: V): (r: Results.Result<V>)
      ensures r.AsBase() == AsBase()
      ensures r.Ok? ==> r.item == item
    {
      if AsBase().IsOk() then Results.Ok(item) else Results.Err(error)
    }

    /** `populate(factory)`: `populate(factory.get())`. */
    function PopulateGet<V>(factory: () -> V): (r: Results.Result<V>)
      ensures r.AsBase() == AsBase()
      ensures r.Ok? ==> r.item == factory()
    {
      Populate(factory())
    }

    /** `fuse(another, rule)`: ERR with the error the rule selects, OK when neither failed. */
    function FuseBy(another: FlagResult, rule: TakeFrom): (r: FlagResult)
      ensures r.FlagOk? <==> FlagOk? && another.FlagOk?
      ensures r.AsBase().error == rule.TakeError(AsBase(), another.AsBase())
    {
      match rule.TakeError(AsBase(), another.AsBase())
      case Some(e) => FlagErr(e)
      case None => FlagOk
    }

    /** `fuse(another)`: `fuse(another, HEAD)`. */
    function Fuse(another: FlagResult): (r: FlagResult)
      ensures r.FlagOk? <==> FlagOk? && another.FlagOk?
      ensures r.FlagErr? ==> r.error == (if FlagErr? then error else another.error)
    {
      FuseBy(another, HEAD)
    }

    /** `peek(Runnable)`: the same instance, and whether the action runs. */
    function Peek(): (r: (FlagResult, bool))
      ensures r.0 == this
      ensures r.1 <==> FlagOk?
    {
      (this, AsBase().IsOk())
    }

    /** `peekErr(consumer)`: the same instance, and what the consumer receives. */
    function PeekErr(): (r: (FlagResult, Option<Exception>))
      ensures r.0 == this
      ensures r.1.Some? <==> FlagErr?
      ensures r.1.Some? ==> r.1.value == error
    {
      (this, if AsBase().IsErr() then Some(error) else None)
    }

    /** `peekErr(type, consumer)`: the consumer runs only on an error of that class. */
    function PeekErrKind(kind: Kind): (r: (FlagResult, Option<Exception>))
      ensures r.0 == this
      ensures r.1.Some? <==> FlagErr? && AssignableFrom(kind, error.kind)
      ensures r.1.Some? ==> r.1.value == error
    {
      (this, if AsBase().IsErrAndKind(kind) then Some(error) else None)
    }

    /** `peekErr(predicate, consumer)`: the consumer runs only on an error the predicate accepts. */
    function PeekErrIf(test: Exception --> bool): (r: (FlagResult, Option<Exception>))
      requires FlagErr? ==> test.requires(error)
      ensures r.0 == this
      ensures r.1.Some? <==> FlagErr? && test(error)
      ensures r.1.Some? ==> r.1.value == error
    {
      (this, if AsBase().IsErrAnd(test) then Some(error) else None)
    }

    /** `mapErr`: a new error on ERR; OK stays OK. */
    function MapErr(remap: Exception -> Exception): (r: FlagResult)
      ensures r.FlagOk? <==> FlagOk?
      ensures r.FlagErr? ==> r.error == remap(error)
    {
      if AsBase().IsErr() then FlagErr(remap(error)) else FlagOk
    }

    /** `flatMap`: on ERR the same error and `remap` is never called (it
        need not even be defined); on OK whatever `remap` returns. */
    function FlatMap(remap: () --> FlagResult): (r: FlagResult)
      requires FlagOk? ==> remap.requires()
      ensures FlagErr? ==> r == this
      ensures FlagOk? ==> r == remap()
    {
      if AsBase().IsErr() then FlagErr(error) else remap()
    }

    /** `taint(factory)`: always ERR; an OK flag takes the factory's error. */
    function Taint(factory: () -> Exception): (r: FlagResult)
      ensures r.FlagErr?
      ensures FlagErr? ==> r.error == error
      ensures FlagOk? ==> r.error == factory()
    {
      if AsBase().IsOk() then FlagErr(factory()) else FlagErr(error)
    }

    /** `fork(factory)`: `taint` with a factory of the flag's own error
        type; the two differ only in the static type of the result. */
    function Fork(factory: () -> Exception): (r: FlagResult)
      ensures r.FlagErr?
      ensures FlagErr? ==> r == this
      ensures FlagOk? ==> r.error == factory()
    {
      Taint(factory)
    }

    /** `recover()`: unconditionally OK. */
    function Recover(): (r: FlagResult)
      ensures r.FlagOk?
    {
      FlagOk
    }

    /** `recover(condition)`: OK unless this is an ERR whose error the condition rejects. */
    function RecoverIf(condition: Exception --> bool): (r: FlagResult)
      requires FlagErr? ==> condition.requires(error)
      ensures r.FlagOk? <==> FlagOk? || condition(error)
      ensures r.FlagErr? ==> r == this
    {
      if AsBase().IsOk() then FlagOk
      else if condition(error) then FlagOk
      else FlagErr(error)
    }

    /** `recover(type)`: OK unless this is an ERR whose error is not of that class. */
    function RecoverKind(kind: Kind): (r: FlagResult)
      ensures r.FlagOk? <==> FlagOk? || AssignableFrom(kind, error.kind)
      ensures r.FlagErr? ==> r == this
    {
      if AsBase().IsOk() then FlagOk
      else if AssignableFrom(kind, error.kind) then FlagOk
      else FlagErr(error)
    }

    /** `unwrap`: nothing on OK; on ERR a Failure whose cause is the stored error. */
    function Unwrap(): (thrown: Option<Signal>)
      ensures thrown.None? <==> FlagOk?
      ensures thrown.Some? ==> thrown.value == Failure(error)
    {
      if AsBase().IsErr() then Some(Failure(error)) else None
    }

    /** `unwrapChecked`: nothing on OK; on ERR the stored error itself. */
    function UnwrapChecked(): (thrown: Option<Signal>)
      ensures thrown.None? <==> FlagOk?
      ensures thrown.Some? ==> thrown.value == Thrown(error)
    {
      if AsBase().IsErr() then Some(Thrown(error)) else None
    }
  }

  /** `FlagResult.from(source)`: the state and the very same error; any item is dropped. */
  function From(source: BaseResult): (r: FlagResult)
    ensures r.AsBase() == source
  {
    if source.IsOk() then FlagOk else FlagErr(source.error.value)
  }

  /** `Result.drop()`: the result's state and error without the item. It
      lives here rather than with Result because Dafny modules cannot
      import each other both ways. */
  function Drop<V>(result: Results.Result<V>): (r: FlagResult)
    ensures r.AsBase() == result.AsBase()
  {
    if result.AsBase().IsErr() then FlagErr(result.error) else FlagOk
  }

  /** `wrap(action)`: OK if the action completes, ERR with whatever it throws. */
  function Wrap(action: Completion): (r: FlagResult)
    ensures r.FlagOk? <==> action.Completed?
    ensures r.FlagErr? ==> r.error == action.exception
  {
    match action
    case Completed => FlagOk
    case Raised(e) => FlagErr(e)
  }

  /** `wrap(errType, action)`: a thrown exception of the expected class (or a
      subclass) becomes ERR with that very exception; any other is
      IllegalStateException. */
  function WrapExpecting(errType: Kind, action: Completion): (r: Call<FlagResult>)
    ensures r.Returns? && r.value.FlagOk? <==> action.Completed?
    ensures r.Returns? && r.value.FlagErr? <==> action.Raised? && AssignableFrom(errType, action.exception.kind)
    ensures r.Returns? && r.value.FlagErr? ==> r.value.error == action.exception
    ensures r.Throws? ==> r.signal == IllegalState
  {
    match action
    case Completed => Returns(FlagOk)
    case Raised(e) =>
      if AssignableFrom(errType, e.kind) then Returns(FlagErr(e)) else Throws(IllegalState)
  }

  /** `equals`: the stored errors are equal (both absent for OK). */
  function Equals(a: FlagResult, b: FlagResult): (r: bool)
    ensures r ==> (a.FlagOk? <==> b.FlagOk?)
  {
    a.AsBase().error == b.AsBase().error
  }

  /** Element `i` of a collection is present and ERR. */
  predicate ErrAt(s: seq<Option<BaseResult>>, i: int)
  {
    0 <= i < |s| && s[i].Some? && s[i].value.IsErr()
  }

  /** `filter(nonNull).filter(isErr).toList()`: the present ERR elements, in order. */
  function Errored(s: seq<Option<BaseResult>>): (r: seq<BaseResult>)
    ensures forall k :: 0 <= k < |r| ==> r[k].IsErr()
    ensures |r| > 0 <==> exists i :: ErrAt(s, i)
  {
    if s == [] then []
    else
      var rest := Errored(s[1..]);
      assert forall j :: 1 <= j < |s| ==> ErrAt(s, j) == ErrAt(s[1..], j - 1);
      assert (exists i :: ErrAt(s, i)) ==> ErrAt(s, 0) || exists i :: ErrAt(s[1..], i) by {
        if exists i :: ErrAt(s, i) {
          var i :| ErrAt(s, i);
          if i > 0 {
            assert ErrAt(s[1..], i - 1);
          }
        }
      }
      assert (exists i :: ErrAt(s[1..], i)) ==> exists i :: ErrAt(s, i) by {
        if exists i :: ErrAt(s[1..], i) {
          var i :| ErrAt(s[1..], i);
          assert ErrAt(s, i + 1);
        }
      }
      if ErrAt(s, 0) then [s[0].value] + rest else rest
  }

  /** The first entry of the ERR list is the first ERR element. */
  lemma {:induction false} ErroredFirst(s: seq<Option<BaseResult>>)
    requires |Errored(s)| > 0
    ensures exists i :: ErrAt(s, i) && s[i].value == Errored(s)[0] && forall j :: 0 <= j < i ==> !ErrAt(s, j)
  {
    if ErrAt(s, 0) {
      assert ErrAt(s, 0) && s[0].value == Errored(s)[0];
    } else {
      var rest := Errored(s[1..]);
      assert Errored(s) == rest;
      ErroredFirst(s[1..]);
      var i :| ErrAt(s[1..], i) && s[1..][i].value == rest[0] && forall j :: 0 <= j < i ==> !ErrAt(s[1..], j);
      assert forall j :: 1 <= j < |s| ==> ErrAt(s, j) == ErrAt(s[1..], j - 1);
      assert ErrAt(s, i + 1) && s[i + 1].value == Errored(s)[0];
    }
  }

  /** The last entry of the ERR list is the last ERR element. */
  lemma {:induction false} ErroredLast(s: seq<Option<BaseResult>>)
    requires |Errored(s)| > 0
    ensures exists i :: ErrAt(s, i) && s[i].value == Errored(s)[|Errored(s)| - 1] && forall j :: i < j < |s| ==> !ErrAt(s, j)
  {
    var rest := Errored(s[1..]);
    assert forall j :: 1 <= j < |s| ==> ErrAt(s, j) == ErrAt(s[1..], j - 1);
    if |rest| == 0 {
      assert ErrAt(s, 0) && Errored(s) == [s[0].value];
      assert forall j :: 0 < j < |s| ==> !ErrAt(s, j);
    } else {
      ErroredLast(s[1..]);
      var i :| ErrAt(s[1..], i) && s[1..][i].value == rest[|rest| - 1] && forall j :: i < j < |s[1..]| ==> !ErrAt(s[1..], j);
      assert Errored(s)[|Errored(s)| - 1] == rest[|rest| - 1];
      assert ErrAt(s, i + 1) && s[i + 1].value == Errored(s)[|Errored(s)| - 1];
    }
  }

  /** `join(results, rule)`: nulls are discarded; ERR iff some element is
      ERR, with the error of the first (HEAD) or last (TAIL) such element. */
  function JoinBy(results: seq<Option<BaseResult>>, rule: TakeFrom): (r: FlagResult)
    ensures r.FlagErr? <==> exists i :: ErrAt(results, i)
    ensures r.FlagErr? && rule.HEAD? ==>
      exists i :: ErrAt(results, i) && results[i].value.error == Some(r.error)
                  && forall j :: 0 <= j < i ==> !ErrAt(results, j)
    ensures r.FlagErr? && rule.TAIL? ==>
      exists i :: ErrAt(results, i) && results[i].value.error == Some(r.error)
                  && forall j :: i < j < |results| ==> !ErrAt(results, j)
  {
    var errored := Errored(results);
    if |errored| > 0 then
      ErroredFirst(results);
      ErroredLast(results);
      var picked := match rule
        case HEAD => errored[0]
        case TAIL => errored[|errored| - 1];
      FlagErr(picked.error.value)
    else FlagOk
  }

  /** `join(results)`: `join(results, HEAD)`. */
  function Join(results: seq<Option<BaseResult>>): (r: FlagResult)
    ensures r.FlagErr? <==> exists i :: ErrAt(results, i)
    ensures r.FlagErr? ==>
      exists i :: ErrAt(results, i) && results[i].value.error == Some(r.error)
                  && forall j :: 0 <= j < i ==> !ErrAt(results, j)
  {
    JoinBy(results, HEAD)
  }

  /** One element handed to `chain`: a null supplier, or a supplier and
      what it returns when invoked (None when it returns null). */
  datatype Supplier = NullSupplier | Supplies(result: Option<BaseResult>)

  /** The supplier at `i` exists and, when invoked, returns an ERR result. */
  predicate FailsAt(s: seq<Supplier>, i: int)
  {
    0 <= i < |s| && s[i].Supplies? && s[i].result.Some? && s[i].result.value.IsErr()
  }

  /** What `chain` returns when started at position `i`: the error of the
      first supplier from `i` on that fails, skipping null suppliers and
      null results; OK when none fails. */
  function ChainedFrom(s: seq<Supplier>, i: nat): (r: FlagResult)
    requires i <= |s|
    decreases |s| - i
  {
    if i == |s| then FlagOk
    else if FailsAt(s, i) then FlagErr(s[i].result.value.error.value)
    else ChainedFrom(s, i + 1)
  }

  /** The meaning of `chain` over the whole collection. */
  function Chained(s: seq<Supplier>): (r: FlagResult)
  {
    ChainedFrom(s, 0)
  }

  /** From position `i` on, `chain` fails iff some supplier there fails, and
      then with the error of the first one. */
  lemma {:induction false} ChainedFromFirstFailure(s: seq<Supplier>, i: nat)
    requires i <= |s|
    ensures ChainedFrom(s, i).FlagErr? <==> exists j :: i <= j && FailsAt(s, j)
    ensures ChainedFrom(s, i).FlagErr? ==>
      exists j :: i <= j && FailsAt(s, j) && s[j].result.value.error == Some(ChainedFrom(s, i).error)
                  && forall m :: i <= m < j ==> !FailsAt(s, m)
    decreases |s| - i
  {
    if i < |s| && !FailsAt(s, i) {
      ChainedFromFirstFailure(s, i + 1);
      var c := ChainedFrom(s, i);
      if c.FlagErr? {
        var j :| i + 1 <= j && FailsAt(s, j) && s[j].result.value.error == Some(c.error)
                 && forall m :: i + 1 <= m < j ==> !FailsAt(s, m);
        assert forall m :: i <= m < j ==> !FailsAt(s, m);
      }
    }
  }

  /** `chain` fails iff some non-null supplier returns ERR, and then with the
      error of the first such supplier. */
  lemma ChainedFindsFirstFailure(s: seq<Supplier>)
    ensures Chained(s).FlagErr? <==> exists i :: FailsAt(s, i)
    ensures Chained(s).FlagErr? ==>
      exists i :: FailsAt(s, i) && s[i].result.value.error == Some(Chained(s).error)
                  && forall j :: 0 <= j < i ==> !FailsAt(s, j)
  {
    ChainedFromFirstFailure(s, 0);
  }

  /** The positions of the suppliers that `chain` invokes from position `i`
      on: each non-null one in turn, up to and including the first that
      returns ERR. */
  function InvokedFrom(s: seq<Supplier>, i: nat): (r: seq<nat>)
    requires i <= |s|
    decreases |s| - i
  {
    if i == |s| then []
    else if s[i].NullSupplier? then InvokedFrom(s, i + 1)
    else if FailsAt(s, i) then [i]
    else [i] + InvokedFrom(s, i + 1)
  }

  /** The positions of the suppliers that `chain` invokes, in invocation order. */
  function Invoked(s: seq<Supplier>): (r: seq<nat>)
  {
    InvokedFrom(s, 0)
  }

  /** Every supplier invoked from `i` on is a non-null one at a later position,
      and they are invoked in increasing position order. */
  lemma {:induction false} InvokedFromInOrder(s: seq<Supplier>, i: nat)
    requires i <= |s|
    ensures forall k :: 0 <= k < |InvokedFrom(s, i)| ==>
      i <= InvokedFrom(s, i)[k] < |s| && s[InvokedFrom(s, i)[k]].Supplies?
    ensures forall k, l :: 0 <= k < l < |InvokedFrom(s, i)| ==> InvokedFrom(s, i)[k] < InvokedFrom(s, i)[l]
    decreases |s| - i
  {
    if i < |s| {
      InvokedFromInOrder(s, i + 1);
    }
  }

  /** Only the last supplier invoked can fail; it fails exactly when some
      supplier from `i` on fails, and then it is the one that decides the outcome. */
  lemma {:induction false} InvokedFromStopsAtFailure(s: seq<Supplier>, i: nat)
    requires i <= |s|
    ensures forall k :: 0 <= k < |InvokedFrom(s, i)| - 1 ==> !FailsAt(s, InvokedFrom(s, i)[k])
    ensures ChainedFrom(s, i).FlagErr? <==>
      |InvokedFrom(s, i)| > 0 && FailsAt(s, InvokedFrom(s, i)[|InvokedFrom(s, i)| - 1])
    ensures ChainedFrom(s, i).FlagErr? ==>
      Some(ChainedFrom(s, i).error) == s[InvokedFrom(s, i)[|InvokedFrom(s, i)| - 1]].result.value.error
    decreases |s| - i
  {
    if i < |s| {
      InvokedFromStopsAtFailure(s, i + 1);
    }
  }

  /** Every non-null supplier from `i` on is invoked unless an earlier one failed. */
  lemma {:induction false} InvokedFromComplete(s: seq<Supplier>, i: nat, j: nat)
    requires i <= j < |s| && s[j].Supplies?
    requires forall m :: i <= m < j ==> !FailsAt(s, m)
    ensures j in InvokedFrom(s, i)
    decreases j - i
  {
    if i < j {
      InvokedFromComplete(s, i + 1, j);
    }
  }

  /** What `chain` invokes: non-null suppliers only, each once and in order;
      on OK every non-null supplier; on ERR exactly the non-null suppliers up
      to the first that fails, which is invoked last and decides the error,
      and no supplier after it. */
  lemma ChainInvokesUntilFirstFailure(s: seq<Supplier>)
    ensures forall k :: 0 <= k < |Invoked(s)| ==> Invoked(s)[k] < |s| && s[Invoked(s)[k]].Supplies?
    ensures forall k, l :: 0 <= k < l < |Invoked(s)| ==> Invoked(s)[k] < Invoked(s)[l]
    ensures forall k :: 0 <= k < |Invoked(s)| - 1 ==> !FailsAt(s, Invoked(s)[k])
    ensures Chained(s).FlagOk? ==> forall j :: 0 <= j < |s| && s[j].Supplies? ==> j in Invoked(s)
    ensures Chained(s).FlagOk? ==> forall k :: 0 <= k < |Invoked(s)| ==> !FailsAt(s, Invoked(s)[k])
    ensures Chained(s).FlagErr? ==> |Invoked(s)| > 0 && FailsAt(s, Invoked(s)[|Invoked(s)| - 1])
    ensures Chained(s).FlagErr? ==> Some(Chained(s).error) == s[Invoked(s)[|Invoked(s)| - 1]].result.value.error
    ensures Chained(s).FlagErr? ==>
      forall j :: 0 <= j <= Invoked(s)[|Invoked(s)| - 1] && s[j].Supplies? ==> j in Invoked(s)
  {
    InvokedFromInOrder(s, 0);
    InvokedFromStopsAtFailure(s, 0);
    var c := Invoked(s);
    if Chained(s).FlagOk? {
      forall j | 0 <= j < |s| && s[j].Supplies?
        ensures j in c
      {
        ChainedFromFirstFailure(s, 0);
        InvokedFromComplete(s, 0, j);
      }
    } else {
      var last := c[|c| - 1];
      ChainedFromFirstFailure(s, 0);
      var f :| 0 <= f && FailsAt(s, f) && forall m :: 0 <= m < f ==> !FailsAt(s, m);
      InvokedFromComplete(s, 0, f);
      var k :| 0 <= k < |c| && c[k] == f;
      assert k == |c| - 1;
      forall j | 0 <= j <= last && s[j].Supplies?
        ensures j in c
      {
        InvokedFromComplete(s, 0, j);
      }
    }
  }

  /** `FlagResult.chain(invocations)`: invokes the non-null suppliers in
      order and stops at the first one that returns ERR. `calls` lists the
      positions of the suppliers invoked, in invocation order. */
  method Chain(invocations: seq<Supplier>) returns (r: FlagResult, calls: seq<nat>)
    ensures r == Chained(invocations)
    ensures calls == Invoked(invocations)
  {
    var err: Option<Exception> := None;
    calls := [];
    var i := 0;
    while i < |invocations|
      invariant 0 <= i <= |invocations|
      invariant err.None?
      invariant calls + InvokedFrom(invocations, i) == Invoked(invocations)
      invariant ChainedFrom(invocations, i) == Chained(invocations)
    {
      if invocations[i].Supplies? {
        var rest := InvokedFrom(invocations, i + 1);
        calls := calls + [i];
        var curr := invocations[i].result;
        if curr.Some? && curr.value.IsErr() {
          err := Some(curr.value.GetErr().value);
          break;
        }
        assert InvokedFrom(invocations, i) == [i] + rest;
        assert (calls[..|calls| - 1] + [i]) + rest == calls[..|calls| - 1] + ([i] + rest);
      }
      i := i + 1;
    }
    if err.None? {
      r := FlagOk;
    } else {
      r := FlagErr(err.value);
    }
  }

  /** A flag is determined by its BaseResult view: `from` restores it. */
  lemma FromRestoresFlag(f: FlagResult)
    ensures From(f.AsBase()) == f
  {
  }

  /** `drop` is `FlagResult.from` applied to the result. */
  lemma DropIsFrom<V>(r: Results.Result<V>)
    ensures Drop(r) == From(r.AsBase())
  {
  }

  /** `drop` then `populate(x)`: OK(x) from OK, the original error from ERR,
      which is exactly `swap(x)`. */
  lemma DropThenPopulate<V, N>(r: Results.Result<V>, x: N)
    ensures r.Ok? ==> Drop(r).Populate(x) == Results.Ok(x)
    ensures r.Err? ==> Drop(r).Populate(x) == Results.Err(r.error)
    ensures Drop(r).Populate(x) == r.Swap(x)
  {
  }

  /** `populate` then `drop` gives back the flag. */
  lemma PopulateThenDrop<V>(f: FlagResult, x: V)
    ensures Drop(f.Populate(x)) == f
  {
  }

  /** Dropping the item commutes with the error-side operations of both containers. */
  lemma DropCommutes<V>(r: Results.Result<V>, remap: Exception -> Exception, factory: () -> Exception, another: BaseResult)
    ensures Drop(r.MapErr(remap)) == Drop(r).MapErr(remap)
    ensures Drop(r.Taint(factory)) == Drop(r).Taint(factory)
    ensures Drop(r.FuseBase(another)) == Drop(r).Fuse(From(another))
  {
  }

  /** OK is neutral for fusing, whatever the rule. */
  lemma FuseOkNeutral(f: FlagResult, rule: TakeFrom)
    ensures FlagOk.FuseBy(f, rule) == f
    ensures f.FuseBy(FlagOk, rule) == f
  {
  }

  /** HEAD and TAIL fuse are mirror images of each other. */
  lemma FuseMirror(a: FlagResult, b: FlagResult)
    ensures a.FuseBy(b, HEAD) == b.FuseBy(a, TAIL)
  {
    RulesMirror(a.AsBase(), b.AsBase());
  }

  /** Fusing is associative under either rule, so a row of results can be
      fused in any grouping. */
  lemma FuseAssociative(a: FlagResult, b: FlagResult, c: FlagResult, rule: TakeFrom)
    ensures a.FuseBy(b, rule).FuseBy(c, rule) == a.FuseBy(b.FuseBy(c, rule), rule)
  {
  }

  /** Appending an element to the collection appends it to the ERR list when it is ERR. */
  lemma {:induction false} ErroredAppend(s: seq<Option<BaseResult>>, x: Option<BaseResult>)
    ensures Errored(s + [x]) == Errored(s) + (if x.Some? && x.value.IsErr() then [x.value] else [])
  {
    if s == [] {
      assert [x][1..] == [];
      assert [] + [x] == [x];
    } else {
      assert (s + [x])[1..] == s[1..] + [x];
      assert ErrAt(s + [x], 0) == ErrAt(s, 0);
      ErroredAppend(s[1..], x);
    }
  }

  /** Fusing the present elements from left to right, starting from OK. */
  function FuseAll(s: seq<Option<BaseResult>>, rule: TakeFrom): (r: FlagResult)
  {
    if s == [] then FlagOk
    else
      var init := FuseAll(s[..|s| - 1], rule);
      match s[|s| - 1]
      case None => init
      case Some(b) => init.FuseBy(From(b), rule)
  }

  /** Joining one more element fuses it onto the join of the others: a
      null is skipped, and otherwise the rule picks between the two errors. */
  lemma JoinByAppend(p: seq<Option<BaseResult>>, x: Option<BaseResult>, rule: TakeFrom)
    ensures JoinBy(p + [x], rule) == (if x.Some? then JoinBy(p, rule).FuseBy(From(x.value), rule) else JoinBy(p, rule))
  {
    ErroredAppend(p, x);
    var ep := Errored(p);
    if x.Some? && x.value.IsErr() {
      var b := x.value;
      assert Errored(p + [x]) == ep + [b];
      if |ep| > 0 && rule.HEAD? {
        assert (ep + [b])[0] == ep[0];
      }
    } else {
      assert Errored(p + [x]) == ep;
    }
  }

  /** `join(results, rule)` is a left fold of `fuse(_, rule)` over the
      non-null elements: the two combinators select errors the same way. */
  lemma {:induction false} JoinIsFuseFold(s: seq<Option<BaseResult>>, rule: TakeFrom)
    ensures JoinBy(s, rule) == FuseAll(s, rule)
    decreases |s|
  {
    if s != [] {
      var p, x := s[..|s| - 1], s[|s| - 1];
      assert s == p + [x];
      JoinByAppend(p, x, rule);
      JoinIsFuseFold(p, rule);
    }
  }

  /** What each element of a `chain` contributes, seen as a collection to join. */
  function SupplierResults(s: seq<Supplier>): (r: seq<Option<BaseResult>>)
    ensures |r| == |s|
    ensures forall i :: 0 <= i < |s| ==> r[i] == (if s[i].Supplies? then s[i].result else None)
  {
    seq(|s|, i requires 0 <= i < |s| => if s[i].Supplies? then s[i].result else None)
  }

  /** `chain` selects the same error as `join` with HEAD over the values the
      suppliers return: stopping early never changes the outcome. */
  lemma ChainIsJoinOfResults(s: seq<Supplier>)
    ensures Chained(s) == Join(SupplierResults(s))
  {
    ChainedFindsFirstFailure(s);
    var rs := SupplierResults(s);
    assert forall i :: FailsAt(s, i) == ErrAt(rs, i);
    var c, j := Chained(s), Join(rs);
    if c.FlagErr? {
      var i :| FailsAt(s, i) && s[i].result.value.error == Some(c.error)
               && forall k :: 0 <= k < i ==> !FailsAt(s, k);
      var i' :| ErrAt(rs, i') && rs[i'].value.error == Some(j.error)
                && forall k :: 0 <= k < i' ==> !ErrAt(rs, k);
      assert i == i';
    }
  }

  /** The flags of a collection of value results. */
  function DropAll<V>(results: seq<Option<Results.Result<V>>>): (r: seq<Option<BaseResult>>)
    ensures |r| == |results|
    ensures forall i :: 0 <= i < |results| ==>
      r[i] == (if results[i].Some? then Some(results[i].value.AsBase()) else None)
  {
    seq(|results|, i requires 0 <= i < |results| =>
      if results[i].Some? then Some(results[i].value.AsBase()) else None)
  }

  /** `Result.join` and `FlagResult.join` agree on the outcome and on the
      error they keep. */
  lemma ResultJoinAgreesWithFlagJoin<V>(results: seq<Option<Results.Result<V>>>)
    ensures Drop(Results.Join(results)) == Join(DropAll(results))
  {
    var fs := DropAll(results);
    assert forall i :: Results.ErrAt(results, i) == ErrAt(fs, i);
    var r, j := Results.Join(results), Join(fs);
    if r.Err? {
      var i :| Results.ErrAt(results, i) && results[i].value.error == r.error
               && forall k :: 0 <= k < i ==> !Results.ErrAt(results, k);
      var i' :| ErrAt(fs, i') && fs[i'].value.error == Some(j.error)
                && forall k :: 0 <= k < i' ==> !ErrAt(fs, k);
      assert i == i';
    }
  }

  /** `equals` is structural equality; in particular all OK flags are equal. */
  lemma EqualsIsStructural(a: FlagResult, b: FlagResult)
    ensures Equals(a, b) <==> a == b
    ensures a.FlagOk? && b.FlagOk? ==> Equals(a, b)
  {
  }

  /** The three `recover` forms: recovering every class, or under a
      condition that always holds, is unconditional recovery; a condition
      that never holds changes nothing. */
  lemma RecoverLaws(f: FlagResult, kind: Kind)
    ensures f.RecoverKind(ExceptionKind) == f.Recover()
    ensures f.RecoverIf((e: Exception) => true) == f.Recover()
    ensures f.RecoverIf((e: Exception) => false) == f
    ensures f.RecoverKind(kind) == f.RecoverIf((e: Exception) => AssignableFrom(kind, e.kind))
  {
    if f.FlagErr? {
      ExceptionAssignableFromAll(f.error.kind);
    }
  }

  /** `flatMap` on ERR never calls `remap`: even a supplier that cannot be
      called leaves the error in place. On OK it is the supplier's result. */
  lemma FlatMapLaws(e: Exception, remap: () -> FlagResult)
    ensures FlagErr(e).FlatMap(() requires false => FlagOk) == FlagErr(e)
    ensures FlagOk.FlatMap(remap) == remap()
  {
  }

  /** `fork` and `taint` behave alike, and tainting twice keeps the first error. */
  lemma TaintLaws(f: FlagResult, g: () -> Exception, h: () -> Exception)
    ensures f.Fork(g) == f.Taint(g)
    ensures f.Taint(g).Taint(h) == f.Taint(g)
  {
  }

  /** `unwrap` and `unwrapChecked` throw in the same states: the first wraps
      the stored error as the cause, the second throws it as it is. */
  lemma UnwrapForms(f: FlagResult)
    ensures f.Unwrap().Some? <==> f.UnwrapChecked().Some?
    ensures f.Unwrap().Some? ==> f.Unwrap().value.cause == f.UnwrapChecked().value.error
  {
  }

  /** The peek hooks are the base hooks; peeking for java.lang.Exception is
      peeking at every error. */
  lemma PeekIsBaseHook(f: FlagResult)
    ensures f.Peek().1 == f.AsBase().IfOk()
    ensures f.PeekErr().1 == f.AsBase().IfErrAccept()
    ensures f.PeekErrKind(ExceptionKind) == f.PeekErr()
  {
    IsErrAndExceptionIsIsErr(f.AsBase());
  }

  /** The untyped `wrap` is the typed one expecting java.lang.Exception. */
  lemma WrapIsWrapExpectingException(action: Completion)
    ensures WrapExpecting(ExceptionKind, action) == Returns(Wrap(action))
  {
    if action.Raised? {
      ExceptionAssignableFromAll(action.exception.kind);
    }
  }
}

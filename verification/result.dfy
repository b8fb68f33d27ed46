/** The payload-bearing container (Result.java): OK carries a non-null
    item, ERR carries an exception. Every operation builds a new value. */
module Results {
  import opened Runtime
  import opened BaseResults
  import opened Rules

  /** `Result.Fuse`: the two items of two fused OK results. */
  datatype Fuse<L, R> = Pair(left: L, right: R)

  datatype Result<V> = Ok(item: V) | Err(error: Exception) {

    /** The nullable `item` field: set exactly on OK. */
    function Item(): (r: Option<V>)
      ensures r.Some? <==> Ok?
      ensures r.Some? ==> r.value == item
    {
      if Ok? then Some(item) else None
    }

    /** This result seen as a BaseResult: the state and the very same error. */
    function AsBase(): (b: BaseResult)
      ensures b.IsOk() <==> Ok?
      ensures Err? ==> b.error == Some(error)
    {
      BaseResult(if Ok? then None else Some(error))
    }

    /** `get`: the item on OK, IllegalStateException on ERR. */
    function Get(): (r: Call<V>)
      ensures r.Returns? <==> Ok?
      ensures r.Returns? ==> Item() == Some(r.value)
      ensures r.Throws? ==> r.signal == IllegalState
    {
      if AsBase().IsOk() then Returns(item) else Throws(IllegalState)
    }

    /** `fuse(Result)`: OK with both items iff both are OK; otherwise the
        error of `this` if it failed, else that of `another`. */
    function Fuse<N>(another: Result<N>): (r: Result<Fuse<V, N>>)
      ensures r.Ok? <==> Ok? && another.Ok?
      ensures r.Ok? ==> r.item == Pair(item, another.item)
      ensures r.Err? ==> Some(r.error) == HEAD.TakeError(AsBase(), another.AsBase())
    {
      if AsBase().IsErr() then Err(error)
      else if another.AsBase().IsErr() then Err(another.error)
      else Ok(Pair(item, another.item))
    }

    /** `fuse(BaseResult)`: the same error selection, keeping this item on OK. */
    function FuseBase(another: BaseResult): (r: Result<V>)
      ensures r.Ok? <==> Ok? && another.IsOk()
      ensures r.Ok? ==> r.item == item
      ensures r.Err? ==> Some(r.error) == HEAD.TakeError(AsBase(), another)
    {
      if AsBase().IsErr() then Err(error)
      else if another.IsErr() then Err(another.error.value)
      else Ok(item)
    }

    /** `map`: a new item on OK, the same error on ERR. */
    function Map<N>(remap: V -> N): (r: Result<N>)
      ensures r.AsBase() == AsBase()
      ensures r.Ok? ==> r.item == remap(item)
    {
      if AsBase().IsErr() then Err(error) else Ok(remap(item))
    }

    /** `swap`: `map(dropped -> newItem)`. */
    function Swap<N>(newItem: N): (r: Result<N>)
      ensures r.AsBase() == AsBase()
      ensures r.Ok? ==> r.item == newItem
    {
      Map((dropped: V) => newItem)
    }

    /** `flatMap`: on ERR the same error, and `remap` is never applied (it
        need not even be defined); on OK whatever `remap` returns. */
    function FlatMap<N>(remap: V --> Result<N>): (r: Result<N>)
      requires Ok? ==> remap.requires(item)
      ensures Err? ==> r.Err? && r.error == error
      ensures Ok? ==> r == remap(item)
    {
      if AsBase().IsErr() then Err(error) else remap(item)
    }

    /** `mapErr`: a new error on ERR, the same item on OK. */
    function MapErr(remap: Exception -> Exception): (r: Result<V>)
      ensures r.Ok? <==> Ok?
      ensures r.Ok? ==> r.item == item
      ensures r.Err? ==> r.error == remap(error)
    {
      if AsBase().IsErr() then Err(remap(error)) else Ok(item)
    }

    /** `taint(factory)`: always ERR; an OK result takes the factory's error. */
    function Taint(factory: () -> Exception): (r: Result<V>)
      ensures r.Err?
      ensures Err? ==> r.error == error
      ensures Ok? ==> r.error == factory()
    {
      if AsBase().IsOk() then Err(factory()) else Err(error)
    }

    /** `taint(condition, factory)`: an OK result whose item meets the
        condition becomes ERR with the error built from that item. */
    function TaintIf(condition: V -> bool, factory: V -> Exception): (r: Result<V>)
      ensures r.Err? <==> Err? || condition(item)
      ensures r.Ok? ==> r.item == item
      ensures Err? ==> r.error == error
      ensures Ok? && r.Err? ==> r.error == factory(item)
    {
      if AsBase().IsOk() then
        if condition(item) then Err(factory(item)) else Ok(item)
      else Err(error)
    }

    /** `ifOk(Consumer)`: the argument the consumer receives, or None when it is not called. */
    function IfOkAccept(): (argument: Option<V>)
      ensures argument.Some? <==> Ok?
      ensures argument.Some? ==> Get() == Returns(argument.value)
    {
      if AsBase().IsOk() then Some(item) else None
    }

    /** `unwrapOr(another)`: the item, or the fallback on ERR. */
    function UnwrapOr(fallback: V): (r: V)
      ensures Ok? ==> r == item
      ensures Err? ==> r == fallback
    {
      if AsBase().IsOk() then item else fallback
    }

    /** `unwrapOr(factory)`: the item, or the factory's value on ERR. */
    function UnwrapOrGet(factory: () -> V): (r: V)
      ensures Ok? ==> r == item
      ensures Err? ==> r == factory()
    {
      if AsBase().IsOk() then item else factory()
    }

    /** `unwrap`: the item, or a Failure whose cause is the stored error. */
    function Unwrap(): (r: Call<V>)
      ensures r.Returns? <==> Ok?
      ensures r.Returns? ==> r.value == item
      ensures r.Throws? ==> r.signal == Failure(error)
    {
      if AsBase().IsOk() then Returns(item) else Throws(Failure(error))
    }
  }

  /** `Result.from(source)`: the same state with the very same item or error. */
  function From<V>(source: Result<V>): (r: Result<V>)
    ensures r.AsBase() == source.AsBase()
    ensures r.Item() == source.Item()
  {
    if source.AsBase().IsOk() then Ok(source.item) else Err(source.error)
  }

  /** `equals`: items equal (both absent on ERR) and errors equal (both absent on OK). */
  function Equals<V(==)>(a: Result<V>, b: Result<V>): (r: bool)
    ensures r ==> a.AsBase().IsOk() == b.AsBase().IsOk()
  {
    a.Item() == b.Item() && a.AsBase().error == b.AsBase().error
  }

  /** Element `i` of a collection to join is present and ERR. */
  predicate ErrAt<V>(s: seq<Option<Result<V>>>, i: int)
  {
    0 <= i < |s| && s[i].Some? && s[i].value.Err?
  }

  /** Where `filter(nonNull).filter(isErr).findFirst()` stops: the first
      present ERR element, or |s| when there is none. */
  function FirstErrIndex<V>(s: seq<Option<Result<V>>>): (i: nat)
    ensures i <= |s|
    ensures i < |s| ==> ErrAt(s, i)
    ensures forall j :: 0 <= j < i ==> !ErrAt(s, j)
  {
    if s == [] then 0
    else if ErrAt(s, 0) then 0
    else
      var i := 1 + FirstErrIndex(s[1..]);
      assert forall j :: 1 <= j < i ==> ErrAt(s, j) == ErrAt(s[1..], j - 1);
      i
  }

  /** `map(result -> result.item)` over results that are all OK. */
  function Items<V>(s: seq<Result<V>>): (r: seq<V>)
    requires forall k :: 0 <= k < |s| ==> s[k].Ok?
    ensures |r| == |s|
    ensures forall k :: 0 <= k < |s| ==> s[k] == Ok(r[k])
  {
    if s == [] then [] else [s[0].item] + Items(s[1..])
  }

  /** `Result.join(results)`: nulls are discarded; the first ERR in
      sequence order decides the error; otherwise OK with every item, in order. */
  function Join<V>(results: seq<Option<Result<V>>>): (r: Result<seq<V>>)
    ensures r.Err? <==> exists i :: ErrAt(results, i)
    ensures r.Err? ==> exists i :: ErrAt(results, i) && results[i].value.error == r.error
                                   && forall j :: 0 <= j < i ==> !ErrAt(results, j)
    ensures r.Ok? ==> |r.item| == |NonNull(results)|
    ensures r.Ok? ==> forall k :: 0 <= k < |r.item| ==> NonNull(results)[k] == Ok(r.item[k])
  {
    var nonNull := NonNull(results);
    var first := FirstErrIndex(results);
    if first < |results| then Err(results[first].value.error)
    else
      assert forall k :: 0 <= k < |nonNull| ==> nonNull[k].Ok? by {
        forall k | 0 <= k < |nonNull| ensures nonNull[k].Ok? {
          var i :| 0 <= i < |results| && results[i] == Some(nonNull[k]);
          assert !ErrAt(results, i);
        }
      }
      Ok(Items(nonNull))
  }

  /** `Result.wrap(errType, action)` AS WRITTEN. A null returned by the
      action reaches `Result.ok(null)` inside the try block; the null check
      there throws an IllegalArgumentException (`rejection`), which the
      catch clause then treats like any exception the action threw. */
  function WrapAsWritten<V>(errType: Kind, action: Outcome<V>, rejection: Exception): (r: Call<Result<V>>)
    requires rejection.kind == IllegalArgumentKind
    ensures action.Returned? ==> r == Returns(Ok(action.item))
    ensures action.ReturnedNull? ==> r != Throws(IllegalArgument)
    ensures action.ReturnedNull? && AssignableFrom(errType, IllegalArgumentKind) ==> r == Returns(Err(rejection))
    ensures action.ReturnedNull? && !AssignableFrom(errType, IllegalArgumentKind) ==> r == Throws(IllegalState)
    ensures action.ReturnedNull? ==> r == Wrap(errType, Threw(rejection))
  {
    var caught := match action
      case Returned(_) => None
      case ReturnedNull => Some(rejection)
      case Threw(e) => Some(e);
    if caught.None? then Returns(Ok(action.item))
    else if AssignableFrom(errType, caught.value.kind) then Returns(Err(caught.value))
    else Throws(IllegalState)
  }

  /** `Result.wrap(errType, action)` as documented: a returned item becomes
      OK, a null return is rejected with IllegalArgumentException, a thrown
      exception of the expected class (or a subclass) becomes ERR with that
      very exception, and any other thrown exception is IllegalStateException. */
  function Wrap<V>(errType: Kind, action: Outcome<V>): (r: Call<Result<V>>)
    ensures r == Throws(IllegalArgument) <==> action.ReturnedNull?
    ensures r.Returns? && r.value.Ok? <==> action.Returned?
    ensures r.Returns? && r.value.Ok? ==> r.value.item == action.item
    ensures r.Returns? && r.value.Err? <==> action.Threw? && AssignableFrom(errType, action.thrown.kind)
    ensures r.Returns? && r.value.Err? ==> r.value.error == action.thrown
    ensures r == Throws(IllegalState) <==> action.Threw? && !AssignableFrom(errType, action.thrown.kind)
  {
    match action
    case Returned(item) => Returns(Ok(item))
    case ReturnedNull => Throws(IllegalArgument)
    case Threw(e) =>
      if AssignableFrom(errType, e.kind) then Returns(Err(e)) else Throws(IllegalState)
  }

  /** `ok(v)` is OK and `get` returns v; `err(e)` is ERR and `getErr` returns e. */
  lemma ConstructorsAndAccessors<V>(v: V, e: Exception)
    ensures Ok(v).AsBase().IsOk() && Ok(v).Get() == Returns(v)
    ensures Ok(v).AsBase().GetErr() == Throws(IllegalState)
    ensures Result<V>.Err(e).AsBase().IsErr() && Result<V>.Err(e).AsBase().GetErr() == Returns(e)
    ensures Result<V>.Err(e).Get() == Throws(IllegalState)
  {
  }

  /** `from` is a faithful copy. */
  lemma FromIsCopy<V>(source: Result<V>)
    ensures From(source) == source
  {
  }

  /** `equals` is structural equality: same state and the same item or error. */
  lemma EqualsIsStructural<V>(a: Result<V>, b: Result<V>)
    ensures Equals(a, b) <==> a == b
  {
    if Equals(a, b) {
      assert a.Item() == b.Item();
      if a.Ok? {
        assert a.item == b.item;
      } else {
        assert a.AsBase().error == b.AsBase().error;
      }
    }
  }

  /** `map` with the identity changes nothing, and two maps compose. */
  lemma MapFunctor<V, N, M>(r: Result<V>, f: V -> N, g: N -> M)
    ensures r.Map((v: V) => v) == r
    ensures r.Map(f).Map(g) == r.Map((v: V) => g(f(v)))
  {
  }

  /** `map(f)` is `flatMap` with a remap that wraps f's value in OK. */
  lemma MapIsFlatMapOfOk<V, N>(r: Result<V>, f: V -> N)
    ensures r.Map(f) == r.FlatMap((v: V) => Ok(f(v)))
  {
  }

  /** `flatMap` is the bind of a monad whose unit is `ok`. */
  lemma FlatMapMonad<V, N, M>(r: Result<V>, v: V, f: V -> Result<N>, g: N -> Result<M>)
    ensures Ok(v).FlatMap(f) == f(v)
    ensures r.FlatMap((x: V) => Ok(x)) == r
    ensures r.FlatMap(f).FlatMap(g) == r.FlatMap((x: V) => f(x).FlatMap(g))
  {
  }

  /** `mapErr` with the identity changes nothing, and two error maps compose. */
  lemma MapErrComposes<V>(r: Result<V>, f: Exception -> Exception, g: Exception -> Exception)
    ensures r.MapErr((e: Exception) => e) == r
    ensures r.MapErr(f).MapErr(g) == r.MapErr((e: Exception) => g(f(e)))
  {
  }

  /** Tainting twice keeps the first error, and a condition that never
      holds leaves the result as it was. */
  lemma TaintLaws<V>(r: Result<V>, f: () -> Exception, g: () -> Exception, factory: V -> Exception)
    ensures r.Taint(f).Taint(g) == r.Taint(f)
    ensures r.TaintIf((v: V) => false, factory) == r
    ensures r.Ok? ==> r.TaintIf((v: V) => true, factory) == Err(factory(r.item))
  {
  }

  /** The three extractors agree on OK; on ERR `get` throws IllegalState,
      `unwrap` throws a Failure caused by the error, `unwrapOr` falls back. */
  lemma ExtractorsAgree<V>(r: Result<V>, fallback: V, factory: () -> V)
    ensures r.Get().Returns? ==> r.Unwrap() == r.Get()
    ensures r.Get().Returns? ==> r.UnwrapOr(fallback) == r.Get().value == r.UnwrapOrGet(factory)
    ensures r.Get().Throws? ==> r.Unwrap() == Throws(Failure(r.AsBase().GetErr().value))
    ensures r.Get().Throws? ==> r.UnwrapOr(fallback) == fallback
  {
  }

  /** Fusing with a BaseResult is fusing with a Result and keeping the left item. */
  lemma FuseBaseKeepsLeftItem<V, N>(r: Result<V>, another: Result<N>)
    ensures r.FuseBase(another.AsBase()) == r.Fuse(another).Map((p: Fuse<V, N>) => p.left)
  {
  }

  lemma JoinEmpty<V>()
    ensures Join<V>([]) == Ok([])
  {
  }

  /** How `join` treats the head of the sequence: a null is skipped, an ERR
      decides the outcome, and an OK item is put in front of the rest.
      Together with JoinEmpty this determines `join` completely. */
  lemma {:induction false} JoinPrepend<V>(x: Option<Result<V>>, s: seq<Option<Result<V>>>)
    ensures x.None? ==> Join([x] + s) == Join(s)
    ensures x.Some? && x.value.Err? ==> Join([x] + s) == Err(x.value.error)
    ensures x.Some? && x.value.Ok? ==> Join([x] + s) == Join(s).Map((items: seq<V>) => [x.value.item] + items)
  {
    var t := [x] + s;
    NonNullPrepend(x, s);
    assert forall j :: 1 <= j < |t| ==> ErrAt(t, j) == ErrAt(s, j - 1);
    if x.Some? && x.value.Err? {
      assert FirstErrIndex(t) == 0;
    } else {
      var fs := FirstErrIndex(s);
      var ft := FirstErrIndex(t);
      assert !ErrAt(t, 0);
      assert ft == fs + 1;
      if fs == |s| && x.None? {
        assert NonNull(t) == NonNull(s);
      } else if fs == |s| && x.Some? {
        var js := Join(s);
        var jt := Join(t);
        assert jt.Ok? && js.Ok?;
        assert NonNull(t) == [x.value] + NonNull(s);
        assert jt.item == [x.value.item] + js.item by {
          assert |jt.item| == 1 + |js.item|;
          forall k | 0 <= k < |jt.item| ensures jt.item[k] == ([x.value.item] + js.item)[k] {
            assert NonNull(t)[k] == Ok(jt.item[k]);
            if k > 0 {
              assert NonNull(t)[k] == NonNull(s)[k - 1];
            }
          }
        }
      }
    }
  }

  /** Joining two results is fusing them and listing the pair. */
  lemma JoinTwoIsFuse<V>(a: Result<V>, b: Result<V>)
    ensures Join([Some(a), Some(b)]) == a.Fuse(b).Map((p: Fuse<V, V>) => [p.left, p.right])
  {
    assert [Some(a)] + [Some(b)] == [Some(a), Some(b)];
    assert [Some(b)] + [] == [Some(b)];
    JoinPrepend(Some(a), [Some(b)]);
    JoinPrepend(Some(b), []);
    JoinEmpty<V>();
    if b.Ok? {
      assert [b.item] + [] == [b.item];
      assert Join([Some(b)]) == Ok([b.item]);
      if a.Ok? {
        assert [a.item] + [b.item] == [a.item, b.item];
      }
    }
  }

  /** The finding in `wrap`: with RuntimeException expected, a null returned
      by the action comes back as an ERR holding the null check's own
      IllegalArgumentException; with IOException expected it surfaces as
      IllegalStateException. The documented outcome is IllegalArgumentException. */
  lemma WrapAsWrittenSwallowsNullReturn(rejection: Exception)
    requires rejection.kind == IllegalArgumentKind
    ensures WrapAsWritten<int>(RuntimeExceptionKind, ReturnedNull, rejection) == Returns(Err(rejection))
    ensures WrapAsWritten<int>(IOExceptionKind, ReturnedNull, rejection) == Throws(IllegalState)
    ensures Wrap<int>(RuntimeExceptionKind, ReturnedNull) == Throws(IllegalArgument)
    ensures Wrap<int>(IOExceptionKind, ReturnedNull) == Throws(IllegalArgument)
  {
    StandardKinds();
    assert !AssignableFrom(IOExceptionKind, IllegalArgumentKind) by {
      assert !AssignableFrom(IOExceptionKind, RuntimeExceptionKind) by {
        assert !AssignableFrom(IOExceptionKind, ExceptionKind);
      }
    }
  }

  /** Apart from a null return, the code as written and the corrected
      `wrap` agree. */
  lemma WrapAgreesExceptOnNull<V>(errType: Kind, action: Outcome<V>, rejection: Exception)
    requires rejection.kind == IllegalArgumentKind
    requires !action.ReturnedNull?
    ensures WrapAsWritten(errType, action, rejection) == Wrap(errType, action)
  {
  }

  /** Expecting java.lang.Exception captures everything the action throws. */
  lemma WrapExpectingExceptionNeverUnexpected<V>(action: Outcome<V>)
    ensures Wrap(ExceptionKind, action) != Throws(IllegalState)
  {
    if action.Threw? {
      ExceptionAssignableFromAll(action.thrown.kind);
    }
  }

  /** The library's scenarios: an IOException expected and thrown is
      captured as that very exception; a NoSuchElementException thrown where
      an IllegalStateException was expected is IllegalStateException. */
  lemma WrapScenarios<V>(io: Exception, missing: Exception)
    requires io.kind == IOExceptionKind && missing.kind == NoSuchElementKind
    ensures Wrap<V>(IOExceptionKind, Threw(io)) == Returns(Err(io))
    ensures Wrap<V>(IllegalStateKind, Threw(missing)) == Throws(IllegalState)
  {
    StandardKinds();
  }
}

/** The pieces of the Java platform the result containers rely on: absent
    values (null and Optional), exception objects with their class
    hierarchy, the outcome of running a caller-supplied action, and the
    signals a call can throw instead of returning. */
module Runtime {

  /** A possibly absent value: Java's null reference or an empty Optional. */
  datatype Option<T> = None | Some(value: T)

  /** A class in the hierarchy below java.lang.Exception, given by its name
      and the chain of its superclasses. */
  datatype Kind = ExceptionKind | SubKind(name: string, parent: Kind)

  const RuntimeExceptionKind: Kind := SubKind("java.lang.RuntimeException", ExceptionKind)
  const IllegalArgumentKind: Kind := SubKind("java.lang.IllegalArgumentException", RuntimeExceptionKind)
  const IllegalStateKind: Kind := SubKind("java.lang.IllegalStateException", RuntimeExceptionKind)
  const NoSuchElementKind: Kind := SubKind("java.util.NoSuchElementException", RuntimeExceptionKind)
  const IOExceptionKind: Kind := SubKind("java.io.IOException", ExceptionKind)

  /** `target.isAssignableFrom(actual)`: `actual` is `target` or one of its subclasses. */
  predicate AssignableFrom(target: Kind, actual: Kind)
    decreases actual
  {
    actual == target || (actual.SubKind? && AssignableFrom(target, actual.parent))
  }

  /** How many superclasses separate a kind from java.lang.Exception. */
  function Depth(k: Kind): nat
  {
    if k.SubKind? then 1 + Depth(k.parent) else 0
  }

  lemma {:induction false} AssignableNotDeeper(target: Kind, actual: Kind)
    requires AssignableFrom(target, actual)
    ensures Depth(target) <= Depth(actual)
    ensures Depth(target) == Depth(actual) ==> target == actual
    decreases actual
  {
    if actual != target {
      AssignableNotDeeper(target, actual.parent);
    }
  }

  /** Every exception class is assignable to java.lang.Exception. */
  lemma {:induction false} ExceptionAssignableFromAll(k: Kind)
    ensures AssignableFrom(ExceptionKind, k)
  {
    if k.SubKind? {
      ExceptionAssignableFromAll(k.parent);
    }
  }

  lemma {:induction false} AssignableTransitive(a: Kind, b: Kind, c: Kind)
    requires AssignableFrom(a, b) && AssignableFrom(b, c)
    ensures AssignableFrom(a, c)
    decreases c
  {
    if c != b {
      AssignableTransitive(a, b, c.parent);
    }
  }

  lemma AssignableAntisymmetric(a: Kind, b: Kind)
    requires AssignableFrom(a, b) && AssignableFrom(b, a)
    ensures a == b
  {
    AssignableNotDeeper(a, b);
    AssignableNotDeeper(b, a);
  }

  /** The class hierarchy used by the library's own scenarios: an unchecked
      NoSuchElementException is not an IllegalStateException, and every
      IllegalStateException is a RuntimeException. */
  lemma StandardKinds()
    ensures !AssignableFrom(IllegalStateKind, NoSuchElementKind)
    ensures AssignableFrom(RuntimeExceptionKind, IllegalStateKind)
    ensures !AssignableFrom(RuntimeExceptionKind, IOExceptionKind)
    ensures AssignableFrom(RuntimeExceptionKind, IllegalArgumentKind)
  {
    assert AssignableFrom(RuntimeExceptionKind, RuntimeExceptionKind);
    assert !AssignableFrom(IllegalStateKind, ExceptionKind);
    assert !AssignableFrom(IllegalStateKind, RuntimeExceptionKind);
    assert !AssignableFrom(RuntimeExceptionKind, ExceptionKind);
  }

  /** An exception object. `identity` stands for the object's reference:
      java.lang.Throwable does not override `equals`, so two exceptions
      are equal exactly when they are the same instance. */
  datatype Exception = Exception(kind: Kind, identity: nat)

  /** What a call throws instead of returning. */
  datatype Signal =
    | IllegalArgument          // a null argument or a null callback result
    | IllegalState             // an accessor used in the wrong state, or an unexpected wrapped exception
    | Failure(cause: Exception) // the wrapping exception thrown by `unwrap`
    | Thrown(error: Exception)  // a stored exception rethrown as it is

  /** A call that either returns a value or throws a signal. */
  datatype Call<T> = Returns(value: T) | Throws(signal: Signal)

  /** The outcome of running a value-producing action (a Supplier). */
  datatype Outcome<V> = Returned(item: V) | ReturnedNull | Threw(thrown: Exception)

  /** The outcome of running an action that produces no value (a Runnable). */
  datatype Completion = Completed | Raised(exception: Exception)

  /** `stream().filter(Objects::nonNull).toList()`: the present elements, in order. */
  function NonNull<T>(s: seq<Option<T>>): (r: seq<T>)
    ensures |r| <= |s|
    ensures forall k :: 0 <= k < |r| ==> Some(r[k]) in s
    ensures forall i :: 0 <= i < |s| && s[i].Some? ==> s[i].value in r
  {
    if s == [] then []
    else (if s[0].Some? then [s[0].value] else []) + NonNull(s[1..])
  }

  lemma NonNullPrepend<T>(x: Option<T>, s: seq<Option<T>>)
    ensures NonNull([x] + s) == (if x.Some? then [x.value] else []) + NonNull(s)
  {
    assert ([x] + s)[1..] == s;
  }
}

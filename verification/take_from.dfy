/** The error-selection rule (TakeFrom.java) that every combinator uses
    when two results are combined. */
module Rules {
  import opened Runtime
  import opened BaseResults

  /** HEAD keeps the first (left) error, TAIL the second (right) one. */
  datatype TakeFrom = HEAD | TAIL {

    /** `takeError(head, tail)`: the error that survives combining `head`
        with `tail`, or None when neither failed. */
    function TakeError(head: BaseResult, tail: BaseResult): (r: Option<Exception>)
      ensures r.Some? <==> head.IsErr() || tail.IsErr()
      ensures r == head.error || r == tail.error
      ensures head.IsErr() && tail.IsErr() ==> r == (if HEAD? then head.error else tail.error)
      ensures head.IsErr() && !tail.IsErr() ==> r == head.error
      ensures !head.IsErr() && tail.IsErr() ==> r == tail.error
    {
      if head.IsErr() && tail.IsErr() then
        var picked := match this
          case HEAD => head.error.value
          case TAIL => tail.error.value;
        Some(picked)
      else if head.IsErr() then Some(head.error.value)
      else if tail.IsErr() then Some(tail.error.value)
      else None
    }
  }

  /** The rule is only consulted when both sides failed. */
  lemma RuleMattersOnlyWhenBothErr(head: BaseResult, tail: BaseResult)
    requires !(head.IsErr() && tail.IsErr())
    ensures HEAD.TakeError(head, tail) == TAIL.TakeError(head, tail)
  {
  }

  /** HEAD and TAIL are mirror images: swapping the operands swaps the rule. */
  lemma RulesMirror(head: BaseResult, tail: BaseResult)
    ensures HEAD.TakeError(head, tail) == TAIL.TakeError(tail, head)
  {
  }
}

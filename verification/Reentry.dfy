/** Comparison terminates, within a stack depth computable from the two operands.

    `Codes.Equivalent` is a mathematical function; here the same four queries are evaluated by an
    interpreter that spends one frame per virtual call or re-entered `==`, and gives up when it
    has none left. */
module Reentry {
  import opened Codes

  datatype Answer = OutOfFrames | Value(b: bool)

  function Query(t: Tables, a: Code, b: Code, frames: nat): Answer
    decreases frames, 0
  {
    if frames == 0 then OutOfFrames else
    match a
    case Nested(p) => Query(t, p, b, frames - 1)
    case StdError(cat, v) =>
      if b.StdError? && b.category == cat then Value(v == b.value)
      else
        var c := Unwrapped(t, cat, v);
        if c.Some? then Compare(t, c.value, b, frames - 1) else Value(false)
    case _ => Value(PlainEquivalent(t, a, b))
  }

  /** The query against `o`'s generic code, skipped when that code is unknown. */
  function QueryGeneric(t: Tables, a: Code, o: Code, frames: nat): Answer
    decreases frames, 1
  {
    var c := GenericCode(t, o);
    if c == UNKNOWN then Value(false) else Query(t, a, Generic(c), frames)
  }

  /** Queries are made in order until one says yes. */
  function FirstTrue(r1: Answer, r2: Answer, r3: Answer, r4: Answer): Answer {
    if r1 != Value(false) then r1
    else if r2 != Value(false) then r2
    else if r3 != Value(false) then r3
    else r4
  }

  function Compare(t: Tables, a: Code, b: Code, frames: nat): Answer
    decreases frames, 2
  {
    if frames == 0 then OutOfFrames
    else
      FirstTrue(
        Query(t, a, b, frames - 1), Query(t, b, a, frames - 1),
        QueryGeneric(t, a, b, frames - 1), QueryGeneric(t, b, a, frames - 1))
  }

  /** Two frames per wrapped `std::error_code`, one per level of nesting, two for the comparison. */
  function StackBound(a: Code, b: Code): nat {
    2 + Depth(a) + Depth(b) + 2 * (StdCount(a) + StdCount(b))
  }

  lemma {:induction false} QueryFits(t: Tables, a: Code, b: Code, frames: nat)
    requires frames >= StackBound(a, b) - 1
    ensures Query(t, a, b, frames) == Value(DoEquivalent(t, a, b))
    decreases StdCount(a) + StdCount(b), Depth(a) + Depth(b), 0
  {
    match a
    case Nested(p) => QueryFits(t, p, b, frames - 1);
    case StdError(cat, v) =>
      var c := Unwrapped(t, cat, v);
      if c.Some? { CompareFits(t, c.value, b, frames - 1); }
    case _ =>
  }

  lemma {:induction false} QueryGenericFits(t: Tables, a: Code, o: Code, frames: nat)
    requires frames >= StackBound(a, o) - 1
    ensures QueryGeneric(t, a, o, frames) == Value(MatchesGenericOf(t, a, o))
    decreases StdCount(a) + StdCount(o), Depth(a) + Depth(o), 1
  {
    QueryFits(t, a, Generic(GenericCode(t, o)), frames);
  }

  /** With as many frames as `StackBound` the comparison finishes, with the answer of `Equivalent`. */
  lemma {:induction false} CompareFits(t: Tables, a: Code, b: Code, frames: nat)
    requires frames >= StackBound(a, b)
    ensures Compare(t, a, b, frames) == Value(Equivalent(t, a, b))
    decreases StdCount(a) + StdCount(b), Depth(a) + Depth(b), 2
  {
    QueryFits(t, a, b, frames - 1);
    QueryFits(t, b, a, frames - 1);
    QueryGenericFits(t, a, b, frames - 1);
    QueryGenericFits(t, b, a, frames - 1);
  }

  /** Codes the public interface can build are nested once, or wrap one `std::error_code`, or
      neither: six frames always suffice. */
  lemma SixFramesSuffice(t: Tables, a: Code, b: Code)
    requires Depth(a) + StdCount(a) <= 1 && Depth(b) + StdCount(b) <= 1
    ensures Compare(t, a, b, 6) == Value(Equivalent(t, a, b))
  {
    CompareFits(t, a, b, 6);
  }
}

/** `errored_status_code`: a status code that is never a success.  Constructing one from anything but
    another of its own type checks the result, and ends the process if it is a success.

    The check runs `_do_failure` on the bytes the construction left.  That the contract holds rests on
    erasure, conversion and copies preserving failure, and on no other handle's operation reaching an
    errored code's payload.  A move that cuts a value may break it: a copy may be accepted into an
    object whose padding holds part of it, checked there whole, and cut by the next, unchecked move. */
module Errored {
  import opened Codes
  import opened Erasure
  import opened ErasedCopy
  import opened Ownership
  import opened InPlace
  import opened HandleOps

  /** The contract: empty, or a failure. */
  predicate EmptyOrFailure(t: Tables, v: View) { v.Shows? && (v.sc.Empty? || Failure(t, v.sc)) }

  /** Which handles have an errored type. */
  datatype Typing = Typing(s: Ownership.State, errored: set<Slot>)

  /** How an operation treats its destination: it makes no errored code; or one from another object of
      the type, unchecked; or one from anything else, checked. */
  datatype Kind = Base | SameType | Converting

  datatype Action = Action(op: Op, kind: Kind)

  datatype Effect = Proceeds(x: Typing) | Ended | Broken

  /** An errored code is assigned from errored codes only: the base class's assignment is not reached
      through a reference. */
  ghost predicate Allowed(x: Typing, a: Action) {
    && Enabled(x.s, a.op)
    && (Unchecked(x, a) ==> MayRead(x.s.slots[a.op.src], a.op.cut))
    && match a.kind
       case Base => a.op.MoveAssign? && a.op.dst in x.errored ==> a.op.src in x.errored
       case SameType =>
         || a.op.ConstructEmpty?
         || (a.op.MoveConstruct? && a.op.src in x.errored && a.op.width == x.s.slots[a.op.src].width)
         || (a.op.CopyConstruct? && a.op.src in x.errored && IsTyped(x.s.slots[a.op.src]))
       case Converting => a.op.ConstructValue? || a.op.CopyConstruct? || a.op.MoveConstruct? || a.op.NothrowCopy?
  }

  /** The unchecked moves of errored codes. */
  predicate Unchecked(x: Typing, a: Action) {
    || (a.kind.SameType? && a.op.MoveConstruct?)
    || (a.kind.Base? && a.op.MoveAssign? && a.op.dst in x.errored)
  }

  /** What an unchecked move may make of a value it cuts: a code of the same domain whose bytes agree with
      the old one's as far as the value reaches. */
  ghost predicate MayRead(h: Handle, cut: ValueCode) {
    h.Value? && h.width < h.size ==> PossibleCut(h.code, h.size, h.width, cut)
  }

  /** The object is one of its code's own type, not an erased one. */
  predicate IsTyped(h: Handle) { TypedWidth(h) == h.width }

  function Retyped(errored: set<Slot>, a: Action): set<Slot> {
    if a.kind != Base then errored + {a.op.dst} else if a.op.Destroy? then errored - {a.op.dst} else errored
  }

  predicate IsSuccess(t: Tables, v: View) { v.Shows? && Success(t, v.sc) }

  /** The check of what a construction left; asking a cut address is a fault. */
  function Checked(t: Tables, a: Action, v: View, x: Typing): Effect {
    if a.kind != Converting then Proceeds(x)
    else if v.Astray? then Broken
    else if IsSuccess(t, v) then Ended
    else Proceeds(x)
  }

  ghost function Perform(t: Tables, x: Typing, a: Action): Effect
    requires Allowed(x, a)
  {
    match Step(x.s, a.op)
    case Running(s') =>
      var next := Typing(s', Retyped(x.errored, a));
      if a.op.dst in s'.slots then Checked(t, a, Look(s', a.op.dst), next) else Proceeds(next)
    case Terminated => Ended
    case Fault => Broken
  }

  ghost predicate TypingInv(t: Tables, x: Typing) {
    && Inv(x.s)
    && x.errored <= x.s.slots.Keys
    && forall d | d in x.errored :: EmptyOrFailure(t, Look(x.s, d))
  }

  /** An errored code no unchecked move can turn into a success: its payload is no wider than its value,
      or, for a code held in the object, the bytes of the value decide. */
  ghost predicate Lasting(t: Tables, h: Handle) {
    if h.Value? then Lasts(t, h.code, h.size, h.width) else SizeOf(h) <= h.width
  }

  /** What the destination of a finished step shows. */
  lemma DestinationView(s: Ownership.State, op: Op)
    requires Inv(s) && Enabled(s, op) && Step(s, op).Running?
    ensures SlotsOk(Shown(s), op) && ValueStep(Shown(s), op).Continues?
    ensures var m := ValueStep(Shown(s), op).views; var s' := Step(s, op).s;
      m.Keys == s'.slots.Keys && forall d | d in m :: m[d] == Look(s', d)
  {
    StepRefines(s, op);
  }

  /** What arrives of a lasting handle at another object of its type lasts, and fails if it failed. */
  lemma LastingArrives(t: Tables, h: Handle, cut: ValueCode)
    requires Lasting(t, h) && MayRead(h, cut)
    ensures var x := Arrives(h, h.width, cut);
      && Lasting(t, x) && !(h.Owner? && x.Stray?)
      && (h.Value? && DoFailure(t, h.code) ==> DoFailure(t, x.code))
  {
    if h.Value? && h.width < h.size { LastingCut(t, h.code, h.size, h.width, cut); }
  }

  lemma ErroredStays(t: Tables, x: Typing, a: Action, d: Slot)
    requires TypingInv(t, x) && Allowed(x, a) && Perform(t, x, a).Proceeds? && d in Perform(t, x, a).x.errored
    requires Unchecked(x, a) ==> Lasting(t, x.s.slots[a.op.src])
    ensures d in Step(x.s, a.op).s.slots && EmptyOrFailure(t, Look(Step(x.s, a.op).s, d))
  {
    if d in x.s.slots && !Touches(a.op, d) {
      OthersUnchanged(x.s, a.op, d);
    } else if a.op.MoveConstruct? || a.op.MoveAssign? {
      MovedStays(t, x, a, d);
    } else {
      DestinationView(x.s, a.op);
    }
  }

  lemma MovedStays(t: Tables, x: Typing, a: Action, d: Slot)
    requires TypingInv(t, x) && Allowed(x, a) && Perform(t, x, a).Proceeds? && d in Perform(t, x, a).x.errored
    requires (a.op.MoveConstruct? || a.op.MoveAssign?) && Touches(a.op, d)
    requires Unchecked(x, a) ==> Lasting(t, x.s.slots[a.op.src])
    ensures d in Step(x.s, a.op).s.slots && EmptyOrFailure(t, Look(Step(x.s, a.op).s, d))
  {
    MoveCarriesView(x.s, a.op);
    ShownSizes(x.s, a.op.src);
    if Unchecked(x, a) { LastingArrives(t, x.s.slots[a.op.src], a.op.cut); }
  }

  /** Every operation on any handle keeps the contract of every errored code, except an unchecked move
      that may cut one that does not last. */
  lemma PerformKeepsInv(t: Tables, x: Typing, a: Action)
    requires TypingInv(t, x) && Allowed(x, a) && Perform(t, x, a).Proceeds?
    requires Unchecked(x, a) ==> Lasting(t, x.s.slots[a.op.src])
    ensures TypingInv(t, Perform(t, x, a).x)
  {
    StepKeepsInv(x.s, a.op);
    forall d | d in Perform(t, x, a).x.errored
      ensures d in Step(x.s, a.op).s.slots && EmptyOrFailure(t, Look(Step(x.s, a.op).s, d))
    {
      ErroredStays(t, x, a, d);
    }
  }

  function MoveErrored(x: Typing, d: Slot, r: Slot, cut: ValueCode): Action
    requires r in x.s.slots
  {
    Action(MoveConstruct(d, x.s.slots[r].width, r, cut), SameType)
  }

  ghost predicate MoveKeepsContract(t: Tables, x: Typing, d: Slot, r: Slot)
    requires d !in x.s.slots && r in x.s.slots && r in x.errored
  {
    forall cut: ValueCode | MayRead(x.s.slots[r], cut) ::
      var effect := Perform(t, x, MoveErrored(x, d, r, cut));
      effect.Proceeds? && EmptyOrFailure(t, Look(effect.x.s, d))
  }

  /** An unchecked move of a lasting code keeps the contract, whatever the padding.  For a nested code the
      converse holds: once its address is wider than the value, every move cuts it. */
  lemma UncheckedMoveKeepsContract(t: Tables, x: Typing, d: Slot, r: Slot)
    requires TypingInv(t, x) && d !in x.s.slots && r in x.errored
    ensures Lasting(t, x.s.slots[r]) ==> MoveKeepsContract(t, x, d, r)
    ensures x.s.slots[r].Owner? ==> (MoveKeepsContract(t, x, d, r) <==> ADDRESS_SIZE <= x.s.slots[r].width)
  {
    var h := x.s.slots[r];
    forall cut: ValueCode | MayRead(h, cut)
      ensures var effect := Perform(t, x, MoveErrored(x, d, r, cut));
        && effect.Proceeds? && effect.x.s.slots[d] == Arrives(h, h.width, cut)
        && (Lasting(t, h) ==> EmptyOrFailure(t, Look(effect.x.s, d)))
    {
      MoveCarriesView(x.s, MoveErrored(x, d, r, cut).op);
      if Lasting(t, h) { PerformKeepsInv(t, x, MoveErrored(x, d, r, cut)); }
    }
    if h.Owner? && h.width < ADDRESS_SIZE {
      assert MayRead(h, ANY);
      assert Perform(t, x, MoveErrored(x, d, r, ANY)).x.s.slots[d].Stray?;
    }
  }

  // --------------------------------------------------------------------- runs

  datatype Reach = Reached(x: Typing) | Halted | Wrong | NotAllowed

  ghost function Run(t: Tables, x: Typing, actions: seq<Action>): Reach
    decreases |actions|
  {
    if actions == [] then Reached(x)
    else if !Allowed(x, actions[0]) then NotAllowed
    else match Perform(t, x, actions[0])
      case Proceeds(x') => Run(t, x', actions[1..])
      case Ended => Halted
      case Broken => Wrong
  }

  /** A checked construction leaves an errored code that lasts. */
  ghost predicate MakesLasting(t: Tables, x: Typing, a: Action)
    requires Allowed(x, a)
  {
    a.kind.Converting? && Step(x.s, a.op).Running? && a.op.dst in Step(x.s, a.op).s.slots ==>
      Lasting(t, Step(x.s, a.op).s.slots[a.op.dst])
  }

  ghost predicate AllLasting(t: Tables, x: Typing, actions: seq<Action>)
    decreases |actions|
  {
    actions != [] && Allowed(x, actions[0]) ==>
      && MakesLasting(t, x, actions[0])
      && (Perform(t, x, actions[0]).Proceeds? ==> AllLasting(t, Perform(t, x, actions[0]).x, actions[1..]))
  }

  ghost predicate LastingErrored(t: Tables, x: Typing) {
    forall d | d in x.errored :: d in x.s.slots && Lasting(t, x.s.slots[d])
  }

  lemma LastingStays(t: Tables, x: Typing, a: Action, d: Slot)
    requires LastingErrored(t, x) && Allowed(x, a) && MakesLasting(t, x, a) && Step(x.s, a.op).Running?
    requires d in Retyped(x.errored, a) && d in Step(x.s, a.op).s.slots
    ensures Lasting(t, Step(x.s, a.op).s.slots[d])
  {
    if d in x.s.slots && !Touches(a.op, d) {
      UntouchedSlot(x.s, a.op, d);
    } else if Unchecked(x, a) {
      LastingArrives(t, x.s.slots[a.op.src], a.op.cut);
    }
  }

  lemma UntouchedSlot(s: Ownership.State, op: Op, d: Slot)
    requires Enabled(s, op) && Step(s, op).Running? && d in s.slots && !Touches(op, d)
    ensures d in Step(s, op).s.slots && Step(s, op).s.slots[d] == s.slots[d]
  {}

  lemma PerformKeepsLasting(t: Tables, x: Typing, a: Action)
    requires TypingInv(t, x) && LastingErrored(t, x) && Allowed(x, a) && MakesLasting(t, x, a)
    requires Perform(t, x, a).Proceeds?
    ensures TypingInv(t, Perform(t, x, a).x) && LastingErrored(t, Perform(t, x, a).x)
  {
    PerformKeepsInv(t, x, a);
    var x' := Perform(t, x, a).x;
    forall d | d in x'.errored ensures d in x'.s.slots && Lasting(t, x'.s.slots[d]) {
      assert d in x'.s.slots;
      LastingStays(t, x, a, d);
    }
  }

  /** In every run whose checked constructions leave codes that last, every errored code, read through its
      payload if it is nested, is empty or a failure in every state reached. */
  lemma {:induction false} NeverASuccess(t: Tables, x: Typing, actions: seq<Action>)
    requires TypingInv(t, x) && LastingErrored(t, x) && AllLasting(t, x, actions)
    ensures Run(t, x, actions).Reached? ==>
      TypingInv(t, Run(t, x, actions).x) && LastingErrored(t, Run(t, x, actions).x)
    decreases |actions|
  {
    if actions != [] && Allowed(x, actions[0]) {
      var effect := Perform(t, x, actions[0]);
      if effect.Proceeds? {
        PerformKeepsLasting(t, x, actions[0]);
        NeverASuccess(t, effect.x, actions[1..]);
      }
    }
  }

  /** The same program over plain values, where a checked construction looks at the value given to it:
      no payloads. */
  function CheckedValues(t: Tables, m: map<Slot, View>, actions: seq<Action>): ValueResult
    decreases |actions|
  {
    if actions == [] then Views(m)
    else
      var a := actions[0];
      if !SlotsOk(m, a.op) then Undefined
      else match ValueStep(m, a.op)
        case Ends => Stops
        case Faults => Fails
        case Continues(m') =>
          if a.kind != Converting || a.op.dst !in m' then CheckedValues(t, m', actions[1..])
          else if m'[a.op.dst].Astray? then Fails
          else if IsSuccess(t, m'[a.op.dst]) then Stops
          else CheckedValues(t, m', actions[1..])
  }

  /** Every run ends as the program over values does, by running through, by a check or a termination,
      or by a fault, and its handles show what that program computes. */
  lemma {:induction false} RunIsCheckedValues(t: Tables, x: Typing, actions: seq<Action>)
    requires Inv(x.s) && !Run(t, x, actions).NotAllowed?
    ensures match Run(t, x, actions)
      case Reached(x') => CheckedValues(t, Shown(x.s), actions) == Views(Shown(x'.s))
      case Halted => CheckedValues(t, Shown(x.s), actions) == Stops
      case Wrong => CheckedValues(t, Shown(x.s), actions) == Fails
      case NotAllowed => false
    decreases |actions|
  {
    if actions != [] {
      var a := actions[0];
      StepRefines(x.s, a.op);
      StepKeepsInv(x.s, a.op);
      if Step(x.s, a.op).Running? {
        DestinationView(x.s, a.op);
        if Perform(t, x, a).Proceeds? { RunIsCheckedValues(t, Perform(t, x, a).x, actions[1..]); }
      }
    }
  }

  // ---------------------------------------------------------------- on bytes

  /** The failure query on an object's bytes answers for the code its handle shows. */
  lemma InPlaceIsShown(t: Tables, p: Process, d: Slot)
    requires p.Valid() && d in p.objects && !p.Abs().slots[d].Stray?
    ensures HandleOf(p.objects[d]).Owner? ==> HandleOf(p.objects[d]).payload in p.payloads
    ensures Look(p.Abs(), d).Shows?
    ensures FailureInPlace(t, p.payloads, p.objects[d]) == Failure(t, Look(p.Abs(), d).sc)
  {
    LookNested(p.Abs(), d);
    if HandleOf(p.objects[d]).Owner? { assert d in Owners(p.Abs()); }
  }

  const BIG := 0x1_0000_0000
  const EIGHT := IntType(8, true)
  const FOUR := IntType(4, true)

  lemma BigBytes()
    ensures InRange(EIGHT, BIG) && ToBytes(BIG, 8)[..4] == Zeros(4)
  {
    assert Pow256(4) == 0x1_0000_0000;
    assert Pow256(8) == 0x1_0000_0000_0000_0000;
    ToBytesPrefix(BIG, 4, 8);
    assert ToBytes(BIG, 4) == [0, 0, 0, 0];
  }

  /** The typed code 2^32, and its nothrow copy into the object of an int. */
  function BigTyped(q: nat): StatusObject { Stored(EIGHT, Object(ByteCopied(QuickDomain(q), EIGHT), ToBytes(BIG, 8))) }

  function BigCopy(q: nat): StatusObject { ByteCopy(FOUR, BigTyped(q), Zeros(4)) }

  lemma BigCopyReads(q: nat)
    ensures HandleOf(BigTyped(q)) == Value(8, 8, Quick(q, BIG)) && HandleOf(BigCopy(q)) == Value(4, 8, Quick(q, BIG))
  {
    BigBytes();
    ReadBack(EIGHT, BIG);
    assert Truncate(BigTyped(q).held.value, 8) == ToBytes(BIG, 8);
    CopyReadsTheSame(FOUR, BigTyped(q), Zeros(4));
  }

  lemma BigCopyMoves(q: nat)
    ensures HandleOf(Cast(Widened, FOUR, BigCopy(q), Zeros(4))) == Value(4, 8, Quick(q, 0))
  {
    BigBytes();
    assert Truncate(BigCopy(q).held.value, 4) == ToBytes(BIG, 8)[..4];
    ZeroObjectCasts(Widened, FOUR, BigCopy(q), Zeros(4));
    var moved := Cast(Widened, FOUR, BigCopy(q), Zeros(4));
    assert Truncate(moved.held.value, 8) == Zeros(8);
    ZeroReads(EIGHT);
  }

  /** The code 2^32 of an eight-byte quick enumeration is a failure, and still is one copied into the
      object of an int; moved from there, with zeros in the padding, its domain reads 0, which may be a
      success. */
  lemma MoveTurnsFailureIntoSuccess(t: Tables, q: nat)
    requires DoFailure(t, Quick(q, BIG)) && !DoFailure(t, Quick(q, 0))
    ensures FailureInPlace(t, map[], BigTyped(q)) && FailureInPlace(t, map[], BigCopy(q))
    ensures !FailureInPlace(t, map[], Cast(Widened, FOUR, BigCopy(q), Zeros(4)))
  {
    BigCopyReads(q);
    BigCopyMoves(q);
  }

  /** What a checked conversion leaves. */
  lemma ConversionLeaves(t: Tables, x: Typing, op: Op, s': Ownership.State)
    requires TypingInv(t, x) && op.MoveConstruct? && Enabled(x.s, op) && Running(s') == Step(x.s, op)
    requires !Arrives(x.s.slots[op.src], op.width, ANY).Stray?
    ensures !s'.slots[op.dst].Stray?
    ensures Look(s', op.dst) == Carried(Look(x.s, op.src), op.width, op.cut)
    ensures Look(s', op.src) == Nothing(x.s.slots[op.src].width)
    ensures !IsSuccess(t, Look(s', op.dst)) ==> TypingInv(t, Typing(s', x.errored + {op.dst}))
  {
    MoveCarriesView(x.s, op);
    StepKeepsInv(x.s, op);
    LookNested(s', op.dst);
    if !IsSuccess(t, Look(s', op.dst)) { PerformKeepsInv(t, x, Action(op, Converting)); }
  }

  /** What an unchecked move leaves. */
  lemma MoveLeaves(t: Tables, x: Typing, a: Action, s': Ownership.State)
    requires TypingInv(t, x) && Allowed(x, a) && Unchecked(x, a) && Running(s') == Step(x.s, a.op)
    ensures Proceeds(Typing(s', Retyped(x.errored, a))) == Perform(t, x, a)
    ensures Lasting(t, x.s.slots[a.op.src]) ==>
      TypingInv(t, Typing(s', Retyped(x.errored, a))) && !IsSuccess(t, Look(s', a.op.dst))
  {
    if Lasting(t, x.s.slots[a.op.src]) {
      PerformKeepsInv(t, x, a);
      assert a.op.dst in Retyped(x.errored, a);
    }
  }

  /** On bytes, what an unchecked move makes of a value is what `MayRead` admits. */
  lemma BytesMayRead(o: StatusObject, stray: bool, padding: seq<Byte>)
    requires Pads(padding, o.layout)
    ensures MayRead(HandleIn(o, stray), ReadIn(Cast(Widened, o.layout, o, padding)))
  {
    CastFollows(Widened, o.layout, o, padding);
    if o.held.domain.ByteCopied? { FollowingIsPossible(o, Cast(Widened, o.layout, o, padding)); }
  }

  /** An object's bytes and its handle agree on what is in it. */
  lemma HandleOfObject(p: Process, d: Slot)
    requires d in p.objects
    ensures SizeOf(p.Abs().slots[d]) == PayloadWidth(p.objects[d].held.domain)
    ensures p.Abs().slots[d].Owner? || p.Abs().slots[d].Stray? <==> p.objects[d].held.domain.Indirecting?
  {}

  /** What a checked nothrow copy leaves. */
  lemma CopyLeaves(t: Tables, x: Typing, op: Op, s': Ownership.State)
    requires TypingInv(t, x) && op.NothrowCopy? && Enabled(x.s, op) && Running(s') == Step(x.s, op)
    ensures !s'.slots[op.dst].Stray?
    ensures var failed := Refused(x.s, op) || (x.s.slots[op.src].Owner? && op.build == ConstructionThrows);
      Look(s', op.dst) == if failed then Nothing(op.width) else Placed(Look(x.s, op.src), op.width)
    ensures !IsSuccess(t, Look(s', op.dst)) ==> TypingInv(t, Typing(s', x.errored + {op.dst}))
  {
    Ownership.NothrowCopyAllOrNothing(x.s, op);
    StepKeepsInv(x.s, op);
    LookNested(s', op.dst);
    if !IsSuccess(t, Look(s', op.dst)) { PerformKeepsInv(t, x, Action(op, Converting)); }
  }

  /** The objects of a process that have an errored type. */
  class ErroredCodes {
    const tables: Tables
    const process: Process
    var errored: set<Slot>

    ghost function Abs(): Typing
      reads this, process
    {
      Typing(process.Abs(), errored)
    }

    ghost predicate Valid()
      reads this, process
    {
      process.Valid() && TypingInv(tables, Abs())
    }

    constructor (t: Tables, p: Process)
      requires p.Valid()
      ensures tables == t && process == p && errored == {} && Valid()
    {
      tables, process, errored := t, p, {};
    }

    /** `_check()`: ends the process if the object just constructed succeeds, by its bytes. */
    method Check(d: Slot) returns (terminated: bool)
      requires process.Valid() && d in process.objects && !process.Abs().slots[d].Stray?
      ensures terminated <==> IsSuccess(tables, Look(process.Abs(), d))
    {
      InPlaceIsShown(tables, process, d);
      var o := process.objects[d];
      return o.held.domain != NoDomain && !FailureInPlace(tables, process.payloads, o);
    }

    method ConstructEmpty(d: Slot, e: IntType, padding: seq<Byte>)
      requires Valid() && Enabled(process.Abs(), Op.ConstructEmpty(d, e.width)) && Pads(padding, e)
      modifies `errored, process
      ensures Valid()
      ensures Proceeds(Abs()) == Perform(tables, old(Abs()), Action(Op.ConstructEmpty(d, e.width), SameType))
    {
      PerformKeepsInv(tables, Abs(), Action(Op.ConstructEmpty(d, e.width), SameType));
      process.ConstructEmpty(d, e, padding);
      errored := errored + {d};
    }

    /** From a typed code, erased in either form: if the value is as wide, the process ends exactly when
        the typed code is a success, and otherwise the errored code shows that code.  A value cut by
        the erasure is checked as it was cut. */
    method ConstructFromTyped(d: Slot, form: Form, e: IntType, t: IntType, c: ValueCode, padding: seq<Byte>)
        returns (terminated: bool)
      requires Valid() && Enabled(process.Abs(), Op.ConstructValue(d, e.width, t.width, c, ANY))
      requires InRange(t, ValueOf(c)) && Pads(padding, e)
      modifies `errored, process
      ensures d in process.objects
      ensures var arrived := if t.width <= e.width then c else ReadIn(process.objects[d]);
        && (terminated <==> !DoFailure(tables, arrived))
        && Look(process.Abs(), d) == Shows(e.width, t.width, Holding(arrived))
      ensures !terminated ==> Valid() && errored == old(errored) + {d}
    {
      ghost var x := Abs();
      process.ConstructErased(d, form, e, t, c, padding);
      ghost var a := Action(Op.ConstructValue(d, e.width, t.width, c, ReadIn(process.objects[d])), Converting);
      terminated := Check(d);
      errored := errored + {d};
      if !terminated { PerformKeepsInv(tables, x, a); }
    }

    /** From another status code, moved and converted: ends exactly when what arrives is a success, which
        is what the source showed if nothing was cut; the source is left empty. */
    method ConstructFromErased(d: Slot, form: Form, e: IntType, src: Slot, padding: seq<Byte>)
        returns (terminated: bool)
      requires Valid() && Enabled(process.Abs(), Op.MoveConstruct(d, e.width, src, ANY)) && Pads(padding, e)
      requires !Arrives(process.Abs().slots[src], e.width, ANY).Stray?
      modifies `errored, process
      ensures d in process.objects && src in process.objects
      ensures var arrived := Carried(old(Look(process.Abs(), src)), e.width, ReadIn(process.objects[d]));
        && (terminated <==> IsSuccess(tables, arrived))
        && (!terminated ==> Look(process.Abs(), d) == arrived)
      ensures !terminated ==> Valid() && errored == old(errored) + {d}
      ensures Look(process.Abs(), src) == Nothing(old(process.objects[src].layout.width))
    {
      ghost var x := Abs();
      process.Convert(d, form, e, src, padding);
      ghost var s' := process.Abs();
      ConversionLeaves(tables, x, Op.MoveConstruct(d, e.width, src, ReadIn(process.objects[d])), s');
      terminated := Check(d);
      errored := errored + {d};
      assert Abs() == Typing(s', x.errored + {d});
    }

    /** Tagged copy construction from an unknown code: the process ends exactly when a payload not
        refused is not allocated, or the copy is made and the source is a success. */
    method ConstructNothrow(d: Slot, e: IntType, src: Slot, at: Addr, build: Build, padding: seq<Byte>)
        returns (terminated: bool)
      requires Valid() && Enabled(process.Abs(), Op.NothrowCopy(d, e.width, src, at, build)) && InRange(ADDRESS, at)
      requires !FollowsStray(process.Abs(), Op.NothrowCopy(d, e.width, src, at, build)) && Pads(padding, e)
      modifies `errored, process
      ensures var from, was := old(process.objects[src].held.domain), old(Look(process.Abs(), src));
        var fits := DOMAIN_SIZE + PayloadWidth(from) <= ObjectSize(e.width);
        var built := from.Indirecting? ==> build.Built?;
        && (terminated <==> fits && if built then IsSuccess(tables, was) else build.AllocationThrows?)
        && (!terminated ==>
              && Valid() && errored == old(errored) + {d} && d in process.objects
              && Look(process.Abs(), d) == if fits && built then Placed(was, e.width) else Nothing(e.width))
    {
      ghost var x := Abs();
      HandleOfObject(process, src);
      var gone := process.NothrowCopy(d, e, src, at, build, padding);
      if gone {
        return true;
      }
      ghost var s' := process.Abs();
      CopyLeaves(tables, x, Op.NothrowCopy(d, e.width, src, at, build), s');
      terminated := Check(d);
      errored := errored + {d};
      assert Abs() == Typing(s', x.errored + {d});
    }

    /** Move construction between objects of the type, unchecked: a lasting code keeps the contract,
        otherwise the bytes decide. */
    method MoveFrom(d: Slot, src: Slot, padding: seq<Byte>)
      requires Valid() && src in errored && Pads(padding, process.objects[src].layout)
      requires Enabled(process.Abs(), Op.MoveConstruct(d, process.objects[src].layout.width, src, ANY))
      modifies `errored, process
      ensures d in process.objects && process.Valid()
      ensures var a := MoveErrored(old(Abs()), d, src, ReadIn(process.objects[d]));
        Allowed(old(Abs()), a) && Proceeds(Abs()) == Perform(tables, old(Abs()), a)
      ensures old(Lasting(tables, Abs().s.slots[src])) ==> Valid() && !IsSuccess(tables, Look(process.Abs(), d))
    {
      ghost var x := Abs();
      ghost var o, stray := process.objects[src], src in process.strays;
      process.Convert(d, Widened, process.objects[src].layout, src, padding);
      BytesMayRead(o, stray, padding);
      errored := errored + {d};
      MoveLeaves(tables, x, MoveErrored(x, d, src, ReadIn(process.objects[d])), process.Abs());
    }

    /** Copy construction of a typed errored code, which its value type may allow: no check. */
    method CopyFrom(d: Slot, src: Slot)
      requires Valid() && Enabled(process.Abs(), Op.CopyConstruct(d, src, ANY)) && src in errored
      requires IsTyped(process.Abs().slots[src])
      modifies `errored, process
      ensures Valid()
      ensures Proceeds(Abs()) == Perform(tables, old(Abs()), Action(Op.CopyConstruct(d, src, ANY), SameType))
      ensures !IsSuccess(tables, Look(process.Abs(), d))
    {
      PerformKeepsInv(tables, Abs(), Action(Op.CopyConstruct(d, src, ANY), SameType));
      process.CopyTyped(d, src);
      errored := errored + {d};
      assert d in Abs().errored;
    }

    /** A typed errored code from an erased code of its domain: ends exactly when what arrives is a
        success, which is the code itself if nothing was cut. */
    method ConstructFromUnerased(d: Slot, form: Form, src: Slot, padding: seq<Byte>) returns (terminated: bool)
      requires Valid() && Enabled(process.Abs(), Op.CopyConstruct(d, src, ANY))
      requires process.objects[src].held.domain.ByteCopied?
      requires Pads(padding, process.objects[src].held.domain.layout)
      modifies `errored, process
      ensures d in process.objects
      ensures var was := old(Look(process.Abs(), src));
        var arrived := Carried(was, ViewTypedWidth(was), ReadIn(process.objects[d]));
        && (terminated <==> IsSuccess(tables, arrived))
        && (!terminated ==> Look(process.Abs(), d) == arrived)
      ensures !terminated ==> Valid() && errored == old(errored) + {d}
    {
      ghost var x := Abs();
      process.ConstructTyped(d, form, src, padding);
      ghost var a := Action(Op.CopyConstruct(d, src, ReadIn(process.objects[d])), Converting);
      terminated := Check(d);
      errored := errored + {d};
      if !terminated { PerformKeepsInv(tables, x, a); }
    }

    /** Move assignment, unchecked: what the target owned is lost, and a lasting code keeps the
        contract. */
    method MoveAssign(d: Slot, src: Slot, padding: seq<Byte>)
      requires Valid() && Enabled(process.Abs(), Op.MoveAssign(d, src, ANY)) && d in errored && src in errored
      requires process.objects[d].layout == process.objects[src].layout
      requires Pads(padding, process.objects[src].layout)
      modifies process
      ensures d in process.objects && process.Valid()
      ensures var a := Action(Op.MoveAssign(d, src, ReadIn(process.objects[d])), Base);
        Allowed(old(Abs()), a) && Proceeds(Abs()) == Perform(tables, old(Abs()), a)
      ensures old(Lasting(tables, Abs().s.slots[src])) ==> Valid() && !IsSuccess(tables, Look(process.Abs(), d))
    {
      ghost var x := Abs();
      ghost var o, stray := process.objects[src], src in process.strays;
      process.MoveAssign(d, src, padding);
      BytesMayRead(o, stray, padding);
      MoveLeaves(tables, x, Action(Op.MoveAssign(d, src, ReadIn(process.objects[d])), Base), process.Abs());
    }

    /** `clear()`, which the erased form inherits: also what it owned is lost. */
    method Clear(d: Slot, padding: seq<Byte>)
      requires Valid() && Enabled(process.Abs(), Op.Clear(d)) && Pads(padding, process.objects[d].layout)
      modifies process
      ensures Valid() && Proceeds(Abs()) == Perform(tables, old(Abs()), Action(Op.Clear(d), Base))
    {
      PerformKeepsInv(tables, Abs(), Action(Op.Clear(d), Base));
      process.Clear(d, padding);
    }

    /** Destroying any handle, errored or not, leaves every errored code a failure or empty: none of
        them pointed to the payload destroyed. */
    method Destroy(d: Slot)
      requires Valid() && Enabled(process.Abs(), Op.Destroy(d)) && !FollowsStray(process.Abs(), Op.Destroy(d))
      modifies `errored, process
      ensures Valid() && Proceeds(Abs()) == Perform(tables, old(Abs()), Action(Op.Destroy(d), Base))
    {
      StepKeepsInv(process.Abs(), Op.Destroy(d));
      PerformKeepsInv(tables, Abs(), Action(Op.Destroy(d), Base));
      process.Destroy(d);
      errored := errored - {d};
    }

    /** The observer that overrides `success()` with a constant agrees with the one it hides. */
    method IsSuccessful(d: Slot) returns (b: bool)
      requires Valid() && d in errored
      ensures b == IsSuccess(tables, Look(process.Abs(), d))
    {
      assert EmptyOrFailure(tables, Look(process.Abs(), d));
      return false;
    }
  }
}

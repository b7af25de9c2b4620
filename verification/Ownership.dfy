/** Erased handles that own heap payloads: nested status codes.

    The state machine has every live handle, every live payload, and three counters.  Move assignment
    and `clear()` run only the storage destructor of the handle they overwrite, so a payload that
    handle owned is never released.  A move carries as many bytes as the two value types have; which
    conversions compile is decided by the padded sizes of the objects, so a move may cut a payload
    pointer, and that payload is lost too.  The accounting law says exactly how many are lost. */
module Ownership {
  import opened Codes
  import opened Comparison
  import opened ErasedCopy

  type Slot = nat
  type Addr = nat

  const ADDRESS_SIZE: nat := 8

  /** A code whose domain keeps the default copy and destroy. */
  type ValueCode = c: Code | !c.Nested? witness Generic(SUCCESS)

  /** A handle as its domain reads it, in an object whose value type has some width: null; a code whose
      value type has some size; the address of a payload; or an address a move has cut.
      `HandleOps` relates the bytes of erased objects to these. */
  datatype Handle =
    | Null(width: nat)
    | Value(width: nat, size: nat, code: ValueCode)
    | Owner(width: nat, payload: Addr)
    | Stray(width: nat)

  function SizeOf(h: Handle): nat {
    match h
    case Null(_) => 0
    case Value(_, size, _) => size
    case _ => ADDRESS_SIZE
  }

  /** The same contents in an object of another width. */
  function Resized(h: Handle, w: nat): Handle {
    match h
    case Null(_) => Null(w)
    case Value(_, size, c) => Value(w, size, c)
    case Owner(_, a) => Owner(w, a)
    case Stray(_) => Stray(w)
  }

  datatype State = State(
    slots: map<Slot, Handle>,
    payloads: map<Addr, Code>,
    allocations: nat,
    releases: nat,
    lost: nat)   // owners overwritten by move assignment or clear(), and owners cut by a move

  const INITIAL := State(map[], map[], 0, 0, 0)

  /** How the allocation and the construction of a payload went. */
  datatype Build = AllocationThrows | ConstructionThrows | Built

  /** `width` is the width of the destination's value type; `cut` is what the domain will read if the
      operation cuts the value, from bytes partly indeterminate: any code here, while `InPlace.PossibleCut`
      says which ones the bytes can give. */
  datatype Op =
    | ConstructEmpty(dst: Slot, width: nat)
    | ConstructValue(dst: Slot, width: nat, size: nat, value: ValueCode, cut: ValueCode)
    | CopyConstruct(dst: Slot, src: Slot, cut: ValueCode)   // a typed code, from a typed or an erased one
    | MakeNested(dst: Slot, code: Code, at: Addr, build: Build)
    | MoveConstruct(dst: Slot, width: nat, src: Slot, cut: ValueCode)   // also conversion
    | MoveAssign(dst: Slot, src: Slot, cut: ValueCode)
    | Clear(dst: Slot)
    | Clone(dst: Slot, src: Slot, at: Addr, build: Build)
    | NothrowCopy(dst: Slot, width: nat, src: Slot, at: Addr, build: Build)
    | Destroy(dst: Slot)

  datatype Outcome = Running(s: State) | Terminated | Fault

  /** The guard of every erasing, converting and unerasing constructor compares padded objects. */
  predicate Convertible(from: nat, to: nat) { ObjectSize(from) <= ObjectSize(to) }

  function TypedWidth(h: Handle): nat { if h.Value? then h.size else h.width }

  /** Object lifetimes, an allocator that hands out addresses not in use, no self-move, and a
      non-empty source for the nothrow copy. */
  predicate Enabled(s: State, op: Op) {
    match op
    case ConstructEmpty(d, _) => d !in s.slots
    case ConstructValue(d, w, size, _, _) => d !in s.slots && Convertible(size, w)
    case CopyConstruct(d, r, _) =>
      && d !in s.slots && r in s.slots && (s.slots[r].Value? || s.slots[r].Null?)
      && Convertible(s.slots[r].width, TypedWidth(s.slots[r]))
    case MakeNested(d, _, at, _) => d !in s.slots && at !in s.payloads
    case MoveConstruct(d, w, r, _) => d !in s.slots && r in s.slots && Convertible(s.slots[r].width, w)
    case MoveAssign(d, r, _) => d in s.slots && r in s.slots && d != r && s.slots[d].width == s.slots[r].width
    case Clear(d) => d in s.slots
    case Clone(d, r, at, _) => d !in s.slots && r in s.slots && at !in s.payloads
    case NothrowCopy(d, _, r, at, _) =>
      d !in s.slots && r in s.slots && !s.slots[r].Null? && at !in s.payloads
    case Destroy(d) => d in s.slots
  }

  function Store(s: State, d: Slot, h: Handle): State { s.(slots := s.slots[d := h]) }

  /** The payload lies within the value moved and the value it is moved to. */
  predicate Fits(h: Handle, w: nat) { SizeOf(h) <= h.width && SizeOf(h) <= w }

  /** A handle as a value of some width receives it. */
  function Arrives(h: Handle, w: nat, cut: ValueCode): Handle {
    if Fits(h, w) then Resized(h, w)
    else if h.Value? then Value(w, h.size, cut)
    else Stray(w)
  }

  /** A handle to a fresh payload. */
  function Own(s: State, d: Slot, w: nat, at: Addr, c: Code): State {
    Store(s, d, Owner(w, at)).(payloads := s.payloads[at := c], allocations := s.allocations + 1)
  }

  /** An allocation given back because construction threw. */
  function Undone(s: State): State { s.(allocations := s.allocations + 1, releases := s.releases + 1) }

  function Lose(s: State): State { s.(lost := s.lost + 1) }

  function CountOverwrite(s: State, d: Slot): State
    requires d in s.slots
  {
    if s.slots[d].Owner? then Lose(s) else s
  }

  /** Move construction into a slot whose former handle, if any, owns nothing. */
  function HandOver(s: State, d: Slot, w: nat, r: Slot, cut: ValueCode): State
    requires r in s.slots
  {
    var h := s.slots[r];
    Store(Store(if h.Owner? && !Fits(h, w) then Lose(s) else s, d, Arrives(h, w, cut)), r, Null(h.width))
  }

  /** `_do_erased_copy` of an indirecting domain.  The allocation is outside its try block, in a
      noexcept function. */
  function CopyNested(s: State, d: Slot, w: nat, from: Addr, at: Addr, build: Build, refused: Outcome): Outcome {
    if from !in s.payloads then Fault
    else match build
      case AllocationThrows => Terminated
      case ConstructionThrows => refused
      case Built => Running(Own(s, d, w, at, s.payloads[from]))
  }

  function Wrapped(s: State, d: Slot, c: Code, at: Addr, build: Build): State {
    match build
    case AllocationThrows => s
    case ConstructionThrows => Undone(s)
    case Built => Own(s, d, ADDRESS_SIZE, at, c)
  }

  function Assigned(s: State, d: Slot, r: Slot, cut: ValueCode): State
    requires d in s.slots && r in s.slots
  {
    HandOver(CountOverwrite(s, d), d, s.slots[d].width, r, cut)
  }

  function Cleared(s: State, d: Slot): State
    requires d in s.slots
  {
    Store(CountOverwrite(s, d), d, Null(s.slots[d].width))
  }

  function Cloned(s: State, d: Slot, r: Slot, at: Addr, build: Build): Outcome
    requires r in s.slots
  {
    match s.slots[r]
    case Owner(w, from) => CopyNested(s, d, w, from, at, build, Terminated)
    case Stray(_) => Fault
    case h => Running(Store(s, d, h))
  }

  /** The unpadded source is larger than the padded destination. */
  predicate TooLarge(size: nat, w: nat) { ObjectSize(w) < DOMAIN_SIZE + size }

  function NothrowCopied(s: State, d: Slot, w: nat, r: Slot, at: Addr, build: Build): Outcome
    requires r in s.slots
  {
    if TooLarge(SizeOf(s.slots[r]), w) then Running(Store(s, d, Null(w)))
    else match s.slots[r]
      case Owner(_, from) => CopyNested(s, d, w, from, at, build, Running(Store(Undone(s), d, Null(w))))
      case Stray(_) => Fault
      case h => Running(Store(s, d, Resized(h, w)))
  }

  function Destroyed(s: State, d: Slot): Outcome
    requires d in s.slots
  {
    var rest := s.(slots := s.slots - {d});
    match s.slots[d]
    case Owner(_, a) =>
      if a !in s.payloads then Fault
      else Running(rest.(payloads := s.payloads - {a}, releases := s.releases + 1))
    case Stray(_) => Fault
    case _ => Running(rest)
  }

  /** Following a cut address is a fault. */
  function Step(s: State, op: Op): Outcome
    requires Enabled(s, op)
  {
    match op
    case ConstructEmpty(d, w) => Running(Store(s, d, Null(w)))
    case ConstructValue(d, w, size, c, cut) => Running(Store(s, d, Value(w, size, if size <= w then c else cut)))
    case CopyConstruct(d, r, cut) => Running(Store(s, d, Arrives(s.slots[r], TypedWidth(s.slots[r]), cut)))
    case MakeNested(d, c, at, build) => Running(Wrapped(s, d, c, at, build))
    case MoveConstruct(d, w, r, cut) => Running(HandOver(s, d, w, r, cut))
    case MoveAssign(d, r, cut) => Running(Assigned(s, d, r, cut))
    case Clear(d) => Running(Cleared(s, d))
    case Clone(d, r, at, build) => Cloned(s, d, r, at, build)
    case NothrowCopy(d, w, r, at, build) => NothrowCopied(s, d, w, r, at, build)
    case Destroy(d) => Destroyed(s, d)
  }

  // ---------------------------------------------------------------- invariant

  function Owners(s: State): set<Slot> {
    set d | d in s.slots && s.slots[d].Owner?
  }

  ghost predicate EachOwnsALivePayload(s: State) {
    forall d | d in Owners(s) :: s.slots[d].payload in s.payloads
  }

  ghost predicate NoneShare(s: State) {
    forall d, e | d in Owners(s) && e in Owners(s) && s.slots[d].payload == s.slots[e].payload :: d == e
  }

  predicate Accounted(s: State) {
    && s.allocations - s.releases == |s.payloads.Keys|
    && |s.payloads.Keys| == |Owners(s)| + s.lost
  }

  ghost predicate Inv(s: State) { EachOwnsALivePayload(s) && NoneShare(s) && Accounted(s) }

  /** Handles that touch no owner keep the invariant. */
  lemma StoreValueKeepsInv(s: State, d: Slot, h: Handle)
    requires Inv(s) && d !in Owners(s) && !h.Owner?
    ensures Inv(Store(s, d, h)) && Owners(Store(s, d, h)) == Owners(s)
  {
    var s' := Store(s, d, h);
    assert Owners(s') == Owners(s);
    assert forall e | e in Owners(s') :: s'.slots[e] == s.slots[e];
  }

  lemma OwnAccounts(s: State, d: Slot, w: nat, at: Addr, c: Code)
    requires Accounted(s) && d !in s.slots && at !in s.payloads
    ensures Owners(Own(s, d, w, at, c)) == Owners(s) + {d} && Accounted(Own(s, d, w, at, c))
  {
    var s' := Own(s, d, w, at, c);
    assert Owners(s') == Owners(s) + {d};
    assert s'.payloads.Keys == s.payloads.Keys + {at};
  }

  lemma OwnKeepsInv(s: State, d: Slot, w: nat, at: Addr, c: Code)
    requires Inv(s) && d !in s.slots && at !in s.payloads
    ensures Inv(Own(s, d, w, at, c))
  {
    OwnAccounts(s, d, w, at, c);
    assert forall e | e in Owners(s) :: Own(s, d, w, at, c).slots[e] == s.slots[e];
  }

  /** Forgetting a handle: an owner forgotten is a payload lost. */
  lemma ForgetKeepsInv(s: State, d: Slot, h: Handle)
    requires Inv(s) && d in s.slots && !h.Owner?
    ensures Inv(Store(CountOverwrite(s, d), d, h))
    ensures Owners(Store(CountOverwrite(s, d), d, h)) == Owners(s) - {d}
  {
    var s' := Store(CountOverwrite(s, d), d, h);
    assert Owners(s') == Owners(s) - {d};
    assert forall e | e in Owners(s') :: s'.slots[e] == s.slots[e];
  }

  lemma HandOverWhole(s: State, d: Slot, w: nat, r: Slot, cut: ValueCode)
    requires Inv(s) && r in Owners(s) && d != r && d !in Owners(s) && Fits(s.slots[r], w)
    ensures Inv(HandOver(s, d, w, r, cut))
  {
    var s' := HandOver(s, d, w, r, cut);
    assert Owners(s') == Owners(s) - {r} + {d};
    forall e | e in Owners(s') ensures s'.slots[e].payload == s.slots[if e == d then r else e].payload {}
  }

  lemma HandOverCut(s: State, d: Slot, w: nat, r: Slot, cut: ValueCode)
    requires Inv(s) && r in Owners(s) && d != r && d !in Owners(s) && !Fits(s.slots[r], w)
    ensures Inv(HandOver(s, d, w, r, cut))
  {
    var n := Null(s.slots[r].width);
    var forgot := Store(CountOverwrite(s, r), r, n);
    ForgetKeepsInv(s, r, n);
    StoreValueKeepsInv(forgot, d, Stray(w));
    assert s.slots[r := n][d := Stray(w)] == s.slots[d := Stray(w)][r := n];
    assert Store(forgot, d, Stray(w)) == HandOver(s, d, w, r, cut);
  }

  /** Handing a handle over to a slot that owns nothing. */
  lemma HandOverKeepsInv(s: State, d: Slot, w: nat, r: Slot, cut: ValueCode)
    requires Inv(s) && r in s.slots && d != r && d !in Owners(s)
    ensures Inv(HandOver(s, d, w, r, cut))
  {
    var h := s.slots[r];
    if h.Owner? && Fits(h, w) {
      HandOverWhole(s, d, w, r, cut);
    } else if h.Owner? {
      HandOverCut(s, d, w, r, cut);
    } else {
      StoreValueKeepsInv(s, d, Arrives(h, w, cut));
      StoreValueKeepsInv(Store(s, d, Arrives(h, w, cut)), r, Null(h.width));
    }
  }

  lemma DestroyKeepsInv(s: State, d: Slot)
    requires Inv(s) && d in s.slots
    ensures Step(s, Destroy(d)).Fault? <==> s.slots[d].Stray?
    ensures !s.slots[d].Stray? ==> Step(s, Destroy(d)).Running? && Inv(Step(s, Destroy(d)).s)
  {
    if d in Owners(s) {
      var s' := Step(s, Destroy(d)).s;
      assert Owners(s') == Owners(s) - {d};
      assert forall e | e in Owners(s') :: s'.slots[e] == s.slots[e];
      assert s'.payloads.Keys == s.payloads.Keys - {s.slots[d].payload};
    } else if !s.slots[d].Stray? {
      var s' := Step(s, Destroy(d)).s;
      assert Owners(s') == Owners(s);
      assert forall e | e in Owners(s') :: s'.slots[e] == s.slots[e];
    }
  }

  /** Move assignment is clearing, then handing over. */
  lemma MoveAssignSplits(s: State, d: Slot, r: Slot, cut: ValueCode)
    requires Enabled(s, MoveAssign(d, r, cut))
    ensures var w := s.slots[d].width; var counted := CountOverwrite(s, d);
      HandOver(Store(counted, d, Null(w)), d, w, r, cut) == HandOver(counted, d, w, r, cut)
  {
    var w := s.slots[d].width;
    assert s.slots[d := Null(w)][d := Arrives(s.slots[r], w, cut)] == s.slots[d := Arrives(s.slots[r], w, cut)];
  }

  lemma MoveAssignKeepsInv(s: State, d: Slot, r: Slot, cut: ValueCode)
    requires Inv(s) && Enabled(s, MoveAssign(d, r, cut))
    ensures Inv(Step(s, MoveAssign(d, r, cut)).s)
  {
    var w := s.slots[d].width;
    MoveAssignSplits(s, d, r, cut);
    ForgetKeepsInv(s, d, Null(w));
    HandOverKeepsInv(Store(CountOverwrite(s, d), d, Null(w)), d, w, r, cut);
  }

  lemma CopyNestedKeepsInv(s: State, d: Slot, w: nat, r: Slot, at: Addr, build: Build, refused: Outcome)
    requires Inv(s) && d !in s.slots && r in Owners(s) && at !in s.payloads
    requires refused.Terminated? || (refused.Running? && Inv(refused.s))
    ensures var o := CopyNested(s, d, w, s.slots[r].payload, at, build, refused);
      !o.Fault? && (o.Running? ==> Inv(o.s))
  {
    OwnKeepsInv(s, d, w, at, s.payloads[s.slots[r].payload]);
  }

  lemma CloneKeepsInv(s: State, op: Op)
    requires Inv(s) && Enabled(s, op) && op.Clone?
    ensures Step(s, op).Fault? <==> s.slots[op.src].Stray?
    ensures Step(s, op).Running? ==> Inv(Step(s, op).s)
  {
    var h := s.slots[op.src];
    if h.Owner? {
      CopyNestedKeepsInv(s, op.dst, h.width, op.src, op.at, op.build, Terminated);
    } else if !h.Stray? {
      StoreValueKeepsInv(s, op.dst, h);
    }
  }

  lemma UndoneKeepsInv(s: State)
    requires Inv(s)
    ensures Inv(Undone(s)) && Owners(Undone(s)) == Owners(s)
  {}

  predicate Refused(s: State, op: Op)
    requires op.NothrowCopy? && op.src in s.slots
  {
    TooLarge(SizeOf(s.slots[op.src]), op.width)
  }

  lemma NothrowCopyKeepsInv(s: State, op: Op)
    requires Inv(s) && Enabled(s, op) && op.NothrowCopy?
    ensures Step(s, op).Fault? <==> s.slots[op.src].Stray? && !Refused(s, op)
    ensures Step(s, op).Running? ==> Inv(Step(s, op).s)
  {
    var h := s.slots[op.src];
    if Refused(s, op) {
      StoreValueKeepsInv(s, op.dst, Null(op.width));
    } else if h.Owner? {
      UndoneKeepsInv(s);
      StoreValueKeepsInv(Undone(s), op.dst, Null(op.width));
      var refused := Running(Store(Undone(s), op.dst, Null(op.width)));
      CopyNestedKeepsInv(s, op.dst, op.width, op.src, op.at, op.build, refused);
    } else if !h.Stray? {
      StoreValueKeepsInv(s, op.dst, Resized(h, op.width));
    }
  }

  /** The operations that follow the address a handle holds. */
  predicate FollowsStray(s: State, op: Op)
    requires Enabled(s, op)
  {
    match op
    case Clone(_, r, _, _) => s.slots[r].Stray?
    case NothrowCopy(_, _, r, _, _) => s.slots[r].Stray? && !Refused(s, op)
    case Destroy(d) => s.slots[d].Stray?
    case _ => false
  }

  /** An operation faults exactly when it follows an address a move has cut; every other keeps the
      invariant, cutting ones included. */
  lemma StepKeepsInv(s: State, op: Op)
    requires Inv(s) && Enabled(s, op)
    ensures Step(s, op).Fault? <==> FollowsStray(s, op)
    ensures Step(s, op).Running? ==> Inv(Step(s, op).s)
  {
    match op
    case ConstructEmpty(d, w) => StoreValueKeepsInv(s, d, Null(w));
    case ConstructValue(d, w, size, c, cut) => StoreValueKeepsInv(s, d, Value(w, size, if size <= w then c else cut));
    case CopyConstruct(d, r, cut) => StoreValueKeepsInv(s, d, Arrives(s.slots[r], TypedWidth(s.slots[r]), cut));
    case MakeNested(d, c, at, build) => OwnKeepsInv(s, d, ADDRESS_SIZE, at, c); UndoneKeepsInv(s);
    case MoveConstruct(d, w, r, cut) => HandOverKeepsInv(s, d, w, r, cut);
    case MoveAssign(d, r, cut) => MoveAssignKeepsInv(s, d, r, cut);
    case Clear(d) => ForgetKeepsInv(s, d, Null(s.slots[d].width));
    case Clone(_, _, _, _) => CloneKeepsInv(s, op);
    case NothrowCopy(_, _, _, _, _) => NothrowCopyKeepsInv(s, op);
    case Destroy(d) => DestroyKeepsInv(s, d);
  }

  lemma InitialInv()
    ensures Inv(INITIAL)
  {
    assert Owners(INITIAL) == {};
  }

  // --------------------------------------------------------------------- runs

  datatype Result = Finished(s: State) | Stopped | Faulted | Illegal

  /** A program: operations in order, until one terminates the process. */
  function Run(s: State, ops: seq<Op>): Result
    decreases |ops|
  {
    if ops == [] then Finished(s)
    else if !Enabled(s, ops[0]) then Illegal
    else match Step(s, ops[0])
      case Running(s') => Run(s', ops[1..])
      case Terminated => Stopped
      case Fault => Faulted
  }

  /** In every run, from the initial state or any state reached: each owner has its own live payload, no
      payload is freed twice, and payloads allocated minus freed are the live owners plus the owners
      lost. */
  lemma {:induction false} RunKeepsInv(s: State, ops: seq<Op>)
    requires Inv(s)
    ensures Run(s, ops).Finished? ==> Inv(Run(s, ops).s)
    decreases |ops|
  {
    if ops != [] && Enabled(s, ops[0]) {
      StepKeepsInv(s, ops[0]);
      if Step(s, ops[0]).Running? { RunKeepsInv(Step(s, ops[0]).s, ops[1..]); }
    }
  }

  // ------------------------------------------------------------------ meaning

  /** What a handle shows to its user: a status code, in an object and of a value of some widths, or
      nothing a query may follow. */
  datatype View = Shows(width: nat, size: nat, sc: StatusCode) | Astray(width: nat)

  function Nothing(w: nat): View { Shows(w, 0, Empty) }

  function Look(s: State, d: Slot): View
    requires d in s.slots
  {
    match s.slots[d]
    case Null(w) => Nothing(w)
    case Value(w, size, c) => Shows(w, size, Holding(c))
    case Owner(w, a) =>
      if a in s.payloads then Shows(w, ADDRESS_SIZE, Holding(Nested(s.payloads[a]))) else Astray(w)
    case Stray(w) => Astray(w)
  }

  function Shown(s: State): map<Slot, View> { map d | d in s.slots :: Look(s, d) }

  predicate IsNested(v: View) { v.Shows? && v.sc.Holding? && v.sc.code.Nested? }

  lemma LookNested(s: State, d: Slot)
    requires Inv(s) && d in s.slots
    ensures Look(s, d).Astray? <==> s.slots[d].Stray?
    ensures IsNested(Look(s, d)) <==> s.slots[d].Owner?
  {
    if s.slots[d].Owner? { assert d in Owners(s); }
  }

  predicate Touches(op: Op, d: Slot) {
    || op.dst == d
    || ((op.MoveConstruct? || op.MoveAssign?) && op.src == d)
  }

  /** An operation changes what no other handle shows. */
  lemma OthersUnchanged(s: State, op: Op, d: Slot)
    requires Inv(s) && Enabled(s, op) && Step(s, op).Running? && d in s.slots && !Touches(op, d)
    ensures d in Step(s, op).s.slots && Look(Step(s, op).s, d) == Look(s, d)
  {
    if s.slots[d].Owner? {
      assert d in Owners(s);
      if op.Destroy? && s.slots[op.dst].Owner? { assert op.dst in Owners(s); }
    }
  }

  predicate ViewFits(v: View, w: nat) { v.Shows? && v.size <= v.width && v.size <= w }

  function Placed(v: View, w: nat): View { v.(width := w) }

  /** What a move makes of a view. */
  function Carried(v: View, w: nat, cut: ValueCode): View {
    if v.Astray? || ViewFits(v, w) then Placed(v, w)
    else if IsNested(v) then Astray(w)
    else Shows(w, v.size, Holding(cut))
  }

  function MovedTo(s: State, op: Op): nat
    requires op.MoveConstruct? || (op.MoveAssign? && op.dst in s.slots)
  {
    if op.MoveConstruct? then op.width else s.slots[op.dst].width
  }

  /** Moving leaves the source empty, and the destination with what is carried over. */
  lemma MoveCarriesView(s: State, op: Op)
    requires Inv(s) && Enabled(s, op) && (op.MoveConstruct? || op.MoveAssign?)
    ensures Step(s, op).Running?
    ensures var s' := Step(s, op).s;
      && Look(s', op.dst) == Carried(Look(s, op.src), MovedTo(s, op), op.cut)
      && Look(s', op.src) == Nothing(s.slots[op.src].width)
  {
    if s.slots[op.src].Owner? { assert op.src in Owners(s); }
  }

  /** A clone shows what the original shows, from a payload of its own; the process ends instead
      exactly when a payload has to be made and is not. */
  lemma CloneCopiesView(s: State, op: Op)
    requires Inv(s) && Enabled(s, op) && op.Clone?
    ensures Step(s, op).Terminated? <==> s.slots[op.src].Owner? && !op.build.Built?
    ensures Step(s, op).Running? ==>
      var s' := Step(s, op).s;
      && Look(s', op.dst) == Look(s, op.src) == Look(s', op.src)
      && (s.slots[op.src].Owner? ==> s'.slots[op.dst].payload != s'.slots[op.src].payload)
  {
    if s.slots[op.src].Owner? { assert op.src in Owners(s); }
  }

  /** A nothrow copy is all or nothing: it shows the original, or it is empty, which happens exactly
      when the unpadded source is larger than the padded destination or its payload's construction
      threw; then no allocation is left behind.  The process ends exactly when a payload that is not
      refused is not allocated. */
  lemma NothrowCopyAllOrNothing(s: State, op: Op)
    requires Inv(s) && Enabled(s, op) && op.NothrowCopy?
    ensures Step(s, op).Terminated? <==> !Refused(s, op) && s.slots[op.src].Owner? && op.build.AllocationThrows?
    ensures Step(s, op).Running? ==>
      var s' := Step(s, op).s;
      var failed := Refused(s, op) || (s.slots[op.src].Owner? && op.build == ConstructionThrows);
      && Look(s', op.dst) == (if failed then Nothing(op.width) else Placed(Look(s, op.src), op.width))
      && Look(s', op.src) == Look(s, op.src)
      && Look(s, op.src) != Nothing(s.slots[op.src].width)
      && (failed ==> s'.payloads == s.payloads && s'.allocations - s'.releases == s.allocations - s.releases)
  {
    if s.slots[op.src].Owner? { assert op.src in Owners(s); }
  }

  // ---------------------------------------------------- refinement of values

  /** The same program over values: each handle simply holds a code, and there is no heap. */
  predicate SlotsOk(m: map<Slot, View>, op: Op) {
    match op
    case ConstructEmpty(d, _) => d !in m
    case ConstructValue(d, _, _, _, _) => d !in m
    case CopyConstruct(d, r, _) => d !in m && r in m && m[r].Shows?
    case MakeNested(d, _, _, _) => d !in m
    case MoveConstruct(d, _, r, _) => d !in m && r in m
    case MoveAssign(d, r, _) => d in m && r in m && d != r
    case Clear(d) => d in m
    case Clone(d, r, _, _) => d !in m && r in m
    case NothrowCopy(d, _, r, _, _) => d !in m && r in m
    case Destroy(d) => d in m
  }

  datatype ValueOutcome = Continues(views: map<Slot, View>) | Ends | Faults

  function ViewTypedWidth(v: View): nat { if v.Shows? && v.sc.Holding? then v.size else v.width }

  function ViewSize(v: View): nat { if v.Shows? then v.size else ADDRESS_SIZE }

  function ValueStep(m: map<Slot, View>, op: Op): ValueOutcome
    requires SlotsOk(m, op)
  {
    match op
    case ConstructEmpty(d, w) => Continues(m[d := Nothing(w)])
    case ConstructValue(d, w, size, c, cut) =>
      Continues(m[d := Shows(w, size, Holding(if size <= w then c else cut))])
    case CopyConstruct(d, r, cut) => Continues(m[d := Carried(m[r], ViewTypedWidth(m[r]), cut)])
    case MakeNested(d, c, _, build) =>
      Continues(if build.Built? then m[d := Shows(ADDRESS_SIZE, ADDRESS_SIZE, Holding(Nested(c)))] else m)
    case MoveConstruct(d, w, r, cut) => Continues(m[d := Carried(m[r], w, cut)][r := Nothing(m[r].width)])
    case MoveAssign(d, r, cut) => Continues(m[d := Carried(m[r], m[d].width, cut)][r := Nothing(m[r].width)])
    case Clear(d) => Continues(m[d := Nothing(m[d].width)])
    case Clone(d, r, _, build) =>
      if m[r].Astray? then Faults
      else if IsNested(m[r]) && !build.Built? then Ends
      else Continues(m[d := m[r]])
    case NothrowCopy(d, w, r, _, build) =>
      if TooLarge(ViewSize(m[r]), w) then Continues(m[d := Nothing(w)])
      else if m[r].Astray? then Faults
      else if IsNested(m[r]) && build.AllocationThrows? then Ends
      else if IsNested(m[r]) && build.ConstructionThrows? then Continues(m[d := Nothing(w)])
      else Continues(m[d := Placed(m[r], w)])
    case Destroy(d) => if m[d].Astray? then Faults else Continues(m - {d})
  }

  lemma EnabledSlots(s: State, op: Op)
    requires Inv(s) && Enabled(s, op)
    ensures SlotsOk(Shown(s), op)
  {
    if op.CopyConstruct? { LookNested(s, op.src); }
  }

  lemma ShownSizes(s: State, d: Slot)
    requires Inv(s) && d in s.slots
    ensures Look(s, d).width == s.slots[d].width && ViewSize(Look(s, d)) == SizeOf(s.slots[d])
    ensures !s.slots[d].Owner? ==> ViewTypedWidth(Look(s, d)) == TypedWidth(s.slots[d])
  {
    LookNested(s, d);
  }

  /** What a step that goes on shows at the slots it touches. */
  lemma TouchedRefines(s: State, op: Op, d: Slot)
    requires Inv(s) && Enabled(s, op) && Step(s, op).Running? && Touches(op, d)
    requires SlotsOk(Shown(s), op)
    ensures ValueStep(Shown(s), op).Continues?
    ensures var m, s' := ValueStep(Shown(s), op).views, Step(s, op).s;
      (d in m <==> d in s'.slots) && (d in m ==> m[d] == Look(s', d))
  {
    if op.Clone? {
      CloneCopiesView(s, op);
      LookNested(s, op.src);
    } else if op.NothrowCopy? {
      NothrowCopyAllOrNothing(s, op);
      LookNested(s, op.src);
      ShownSizes(s, op.src);
    } else if op.MoveConstruct? || op.MoveAssign? {
      MoveCarriesView(s, op);
      ShownSizes(s, op.src);
      if op.MoveAssign? { ShownSizes(s, op.dst); }
    } else if op.CopyConstruct? {
      ShownSizes(s, op.src);
    } else if op.Clear? || op.Destroy? {
      ShownSizes(s, op.dst);
      LookNested(s, op.dst);
    }
  }

  lemma ElsewhereRefines(s: State, op: Op, d: Slot)
    requires Enabled(s, op) && Step(s, op).Running? && !Touches(op, d)
    requires SlotsOk(Shown(s), op) && ValueStep(Shown(s), op).Continues?
    ensures d in Step(s, op).s.slots <==> d in s.slots
    ensures d in ValueStep(Shown(s), op).views <==> d in s.slots
    ensures d in s.slots ==> ValueStep(Shown(s), op).views[d] == Look(s, d)
  {}

  lemma EndingRefines(s: State, op: Op)
    requires Inv(s) && Enabled(s, op) && !Step(s, op).Running?
    requires SlotsOk(Shown(s), op)
    ensures ValueStep(Shown(s), op) == if Step(s, op).Fault? then Faults else Ends
  {
    StepKeepsInv(s, op);
    if op.Clone? || op.NothrowCopy? {
      LookNested(s, op.src);
      ShownSizes(s, op.src);
    }
    if op.Destroy? { LookNested(s, op.dst); }
  }

  /** Each operation on handles and payloads does to what the handles show what it does to values. */
  lemma StepRefines(s: State, op: Op)
    requires Inv(s) && Enabled(s, op)
    ensures SlotsOk(Shown(s), op)
    ensures match Step(s, op)
      case Running(s') => ValueStep(Shown(s), op) == Continues(Shown(s'))
      case Terminated => ValueStep(Shown(s), op) == Ends
      case Fault => ValueStep(Shown(s), op) == Faults
  {
    EnabledSlots(s, op);
    if Step(s, op).Running? {
      TouchedRefines(s, op, op.dst);
      var m, s' := ValueStep(Shown(s), op).views, Step(s, op).s;
      forall d ensures (d in m <==> d in s'.slots) && (d in m ==> m[d] == Look(s', d)) {
        if Touches(op, d) {
          TouchedRefines(s, op, d);
        } else {
          ElsewhereRefines(s, op, d);
          if d in s.slots { OthersUnchanged(s, op, d); }
        }
      }
      assert m == Shown(s');
    } else {
      EndingRefines(s, op);
    }
  }

  datatype ValueResult = Views(views: map<Slot, View>) | Stops | Fails | Undefined

  function ValueRun(m: map<Slot, View>, ops: seq<Op>): ValueResult
    decreases |ops|
  {
    if ops == [] then Views(m)
    else if !SlotsOk(m, ops[0]) then Undefined
    else match ValueStep(m, ops[0])
      case Continues(m') => ValueRun(m', ops[1..])
      case Ends => Stops
      case Faults => Fails
  }

  /** So every run ends as the program over values does, by running through, by termination or by a
      fault, and its handles show what that program computes. */
  lemma {:induction false} RunRefines(s: State, ops: seq<Op>)
    requires Inv(s) && !Run(s, ops).Illegal?
    ensures match Run(s, ops)
      case Finished(s') => ValueRun(Shown(s), ops) == Views(Shown(s'))
      case Stopped => ValueRun(Shown(s), ops) == Stops
      case Faulted => ValueRun(Shown(s), ops) == Fails
      case Illegal => false
    decreases |ops|
  {
    if ops != [] {
      StepRefines(s, ops[0]);
      StepKeepsInv(s, ops[0]);
      if Step(s, ops[0]).Running? { RunRefines(Step(s, ops[0]).s, ops[1..]); }
    }
  }

  // ------------------------------------------------------ what a program loses

  /** The payloads an operation loses: one it overwrites, and one whose address it cuts. */
  function Loss(m: map<Slot, View>, op: Op): nat
    requires SlotsOk(m, op)
  {
    match op
    case MoveConstruct(_, w, r, _) => if IsNested(m[r]) && !ViewFits(m[r], w) then 1 else 0
    case MoveAssign(d, r, _) =>
      (if IsNested(m[d]) then 1 else 0) + (if IsNested(m[r]) && !ViewFits(m[r], m[d].width) then 1 else 0)
    case Clear(d) => if IsNested(m[d]) then 1 else 0
    case _ => 0
  }

  /** The payloads a program loses, read off the program. */
  function Losses(m: map<Slot, View>, ops: seq<Op>): nat
    decreases |ops|
  {
    if ops == [] || !SlotsOk(m, ops[0]) then 0
    else
      Loss(m, ops[0]) + match ValueStep(m, ops[0])
        case Continues(m') => Losses(m', ops[1..])
        case _ => 0
  }

  lemma StepLoses(s: State, op: Op)
    requires Inv(s) && Enabled(s, op) && Step(s, op).Running? && SlotsOk(Shown(s), op)
    ensures Step(s, op).s.lost == s.lost + Loss(Shown(s), op)
  {
    if op.MoveConstruct? || op.MoveAssign? {
      LookNested(s, op.src);
      ShownSizes(s, op.src);
    }
    if op.MoveAssign? || op.Clear? {
      LookNested(s, op.dst);
      ShownSizes(s, op.dst);
    }
  }

  lemma {:induction false} RunLoses(s: State, ops: seq<Op>)
    requires Inv(s) && Run(s, ops).Finished?
    ensures Run(s, ops).s.lost == s.lost + Losses(Shown(s), ops)
    decreases |ops|
  {
    if ops != [] {
      StepRefines(s, ops[0]);
      StepKeepsInv(s, ops[0]);
      StepLoses(s, ops[0]);
      RunLoses(Step(s, ops[0]).s, ops[1..]);
    }
  }

  /** A program that destroyed all its handles leaked exactly the payloads it lost: memory is clean if
      and only if it never assigned over or cleared a nested code, nor cut one. */
  lemma CleanIffNothingLost(start: State, ops: seq<Op>, s: State)
    requires Inv(start) && start.lost == 0 && Run(start, ops) == Finished(s) && s.slots == map[]
    ensures s.allocations - s.releases == Losses(Shown(start), ops)
    ensures s.payloads == map[] <==> Losses(Shown(start), ops) == 0
  {
    RunKeepsInv(start, ops);
    RunLoses(start, ops);
    assert Owners(s) == {};
    if s.lost == 0 { assert s.payloads.Keys == {}; }
  }

  function Make(dst: Slot, c: Code, at: Addr): Op { MakeNested(dst, c, at, Built) }

  lemma RunOfOne(s: State, op: Op)
    requires Enabled(s, op)
    ensures Run(s, [op]) == match Step(s, op)
      case Running(s') => Finished(s')
      case Terminated => Stopped
      case Fault => Faulted
  {
    if Step(s, op).Running? { assert Run(Step(s, op).s, [op][1..]) == Finished(Step(s, op).s); }
  }

  /** A three-operation run, unrolled. */
  lemma RunOfThree(s: State, a: Op, b: Op, c: Op)
    requires Enabled(s, a) && Step(s, a).Running?
    requires Enabled(Step(s, a).s, b) && Step(Step(s, a).s, b).Running?
    requires Enabled(Step(Step(s, a).s, b).s, c)
    ensures Run(s, [a, b, c]) == match Step(Step(Step(s, a).s, b).s, c)
      case Running(s') => Finished(s')
      case Terminated => Stopped
      case Fault => Faulted
  {
    assert [a, b, c][1..] == [b, c] && [b, c][1..] == [c] && [c][1..] == [];
    assert Run(Step(s, a).s, [b, c]) == Run(Step(Step(s, a).s, b).s, [c]);
    RunOfOne(Step(Step(s, a).s, b).s, c);
  }

  /** Wrapping a code, clearing the handle and destroying it leaves the payload allocated. */
  lemma ClearLeaks(c: Code)
    ensures var r := Run(INITIAL, [Make(0, c, 0), Clear(0), Destroy(0)]);
      r.Finished? && r.s.slots == map[] && r.s.lost == 1 && r.s.payloads == map[0 := c]
  {
    RunOfThree(INITIAL, Make(0, c, 0), Clear(0), Destroy(0));
  }

  /** The objects for an int and for an address are equally large, so a nested code converts to an
      `erased_status_code<int>`.  The address is cut, the payload lost, and the destructor faults. */
  lemma IntCutsNested(c: Code, cut: ValueCode)
    ensures Run(INITIAL, [Make(0, c, 0), MoveConstruct(1, 4, 0, cut), Destroy(1)]).Faulted?
  {
    RunOfThree(INITIAL, Make(0, c, 0), MoveConstruct(1, 4, 0, cut), Destroy(1));
  }

  // ------------------------------------------------------------- uncut runs

  /** The operation moves or erases no payload wider than the values it goes through. */
  predicate UncutOp(m: map<Slot, View>, op: Op)
    requires SlotsOk(m, op)
  {
    match op
    case ConstructValue(_, w, size, _, _) => size <= w
    case CopyConstruct(_, r, _) => ViewFits(m[r], ViewTypedWidth(m[r]))
    case MoveConstruct(_, w, r, _) => ViewFits(m[r], w)
    case MoveAssign(d, r, _) => ViewFits(m[r], m[d].width)
    case _ => true
  }

  predicate Uncut(m: map<Slot, View>, ops: seq<Op>)
    decreases |ops|
  {
    ops != [] && SlotsOk(m, ops[0]) ==>
      && UncutOp(m, ops[0])
      && (ValueStep(m, ops[0]).Continues? ==> Uncut(ValueStep(m, ops[0]).views, ops[1..]))
  }

  predicate NoneAstray(m: map<Slot, View>) { forall d | d in m :: m[d].Shows? }

  /** A program that cuts nothing never faults. */
  lemma {:induction false} UncutNeverFaults(m: map<Slot, View>, ops: seq<Op>)
    requires NoneAstray(m) && Uncut(m, ops)
    ensures !ValueRun(m, ops).Fails?
    ensures ValueRun(m, ops).Views? ==> NoneAstray(ValueRun(m, ops).views)
    decreases |ops|
  {
    if ops != [] && SlotsOk(m, ops[0]) && ValueStep(m, ops[0]).Continues? {
      UncutNeverFaults(ValueStep(m, ops[0]).views, ops[1..]);
    }
  }

  predicate CanonicalOp(t: Tables, op: Op) {
    (op.ConstructValue? ==> Canonical(t, op.value)) && (op.MakeNested? ==> Canonical(t, op.code))
  }

  predicate AllCanonical(t: Tables, m: map<Slot, View>) {
    forall d | d in m :: m[d].Shows? && CanonicalStatus(t, m[d].sc)
  }

  lemma {:induction false} ValueRunKeepsCanonical(t: Tables, m: map<Slot, View>, ops: seq<Op>)
    requires AllCanonical(t, m) && Uncut(m, ops) && forall op | op in ops :: CanonicalOp(t, op)
    ensures ValueRun(m, ops).Views? ==> AllCanonical(t, ValueRun(m, ops).views)
    decreases |ops|
  {
    if ops != [] && SlotsOk(m, ops[0]) && ValueStep(m, ops[0]).Continues? {
      assert CanonicalOp(t, ops[0]);
      ValueRunKeepsCanonical(t, ValueStep(m, ops[0]).views, ops[1..]);
    }
  }

  /** The code as it was before it was wrapped. */
  function Unwrap(x: StatusCode): StatusCode {
    if x.Holding? && x.code.Nested? then Holding(x.code.payload) else x
  }

  lemma UnwrapPreserves(t: Tables, x: StatusCode, y: StatusCode)
    requires NtTablesAgree(t) && CanonicalStatus(t, x) && CanonicalStatus(t, y)
    ensures Same(t, x, y) == Same(t, Unwrap(x), Unwrap(y))
    ensures Failure(t, x) == Failure(t, Unwrap(x)) && Success(t, x) == Success(t, Unwrap(x))
  {
    if x.Holding? && y.Holding? {
      SameGenericOnClass(t, x.code, y.code);
      SameGenericOnClass(t, Unwrap(x).code, Unwrap(y).code);
    }
  }

  /** However codes were wrapped, erased, moved, cloned and assigned, if nothing was cut each handle
      shows the code the program over values gives it, and on the canonical class any two handles
      compare, and each fails or succeeds, as the codes they were made from do unwrapped. */
  lemma WrappedCodesKeepTheirMeaning(start: State, ops: seq<Op>, s: State, t: Tables, d: Slot, e: Slot)
    requires Inv(start) && Run(start, ops) == Finished(s) && d in s.slots && e in s.slots
    requires Uncut(Shown(start), ops)
    requires NtTablesAgree(t) && AllCanonical(t, Shown(start)) && forall op | op in ops :: CanonicalOp(t, op)
    ensures ValueRun(Shown(start), ops) == Views(Shown(s))
    ensures Look(s, d).Shows? && Look(s, e).Shows?
    ensures var x, y := Look(s, d).sc, Look(s, e).sc;
      && Same(t, x, y) == Same(t, Unwrap(x), Unwrap(y))
      && Failure(t, x) == Failure(t, Unwrap(x)) && Success(t, x) == Success(t, Unwrap(x))
  {
    RunRefines(start, ops);
    ValueRunKeepsCanonical(t, Shown(start), ops);
    assert Shown(s)[d] == Look(s, d) && Shown(s)[e] == Look(s, e);
    UnwrapPreserves(t, Look(s, d).sc, Look(s, e).sc);
  }

  /** The codes a program wrapped. */
  function Made(ops: seq<Op>): set<Code> {
    set op | op in ops && op.MakeNested? :: op.code
  }

  ghost predicate PayloadsFrom(s: State, made: set<Code>) {
    forall a | a in s.payloads :: s.payloads[a] in made
  }

  lemma StepKeepsProvenance(s: State, op: Op, made: set<Code>)
    requires Inv(s) && Enabled(s, op) && Step(s, op).Running? && PayloadsFrom(s, made)
    ensures PayloadsFrom(Step(s, op).s, if op.MakeNested? then made + {op.code} else made)
  {}

  lemma MadeStep(ops: seq<Op>, made: set<Code>)
    requires ops != []
    ensures (if ops[0].MakeNested? then made + {ops[0].code} else made) + Made(ops[1..]) == made + Made(ops)
  {
    assert ops == [ops[0]] + ops[1..];
  }

  lemma {:induction false} RunKeepsProvenance(s: State, ops: seq<Op>, made: set<Code>)
    requires Inv(s) && PayloadsFrom(s, made) && Run(s, ops).Finished?
    ensures PayloadsFrom(Run(s, ops).s, made + Made(ops))
    decreases |ops|
  {
    if ops != [] {
      StepKeepsInv(s, ops[0]);
      var s' := Step(s, ops[0]).s;
      var more := if ops[0].MakeNested? then made + {ops[0].code} else made;
      StepKeepsProvenance(s, ops[0], made);
      RunKeepsProvenance(s', ops[1..], more);
      MadeStep(ops, made);
    }
  }
}

/** `atomic_refcounted_string_ref` under any number of threads.

    Every string reference is in one place of its own life; one step advances one reference by one
    atomic action, so any interleaving of threads is a sequence of steps.  A copy first copies the
    fields and then adds to the count; a release subtracts, and frees in a later step if it saw 1.
    The count is a 32-bit word and wraps. */
module RefCount {

  type Id = nat
  type Block = nat

  const WORD: nat := 0x1_0000_0000

  /** An allocated message: its text, and the atomic count in front of it. */
  datatype Msg = Msg(text: string, count: nat)

  datatype Ref =
    | Null                                        // moved from
    | Static(text: string)                        // allocation failed: a literal, and no thunk
    | Live(block: Block, made: string)            // `made` is the text it was created with
    | Copying(block: Block, made: string, src: Id)  // fields copied, count not yet raised
    | Freeing(block: Block)                       // its subtraction returned 1

  datatype State = State(refs: map<Id, Ref>, blocks: map<Block, Msg>, mallocs: nat, frees: nat)

  const INITIAL := State(map[], map[], 0, 0)

  datatype Step =
    | Create(h: Id, text: string, b: Block)
    | CreateFails(h: Id)
    | CopyFields(h: Id, src: Id)
    | CopyAdd(h: Id)
    | Move(h: Id, src: Id)
    | Subtract(h: Id)
    | Free(h: Id)

  datatype Outcome = Next(s: State) | Fault

  /** Some copy is reading this reference; destroying or moving it meanwhile is a data race of the
      caller's. */
  predicate Pinned(s: State, h: Id) {
    exists c | c in s.refs :: s.refs[c].Copying? && s.refs[c].src == h
  }

  predicate Settled(s: State, h: Id) {
    h in s.refs && !s.refs[h].Copying? && !s.refs[h].Freeing? && !Pinned(s, h)
  }

  /** A new reference, of which fewer than 2^32 exist. */
  predicate Room(s: State, h: Id) { h !in s.refs && |s.refs.Keys| + 1 < WORD }

  predicate Enabled(s: State, p: Step) {
    match p
    case Create(h, _, b) => Room(s, h) && b !in s.blocks
    case CreateFails(h) => Room(s, h)
    case CopyFields(h, src) => Room(s, h) && src in s.refs && !s.refs[src].Copying? && !s.refs[src].Freeing?
    case CopyAdd(h) => h in s.refs && s.refs[h].Copying?
    case Move(h, src) => Room(s, h) && Settled(s, src)
    case Subtract(h) => Settled(s, h)
    case Free(h) => h in s.refs && s.refs[h].Freeing?
  }

  function SetCount(s: State, b: Block, n: int): State
    requires b in s.blocks
  {
    s.(blocks := s.blocks[b := s.blocks[b].(count := n % WORD)])
  }

  function Put(s: State, h: Id, r: Ref): State { s.(refs := s.refs[h := r]) }

  function Drop(s: State, h: Id): State { s.(refs := s.refs - {h}) }

  function Created(s: State, h: Id, text: string, b: Block): State {
    Put(s, h, Live(b, text)).(blocks := s.blocks[b := Msg(text, 1)], mallocs := s.mallocs + 1)
  }

  /** The thunk of a fields copy has yet to run; references without a thunk are done. */
  function FieldsCopied(s: State, h: Id, src: Id): State
    requires src in s.refs
  {
    var r := s.refs[src];
    Put(s, h, if r.Live? then Copying(r.block, r.made, src) else r)
  }

  function Added(s: State, h: Id): State
    requires h in s.refs && s.refs[h].Copying? && s.refs[h].block in s.blocks
  {
    var r := s.refs[h];
    Put(SetCount(s, r.block, s.blocks[r.block].count + 1), h, Live(r.block, r.made))
  }

  function Moved(s: State, h: Id, src: Id): State
    requires src in s.refs
  {
    Put(Put(s, h, s.refs[src]), src, Null)
  }

  function Subtracted(s: State, h: Id): State
    requires h in s.refs && s.refs[h].Live? && s.refs[h].block in s.blocks
  {
    var b := s.refs[h].block;
    var n := s.blocks[b].count;
    var s' := SetCount(s, b, n - 1);
    if n == 1 then Put(s', h, Freeing(b)) else Drop(s', h)
  }

  function Freed(s: State, h: Id): State
    requires h in s.refs && s.refs[h].Freeing? && s.refs[h].block in s.blocks
  {
    Drop(s, h).(blocks := s.blocks - {s.refs[h].block}, frees := s.frees + 1)
  }

  function Take(s: State, p: Step): Outcome
    requires Enabled(s, p)
  {
    match p
    case Create(h, text, b) => Next(Created(s, h, text, b))
    case CreateFails(h) => Next(Put(s, h, Static("failed to get message from system")))
    case CopyFields(h, src) => Next(FieldsCopied(s, h, src))
    case CopyAdd(h) => if s.refs[h].block in s.blocks then Next(Added(s, h)) else Fault
    case Move(h, src) => Next(Moved(s, h, src))
    case Subtract(h) =>
      if !s.refs[h].Live? then Next(Drop(s, h))
      else if s.refs[h].block in s.blocks then Next(Subtracted(s, h))
      else Fault
    case Free(h) => if s.refs[h].block in s.blocks then Next(Freed(s, h)) else Fault
  }

  /** What reading a reference gives: the text in its block, if the block is still there. */
  datatype Reading = Text(text: string) | NoText | UseAfterFree

  function Read(s: State, h: Id): Reading
    requires h in s.refs
  {
    match s.refs[h]
    case Static(text) => Text(text)
    case Live(b, _) => if b in s.blocks then Text(s.blocks[b].text) else UseAfterFree
    case _ => NoText
  }

  // ---------------------------------------------------------------- invariant

  function Holders(s: State, b: Block): set<Id> {
    set h | h in s.refs && s.refs[h].Live? && s.refs[h].block == b
  }

  function Freers(s: State, b: Block): set<Id> {
    set h | h in s.refs && s.refs[h] == Freeing(b)
  }

  /** The count is the number of holders, and exactly one reference is about to free the block when
      there are none. */
  predicate BlockOk(s: State, b: Block)
    requires b in s.blocks
  {
    && s.blocks[b].count == |Holders(s, b)|
    && |Freers(s, b)| == (if Holders(s, b) == {} then 1 else 0)
  }

  predicate RefOk(s: State, h: Id)
    requires h in s.refs
  {
    match s.refs[h]
    case Live(b, made) => b in s.blocks && s.blocks[b].text == made
    case Copying(b, made, src) => b in s.blocks && src in s.refs && s.refs[src] == Live(b, made)
    case Freeing(b) => b in s.blocks
    case _ => true
  }

  ghost predicate BlocksOk(s: State) { forall b | b in s.blocks :: BlockOk(s, b) }

  ghost predicate RefsOk(s: State) { forall h | h in s.refs :: RefOk(s, h) }

  predicate SizesOk(s: State) {
    s.mallocs == s.frees + |s.blocks.Keys| && |s.refs.Keys| < WORD
  }

  ghost predicate Inv(s: State) { BlocksOk(s) && RefsOk(s) && SizesOk(s) }

  lemma {:induction false} SubsetSize(a: set<Id>, b: set<Id>)
    requires a <= b
    ensures |a| <= |b|
  {
    if a != {} {
      var x :| x in a;
      SubsetSize(a - {x}, b - {x});
    }
  }

  lemma InitialInv()
    ensures Inv(INITIAL)
  {}

  /** A block whose holders and freers are as before is still accounted for. */
  lemma BlockUntouched(s: State, s': State, b: Block)
    requires b in s.blocks && BlockOk(s, b) && b in s'.blocks && s'.blocks[b] == s.blocks[b]
    requires Holders(s', b) == Holders(s, b) && Freers(s', b) == Freers(s, b)
    ensures BlockOk(s', b)
  {}

  lemma CreateSets(s: State, h: Id, text: string, b: Block, c: Block)
    requires RefsOk(s) && h !in s.refs && b !in s.blocks
    ensures var s' := Created(s, h, text, b);
      && Holders(s', c) == (if c == b then {h} else Holders(s, c))
      && Freers(s', c) == (if c == b then {} else Freers(s, c))
  {
    forall k | k in s.refs && (s.refs[k].Live? || s.refs[k].Freeing?) ensures s.refs[k].block != b {
      assert RefOk(s, k);
    }
  }

  lemma CreateBlocks(s: State, h: Id, text: string, b: Block)
    requires BlocksOk(s) && RefsOk(s) && h !in s.refs && b !in s.blocks
    ensures BlocksOk(Created(s, h, text, b))
  {
    var s' := Created(s, h, text, b);
    forall c | c in s'.blocks ensures BlockOk(s', c) {
      CreateSets(s, h, text, b, c);
      if c != b { BlockUntouched(s, s', c); }
    }
  }

  lemma CreateRefs(s: State, h: Id, text: string, b: Block)
    requires RefsOk(s) && h !in s.refs && b !in s.blocks
    ensures RefsOk(Created(s, h, text, b))
  {
    forall k | k in s.refs ensures RefOk(Created(s, h, text, b), k) { assert RefOk(s, k); }
  }

  lemma CreateKeepsInv(s: State, h: Id, text: string, b: Block)
    requires Inv(s) && Room(s, h) && b !in s.blocks
    ensures Inv(Created(s, h, text, b))
  {
    CreateBlocks(s, h, text, b);
    CreateRefs(s, h, text, b);
    CreateSizes(s, h, text, b);
  }

  lemma CreateSizes(s: State, h: Id, text: string, b: Block)
    requires SizesOk(s) && Room(s, h) && b !in s.blocks
    ensures SizesOk(Created(s, h, text, b))
  {
    var s' := Created(s, h, text, b);
    assert s'.blocks.Keys == s.blocks.Keys + {b} && s'.refs.Keys == s.refs.Keys + {h};
  }

  lemma PutIdleSets(s: State, h: Id, r: Ref, c: Block)
    requires h !in s.refs && !r.Live? && !r.Freeing?
    ensures Holders(Put(s, h, r), c) == Holders(s, c) && Freers(Put(s, h, r), c) == Freers(s, c)
  {}

  lemma PutIdleBlocks(s: State, h: Id, r: Ref)
    requires BlocksOk(s) && h !in s.refs && !r.Live? && !r.Freeing?
    ensures BlocksOk(Put(s, h, r))
  {
    forall c | c in s.blocks ensures BlockOk(Put(s, h, r), c) {
      PutIdleSets(s, h, r, c);
      BlockUntouched(s, Put(s, h, r), c);
    }
  }

  lemma PutRefs(s: State, h: Id, r: Ref)
    requires RefsOk(s) && h !in s.refs && !r.Live? && !r.Freeing?
    requires r.Copying? ==> r.src in s.refs && s.refs[r.src] == Live(r.block, r.made)
    ensures RefsOk(Put(s, h, r))
  {
    if r.Copying? { assert RefOk(s, r.src); }
    forall k | k in s.refs ensures RefOk(Put(s, h, r), k) { assert RefOk(s, k); }
  }

  lemma PutSizes(s: State, h: Id, r: Ref)
    requires SizesOk(s) && Room(s, h)
    ensures SizesOk(Put(s, h, r))
  {
    assert Put(s, h, r).refs.Keys == s.refs.Keys + {h};
  }

  /** Adding a reference that holds no block. */
  lemma PutIdleKeepsInv(s: State, h: Id, r: Ref)
    requires Inv(s) && Room(s, h) && !r.Live? && !r.Freeing?
    requires r.Copying? ==> r.src in s.refs && s.refs[r.src] == Live(r.block, r.made)
    ensures Inv(Put(s, h, r))
  {
    PutIdleBlocks(s, h, r);
    PutRefs(s, h, r);
    PutSizes(s, h, r);
  }

  lemma AddSets(s: State, h: Id, c: Block)
    requires h in s.refs && s.refs[h].Copying? && s.refs[h].block in s.blocks
    ensures Holders(Added(s, h), c) == Holders(s, c) + (if c == s.refs[h].block then {h} else {})
    ensures Freers(Added(s, h), c) == Freers(s, c)
  {}

  lemma AddBlock(s: State, h: Id)
    requires h in s.refs && s.refs[h].Copying? && RefOk(s, h) && |s.refs.Keys| < WORD
    requires BlockOk(s, s.refs[h].block)
    ensures BlockOk(Added(s, h), s.refs[h].block)
  {
    var b := s.refs[h].block;
    AddSets(s, h, b);
    assert s.refs[h].src in Holders(s, b) && h !in Holders(s, b);
    SubsetSize(Holders(s, b) + {h}, s.refs.Keys);
  }

  lemma AddBlocks(s: State, h: Id)
    requires h in s.refs && s.refs[h].Copying? && RefOk(s, h) && |s.refs.Keys| < WORD
    requires BlocksOk(s)
    ensures BlocksOk(Added(s, h))
  {
    AddBlock(s, h);
    forall c | c in s.blocks && c != s.refs[h].block ensures BlockOk(Added(s, h), c) {
      AddSets(s, h, c);
      BlockUntouched(s, Added(s, h), c);
    }
  }

  lemma AddRefs(s: State, h: Id)
    requires h in s.refs && s.refs[h].Copying? && s.refs[h].block in s.blocks && RefsOk(s)
    ensures RefsOk(Added(s, h))
  {
    assert RefOk(s, h) && RefOk(s, s.refs[h].src);
    forall k | k in s.refs ensures RefOk(Added(s, h), k) { assert RefOk(s, k); }
  }

  lemma AddKeepsInv(s: State, h: Id)
    requires Inv(s) && h in s.refs && s.refs[h].Copying?
    ensures s.refs[h].block in s.blocks && Inv(Added(s, h))
  {
    assert RefOk(s, h);
    AddBlocks(s, h);
    AddRefs(s, h);
    assert Added(s, h).refs.Keys == s.refs.Keys && Added(s, h).blocks.Keys == s.blocks.Keys;
  }

  lemma MoveSets(s: State, h: Id, src: Id, c: Block)
    requires h !in s.refs && src in s.refs && !s.refs[src].Freeing?
    ensures Holders(Moved(s, h, src), c) == if src in Holders(s, c) then Holders(s, c) - {src} + {h} else Holders(s, c)
    ensures Freers(Moved(s, h, src), c) == Freers(s, c)
  {}

  lemma MoveBlocks(s: State, h: Id, src: Id)
    requires BlocksOk(s) && h !in s.refs && src in s.refs && !s.refs[src].Freeing?
    ensures BlocksOk(Moved(s, h, src))
  {
    forall c | c in s.blocks ensures BlockOk(Moved(s, h, src), c) {
      MoveSets(s, h, src, c);
      assert BlockOk(s, c);
    }
  }

  lemma MoveRefs(s: State, h: Id, src: Id)
    requires RefsOk(s) && h !in s.refs && Settled(s, src)
    ensures RefsOk(Moved(s, h, src))
  {
    assert RefOk(s, src);
    forall k | k in s.refs && k != src ensures RefOk(Moved(s, h, src), k) { assert RefOk(s, k); }
  }

  lemma MoveKeepsInv(s: State, h: Id, src: Id)
    requires Inv(s) && Room(s, h) && Settled(s, src)
    ensures Inv(Moved(s, h, src))
  {
    MoveBlocks(s, h, src);
    MoveRefs(s, h, src);
    assert Moved(s, h, src).refs.Keys == s.refs.Keys + {h};
  }

  lemma DropSets(s: State, h: Id, c: Block)
    requires h in s.refs && !s.refs[h].Live?
    ensures Holders(Drop(s, h), c) == Holders(s, c) && Freers(Drop(s, h), c) == Freers(s, c) - {h}
  {}

  lemma DropBlocks(s: State, h: Id)
    requires BlocksOk(s) && h in s.refs && !s.refs[h].Live? && !s.refs[h].Freeing?
    ensures BlocksOk(Drop(s, h))
  {
    forall c | c in s.blocks ensures BlockOk(Drop(s, h), c) {
      DropSets(s, h, c);
      assert Freers(s, c) - {h} == Freers(s, c);
      BlockUntouched(s, Drop(s, h), c);
    }
  }

  lemma DropRefs(s: State, h: Id)
    requires RefsOk(s) && Settled(s, h)
    ensures RefsOk(Drop(s, h))
  {
    forall k | k in s.refs && k != h ensures RefOk(Drop(s, h), k) { assert RefOk(s, k); }
  }

  lemma DropKeepsInv(s: State, h: Id)
    requires Inv(s) && Settled(s, h) && !s.refs[h].Live?
    ensures Inv(Drop(s, h))
  {
    DropBlocks(s, h);
    DropRefs(s, h);
    assert Drop(s, h).refs.Keys == s.refs.Keys - {h};
  }

  lemma SubtractSets(s: State, h: Id, c: Block)
    requires h in s.refs && s.refs[h].Live? && s.refs[h].block in s.blocks
    ensures var b := s.refs[h].block;
      && Holders(Subtracted(s, h), c) == Holders(s, c) - {h}
      && Freers(Subtracted(s, h), c) == Freers(s, c) + (if c == b && s.blocks[b].count == 1 then {h} else {})
  {}

  lemma SubtractBlock(s: State, h: Id)
    requires h in s.refs && s.refs[h].Live? && s.refs[h].block in s.blocks && |s.refs.Keys| < WORD
    requires BlockOk(s, s.refs[h].block)
    ensures BlockOk(Subtracted(s, h), s.refs[h].block)
  {
    var b := s.refs[h].block;
    SubtractSets(s, h, b);
    assert h in Holders(s, b) && h !in Freers(s, b);
    SubsetSize(Holders(s, b), s.refs.Keys);
    if s.blocks[b].count == 1 {
      SubsetSize({h}, Holders(s, b));
      assert |Holders(s, b) - {h}| == 0;
      assert Freers(s, b) == {};
    }
  }

  lemma SubtractOther(s: State, h: Id, c: Block)
    requires h in s.refs && s.refs[h].Live? && s.refs[h].block in s.blocks
    requires c in s.blocks && c != s.refs[h].block && BlockOk(s, c)
    ensures BlockOk(Subtracted(s, h), c)
  {
    SubtractSets(s, h, c);
    assert Holders(s, c) - {h} == Holders(s, c) && Freers(s, c) + {} == Freers(s, c);
    BlockUntouched(s, Subtracted(s, h), c);
  }

  lemma SubtractBlocks(s: State, h: Id)
    requires h in s.refs && s.refs[h].Live? && s.refs[h].block in s.blocks && |s.refs.Keys| < WORD
    requires BlocksOk(s)
    ensures BlocksOk(Subtracted(s, h))
  {
    SubtractBlock(s, h);
    forall c | c in s.blocks && c != s.refs[h].block ensures BlockOk(Subtracted(s, h), c) {
      SubtractOther(s, h, c);
    }
  }

  lemma SubtractRefs(s: State, h: Id)
    requires RefsOk(s) && Settled(s, h) && s.refs[h].Live? && s.refs[h].block in s.blocks
    ensures RefsOk(Subtracted(s, h))
  {
    forall k | k in s.refs && k != h ensures k in Subtracted(s, h).refs && RefOk(Subtracted(s, h), k) {
      assert RefOk(s, k);
    }
  }

  lemma SubtractKeepsInv(s: State, h: Id)
    requires Inv(s) && Settled(s, h) && s.refs[h].Live?
    ensures s.refs[h].block in s.blocks && Inv(Subtracted(s, h))
  {
    assert RefOk(s, h);
    SubtractBlocks(s, h);
    SubtractRefs(s, h);
    assert Subtracted(s, h).blocks.Keys == s.blocks.Keys;
    SubsetSize(Subtracted(s, h).refs.Keys, s.refs.Keys);
  }

  /** A block being freed has no holder, no copier, and no other freer. */
  lemma NobodyElse(s: State, h: Id, k: Id)
    requires Inv(s) && h in s.refs && s.refs[h].Freeing? && k in s.refs
    ensures (s.refs[k].Live? || s.refs[k].Copying?) ==> s.refs[k].block != s.refs[h].block
    ensures s.refs[k] == s.refs[h] ==> k == h
  {
    var b := s.refs[h].block;
    assert RefOk(s, h) && BlockOk(s, b) && RefOk(s, k);
    assert h in Freers(s, b);
    assert Holders(s, b) == {};
    assert forall x | x in s.refs && s.refs[x].Live? && s.refs[x].block == b :: x in Holders(s, b);
    if s.refs[k] == s.refs[h] && k != h { SubsetSize({h, k}, Freers(s, b)); }
  }

  lemma FreeSets(s: State, h: Id, c: Block)
    requires h in s.refs && s.refs[h].Freeing? && s.refs[h].block in s.blocks
    ensures Holders(Freed(s, h), c) == Holders(s, c)
    ensures c != s.refs[h].block ==> Freers(Freed(s, h), c) == Freers(s, c)
  {}

  lemma FreeBlocks(s: State, h: Id)
    requires BlocksOk(s) && h in s.refs && s.refs[h].Freeing? && s.refs[h].block in s.blocks
    ensures BlocksOk(Freed(s, h))
  {
    forall c | c in s.blocks && c != s.refs[h].block ensures BlockOk(Freed(s, h), c) {
      FreeSets(s, h, c);
      BlockUntouched(s, Freed(s, h), c);
    }
  }

  lemma FreeRefs(s: State, h: Id)
    requires Inv(s) && h in s.refs && s.refs[h].Freeing? && s.refs[h].block in s.blocks
    ensures RefsOk(Freed(s, h))
  {
    forall k | k in s.refs && k != h ensures RefOk(Freed(s, h), k) {
      assert RefOk(s, k);
      NobodyElse(s, h, k);
    }
  }

  lemma FreeKeepsInv(s: State, h: Id)
    requires Inv(s) && h in s.refs && s.refs[h].Freeing?
    ensures s.refs[h].block in s.blocks && Inv(Freed(s, h))
  {
    assert RefOk(s, h);
    FreeBlocks(s, h);
    FreeRefs(s, h);
    assert Freed(s, h).blocks.Keys == s.blocks.Keys - {s.refs[h].block};
    assert Freed(s, h).refs.Keys == s.refs.Keys - {h};
  }

  /** No step faults, and every step keeps the invariant. */
  lemma StepKeepsInv(s: State, p: Step)
    requires Inv(s) && Enabled(s, p)
    ensures Take(s, p).Next? && Inv(Take(s, p).s)
  {
    match p
    case Create(h, text, b) => CreateKeepsInv(s, h, text, b);
    case CreateFails(h) => PutIdleKeepsInv(s, h, Static("failed to get message from system"));
    case CopyFields(h, src) =>
      var r := s.refs[src];
      PutIdleKeepsInv(s, h, if r.Live? then Copying(r.block, r.made, src) else r);
    case CopyAdd(h) => AddKeepsInv(s, h);
    case Move(h, src) => MoveKeepsInv(s, h, src);
    case Subtract(h) => if s.refs[h].Live? { SubtractKeepsInv(s, h); } else { DropKeepsInv(s, h); }
    case Free(h) => FreeKeepsInv(s, h);
  }

  // --------------------------------------------------------------- executions

  datatype Result = Reached(s: State) | Faulted | NotEnabled

  function Run(s: State, steps: seq<Step>): Result
    decreases |steps|
  {
    if steps == [] then Reached(s)
    else if !Enabled(s, steps[0]) then NotEnabled
    else match Take(s, steps[0])
      case Next(s') => Run(s', steps[1..])
      case Fault => Faulted
  }

  /** No interleaving touches or frees a freed block; in every state reached the count is the number
      of references holding the message. */
  lemma {:induction false} EveryInterleavingIsSafe(s: State, steps: seq<Step>)
    requires Inv(s)
    ensures !Run(s, steps).Faulted?
    ensures Run(s, steps).Reached? ==> Inv(Run(s, steps).s)
    decreases |steps|
  {
    if steps != [] && Enabled(s, steps[0]) {
      StepKeepsInv(s, steps[0]);
      EveryInterleavingIsSafe(Take(s, steps[0]).s, steps[1..]);
    }
  }

  /** Every live reference reads the text its message was created with. */
  lemma LiveReadsOriginal(s: State, h: Id)
    requires Inv(s) && h in s.refs && s.refs[h].Live?
    ensures Read(s, h) == Text(s.refs[h].made)
  {
    assert RefOk(s, h);
  }

  lemma StepKeepsLiveRef(s: State, p: Step, k: Id)
    requires Enabled(s, p) && k in s.refs && s.refs[k].Live? && !(p.Subtract? && p.h == k) && Take(s, p).Next?
    ensures var s' := Take(s, p).s;
      var k' := if p.Move? && p.src == k then p.h else k;
      k' in s'.refs && s'.refs[k'] == s.refs[k]
  {}

  /** What a reference shows does not change while others come and go, and a move hands it on. */
  lemma ReadsAreStable(s: State, p: Step, k: Id)
    requires Inv(s) && Enabled(s, p) && k in s.refs && s.refs[k].Live? && !(p.Subtract? && p.h == k)
    ensures var s' := Take(s, p).s;
      var k' := if p.Move? && p.src == k then p.h else k;
      k' in s'.refs && Read(s', k') == Read(s, k)
  {
    StepKeepsInv(s, p);
    var s' := Take(s, p).s;
    var k' := if p.Move? && p.src == k then p.h else k;
    StepKeepsLiveRef(s, p, k);
    LiveReadsOriginal(s, k);
    LiveReadsOriginal(s', k');
  }

  /** The add of a copy never sees a count of zero, and once it is done the copy reads what its
      source reads. */
  lemma CopyReadsSource(s: State, h: Id)
    requires Inv(s) && h in s.refs && s.refs[h].Copying?
    ensures s.refs[h].block in s.blocks && s.blocks[s.refs[h].block].count != 0
    ensures var s' := Take(s, CopyAdd(h)).s; var src := s.refs[h].src;
      src in s'.refs && Read(s', h) == Read(s', src) == Text(s.refs[h].made)
  {
    assert RefOk(s, h) && BlockOk(s, s.refs[h].block);
    assert s.refs[h].src in Holders(s, s.refs[h].block);
    StepKeepsInv(s, CopyAdd(h));
    var s' := Take(s, CopyAdd(h)).s;
    LiveReadsOriginal(s', h);
    LiveReadsOriginal(s', s.refs[h].src);
  }

  /** A block is freed only when nobody holds it or is copying it, by the only reference that saw the
      count reach zero. */
  lemma FreedOnlyAfterTheLast(s: State, h: Id)
    requires Inv(s) && Enabled(s, Free(h))
    ensures var b := s.refs[h].block;
      && b in s.blocks && s.blocks[b].count == 0
      && (forall k | k in s.refs && (s.refs[k].Live? || s.refs[k].Copying?) :: s.refs[k].block != b)
      && (forall k | k in s.refs && s.refs[k] == Freeing(b) :: k == h)
  {
    var b := s.refs[h].block;
    assert RefOk(s, h) && BlockOk(s, b) && h in Freers(s, b);
    forall k | k in s.refs
      ensures (s.refs[k].Live? || s.refs[k].Copying?) ==> s.refs[k].block != b
      ensures s.refs[k] == Freeing(b) ==> k == h
    {
      NobodyElse(s, h, k);
    }
  }

  /** Every block still allocated is held, or about to be freed. */
  lemma BlockHasUser(s: State, b: Block)
    requires Inv(s) && b in s.blocks
    ensures exists h | h in s.refs :: (s.refs[h].Live? || s.refs[h].Freeing?) && s.refs[h].block == b
  {
    assert BlockOk(s, b);
    if Holders(s, b) == {} {
      var h :| h in Freers(s, b);
    } else {
      var h :| h in Holders(s, b);
    }
  }

  /** When no reference is left, every block allocated has been freed, once. */
  lemma NothingLeaks(s: State)
    requires Inv(s) && s.refs == map[]
    ensures s.blocks == map[] && s.mallocs == s.frees
  {
    if s.blocks.Keys != {} {
      var b :| b in s.blocks.Keys;
      BlockHasUser(s, b);
    }
  }

  // ------------------------------------------------- what each operation does

  /** A message created reads as given, held by its reference alone; without memory the reference is the
      literal, and holds nothing. */
  lemma CreateReads(s: State, h: Id, text: string, b: Block)
    requires Inv(s) && Enabled(s, Create(h, text, b))
    ensures var s' := Take(s, Create(h, text, b)).s;
      h in s'.refs && Read(s', h) == Text(text) && Holders(s', b) == {h} && s'.mallocs == s.mallocs + 1
    ensures var s' := Take(s, CreateFails(h)).s;
      h in s'.refs && Read(s', h) == Text("failed to get message from system") && s'.blocks == s.blocks
  {
    CreateSets(s, h, text, b, b);
  }

  /** A copy reads what its source reads, which reads it still: once its add is done if the source holds
      a message, at once otherwise. */
  lemma CopyReads(s: State, h: Id, src: Id)
    requires Inv(s) && Enabled(s, CopyFields(h, src))
    ensures var s1 := Take(s, CopyFields(h, src)).s;
      if s.refs[src].Live? then
        Enabled(s1, CopyAdd(h)) &&
        var s2 := Take(s1, CopyAdd(h)).s;
        && h in s2.refs && src in s2.refs && Read(s2, h) == Read(s2, src) == Read(s, src)
        && Holders(s2, s.refs[src].block) == Holders(s, s.refs[src].block) + {h}
      else
        h in s1.refs && src in s1.refs && Read(s1, h) == Read(s1, src) == Read(s, src)
  {
    var s1 := Take(s, CopyFields(h, src)).s;
    StepKeepsInv(s, CopyFields(h, src));
    if s.refs[src].Live? {
      var b := s.refs[src].block;
      PutIdleSets(s, h, s1.refs[h], b);
      AddSets(s1, h, b);
      CopyReadsSource(s1, h);
      LiveReadsOriginal(s, src);
    }
  }

  /** A move hands over whatever was read, and leaves nothing to read. */
  lemma MoveReads(s: State, h: Id, src: Id)
    requires Inv(s) && Enabled(s, Move(h, src))
    ensures var s' := Take(s, Move(h, src)).s;
      h in s'.refs && src in s'.refs && Read(s', h) == Read(s, src) && Read(s', src) == NoText
  {}

  /** A release takes its reference out of the holders.  The only holder is left to free the message;
      every other reference is gone at once. */
  lemma SubtractReleases(s: State, h: Id)
    requires Inv(s) && Enabled(s, Subtract(h))
    ensures var s' := Take(s, Subtract(h)).s;
      if s.refs[h].Live? then
        var b := s.refs[h].block;
        && Holders(s', b) == Holders(s, b) - {h}
        && (if Holders(s, b) == {h} then h in s'.refs && s'.refs[h] == Freeing(b) else h !in s'.refs)
      else
        h !in s'.refs
  {
    if s.refs[h].Live? {
      var b := s.refs[h].block;
      assert RefOk(s, h) && BlockOk(s, b) && h in Holders(s, b);
      SubtractSets(s, h, b);
      SubsetSize(Holders(s, b), s.refs.Keys);
      if s.blocks[b].count == 1 {
        assert |Holders(s, b) - {h}| == 0;
        assert Holders(s, b) == {h};
      }
    }
  }

  lemma FreeReleases(s: State, h: Id)
    requires Inv(s) && Enabled(s, Free(h))
    ensures var s' := Take(s, Free(h)).s;
      && h !in s'.refs && s.refs[h].block in s.blocks && s'.blocks == s.blocks - {s.refs[h].block}
      && s'.frees == s.frees + 1
  {
    FreeKeepsInv(s, h);
  }

  /** The steps that touch a reference are its own, and a move away from it. */
  lemma OthersUntouched(s: State, p: Step, k: Id)
    requires Enabled(s, p) && Take(s, p).Next? && k in s.refs && p.h != k && !(p.Move? && p.src == k)
    ensures k in Take(s, p).s.refs && Take(s, p).s.refs[k] == s.refs[k]
  {}

  // ------------------------------------------------------------------ progress

  function Copiers(s: State): set<Id> { set h | h in s.refs && s.refs[h].Copying? }

  function Lives(s: State): set<Id> { set h | h in s.refs && s.refs[h].Live? }

  /** Fewer copies under way, or as many and fewer live references, or as many and fewer references. */
  predicate Nearer(s': State, s: State) {
    || |Copiers(s')| < |Copiers(s)|
    || (|Copiers(s')| == |Copiers(s)| && |Lives(s')| < |Lives(s)|)
    || (|Copiers(s')| == |Copiers(s)| && |Lives(s')| == |Lives(s)| && |s'.refs.Keys| < |s.refs.Keys|)
  }

  lemma RemovingIsNearer(s: State, s': State, h: Id)
    requires h in s.refs && s'.refs == s.refs - {h}
    ensures Nearer(s', s)
  {
    assert Copiers(s') == Copiers(s) - {h} && Lives(s') == Lives(s) - {h};
    assert s'.refs.Keys == s.refs.Keys - {h};
  }

  lemma ReplacingIsNearer(s: State, s': State, h: Id, r: Ref)
    requires h in s.refs && s'.refs == s.refs[h := r]
    requires if r.Freeing? then s.refs[h].Live? else r.Live? && s.refs[h].Copying?
    ensures Nearer(s', s)
  {
    if r.Freeing? {
      assert Copiers(s') == Copiers(s) && Lives(s') == Lives(s) - {h};
    } else {
      assert Copiers(s') == Copiers(s) - {h};
    }
  }

  lemma AddIsNearer(s: State, h: Id)
    requires RefsOk(s) && Enabled(s, CopyAdd(h))
    ensures Take(s, CopyAdd(h)).Next? && Nearer(Take(s, CopyAdd(h)).s, s)
  {
    assert RefOk(s, h);
    ReplacingIsNearer(s, Take(s, CopyAdd(h)).s, h, Live(s.refs[h].block, s.refs[h].made));
  }

  lemma SubtractIsNearer(s: State, h: Id)
    requires RefsOk(s) && Enabled(s, Subtract(h))
    ensures Take(s, Subtract(h)).Next? && Nearer(Take(s, Subtract(h)).s, s)
  {
    assert RefOk(s, h);
    var s' := Take(s, Subtract(h)).s;
    if h in s'.refs { ReplacingIsNearer(s, s', h, s'.refs[h]); } else { RemovingIsNearer(s, s', h); }
  }

  lemma FreeIsNearer(s: State, h: Id)
    requires RefsOk(s) && Enabled(s, Free(h))
    ensures Take(s, Free(h)).Next? && Nearer(Take(s, Free(h)).s, s)
  {
    assert RefOk(s, h);
    RemovingIsNearer(s, Take(s, Free(h)).s, h);
  }

  /** A copy's add, a release and a free bring the end nearer. */
  lemma StepIsNearer(s: State, p: Step)
    requires RefsOk(s) && Enabled(s, p) && (p.CopyAdd? || p.Subtract? || p.Free?)
    ensures Take(s, p).Next? && Nearer(Take(s, p).s, s)
  {
    match p
    case CopyAdd(h) => AddIsNearer(s, h);
    case Subtract(h) => SubtractIsNearer(s, h);
    case Free(h) => FreeIsNearer(s, h);
  }

  /** While there are references, some such step is enabled. */
  lemma SomeStepEnabled(s: State) returns (p: Step)
    requires s.refs != map[]
    ensures Enabled(s, p) && (p.CopyAdd? || p.Subtract? || p.Free?)
  {
    if h :| h in s.refs && s.refs[h].Copying? {
      p := CopyAdd(h);
    } else {
      var h :| h in s.refs.Keys;
      p := if s.refs[h].Freeing? then Free(h) else Subtract(h);
    }
  }

  ghost predicate CanEnd(s: State) {
    exists steps: seq<Step> :: Ends(Run(s, steps))
  }

  predicate Ends(r: Result) { r.Reached? && r.s.refs == map[] && r.s.blocks == map[] && r.s.mallocs == r.s.frees }

  lemma CanEndBefore(s: State, p: Step)
    requires Enabled(s, p) && Take(s, p).Next? && CanEnd(Take(s, p).s)
    ensures CanEnd(s)
  {
    var rest: seq<Step> :| Ends(Run(Take(s, p).s, rest));
    assert ([p] + rest)[1..] == rest;
    assert Ends(Run(s, [p] + rest));
  }

  /** From every state the references there are can all be released, and then every message has been
      freed, once. */
  lemma {:induction false} EveryReferenceCanEnd(s: State)
    requires Inv(s)
    ensures CanEnd(s)
    decreases |Copiers(s)|, |Lives(s)|, |s.refs.Keys|
  {
    if s.refs == map[] {
      NothingLeaks(s);
      assert Ends(Run(s, []));
    } else {
      var p := SomeStepEnabled(s);
      StepIsNearer(s, p);
      StepKeepsInv(s, p);
      EveryReferenceCanEnd(Take(s, p).s);
      CanEndBefore(s, p);
    }
  }
}

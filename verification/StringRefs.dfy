/** `string_ref` and its assignment operators, which destroy the target and construct it again in
    place, through a thunk whose copy may fail. */
module StringRefs {
  import opened Codes

  type Block = nat

  /** No thunk, or one whose copy, move and destruct keep the reference count of a message. */
  datatype Thunk = NoThunk | Counted

  /** The text between `_begin` and `_end`, the message in `_state[0]`, and the thunk. */
  datatype Fields = Fields(text: string, msg: Option<Block>, thunk: Thunk)

  const CLEARED := Fields("", None, NoThunk)

  predicate Owning(f: Fields) { f.thunk.Counted? && f.msg.Some? }

  /** Reference counts of the messages allocated. */
  type Counts = map<Block, nat>

  predicate Held(c: Counts, f: Fields) { Owning(f) ==> f.msg.value in c && c[f.msg.value] >= 1 }

  function Acquire(c: Counts, f: Fields): Counts
    requires Held(c, f)
  {
    if Owning(f) then c[f.msg.value := c[f.msg.value] + 1] else c
  }

  /** Dropping the last reference frees the message. */
  function Release(c: Counts, f: Fields): Counts
    requires Held(c, f)
  {
    if !Owning(f) then c
    else if c[f.msg.value] == 1 then c - {f.msg.value}
    else c[f.msg.value := c[f.msg.value] - 1]
  }

  /** Two string refs are counted separately, also when they share a message. */
  predicate BothHeld(c: Counts, a: Fields, b: Fields) {
    && Held(c, a) && Held(c, b)
    && (Owning(a) && Owning(b) && a.msg == b.msg ==> c[a.msg.value] >= 2)
  }

  /** Acquiring the new reference before or after dropping the old one ends in the same counts. */
  lemma OrderDoesNotMatter(c: Counts, target: Fields, source: Fields)
    requires BothHeld(c, target, source)
    ensures Held(Acquire(c, source), target) && Held(Release(c, target), source)
    ensures Release(Acquire(c, source), target) == Acquire(Release(c, target), source)
  {
    if Owning(target) && Owning(source) && target.msg != source.msg && c[target.msg.value] == 1 {
      assert Release(Acquire(c, source), target).Keys == Acquire(Release(c, target), source).Keys;
    }
  }

  /** Assigning between two refs of one message changes no count; otherwise exactly the target's old
      message loses one reference, and is freed if that was its last, and the source's gains one. */
  lemma AssignmentMovesOneReference(c: Counts, target: Fields, source: Fields, b: Block)
    requires BothHeld(c, target, source)
    ensures var after := Release(Acquire(c, source), target);
      var gained := if Owning(source) && source.msg == Some(b) then 1 else 0;
      var lost := if Owning(target) && target.msg == Some(b) then 1 else 0;
      var now := if b in after then after[b] else 0;
      var was := if b in c then c[b] else 0;
      && now == was + gained - lost
      && (b in c && c[b] > 0 ==> (b in after <==> now > 0))
      && BothHeld(after, source, source)
  {}

  class Heap {
    var counts: Counts
    constructor () ensures counts == map[] { counts := map[]; }
  }

  class StringRef {
    var f: Fields

    constructor (f: Fields)
      ensures this.f == f
    {
      this.f := f;
    }

    /** Copy construction over this storage; a failing thunk throws and holds nothing. */
    method CopyConstruct(heap: Heap, o: StringRef, fails: bool) returns (threw: bool)
      requires this != o && Held(heap.counts, o.f)
      modifies this, heap
      ensures threw == (o.f.thunk.Counted? && fails)
      ensures heap.counts == if threw then old(heap.counts) else Acquire(old(heap.counts), o.f)
      ensures !threw ==> f == o.f
    {
      f := o.f;
      if f.thunk.Counted? {
        if fails {
          return true;
        }
        if f.msg.Some? {
          heap.counts := heap.counts[f.msg.value := heap.counts[f.msg.value] + 1];
        }
      }
      return false;
    }

    /** Move construction over this storage. */
    method MoveConstruct(o: StringRef)
      requires this != o
      modifies this, o
      ensures f == old(o.f) && o.f == CLEARED
    {
      f := o.f;
      if f.thunk.Counted? {
        o.f := o.f.(text := "", msg := None);
      }
      o.f := CLEARED;
    }

    method Destruct(heap: Heap)
      requires Held(heap.counts, f)
      modifies this, heap
      ensures heap.counts == Release(old(heap.counts), old(f))
    {
      if f.thunk.Counted? && f.msg.Some? {
        var count := heap.counts[f.msg.value];
        heap.counts := heap.counts[f.msg.value := count - 1];
        if count == 1 {
          heap.counts := heap.counts - {f.msg.value};
          f := f.(msg := None);
        }
      }
      f := f.(text := "");
    }

    /** Copy assignment with exceptions: all or nothing. */
    method CopyAssign(heap: Heap, o: StringRef, fails: bool) returns (threw: bool)
      requires Held(heap.counts, f) && Held(heap.counts, o.f)
      modifies this, heap
      ensures o.f == (if o == this then f else old(o.f))
      ensures threw <==> this != o && old(o.f).thunk.Counted? && fails
      ensures threw || this == o ==> f == old(f) && heap.counts == old(heap.counts)
      ensures !threw && this != o ==>
        f == o.f && heap.counts == Release(Acquire(old(heap.counts), o.f), old(f))
    {
      if this == o {
        return false;
      }
      var temp := new StringRef(CLEARED);
      temp.MoveConstruct(this);
      Destruct(heap);
      threw := CopyConstruct(heap, o, fails);
      if threw {
        MoveConstruct(temp);
      }
      temp.Destruct(heap);
    }

    /** Copy assignment without exceptions: a failing copy ends the process. */
    method CopyAssignNoExceptions(heap: Heap, o: StringRef, fails: bool) returns (terminated: bool)
      requires if this == o then Held(heap.counts, f) else BothHeld(heap.counts, f, o.f)
      modifies this, heap
      ensures terminated <==> this != o && old(o.f).thunk.Counted? && fails
      ensures this == o ==> f == old(f) && heap.counts == old(heap.counts)
      ensures !terminated && this != o ==>
        f == o.f == old(o.f) && Held(old(heap.counts), o.f) && Held(Acquire(old(heap.counts), o.f), old(f))
        && heap.counts == Release(Acquire(old(heap.counts), o.f), old(f))
    {
      if this == o {
        return false;
      }
      OrderDoesNotMatter(heap.counts, f, o.f);
      Destruct(heap);
      terminated := CopyConstruct(heap, o, fails);
    }

    /** Move assignment: the target's old reference is dropped, the source's handed over. */
    method MoveAssign(heap: Heap, o: StringRef)
      requires Held(heap.counts, f)
      modifies this, o, heap
      ensures this == o ==> f == old(f) && heap.counts == old(heap.counts)
      ensures this != o ==>
        f == old(o.f) && o.f == CLEARED && heap.counts == Release(old(heap.counts), old(f))
    {
      if this != o {
        Destruct(heap);
        MoveConstruct(o);
      }
    }
  }
}

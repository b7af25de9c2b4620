/** The table interning `std::error_category` objects as status code domains: 64 slots behind a spin
    lock, never shrinking.  The sequential specification is `Intern`; the class runs `add` alone, and
    the state machine runs it from any number of threads, one memory action at a time. */
module Registry {
  import opened Codes

  const MAX_ITEMS: nat := 64

  type Cat = nat   // the address of a category

  // ------------------------------------------------------------ specification

  predicate IsIndexOf<T(==)>(table: seq<T>, c: T, i: nat) { i < |table| && table[i] == c }

  function IndexOf<T(==)>(table: seq<T>, c: T): (r: Option<nat>)
    ensures r.None? <==> c !in table
    ensures r.Some? ==> IsIndexOf(table, c, r.value) && forall i | 0 <= i < r.value :: table[i] != c
  {
    if table == [] then None
    else
      var last := |table| - 1;
      var r := IndexOf(table[..last], c);
      assert table == table[..last] + [table[last]];
      if r.Some? then r else if table[last] == c then Some(last) else None
  }

  /** Find the category, or append it while there is room. */
  function Intern<T(==)>(table: seq<T>, c: T): (seq<T>, Option<nat>) {
    if c in table then (table, IndexOf(table, c))
    else if |table| < MAX_ITEMS then (table + [c], Some(|table|))
    else (table, None)
  }

  datatype Event = Event(thread: nat, cat: Cat, ret: Option<nat>)

  /** The table after a sequence of completed calls. */
  function Table(log: seq<Event>): seq<Cat> {
    if log == [] then [] else Intern(Table(log[..|log| - 1]), log[|log| - 1].cat).0
  }

  /** Every call returned what the sequential table would have returned at that point. */
  ghost predicate Legal(log: seq<Event>) { forall k: nat | k < |log| :: EventOk(log, k) }

  predicate EventOk(log: seq<Event>, k: nat)
    requires k < |log|
  {
    log[k].ret == Intern(Table(log[..k]), log[k].cat).1
  }

  predicate Distinct(table: seq<Cat>) {
    forall i, j | 0 <= i < j < |table| :: table[i] != table[j]
  }

  lemma {:induction false} TableIsDistinct(log: seq<Event>)
    ensures Distinct(Table(log)) && |Table(log)| <= MAX_ITEMS
  {
    if log != [] { TableIsDistinct(log[..|log| - 1]); }
  }

  lemma {:induction false} TableGrows(log: seq<Event>, k: nat)
    requires k <= |log|
    ensures Table(log[..k]) <= Table(log)
    decreases |log|
  {
    if k == |log| {
      assert log[..k] == log;
    } else {
      var before := log[..|log| - 1];
      TableGrows(before, k);
      assert before[..k] == log[..k];
    }
  }

  /** A call returns null exactly when the table is full and the category is not in it. */
  lemma NullIffFullAndAbsent(log: seq<Event>, k: nat)
    requires Legal(log) && k < |log|
    ensures log[k].ret.None? <==> |Table(log[..k])| == MAX_ITEMS && log[k].cat !in Table(log[..k])
  {
    assert EventOk(log, k);
    TableIsDistinct(log[..k]);
  }

  lemma TableAfter(log: seq<Event>, k: nat)
    requires k < |log|
    ensures Table(log[..k + 1]) == Intern(Table(log[..k]), log[k].cat).0
  {
    assert log[..k + 1][..k] == log[..k];
  }

  lemma InternReturnsSlot<T>(table: seq<T>, c: T)
    ensures Intern(table, c).1.Some? ==> IsIndexOf(Intern(table, c).0, c, Intern(table, c).1.value)
  {}

  /** A slot returned holds the category asked for, then and ever after. */
  lemma SlotHoldsCategory(log: seq<Event>, k: nat)
    requires Legal(log) && k < |log| && log[k].ret.Some?
    ensures IsIndexOf(Table(log), log[k].cat, log[k].ret.value)
  {
    var before := Table(log[..k]);
    assert EventOk(log, k);
    InternReturnsSlot(before, log[k].cat);
    TableAfter(log, k);
    TableGrows(log, k + 1);
  }

  /** The same category always gets the same domain, and different ones different domains; a
      category refused once is refused for ever. */
  lemma DomainsIdentifyCategories(log: seq<Event>, j: nat, k: nat)
    requires Legal(log) && j <= k < |log|
    ensures log[j].ret.Some? && log[k].ret.Some? ==>
      (log[j].cat == log[k].cat <==> log[j].ret == log[k].ret)
    ensures log[j].cat == log[k].cat ==> (log[j].ret.None? <==> log[k].ret.None?)
  {
    TableIsDistinct(log);
    if log[j].ret.Some? { SlotHoldsCategory(log, j); }
    if log[k].ret.Some? { SlotHoldsCategory(log, k); }
    if log[j].cat == log[k].cat && j < k { RefusedStaysRefused(log, j, k); }
  }

  lemma RefusedStaysRefused(log: seq<Event>, j: nat, k: nat)
    requires Legal(log) && j < k < |log| && log[j].cat == log[k].cat
    ensures log[j].ret.None? <==> log[k].ret.None?
  {
    var earlier := log[..k];
    NullIffFullAndAbsent(log, j);
    NullIffFullAndAbsent(log, k);
    TableIsDistinct(earlier);
    assert earlier[..j] == log[..j] && earlier[..j + 1] == log[..j + 1];
    assert log[..j + 1][..j] == log[..j];
    TableGrows(earlier, j + 1);
    if log[j].ret.None? {
      TableGrows(earlier, j);
      assert Table(earlier) == Table(log[..j]);
    } else {
      assert log[j].cat in Table(log[..j + 1]);
    }
  }

  // ------------------------------------------------------------- one call alone

  const KEY: bv64 := 0x223a160d20de97b4

  /** A domain remembers its category inside its id. */
  function IdOf(c: bv64): bv64 { KEY ^ c }

  function CategoryOf(id: bv64): bv64 { KEY ^ id }

  lemma IdRecoversCategory(c: bv64)
    ensures CategoryOf(IdOf(c)) == c
    ensures IdOf(c) ^ 0x223a160d20de97b4 == c
  {}

  class Storage {
    var locked: bool
    var count: nat
    const items: array<bv64>   // domain ids

    ghost predicate Valid()
      reads this, items
    {
      items.Length == MAX_ITEMS && count <= MAX_ITEMS && !locked
    }

    ghost function Contents(): (s: seq<bv64>)
      reads this, items
      requires count <= items.Length
      ensures |s| == count
    {
      seq(count, i requires 0 <= i < count && count <= items.Length reads this, items => CategoryOf(items[i]))
    }

    constructor ()
      ensures Valid() && fresh(items) && Contents() == []
    {
      locked, count := false, 0;
      items := new bv64[MAX_ITEMS];
    }

    /** `add` with no other thread about: the first exchange takes the lock.  The domain's noexcept
        constructor builds a name; if that throws, the process ends inside it. */
    method Add(category: bv64, nameThrows: bool) returns (ret: Option<nat>, terminated: bool)
      requires Valid()
      modifies this, items
      ensures terminated <==> nameThrows && category !in old(Contents()) && |old(Contents())| < MAX_ITEMS
      ensures !terminated ==> Valid() && (Contents(), ret) == Intern(old(Contents()), category)
    {
      ret, terminated := None, false;
      ghost var table := Contents();
      locked := true;
      var n := 0;
      while n < count
        invariant locked && count == old(count) && items[..] == old(items[..])
        invariant 0 <= n <= count && Contents() == table && ret == None
        invariant category !in table[..n]
      {
        if CategoryOf(items[n]) == category {
          assert table[n] == category;
          ret := Some(n);
          break;
        }
        n := n + 1;
      }
      if ret.Some? {
        FirstIndex(table, category, n);
      } else {
        assert table[..n] == table;
      }
      if ret == None && count < MAX_ITEMS {
        count := count + 1;
        if nameThrows {
          return None, true;
        }
        IdRecoversCategory(category);
        items[count - 1] := IdOf(category);
        ret := Some(count - 1);
        assert Contents() == table + [category];
      }
      locked := false;
      assert Contents() == Intern(table, category).0 && ret == Intern(table, category).1;
    }
  }

  lemma FirstIndex<T>(table: seq<T>, c: T, n: nat)
    requires n < |table| && table[n] == c && c !in table[..n]
    ensures IndexOf(table, c) == Some(n)
  {
    assert forall i | 0 <= i < n :: table[i] == table[..n][i];
  }

  // -------------------------------------------------------------- many threads

  type Tid = nat

  /** Where a thread is in `add`.  `since` is the length of the log when it called, `at` the index of
      its own event. */
  datatype Pc =
    | Spinning(cat: Cat, since: nat)
    | Scanning(cat: Cat, n: nat, since: nat)
    | Constructing(cat: Cat, slot: nat, since: nat)   // count raised, domain not yet constructed
    | Leaving(cat: Cat, ret: Option<nat>, at: nat, since: nat)
    | Returned(cat: Cat, ret: Option<nat>, at: nat, since: nat)

  /** `owner` and `log` are history: no step reads them. */
  datatype State = State(
    locked: bool, items: map<nat, Cat>, count: nat, threads: map<Tid, Pc>,
    owner: Option<Tid>, log: seq<Event>)

  const INITIAL := State(false, map[], 0, map[], None, [])

  datatype Step = Call(t: Tid, cat: Cat) | Exchange(t: Tid) | Compare(t: Tid) | Construct(t: Tid) | Unlock(t: Tid)

  datatype Outcome = Next(s: State) | Fault

  predicate Enabled(s: State, p: Step) {
    match p
    case Call(t, _) => t in s.threads ==> s.threads[t].Returned?
    case Exchange(t) => t in s.threads && s.threads[t].Spinning?
    case Compare(t) => t in s.threads && s.threads[t].Scanning?
    case Construct(t) => t in s.threads && s.threads[t].Constructing?
    case Unlock(t) => t in s.threads && s.threads[t].Leaving?
  }

  function Go(s: State, t: Tid, pc: Pc): State { s.(threads := s.threads[t := pc]) }

  /** The call takes effect: its result is settled and logged. */
  function Settle(s: State, t: Tid, cat: Cat, ret: Option<nat>, since: nat): State {
    Go(s, t, Leaving(cat, ret, |s.log|, since)).(log := s.log + [Event(t, cat, ret)])
  }

  function Exchanged(s: State, t: Tid, cat: Cat, since: nat): State {
    if s.locked then s else Go(s, t, Scanning(cat, 0, since)).(locked := true, owner := Some(t))
  }

  function Compared(s: State, t: Tid, cat: Cat, n: nat, since: nat): Outcome {
    if n < s.count then
      if n !in s.items then Fault
      else if s.items[n] == cat then Next(Settle(s, t, cat, Some(n), since))
      else Next(Go(s, t, Scanning(cat, n + 1, since)))
    else if s.count < MAX_ITEMS then
      Next(Go(s, t, Constructing(cat, s.count, since)).(count := s.count + 1))
    else Next(Settle(s, t, cat, None, since))
  }

  function Constructed(s: State, t: Tid, cat: Cat, slot: nat, since: nat): State {
    Settle(s, t, cat, Some(slot), since).(items := s.items[slot := cat])
  }

  function Unlocked(s: State, t: Tid): State
    requires t in s.threads && s.threads[t].Leaving?
  {
    var pc := s.threads[t];
    Go(s, t, Returned(pc.cat, pc.ret, pc.at, pc.since)).(locked := false, owner := None)
  }

  function Take(s: State, p: Step): Outcome
    requires Enabled(s, p)
  {
    match p
    case Call(t, cat) => Next(Go(s, t, Spinning(cat, |s.log|)))
    case Exchange(t) => Next(Exchanged(s, t, s.threads[t].cat, s.threads[t].since))
    case Compare(t) => Compared(s, t, s.threads[t].cat, s.threads[t].n, s.threads[t].since)
    case Construct(t) => Next(Constructed(s, t, s.threads[t].cat, s.threads[t].slot, s.threads[t].since))
    case Unlock(t) => Next(Unlocked(s, t))
  }

  predicate Critical(pc: Pc) { pc.Scanning? || pc.Constructing? || pc.Leaving? }

  /** Mutual exclusion: the lock word is set exactly while one thread, the owner, is inside. */
  ghost predicate LockOk(s: State) {
    && (s.locked <==> s.owner.Some?)
    && (s.owner.Some? ==> s.owner.value in s.threads)
    && (forall t | t in s.threads :: Critical(s.threads[t]) <==> s.owner == Some(t))
  }

  predicate OwnerConstructs(s: State) {
    s.owner.Some? && s.owner.value in s.threads && s.threads[s.owner.value].Constructing?
  }

  /** Constructed slots are the sequential table, and the calls logged are legal for it. */
  ghost predicate TableOk(s: State) {
    var table := Table(s.log);
    && Legal(s.log)
    && (forall i: nat :: i in s.items <==> i < |table|)
    && (forall i: nat | i < |table| :: s.items[i] == table[i])
    && s.count == |table| + (if OwnerConstructs(s) then 1 else 0)
  }

  ghost predicate ThreadOk(s: State, t: Tid)
    requires t in s.threads
  {
    var pc := s.threads[t];
    var table := Table(s.log);
    && pc.since <= |s.log|
    && (pc.Scanning? ==> pc.n <= |table| && pc.cat !in table[..pc.n])
    && (pc.Constructing? ==> pc.slot == |table| && |table| < MAX_ITEMS && pc.cat !in table)
    && (pc.Leaving? || pc.Returned? ==>
          pc.since <= pc.at < |s.log| && s.log[pc.at] == Event(t, pc.cat, pc.ret))
  }

  ghost predicate Inv(s: State) {
    LockOk(s) && TableOk(s) && (forall t | t in s.threads :: ThreadOk(s, t)) && s.count <= MAX_ITEMS
  }

  lemma InitialInv()
    ensures Inv(INITIAL)
  {}

  /** Settling a call on what the sequential table answers. */
  lemma SettleLegal(log: seq<Event>, e: Event)
    requires Legal(log) && e.ret == Intern(Table(log), e.cat).1
    ensures Legal(log + [e]) && Table(log + [e]) == Intern(Table(log), e.cat).0
  {
    var longer := log + [e];
    assert longer[..|longer| - 1] == log;
    forall k: nat | k < |longer| ensures EventOk(longer, k) {
      if k < |log| { assert EventOk(log, k) && longer[..k] == log[..k]; } else { assert longer[..k] == log; }
    }
  }

  /** What a step of the owner leaves of the other threads' facts. */
  lemma OthersOk(s: State, s': State, t: Tid, u: Tid)
    requires Inv(s) && u in s.threads && u != t && u in s'.threads && s'.threads[u] == s.threads[u]
    requires !Critical(s.threads[u]) && s.log <= s'.log
    ensures ThreadOk(s', u)
  {
    assert ThreadOk(s, u);
  }

  lemma SettleKeepsInv(s: State, t: Tid, cat: Cat, ret: Option<nat>, since: nat)
    requires Inv(s) && s.owner == Some(t) && t in s.threads && s.threads[t].Scanning?
    requires since <= |s.log| && Intern(Table(s.log), cat) == (Table(s.log), ret)
    ensures Inv(Settle(s, t, cat, ret, since))
  {
    var s' := Settle(s, t, cat, ret, since);
    SettleLegal(s.log, Event(t, cat, ret));
    forall u | u in s'.threads ensures ThreadOk(s', u) {
      if u != t { OthersOk(s, s', t, u); }
    }
  }

  lemma ConstructTable(s: State, t: Tid)
    requires LockOk(s) && TableOk(s) && t in s.threads && s.threads[t].Constructing? && ThreadOk(s, t)
    ensures var pc := s.threads[t]; var s' := Constructed(s, t, pc.cat, pc.slot, pc.since);
      TableOk(s') && Table(s'.log) == Table(s.log) + [pc.cat]
  {
    var pc := s.threads[t];
    SettleLegal(s.log, Event(t, pc.cat, Some(pc.slot)));
  }

  lemma ConstructKeepsInv(s: State, t: Tid)
    requires Inv(s) && t in s.threads && s.threads[t].Constructing?
    ensures Inv(Constructed(s, t, s.threads[t].cat, s.threads[t].slot, s.threads[t].since))
  {
    var pc := s.threads[t];
    var s' := Constructed(s, t, pc.cat, pc.slot, pc.since);
    assert ThreadOk(s, t);
    ConstructTable(s, t);
    assert LockOk(s');
    forall u | u in s'.threads ensures ThreadOk(s', u) {
      if u != t { OthersOk(s, s', t, u); }
    }
  }

  /** Steps that leave the table and the log alone. */
  lemma QuietStep(s: State, s': State, t: Tid)
    requires Inv(s) && s'.items == s.items && s'.log == s.log && LockOk(s')
    requires t in s'.threads && ThreadOk(s', t) && TableOk(s') && s'.count <= MAX_ITEMS
    requires forall u | u in s'.threads && u != t :: u in s.threads && s'.threads[u] == s.threads[u]
    ensures Inv(s')
  {
    forall u | u in s'.threads && u != t ensures ThreadOk(s', u) { assert ThreadOk(s, u); }
  }

  lemma FoundKeepsInv(s: State, t: Tid, n: nat)
    requires Inv(s) && t in s.threads && s.threads[t].Scanning? && s.threads[t].n == n
    requires n in s.items && s.items[n] == s.threads[t].cat
    ensures Inv(Settle(s, t, s.threads[t].cat, Some(n), s.threads[t].since))
  {
    var pc := s.threads[t];
    assert ThreadOk(s, t);
    FirstIndex(Table(s.log), pc.cat, n);
    SettleKeepsInv(s, t, pc.cat, Some(n), pc.since);
  }

  lemma NextSlotKeepsInv(s: State, t: Tid, n: nat)
    requires Inv(s) && t in s.threads && s.threads[t].Scanning? && s.threads[t].n == n
    requires n in s.items && s.items[n] != s.threads[t].cat
    ensures Inv(Go(s, t, Scanning(s.threads[t].cat, n + 1, s.threads[t].since)))
  {
    var table := Table(s.log);
    assert ThreadOk(s, t);
    assert table[..n + 1] == table[..n] + [table[n]];
    QuietStep(s, Go(s, t, Scanning(s.threads[t].cat, n + 1, s.threads[t].since)), t);
  }

  /** The scan reached the end: the category is in no slot. */
  lemma ScannedAll(s: State, t: Tid)
    requires Inv(s) && t in s.threads && s.threads[t].Scanning? && s.threads[t].n >= s.count
    ensures |Table(s.log)| == s.count && s.threads[t].cat !in Table(s.log)
  {
    var table := Table(s.log);
    assert ThreadOk(s, t);
    assert table[..|table|] == table;
  }

  lemma ReserveKeepsInv(s: State, t: Tid)
    requires Inv(s) && t in s.threads && s.threads[t].Scanning? && s.count <= s.threads[t].n && s.count < MAX_ITEMS
    ensures Inv(Go(s, t, Constructing(s.threads[t].cat, s.count, s.threads[t].since)).(count := s.count + 1))
  {
    ScannedAll(s, t);
    assert ThreadOk(s, t);
    QuietStep(s, Go(s, t, Constructing(s.threads[t].cat, s.count, s.threads[t].since)).(count := s.count + 1), t);
  }

  lemma FullKeepsInv(s: State, t: Tid)
    requires Inv(s) && t in s.threads && s.threads[t].Scanning? && s.count <= s.threads[t].n && s.count >= MAX_ITEMS
    ensures Inv(Settle(s, t, s.threads[t].cat, None, s.threads[t].since))
  {
    ScannedAll(s, t);
    assert ThreadOk(s, t);
    SettleKeepsInv(s, t, s.threads[t].cat, None, s.threads[t].since);
  }

  lemma ScannedSlotIsConstructed(s: State, t: Tid)
    requires Inv(s) && t in s.threads && s.threads[t].Scanning? && s.threads[t].n < s.count
    ensures s.threads[t].n in s.items
  {}

  lemma CompareBelowCount(s: State, t: Tid)
    requires Inv(s) && t in s.threads && s.threads[t].Scanning? && s.threads[t].n < s.count
    ensures Take(s, Compare(t)).Next? && Inv(Take(s, Compare(t)).s)
  {
    var n := s.threads[t].n;
    ScannedSlotIsConstructed(s, t);
    if s.items[n] == s.threads[t].cat { FoundKeepsInv(s, t, n); } else { NextSlotKeepsInv(s, t, n); }
  }

  lemma CompareAtEnd(s: State, t: Tid)
    requires Inv(s) && t in s.threads && s.threads[t].Scanning? && s.threads[t].n >= s.count
    ensures Take(s, Compare(t)).Next? && Inv(Take(s, Compare(t)).s)
  {
    var pc := s.threads[t];
    if s.count < MAX_ITEMS {
      ReserveKeepsInv(s, t);
      assert Take(s, Compare(t)) == Next(Go(s, t, Constructing(pc.cat, s.count, pc.since)).(count := s.count + 1));
    } else {
      FullKeepsInv(s, t);
      assert Take(s, Compare(t)) == Next(Settle(s, t, pc.cat, None, pc.since));
    }
  }

  lemma CompareKeepsInv(s: State, t: Tid)
    requires Inv(s) && t in s.threads && s.threads[t].Scanning?
    ensures Take(s, Compare(t)).Next? && Inv(Take(s, Compare(t)).s)
  {
    if s.threads[t].n < s.count { CompareBelowCount(s, t); } else { CompareAtEnd(s, t); }
  }

  lemma CallKeepsInv(s: State, t: Tid, cat: Cat)
    requires Inv(s) && Enabled(s, Call(t, cat))
    ensures Inv(Go(s, t, Spinning(cat, |s.log|)))
  {
    QuietStep(s, Go(s, t, Spinning(cat, |s.log|)), t);
  }

  lemma ExchangeKeepsInv(s: State, t: Tid)
    requires Inv(s) && t in s.threads && s.threads[t].Spinning?
    ensures Inv(Exchanged(s, t, s.threads[t].cat, s.threads[t].since))
  {
    assert ThreadOk(s, t);
    QuietStep(s, Exchanged(s, t, s.threads[t].cat, s.threads[t].since), t);
  }

  lemma UnlockKeepsInv(s: State, t: Tid)
    requires Inv(s) && t in s.threads && s.threads[t].Leaving?
    ensures Inv(Unlocked(s, t))
  {
    assert ThreadOk(s, t);
    QuietStep(s, Unlocked(s, t), t);
  }

  /** No step faults, and every step keeps the invariant. */
  lemma StepKeepsInv(s: State, p: Step)
    requires Inv(s) && Enabled(s, p)
    ensures Take(s, p).Next? && Inv(Take(s, p).s)
  {
    match p
    case Call(t, cat) => CallKeepsInv(s, t, cat);
    case Exchange(t) => ExchangeKeepsInv(s, t);
    case Compare(t) => CompareKeepsInv(s, t);
    case Construct(t) => ConstructKeepsInv(s, t);
    case Unlock(t) => UnlockKeepsInv(s, t);
  }

  // --------------------------------------------------------------- executions

  datatype Result = Reached(s: State) | Faulted | NotEnabled

  function Run(s: State, steps: seq<Step>): Result
    decreases |steps|
  {
    if steps == [] then Reached(s)
    else if !Enabled(s, steps[0]) then NotEnabled
    else match Take(s, steps[0])
      case Next(s') => Run(s', steps[1..])
      case Fault => Faulted
  }

  /** Under any interleaving no unconstructed slot is read, at most one thread is inside, published
      slots keep their category, and the calls that took effect, in that order, are a legal history
      of the sequential table. */
  lemma {:induction false} EveryInterleavingIsLinearizable(s: State, steps: seq<Step>)
    requires Inv(s)
    ensures !Run(s, steps).Faulted?
    ensures Run(s, steps).Reached? ==>
      var s' := Run(s, steps).s;
      && Inv(s') && Legal(s'.log) && s.log <= s'.log
      && (forall i: nat | i in s.items :: i in s'.items && s'.items[i] == s.items[i])
    decreases |steps|
  {
    if steps != [] && Enabled(s, steps[0]) {
      StepKeepsInv(s, steps[0]);
      var s1 := Take(s, steps[0]).s;
      StepPublishes(s, steps[0]);
      EveryInterleavingIsLinearizable(s1, steps[1..]);
    }
  }

  lemma StepPublishes(s: State, p: Step)
    requires Inv(s) && Enabled(s, p) && Take(s, p).Next?
    ensures var s' := Take(s, p).s;
      && s.log <= s'.log
      && (forall i: nat | i in s.items :: i in s'.items && s'.items[i] == s.items[i])
  {
    if p.Construct? { assert ThreadOk(s, p.t); }
  }

  lemma AtMostOneInside(s: State, t: Tid, u: Tid)
    requires Inv(s) && t in s.threads && u in s.threads
    requires Critical(s.threads[t]) && Critical(s.threads[u])
    ensures t == u && s.locked
  {}

  /** A call that has returned took effect, with that result, after it was made; one that had
      returned before another was made comes before it in the history. */
  lemma EffectWithinTheCall(s: State, t: Tid, steps: seq<Step>, u: Tid)
    requires Inv(s) && t in s.threads && s.threads[t].Returned?
    requires Run(s, steps).Reached?
    requires var s' := Run(s, steps).s;
      u in s'.threads && s'.threads[u].Returned? && s'.threads[u].since >= |s.log|
    ensures var s' := Run(s, steps).s;
      && s.threads[t].at < s'.threads[u].at < |s'.log|
      && s'.log[s.threads[t].at] == Event(t, s.threads[t].cat, s.threads[t].ret)
      && s'.log[s'.threads[u].at] == Event(u, s'.threads[u].cat, s'.threads[u].ret)
  {
    EveryInterleavingIsLinearizable(s, steps);
    assert ThreadOk(s, t) && ThreadOk(Run(s, steps).s, u);
  }

  // ------------------------------------------------------------------ progress

  function ThreadOf(p: Step): Tid {
    match p
    case Call(t, _) => t
    case Exchange(t) => t
    case Compare(t) => t
    case Construct(t) => t
    case Unlock(t) => t
  }

  predicate OwnSteps(steps: seq<Step>, t: Tid) { forall i | 0 <= i < |steps| :: ThreadOf(steps[i]) == t }

  /** What the sequential table has a thread's call return, and what it leaves. */
  function Due(s: State, t: Tid): (seq<Cat>, Option<nat>)
    requires t in s.threads
  {
    var pc := s.threads[t];
    if pc.Leaving? then (Table(s.log), pc.ret) else Intern(Table(s.log), pc.cat)
  }

  /** The thread's own steps end its call: it returns what is due, the lock is free, no other thread was
      touched, and the table is what the call leaves. */
  ghost predicate Completes(s: State, t: Tid, steps: seq<Step>)
    requires t in s.threads
  {
    && OwnSteps(steps, t)
    && Run(s, steps).Reached?
    && var s' := Run(s, steps).s;
      && t in s'.threads && s'.threads[t].Returned? && s'.threads[t].cat == s.threads[t].cat
      && (Table(s'.log), s'.threads[t].ret) == Due(s, t)
      && !s'.locked && s'.threads - {t} == s.threads - {t}
  }

  ghost predicate CanComplete(s: State, t: Tid)
    requires t in s.threads
  {
    exists steps: seq<Step> :: Completes(s, t, steps)
  }

  lemma RunFirst(s: State, p: Step, rest: seq<Step>)
    requires Enabled(s, p) && Take(s, p).Next?
    ensures Run(s, [p] + rest) == Run(Take(s, p).s, rest)
  {
    assert ([p] + rest)[1..] == rest;
  }

  /** One step of a thread inside, after which it can complete, keeps what is due. */
  lemma CompletesBefore(s: State, t: Tid, p: Step)
    requires t in s.threads && Enabled(s, p) && ThreadOf(p) == t && Take(s, p).Next?
    requires var s1 := Take(s, p).s;
      && t in s1.threads && s1.threads[t].cat == s.threads[t].cat && Due(s1, t) == Due(s, t)
      && s1.threads - {t} == s.threads - {t} && CanComplete(s1, t)
    ensures CanComplete(s, t)
  {
    var s1 := Take(s, p).s;
    var rest: seq<Step> :| Completes(s1, t, rest);
    RunFirst(s, p, rest);
    assert Completes(s, t, [p] + rest);
  }

  lemma UnlockCompletes(s: State, t: Tid)
    requires t in s.threads && s.threads[t].Leaving?
    ensures CanComplete(s, t)
  {
    var p := Unlock(t);
    RunFirst(s, p, []);
    var s' := Take(s, p).s;
    assert Run(s', []) == Reached(s');
    assert s'.threads - {t} == s.threads - {t};
    assert Completes(s, t, [p] + []);
  }

  lemma ConstructCompletes(s: State, t: Tid)
    requires Inv(s) && t in s.threads && s.threads[t].Constructing?
    ensures CanComplete(s, t)
  {
    assert ThreadOk(s, t);
    ConstructTable(s, t);
    UnlockCompletes(Take(s, Construct(t)).s, t);
    assert Take(s, Construct(t)).s.threads - {t} == s.threads - {t};
    CompletesBefore(s, t, Construct(t));
  }

  /** Where a comparison leads, and that it keeps what is due. */
  lemma CompareDue(s: State, t: Tid)
    requires Inv(s) && t in s.threads && s.threads[t].Scanning?
    ensures Take(s, Compare(t)).Next?
    ensures var s1 := Take(s, Compare(t)).s;
      && t in s1.threads && s1.threads[t].cat == s.threads[t].cat && Due(s1, t) == Due(s, t)
      && s1.threads - {t} == s.threads - {t}
      && (s1.threads[t].Scanning? ==> s1.count == s.count && s.threads[t].n < s1.threads[t].n <= s.count)
      && !s1.threads[t].Spinning? && !s1.threads[t].Returned?
  {
    CompareKeepsInv(s, t);
    assert ThreadOk(s, t);
    var pc, s1 := s.threads[t], Take(s, Compare(t)).s;
    assert s1.threads - {t} == s.threads - {t};
    if pc.n < s.count {
      ScannedSlotIsConstructed(s, t);
      if s.items[pc.n] == pc.cat {
        FirstIndex(Table(s.log), pc.cat, pc.n);
        SettleLegal(s.log, Event(t, pc.cat, Some(pc.n)));
      }
    } else {
      ScannedAll(s, t);
      if s.count >= MAX_ITEMS { SettleLegal(s.log, Event(t, pc.cat, None)); }
    }
  }

  /** The thread inside always completes by its own steps. */
  lemma {:induction false} InsideCompletes(s: State, t: Tid)
    requires Inv(s) && t in s.threads && Critical(s.threads[t])
    ensures CanComplete(s, t)
    decreases if s.threads[t].Scanning? then MAX_ITEMS + 1 - s.threads[t].n else -1
  {
    match s.threads[t]
    case Leaving(_, _, _, _) => UnlockCompletes(s, t);
    case Constructing(_, _, _) => ConstructCompletes(s, t);
    case Scanning(_, _, _) =>
      CompareDue(s, t);
      StepKeepsInv(s, Compare(t));
      InsideCompletes(Take(s, Compare(t)).s, t);
      CompletesBefore(s, t, Compare(t));
  }

  /** With the lock free, a thread that asks for it gets it, and its call completes by its own steps,
      with what the sequential table answers. */
  lemma SpinningCompletes(s: State, t: Tid)
    requires Inv(s) && !s.locked && t in s.threads && s.threads[t].Spinning?
    ensures CanComplete(s, t)
  {
    var s1 := Take(s, Exchange(t)).s;
    StepKeepsInv(s, Exchange(t));
    assert s1.threads - {t} == s.threads - {t};
    InsideCompletes(s1, t);
    CompletesBefore(s, t, Exchange(t));
  }

  /** With the lock free, any category asked for is interned by the caller's own steps: the call returns
      the slot the sequential table gives it, or null. */
  lemma CallCompletes(s: State, t: Tid, cat: Cat)
    requires Inv(s) && !s.locked && Enabled(s, Call(t, cat))
    ensures var s1 := Take(s, Call(t, cat)).s;
      && t in s1.threads && CanComplete(s1, t)
      && Due(s1, t) == Intern(Table(s.log), cat) && s1.threads - {t} == s.threads - {t}
  {
    var s1 := Take(s, Call(t, cat)).s;
    StepKeepsInv(s, Call(t, cat));
    assert s1.threads - {t} == s.threads - {t};
    SpinningCompletes(s1, t);
  }

  ghost predicate CanReturn(s: State, t: Tid) {
    exists steps: seq<Step> :: ReturnsBy(s, t, steps)
  }

  ghost predicate ReturnsBy(s: State, t: Tid, steps: seq<Step>) {
    && Run(s, steps).Reached?
    && t in Run(s, steps).s.threads && Run(s, steps).s.threads[t].Returned?
  }

  lemma {:induction false} RunConcat(s: State, a: seq<Step>, b: seq<Step>)
    requires Run(s, a).Reached?
    ensures Run(s, a + b) == Run(Run(s, a).s, b)
    decreases |a|
  {
    if a == [] {
      assert a + b == b;
    } else {
      RunConcat(Take(s, a[0]).s, a[1..], b);
      assert (a + b)[1..] == a[1..] + b;
    }
  }

  /** From every state every call made can return: whoever is inside leaves first. */
  lemma EveryCallCanReturn(s: State, t: Tid)
    requires Inv(s) && t in s.threads
    ensures CanReturn(s, t)
  {
    if s.threads[t].Returned? {
      assert ReturnsBy(s, t, []);
    } else if Critical(s.threads[t]) {
      InsideCompletes(s, t);
      var steps: seq<Step> :| Completes(s, t, steps);
      assert ReturnsBy(s, t, steps);
    } else if !s.locked {
      SpinningCompletes(s, t);
      var steps: seq<Step> :| Completes(s, t, steps);
      assert ReturnsBy(s, t, steps);
    } else {
      OwnerLeavesFirst(s, t);
    }
  }

  lemma OwnerLeavesFirst(s: State, t: Tid)
    requires Inv(s) && s.locked && t in s.threads && s.threads[t].Spinning?
    ensures CanReturn(s, t)
  {
    var o := s.owner.value;
    InsideCompletes(s, o);
    var first: seq<Step> :| Completes(s, o, first);
    var s1 := Run(s, first).s;
    EveryInterleavingIsLinearizable(s, first);
    assert t in s.threads - {o};
    assert t in s1.threads - {o} && s1.threads[t] == s.threads[t];
    SpinningCompletes(s1, t);
    var second: seq<Step> :| Completes(s1, t, second);
    RunConcat(s, first, second);
    assert ReturnsBy(s, t, first + second);
  }
}

/** Status codes, their domains, and the virtual observers each domain implements.

    A code is modelled by its domain (the constructor) and its value.  The mapping tables the
    domains switch over are finite data, so they arrive as the functions of a `Tables` value. */
module Codes {

  // `errc` is an enumeration over int whose named members are errno constants (Linux values here).
  type Errc = int
  const SUCCESS: Errc := 0
  const UNKNOWN: Errc := -1
  const EPERM: Errc := 1
  const ENOENT: Errc := 2
  const EAGAIN: Errc := 11
  const EACCES: Errc := 13
  const EINVAL: Errc := 22
  const ENOSPC: Errc := 28
  const ERANGE: Errc := 34
  const EPROTONOSUPPORT: Errc := 93
  const EOPNOTSUPP: Errc := 95
  const ENOTSUP: Errc := 95
  const ETIMEDOUT: Errc := 110
  const EINPROGRESS: Errc := 115

  /** What `std::system_category()` values are converted to before comparison. */
  datatype Platform = PosixLike | Windows | NotPosix

  /** One row of a quick enumeration's table. */
  datatype Mapping = Mapping(value: int, codes: seq<Errc>)

  datatype Category = GenericCategory | SystemCategory | UserCategory(id: nat)

  datatype Condition = Condition(value: int, category: Category)

  datatype Option<+T> = None | Some(value: T)

  datatype Tables = Tables(
    platform: Platform,
    win32: bv32 -> Errc,       // win32 value to errno, -1 where the switch has no case
    nt: bv32 -> Errc,          // negative NTSTATUS to errno, -1 where the switch has no case
    ntWin32: bv32 -> bv32,     // negative NTSTATUS to win32 value
    quick: nat -> seq<Mapping>,
    condition: (Category, int) -> Condition)  // std::error_category::default_error_condition

  datatype Code =
    | Generic(ec: Errc)
    | Posix(errno: int)
    | Win32(dword: bv32)
    | Nt(status: bv32)
    | Com(hresult: bv32)
    | Http(http: int)
    | Quick(table: nat, enum: int)
    | StdError(category: Category, value: int)
    | Nested(payload: Code)

  /** What any status code object holds: a null domain pointer, or a domain and a value of it. */
  datatype StatusCode = Empty | Holding(code: Code)

  // ---------------------------------------------------------------- mappings

  const NT_BIT: bv32 := 0x1000_0000
  const FACILITY_WIN32: bv32 := 7

  /** The sign of a 32-bit LONG. */
  predicate Negative(v: bv32) { v >= 0x8000_0000 }

  function Facility(h: bv32): bv32 { (h >> 16) & 0x1fff }

  function CodePart(h: bv32): bv32 { h & 0xffff }

  predicate HasNtBit(h: bv32) { h & NT_BIT != 0 }

  function WithoutNtBit(h: bv32): bv32 { h & 0xefff_ffff }

  function Win32ToErrno(t: Tables, v: bv32): Errc { if v == 0 then 0 else t.win32(v) }

  function NtToErrno(t: Tables, v: bv32): Errc { if !Negative(v) then 0 else t.nt(v) }

  function NtToWin32(t: Tables, v: bv32): bv32 { if !Negative(v) then 0 else t.ntWin32(v) }

  /** The conversion of an int to an unsigned 32-bit DWORD. */
  function ToDword(v: int): bv32 { (v % 0x1_0000_0000) as bv32 }

  /** The first row of a quick enumeration's table for this value. */
  function FindMapping(rows: seq<Mapping>, v: int): Option<Mapping> {
    if rows == [] then None
    else if rows[0].value == v then Some(rows[0])
    else FindMapping(rows[1..], v)
  }

  function HttpToErrc(v: int): Errc {
    if v == 102 || v == 202 then EINPROGRESS
    else if v == 400 then EINVAL
    else if v == 401 then EPERM
    else if v == 403 then EACCES
    else if v == 404 || v == 410 then ENOENT
    else if v == 405 || v == 418 then EOPNOTSUPP
    else if v == 406 then EPROTONOSUPPORT
    else if v == 408 then ETIMEDOUT
    else if v == 413 then ERANGE
    else if v == 501 then ENOTSUP
    else if v == 503 then EAGAIN
    else if v == 504 then ETIMEDOUT
    else if v == 507 then ENOSPC
    else UNKNOWN
  }

  // ------------------------------------------------------- virtual observers

  predicate DoFailure(t: Tables, c: Code) {
    match c
    case Generic(e) => e != SUCCESS
    case Posix(v) => v != 0
    case Win32(v) => v != 0
    case Nt(v) => Negative(v)
    case Com(v) => Negative(v)
    case Http(v) => v >= 400
    case Quick(q, v) =>
      var row := FindMapping(t.quick(q), v);
      !(row.Some? && SUCCESS in row.value.codes)
    case StdError(_, v) => v != 0
    case Nested(p) => DoFailure(t, p)
  }

  function GenericCode(t: Tables, c: Code): Errc {
    match c
    case Generic(e) => e
    case Posix(v) => v
    case Win32(v) => Win32ToErrno(t, v)
    case Nt(v) => NtToErrno(t, v)
    case Com(v) =>
      if v == 0 then SUCCESS
      else if HasNtBit(v) then NtToErrno(t, WithoutNtBit(v))
      else if Facility(v) == FACILITY_WIN32 then Win32ToErrno(t, CodePart(v))
      else UNKNOWN
    case Http(v) => HttpToErrc(v)
    case Quick(q, v) =>
      var row := FindMapping(t.quick(q), v);
      if row.Some? && |row.value.codes| > 0 then row.value.codes[0] else UNKNOWN
    case StdError(cat, v) =>
      var cond := t.condition(cat, v);
      if cond.category == GenericCategory then cond.value
      else if t.platform.PosixLike? && cond.category == SystemCategory then cond.value
      else UNKNOWN
    case Nested(p) => GenericCode(t, p)
  }

  /** How many wrapped `std::error_code`s a code holds. */
  function StdCount(c: Code): nat {
    match c
    case StdError(_, _) => 1
    case Nested(p) => StdCount(p)
    case _ => 0
  }

  function Depth(c: Code): nat { if c.Nested? then 1 + Depth(c.payload) else 0 }

  predicate PosixEquivalent(v: int, b: Code) {
    if b.Posix? then v == b.errno else b.Generic? && b.ec == v
  }

  predicate Win32Equivalent(t: Tables, v: bv32, b: Code) {
    if b.Win32? then v == b.dword else b.Generic? && b.ec == Win32ToErrno(t, v)
  }

  predicate NtEquivalent(t: Tables, v: bv32, b: Code) {
    if b.Nt? then v == b.status
    else if b.Generic? then b.ec == NtToErrno(t, v)
    else b.Win32? && b.dword == NtToWin32(t, v)
  }

  predicate ComEquivalent(t: Tables, v: bv32, b: Code) {
    if b.Com? then v == b.hresult
    else if HasNtBit(v) then
      if b.Nt? then b.status == WithoutNtBit(v)
      else b.Generic? && b.ec == NtToErrno(t, WithoutNtBit(v))
    else if Facility(v) == FACILITY_WIN32 then
      if b.Win32? then b.dword == CodePart(v)
      else b.Generic? && b.ec == Win32ToErrno(t, CodePart(v))
    else false
  }

  predicate QuickEquivalent(t: Tables, q: nat, v: int, b: Code) {
    if b.Quick? && b.table == q then v == b.enum
    else if b.Generic? then
      var row := FindMapping(t.quick(q), v);
      row.Some? && b.ec in row.value.codes
    else false
  }

  /** The domains that answer without calling back into a comparison. */
  predicate PlainEquivalent(t: Tables, a: Code, b: Code)
    requires !a.StdError? && !a.Nested?
  {
    match a
    case Generic(e) => b.Generic? && e == b.ec
    case Posix(v) => PosixEquivalent(v, b)
    case Win32(v) => Win32Equivalent(t, v, b)
    case Nt(v) => NtEquivalent(t, v, b)
    case Com(v) => ComEquivalent(t, v, b)
    case Http(v) => b.Http? && v == b.http
    case Quick(q, v) => QuickEquivalent(t, q, v, b)
  }

  /** The code a wrapped `std::error_code` is converted to before it is compared with `==`. */
  function Unwrapped(t: Tables, cat: Category, v: int): Option<Code> {
    match cat
    case GenericCategory => Some(Generic(v))
    case SystemCategory =>
      if t.platform.Windows? then Some(Win32(ToDword(v)))
      else if t.platform.PosixLike? then Some(Posix(v))
      else None
    case UserCategory(_) => None
  }

  /** `a`'s domain is asked whether `a` is equivalent to `b`.  A wrapped `std::error_code` of the
      generic or the system category calls back into the full comparison. */
  predicate DoEquivalent(t: Tables, a: Code, b: Code)
    decreases StdCount(a) + StdCount(b), Depth(a) + Depth(b), 0
  {
    match a
    case StdError(cat, v) =>
      if b.StdError? && b.category == cat then v == b.value
      else
        var c := Unwrapped(t, cat, v);
        c.Some? && Equivalent(t, c.value, b)
    case Nested(p) => DoEquivalent(t, p, b)
    case _ => PlainEquivalent(t, a, b)
  }

  /** `a`'s domain is asked about the generic code of `o`, unless that is unknown. */
  predicate MatchesGenericOf(t: Tables, a: Code, o: Code)
    decreases StdCount(a) + StdCount(o), Depth(a) + Depth(o), 1
  {
    var c := GenericCode(t, o);
    c != UNKNOWN && DoEquivalent(t, a, Generic(c))
  }

  /** `equivalent()` of two non-empty codes: four queries, in order. */
  predicate Equivalent(t: Tables, a: Code, b: Code)
    decreases StdCount(a) + StdCount(b), Depth(a) + Depth(b), 2
  {
    DoEquivalent(t, a, b) || DoEquivalent(t, b, a) || MatchesGenericOf(t, a, b) || MatchesGenericOf(t, b, a)
  }

  /** `operator==` on any two status codes, empty ones included. */
  predicate Same(t: Tables, x: StatusCode, y: StatusCode) {
    if x.Holding? && y.Holding? then Equivalent(t, x.code, y.code) else x.Empty? && y.Empty?
  }

  predicate Success(t: Tables, x: StatusCode) { x.Holding? && !DoFailure(t, x.code) }

  predicate Failure(t: Tables, x: StatusCode) { x.Holding? && DoFailure(t, x.code) }
}

/** The domain of a quick enumeration: linear searches over its table, with early return. */
module QuickEnum {
  import opened Codes
  import opened Comparison

  /** The first row for `v`, or null. */
  method FindRow(rows: seq<Mapping>, v: int) returns (row: Option<Mapping>)
    ensures row == FindMapping(rows, v)
    ensures row.None? <==> forall k | 0 <= k < |rows| :: rows[k].value != v
    ensures row.Some? ==> exists k | 0 <= k < |rows| ::
      rows[k] == row.value && rows[k].value == v && forall j | 0 <= j < k :: rows[j].value != v
  {
    for i := 0 to |rows|
      invariant forall k | 0 <= k < i :: rows[k].value != v
      invariant FindMapping(rows, v) == FindMapping(rows[i..], v)
    {
      if rows[i].value == v {
        return Some(rows[i]);
      }
      assert rows[i..][1..] == rows[i + 1..];
    }
    return None;
  }

  method QuickFailure(t: Tables, q: nat, v: int) returns (failure: bool)
    ensures failure == DoFailure(t, Quick(q, v))
  {
    var row := FindRow(t.quick(q), v);
    if row.Some? {
      for i := 0 to |row.value.codes|
        invariant SUCCESS !in row.value.codes[..i]
      {
        if row.value.codes[i] == SUCCESS {
          return false;
        }
      }
    }
    return true;
  }

  method QuickStrictlyEquivalent(t: Tables, q: nat, v: int, b: Code) returns (same: bool)
    ensures same == DoEquivalent(t, Quick(q, v), b)
  {
    if b.Quick? && b.table == q {
      return v == b.enum;
    }
    if b.Generic? {
      var row := FindRow(t.quick(q), v);
      if row.Some? {
        for i := 0 to |row.value.codes|
          invariant b.ec !in row.value.codes[..i]
        {
          if row.value.codes[i] == b.ec {
            return true;
          }
        }
      }
    }
    return false;
  }

  method QuickGenericCode(t: Tables, q: nat, v: int) returns (e: Errc)
    ensures e == GenericCode(t, Quick(q, v))
    ensures forall k | 0 <= k < |t.quick(q)| && t.quick(q)[k].value == v
        && forall j | 0 <= j < k :: t.quick(q)[j].value != v ::
      e == if t.quick(q)[k].codes == [] then UNKNOWN else t.quick(q)[k].codes[0]
    ensures (forall k | 0 <= k < |t.quick(q)| :: t.quick(q)[k].value != v) ==> e == UNKNOWN
  {
    var row := FindRow(t.quick(q), v);
    if row.Some? && |row.value.codes| > 0 {
      return row.value.codes[0];
    }
    return UNKNOWN;
  }

  /** A quick code equals an errc exactly when the errc is in the first matching row's list; so it
      succeeds exactly when it equals success, and a value without a row fails and equals no errc. */
  lemma EquivalentToErrcIffListed(t: Tables, q: nat, v: int, e: Errc)
    ensures Equivalent(t, Quick(q, v), Generic(e))
      <==> FindMapping(t.quick(q), v).Some? && e in FindMapping(t.quick(q), v).value.codes
    ensures !DoFailure(t, Quick(q, v)) <==> Equivalent(t, Quick(q, v), Generic(SUCCESS))
  {
    EquivalentToErrc(t, Quick(q, v), e);
    EquivalentToErrc(t, Quick(q, v), SUCCESS);
  }

  /** Two rows sharing an errc that is not the first of either list make the enumeration's values
      unequal while both equal that errc. */
  lemma SharedSecondErrcIsNotTransitive(t: Tables, q: nat, v: int, w: int, e: Errc)
    requires v != w
    requires FindMapping(t.quick(q), v).Some? && e in FindMapping(t.quick(q), v).value.codes
    requires FindMapping(t.quick(q), w).Some? && e in FindMapping(t.quick(q), w).value.codes
    requires GenericCode(t, Quick(q, v)) !in FindMapping(t.quick(q), w).value.codes
    requires GenericCode(t, Quick(q, w)) !in FindMapping(t.quick(q), v).value.codes
    ensures Equivalent(t, Quick(q, v), Generic(e)) && Equivalent(t, Generic(e), Quick(q, w))
    ensures !Equivalent(t, Quick(q, v), Quick(q, w))
  {
    EquivalentToErrcIffListed(t, q, v, e);
    EquivalentToErrcIffListed(t, q, w, e);
    SymmetricAlways(t, Quick(q, w), Generic(e));
    QueryIsClaim(t, Quick(q, v), GenericCode(t, Quick(q, w)));
    QueryIsClaim(t, Quick(q, w), GenericCode(t, Quick(q, v)));
  }
}

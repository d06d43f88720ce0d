/**
 * Per-product quantity limits, kept in `product-limits.json` and merged by
 * `PUT /api/admin/product-limits`: each incoming entry whose value is a
 * finite number no smaller than 0 overwrites the limit for its product id;
 * every other entry is dropped, and the existing limits stay.
 */
module ProductLimits {
  import opened Wrappers

  /** What `Number(val)` gives for an incoming limit. */
  datatype LimitValue = Finite(n: int) | NotFinite

  /** The `limits` member of the request body: an object's entries in order, or
      something that is not an object (missing, null, a string, a number). */
  datatype LimitsPayload = NotAnObject | Entries(entries: seq<(string, LimitValue)>)

  datatype MergeOutcome = InvalidPayload | PersistFailed | Saved(limits: map<string, int>)

  predicate Accepted(v: LimitValue)
  {
    v.Finite? && v.n >= 0
  }

  /** The limits after the merge loop over `entries`. */
  function Merged(current: map<string, int>, entries: seq<(string, LimitValue)>): map<string, int>
  {
    if entries == [] then current
    else
      var m := Merged(current, entries[..|entries| - 1]);
      var (id, v) := entries[|entries| - 1];
      if Accepted(v) then m[id := v.n] else m
  }

  /** The last accepted value given for `id`, if any. */
  function LastAccepted(entries: seq<(string, LimitValue)>, id: string): (r: Option<int>)
    ensures r.Some? <==> exists i :: 0 <= i < |entries| && entries[i].0 == id && Accepted(entries[i].1)
    ensures r.Some? ==> exists i :: 0 <= i < |entries| && entries[i].0 == id && entries[i].1 == Finite(r.value)
                                    && r.value >= 0
                                    && forall j :: i < j < |entries| && entries[j].0 == id ==> !Accepted(entries[j].1)
  {
    if entries == [] then None
    else
      var init := entries[..|entries| - 1];
      var (k, v) := entries[|entries| - 1];
      if k == id && Accepted(v) then Some(v.n)
      else
        var r := LastAccepted(init, id);
        assert forall i :: 0 <= i < |init| ==> init[i] == entries[i];
        r
  }

  /** The merge, entry by entry: an id keeps its current limit unless some accepted
      value was given for it, and then it holds the last such value. */
  lemma {:induction false} MergedAt(current: map<string, int>, entries: seq<(string, LimitValue)>, id: string)
    ensures id in Merged(current, entries) <==> id in current || LastAccepted(entries, id).Some?
    ensures id in Merged(current, entries) ==>
      Merged(current, entries)[id] == match LastAccepted(entries, id)
                                      case Some(n) => n
                                      case None => current[id]
  {
    if entries != [] {
      MergedAt(current, entries[..|entries| - 1], id);
    }
  }

  /** Merging keeps every limit non-negative. */
  lemma MergedNonNegative(current: map<string, int>, entries: seq<(string, LimitValue)>)
    requires forall id | id in current :: current[id] >= 0
    ensures forall id | id in Merged(current, entries) :: Merged(current, entries)[id] >= 0
  {
    forall id | id in Merged(current, entries) ensures Merged(current, entries)[id] >= 0 {
      MergedAt(current, entries, id);
    }
  }

  /** Sending the same limits twice leaves them as after the first time. */
  lemma MergedIdempotent(current: map<string, int>, entries: seq<(string, LimitValue)>)
    ensures Merged(Merged(current, entries), entries) == Merged(current, entries)
  {
    var once := Merged(current, entries);
    var twice := Merged(once, entries);
    forall id ensures (id in twice <==> id in once) && (id in twice ==> twice[id] == once[id]) {
      MergedAt(current, entries, id);
      MergedAt(once, entries, id);
    }
  }

  class LimitStore {
    /** The contents of the limits file. */
    var limits: map<string, int>

    constructor (m: map<string, int>)
      ensures limits == m
    {
      limits := m;
    }

    /** `PUT /api/admin/product-limits`. The merge runs over a copy of the stored
        limits; the copy is stored only when the file write succeeds. */
    method Merge(payload: LimitsPayload, writeOk: bool) returns (r: MergeOutcome)
      modifies this
      ensures payload.NotAnObject? ==> r == InvalidPayload && limits == old(limits)
      ensures payload.Entries? && !writeOk ==> r == PersistFailed && limits == old(limits)
      ensures payload.Entries? && writeOk ==>
        limits == Merged(old(limits), payload.entries) && r == Saved(limits)
    {
      if payload.NotAnObject? {
        return InvalidPayload;
      }
      var entries := payload.entries;
      var updated := limits;
      for i := 0 to |entries|
        invariant updated == Merged(limits, entries[..i])
      {
        assert entries[..i + 1][..i] == entries[..i];
        var (id, v) := entries[i];
        if v.Finite? && v.n >= 0 {
          updated := updated[id := v.n];
        }
      }
      assert entries[..|entries|] == entries;
      if !writeOk {
        return PersistFailed;
      }
      limits := updated;
      r := Saved(updated);
    }
  }
}

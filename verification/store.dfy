/** The shared context every command reads and writes: one `int`, exposed
    through the `funcSharedNumber` property of `ClassDecimalProcess`.
    The process-wide singleton becomes an immutable value that is passed
    to each command and returned updated. */
module SharedStore {
  import opened Int32

  datatype Store = Store(sharedNumber: int32) {

    /** The property getter. */
    function Get(): (v: int32)
      ensures this == Store(v)
    {
      sharedNumber
    }

    /** The property setter: any `int` is accepted, without validation. */
    function Set(v: int32): (r: Store)
      ensures r.Get() == v
    {
      Store(v)
    }
  }

  /** The number is all a store holds: a later write replaces an earlier
      one completely, and writing back what was read changes nothing. */
  lemma SetOverwrites(s: Store, v: int32, w: int32)
    ensures s.Set(v).Set(w) == s.Set(w)
    ensures s.Set(s.Get()) == s
  {
  }
}

/**
 The in-memory storage collaborator: a list of raw records that every save
 replaces as a whole.
 */
module Storage {
  import opened Contracts

  class MockStorage {
    /** The stored records, in order. */
    var data: seq<RawHabit>

    /** Starts from `initial`; no list, or an empty one, gives empty storage. */
    constructor (initial: Option<seq<RawHabit>>)
      ensures initial.None? ==> data == []
      ensures initial.Some? ==> data == initial.value
    {
      data := initial.GetOr([]);
    }

    /** A copy of the stored records; the storage itself is left as it was. */
    method LoadHabits() returns (habits: seq<RawHabit>)
      ensures habits == data
    {
      habits := data;
    }

    /** Replaces the stored records by `habits` (not an append). */
    method SaveHabits(habits: seq<RawHabit>)
      modifies this
      ensures data == habits
    {
      data := habits;
    }
  }

  /** Saving and then loading gives back exactly what was saved. */
  method SaveThenLoad(s: MockStorage, habits: seq<RawHabit>) returns (loaded: seq<RawHabit>)
    modifies s
    ensures loaded == habits && s.data == habits
  {
    s.SaveHabits(habits);
    loaded := s.LoadHabits();
  }

  /** After two saves a load sees only the second payload. */
  method LastWriteWins(s: MockStorage, first: seq<RawHabit>, second: seq<RawHabit>)
    returns (loaded: seq<RawHabit>)
    modifies s
    ensures loaded == second
  {
    s.SaveHabits(first);
    s.SaveHabits(second);
    loaded := s.LoadHabits();
  }
}

/**
 The habit store: an in-memory list of habits, the counter that hands out
 the next id, and the storage it loads from and saves the whole list to.
 */
module Habits {
  import opened Contracts
  import opened XpSystem
  import opened Storage

  /** What `MarkDone` reports for a known habit. */
  datatype MarkResult = MarkResult(xpAwarded: nat, levelUps: nat)

  /** The payload a save writes: every habit as a record, in order. */
  function ToRecords(hs: seq<Habit>): (raw: seq<RawHabit>)
    ensures |raw| == |hs|
    ensures forall i :: 0 <= i < |hs| ==> raw[i] == ContractToDict(hs[i])
  {
    seq(|hs|, i requires 0 <= i < |hs| => ContractToDict(hs[i]))
  }

  /** The habits a load builds from stored records, in order. */
  function FromRecords(raw: seq<RawHabit>): (hs: seq<Habit>)
    ensures |hs| == |raw|
    ensures forall i :: 0 <= i < |raw| ==> hs[i] == DictToContract(raw[i])
  {
    seq(|raw|, i requires 0 <= i < |raw| => DictToContract(raw[i]))
  }

  /** Saving a list of habits and loading it again gives the same list. */
  lemma {:induction false} RecordsRoundTrip(hs: seq<Habit>)
    ensures FromRecords(ToRecords(hs)) == hs
  {
    var back := FromRecords(ToRecords(hs));
    assert |back| == |hs|;
    forall i | 0 <= i < |hs|
      ensures back[i] == hs[i]
    {
      ContractRoundTrip(hs[i]);
    }
  }

  /** Every id present is below `n`. */
  predicate IdsBelow(hs: seq<Habit>, n: int)
  {
    forall i :: 0 <= i < |hs| && hs[i].id.Some? ==> hs[i].id.value < n
  }

  /** No two habits share an id (habits without an id are not compared). */
  predicate IdsUnique(hs: seq<Habit>)
  {
    forall i, j :: 0 <= i < j < |hs| && hs[i].id.Some? ==> hs[i].id != hs[j].id
  }

  predicate HasId(hs: seq<Habit>)
  {
    exists i :: 0 <= i < |hs| && hs[i].id.Some?
  }

  /** The ids that are present, in list order. */
  function IdsOf(hs: seq<Habit>): (ids: seq<int>)
    ensures forall i :: 0 <= i < |hs| && hs[i].id.Some? ==> hs[i].id.value in ids
    ensures forall x :: x in ids ==> exists i :: 0 <= i < |hs| && hs[i].id == Some(x)
  {
    if |hs| == 0 then []
    else
      var rest := IdsOf(hs[1..]);
      assert forall x :: x in rest ==> exists i :: 0 <= i < |hs| && hs[i].id == Some(x) by {
        forall x | x in rest
          ensures exists i :: 0 <= i < |hs| && hs[i].id == Some(x)
        {
          var i :| 0 <= i < |hs[1..]| && hs[1..][i].id == Some(x);
          assert hs[i + 1].id == Some(x);
        }
      }
      match hs[0].id
      case Some(x) => [x] + rest
      case None => rest
  }

  /** The largest element of a non-empty list. */
  function MaxOf(s: seq<int>): (m: int)
    requires |s| > 0
    ensures m in s
    ensures forall x :: x in s ==> x <= m
  {
    if |s| == 1 then s[0]
    else
      var m := MaxOf(s[1..]);
      assert s == [s[0]] + s[1..];
      if s[0] >= m then s[0] else m
  }

  /** The counter after a load: one more than the largest id, or 1 when no habit has an id. */
  function NextId(hs: seq<Habit>): (n: int)
    ensures IdsBelow(hs, n)
    ensures HasId(hs) ==> exists i :: 0 <= i < |hs| && hs[i].id == Some(n - 1)
    ensures !HasId(hs) ==> n == 1
  {
    var ids := IdsOf(hs);
    if |ids| == 0 then 1 else MaxOf(ids) + 1
  }

  /** A reload never sets the counter above one the invariant already allowed. */
  lemma NextIdAtMost(hs: seq<Habit>, n: int)
    requires IdsBelow(hs, n) && HasId(hs)
    ensures NextId(hs) <= n
  {
  }

  /** Position of the first habit with id `id`. */
  function IndexOfId(hs: seq<Habit>, id: int): (r: Option<nat>)
    ensures r.Some? ==> r.value < |hs| && hs[r.value].id == Some(id)
    ensures r.Some? ==> forall j :: 0 <= j < r.value ==> hs[j].id != Some(id)
    ensures r.None? ==> forall j :: 0 <= j < |hs| ==> hs[j].id != Some(id)
  {
    if |hs| == 0 then None
    else if hs[0].id == Some(id) then Some(0)
    else
      match IndexOfId(hs[1..], id)
      case Some(k) => Some(k + 1)
      case None => None
  }

  /** Appending a habit that takes the counter's id keeps both id invariants. */
  lemma AppendFreshId(hs: seq<Habit>, n: int, h: Habit)
    requires IdsBelow(hs, n) && h.id == Some(n)
    ensures IdsBelow(hs + [h], n + 1)
    ensures IdsUnique(hs) ==> IdsUnique(hs + [h])
  {
  }

  /** The list without its element at position `k`, the others in order. */
  function RemoveAt(hs: seq<Habit>, k: nat): (r: seq<Habit>)
    requires k < |hs|
    ensures |r| == |hs| - 1
    ensures forall i :: 0 <= i < k ==> r[i] == hs[i]
    ensures forall i :: k <= i < |r| ==> r[i] == hs[i + 1]
  {
    hs[..k] + hs[k + 1..]
  }

  /** Removing one habit keeps both id invariants; with unique ids its id is gone. */
  lemma {:induction false} RemoveAtKeepsIds(hs: seq<Habit>, k: nat, n: int)
    requires k < |hs| && IdsBelow(hs, n)
    ensures IdsBelow(RemoveAt(hs, k), n)
    ensures IdsUnique(hs) ==> IdsUnique(RemoveAt(hs, k))
    ensures IdsUnique(hs) && hs[k].id.Some? ==>
      forall i :: 0 <= i < |hs| - 1 ==> RemoveAt(hs, k)[i].id != hs[k].id
  {
    var r := RemoveAt(hs, k);
    assert forall i :: 0 <= i < |r| ==> r[i] == hs[if i < k then i else i + 1];
  }

  /** No habit before position `k` is called `name`. */
  predicate NoneNamedBefore(hs: seq<Habit>, name: string, k: nat)
    requires k <= |hs|
  {
    forall j :: 0 <= j < k ==> hs[j].name != name
  }

  /** The habit was already completed on `today`: its history ends with it. */
  predicate AlreadyDoneToday(h: Habit, today: string)
  {
    |h.history| > 0 && h.history[|h.history| - 1] == today
  }

  /**
   The habit after a completion on `today`: done, its history ending with
   `today`, the old history kept as a prefix and at most one entry added.
   */
  function Completed(h: Habit, today: string): (c: Habit)
    ensures c.isDoneToday && AlreadyDoneToday(c, today)
    ensures |h.history| <= |c.history| <= |h.history| + 1
    ensures c.history[..|h.history|] == h.history
    ensures c.id == h.id && c.name == h.name && c.description == h.description
    ensures c.frequency == h.frequency && c.createdAt == h.createdAt
  {
    if AlreadyDoneToday(h, today) then h.(isDoneToday := true)
    else h.(isDoneToday := true, history := h.history + [today])
  }

  /** No date follows itself in a history. */
  predicate NoRepeatedDay(history: seq<string>)
  {
    forall i :: 0 < i < |history| ==> history[i - 1] != history[i]
  }

  /** No date occurs twice in a history. */
  predicate NoDuplicates(history: seq<string>)
  {
    forall i, j :: 0 <= i < j < |history| ==> history[i] != history[j]
  }

  /**
   A completion keeps a history free of duplicates when `today` is new to it
   or is already its last entry (as it is when the clock never goes back).
   */
  lemma CompletedNoDuplicates(h: Habit, today: string)
    requires NoDuplicates(h.history)
    requires AlreadyDoneToday(h, today) || today !in h.history
    ensures NoDuplicates(Completed(h, today).history)
  {
  }

  /**
   A completion only sets the flag and appends `today` if it is not already
   the last entry; nothing else about the habit changes.
   */
  lemma CompletedAppendsOnce(h: Habit, today: string)
    ensures var c := Completed(h, today);
      c.isDoneToday && AlreadyDoneToday(c, today) &&
      c.id == h.id && c.name == h.name && c.description == h.description &&
      c.frequency == h.frequency && c.createdAt == h.createdAt &&
      c.history == (if AlreadyDoneToday(h, today) then h.history else h.history + [today])
  {
  }

  /** A second completion on the same day changes nothing. */
  lemma CompletedIdempotent(h: Habit, today: string)
    ensures Completed(Completed(h, today), today) == Completed(h, today)
  {
  }

  /** Completions on two different new days append both dates, in order. */
  lemma CompletedTwoDays(h: Habit, day1: string, day2: string)
    requires !AlreadyDoneToday(h, day1) && day1 != day2
    ensures Completed(Completed(h, day1), day2).history == h.history + [day1, day2]
  {
  }

  /** A completion never puts the same date twice in a row. */
  lemma {:induction false} CompletedNoRepeatedDay(h: Habit, today: string)
    requires NoRepeatedDay(h.history)
    ensures NoRepeatedDay(Completed(h, today).history)
  {
    if !AlreadyDoneToday(h, today) {
      var s := h.history + [today];
      forall i | 0 < i < |s|
        ensures s[i - 1] != s[i]
      {
        if i < |h.history| {
          assert s[i - 1] == h.history[i - 1] && s[i] == h.history[i];
        }
      }
    }
  }

  class HabitManager {
    const storage: MockStorage
    var habits: seq<Habit>
    var nextId: int

    /** The counter is above every id in the store. */
    ghost predicate Valid()
      reads this
    {
      IdsBelow(habits, nextId)
    }

    /** A store over `storage`, filled by a first load. */
    constructor (storage: MockStorage)
      ensures this.storage == storage && storage.data == old(storage.data)
      ensures habits == FromRecords(storage.data) && nextId == NextId(habits)
      ensures Valid()
    {
      this.storage := storage;
      habits := [];
      nextId := 1;
      new;
      Load();
    }

    /** Rebuilds the list from the stored records and recomputes the counter. */
    method Load()
      modifies this
      ensures habits == FromRecords(storage.data) && nextId == NextId(habits)
      ensures Valid()
    {
      var raw := storage.LoadHabits();
      habits := FromRecords(raw);
      nextId := NextId(habits);
    }

    /** Writes the whole list to storage. */
    method Save()
      modifies storage
      ensures storage.data == ToRecords(habits)
    {
      storage.SaveHabits(ToRecords(habits));
    }

    /** Creates a habit with the counter's id, appends it and saves. */
    method AddHabit(now: Timestamp, name: string, description: string := "",
                    frequency: string := DefaultFrequency)
      returns (habit: Habit)
      requires Valid()
      modifies this, storage
      ensures Valid()
      ensures habit == Habit(Some(old(nextId)), name, description, frequency, false, Some(now), [])
      ensures habits == old(habits) + [habit] && nextId == old(nextId) + 1
      ensures forall i :: 0 <= i < |old(habits)| && old(habits)[i].id.Some? ==>
        old(habits)[i].id.value < habit.id.value
      ensures IdsUnique(old(habits)) ==> IdsUnique(habits)
      ensures storage.data == ToRecords(habits)
    {
      habit := Habit(Some(nextId), name, description, frequency, false, Some(now), []);
      AppendFreshId(habits, nextId, habit);
      habits := habits + [habit];
      nextId := nextId + 1;
      Save();
    }

    /**
     Removes the first habit with id `habitId` and saves; reports whether
     there was one. Without one nothing changes and nothing is saved.
     */
    method DeleteHabit(habitId: int) returns (deleted: bool)
      requires Valid()
      modifies this, storage
      ensures Valid() && nextId == old(nextId)
      ensures deleted <==> IndexOfId(old(habits), habitId).Some?
      ensures deleted ==>
        var k := IndexOfId(old(habits), habitId).value;
        habits == RemoveAt(old(habits), k) && storage.data == ToRecords(habits)
      ensures !deleted ==> habits == old(habits) && storage.data == old(storage.data)
      ensures IdsUnique(old(habits)) ==> IdsUnique(habits)
      ensures IdsUnique(old(habits)) ==> forall i :: 0 <= i < |habits| ==> habits[i].id != Some(habitId)
    {
      var i := 0;
      while i < |habits|
        invariant 0 <= i <= |habits|
        invariant habits == old(habits) && storage.data == old(storage.data)
        invariant forall j :: 0 <= j < i ==> habits[j].id != Some(habitId)
      {
        if habits[i].id == Some(habitId) {
          RemoveAtKeepsIds(habits, i, nextId);
          habits := RemoveAt(habits, i);
          Save();
          return true;
        }
        i := i + 1;
      }
      return false;
    }

    /** A snapshot of all habits, in insertion order. */
    method GetAll() returns (all: seq<Habit>)
      ensures all == habits
    {
      all := habits;
    }

    /** The first habit whose name is exactly `name`, if any. */
    method FindByName(name: string) returns (found: Option<Habit>)
      ensures found.Some? ==> found.value.name == name
      ensures found.Some? ==>
        exists k :: 0 <= k < |habits| && habits[k] == found.value && NoneNamedBefore(habits, name, k)
      ensures found.None? ==> NoneNamedBefore(habits, name, |habits|)
    {
      var i := 0;
      while i < |habits|
        invariant 0 <= i <= |habits|
        invariant NoneNamedBefore(habits, name, i)
      {
        if habits[i].name == name {
          return Some(habits[i]);
        }
        i := i + 1;
      }
      return None;
    }

    /**
     Marks the first habit with id `habitId` as done on `today` and saves.
     A first completion that day appends `today` and awards XP; a repeat
     awards nothing. An unknown id changes nothing and saves nothing.
     */
    method MarkDone(today: string, habitId: int, progressAmount: int := 1)
      returns (result: Option<MarkResult>)
      requires Valid()
      modifies this, storage
      ensures Valid() && nextId == old(nextId)
      ensures |habits| == |old(habits)|
      ensures forall i :: 0 <= i < |habits| ==> habits[i].id == old(habits)[i].id
      ensures IndexOfId(old(habits), habitId).None? ==>
        result.None? && habits == old(habits) && storage.data == old(storage.data)
      ensures IndexOfId(old(habits), habitId).Some? ==>
        var k := IndexOfId(old(habits), habitId).value;
        var h := old(habits)[k];
        habits == old(habits)[k := Completed(h, today)] &&
        storage.data == ToRecords(habits) &&
        result == Some(if AlreadyDoneToday(h, today) then MarkResult(0, 0)
                       else MarkResult(CalculateXp(progressAmount), 0))
    {
      var found := IndexOfId(habits, habitId);
      if found.None? {
        return None;
      }
      var k := found.value;
      var habit := habits[k];
      if |habit.history| > 0 && habit.history[|habit.history| - 1] == today {
        habits := habits[k := habit.(isDoneToday := true)];
        Save();
        return Some(MarkResult(0, 0));
      }
      habits := habits[k := habit.(history := habit.history + [today], isDoneToday := true)];
      var xpAmount := CalculateXp(progressAmount);
      Save();
      return Some(MarkResult(xpAmount, 0));
    }
  }

  /** Two adds in a row hand out consecutive, increasing ids. */
  method SuccessiveAdds(m: HabitManager, now: Timestamp, name1: string, name2: string)
    returns (first: Habit, second: Habit)
    requires m.Valid()
    modifies m, m.storage
    ensures m.Valid()
    ensures first.id.Some? && second.id == Some(first.id.value + 1)
    ensures IdsUnique(old(m.habits)) ==> IdsUnique(m.habits)
  {
    first := m.AddHabit(now, name1);
    second := m.AddHabit(now, name2);
  }

  /** Marking a habit done twice on one day records the day once and awards nothing the second time. */
  method MarkDoneTwiceSameDay(m: HabitManager, today: string, habitId: int, progressAmount: int)
    returns (first: Option<MarkResult>, second: Option<MarkResult>)
    requires m.Valid()
    modifies m, m.storage
    ensures m.Valid()
    ensures first.None? <==> IndexOfId(old(m.habits), habitId).None?
    ensures first.Some? ==> second == Some(MarkResult(0, 0))
    ensures first.None? ==> second.None? && m.habits == old(m.habits)
    ensures first.Some? ==>
      var k := IndexOfId(old(m.habits), habitId).value;
      m.habits == old(m.habits)[k := Completed(old(m.habits)[k], today)]
  {
    first := m.MarkDone(today, habitId, progressAmount);
    ghost var afterFirst := m.habits;
    second := m.MarkDone(today, habitId, progressAmount);
    if first.Some? {
      var k := IndexOfId(old(m.habits), habitId).value;
      assert IndexOfId(afterFirst, habitId) == Some(k) by {
        var r := IndexOfId(afterFirst, habitId);
        assert afterFirst[k].id == Some(habitId);
        assert r.Some? && r.value <= k;
        assert old(m.habits)[r.value].id == Some(habitId);
      }
      CompletedIdempotent(old(m.habits)[k], today);
      assert old(m.habits)[k := Completed(old(m.habits)[k], today)] == afterFirst;
    }
  }

  /** A store built on empty storage is empty and starts counting at 1. */
  method OpenEmpty() returns (m: HabitManager)
    ensures m.habits == [] && m.nextId == 1 && m.Valid()
  {
    var storage := new MockStorage(None);
    m := new HabitManager(storage);
  }

  /** A second store opened on the same storage after an add sees the same habits. */
  method AddThenReopen(m: HabitManager, now: Timestamp, name: string) returns (reopened: HabitManager)
    requires m.Valid()
    modifies m, m.storage
    ensures reopened.storage == m.storage
    ensures reopened.habits == m.habits && reopened.nextId <= m.nextId
  {
    var added := m.AddHabit(now, name);
    assert m.habits[|m.habits| - 1] == added;
    reopened := new HabitManager(m.storage);
    RecordsRoundTrip(m.habits);
    NextIdAtMost(m.habits, m.nextId);
  }
}

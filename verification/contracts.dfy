/**
 The habit entity, the raw key-value record that storage adapters exchange,
 and the two conversions between them (the conversion boundary of the habit
 manager).
 */
module Contracts {

  datatype Option<+T> = None | Some(value: T) {
    /** The wrapped value, or `default` when there is none. */
    function GetOr(default: T): T {
      match this
      case Some(v) => v
      case None => default
    }
  }

  /** A creation time, kept as the (non-empty) ISO-8601 text it is stored as. */
  type Timestamp = s: string | |s| > 0 witness "0"

  /** A tracked habit, as the manager holds it in memory. */
  datatype Habit = Habit(
    id: Option<int>,
    name: string,
    description: string,
    frequency: string,
    isDoneToday: bool,
    createdAt: Option<Timestamp>,
    history: seq<string>)

  /**
   A raw stored record. Every key may be absent: `None` stands for a key that
   is missing or whose value is null.
   */
  datatype RawHabit = RawHabit(
    id: Option<int>,
    name: Option<string>,
    description: Option<string>,
    frequency: Option<string>,
    isDoneToday: Option<bool>,
    createdAt: Option<string>,
    history: Option<seq<string>>)

  const DefaultFrequency := "daily"

  /** The record with every key missing. */
  const EmptyRecord := RawHabit(None, None, None, None, None, None, None)

  /** Entity to record: every key is written; a missing creation time is written as null. */
  function ContractToDict(h: Habit): (raw: RawHabit)
    ensures raw.id == h.id
    ensures raw.name == Some(h.name) && raw.description == Some(h.description)
    ensures raw.frequency == Some(h.frequency) && raw.isDoneToday == Some(h.isDoneToday)
    ensures raw.history == Some(h.history)
    ensures raw.createdAt.Some? <==> h.createdAt.Some?
  {
    RawHabit(
      h.id,
      Some(h.name),
      Some(h.description),
      Some(h.frequency),
      Some(h.isDoneToday),
      match h.createdAt
      case Some(t) => Some(t)
      case None => None,
      Some(h.history))
  }

  /** The creation time read from a record: only a present, non-empty text counts. */
  function ParseCreatedAt(text: Option<string>): (t: Option<Timestamp>)
    ensures t.Some? <==> text.Some? && text.value != ""
    ensures t.Some? ==> t.value == text.value
  {
    match text
    case Some(s) => if |s| > 0 then Some(s) else None
    case None => None
  }

  /** Record to entity: every missing key falls back to the entity's default. */
  function DictToContract(data: RawHabit): (h: Habit)
    ensures h.id == data.id
    ensures data.name.None? ==> h.name == ""
    ensures data.description.None? ==> h.description == ""
    ensures data.frequency.None? ==> h.frequency == DefaultFrequency
    ensures data.isDoneToday.None? ==> !h.isDoneToday
    ensures data.history.None? ==> h.history == []
    ensures data.createdAt.None? ==> h.createdAt.None?
    ensures data.name.Some? ==> h.name == data.name.value
    ensures data.description.Some? ==> h.description == data.description.value
    ensures data.frequency.Some? ==> h.frequency == data.frequency.value
    ensures data.isDoneToday.Some? ==> h.isDoneToday == data.isDoneToday.value
    ensures h.createdAt == ParseCreatedAt(data.createdAt)
    ensures data.history.Some? ==> h.history == data.history.value
  {
    Habit(
      data.id,
      data.name.GetOr(""),
      data.description.GetOr(""),
      data.frequency.GetOr(DefaultFrequency),
      data.isDoneToday.GetOr(false),
      ParseCreatedAt(data.createdAt),
      data.history.GetOr([]))
  }

  /** A record with every key missing becomes the default habit. */
  lemma EmptyRecordDefaults()
    ensures DictToContract(EmptyRecord) == Habit(None, "", "", DefaultFrequency, false, None, [])
  {
  }

  /** Writing an entity out and reading it back gives the same entity. */
  lemma ContractRoundTrip(h: Habit)
    ensures DictToContract(ContractToDict(h)) == h
  {
  }

  /** Reading a record and writing it back fills in exactly the missing keys. */
  lemma DictNormalises(data: RawHabit)
    ensures var raw := ContractToDict(DictToContract(data));
      raw.id == data.id &&
      raw.name == Some(data.name.GetOr("")) &&
      raw.description == Some(data.description.GetOr("")) &&
      raw.frequency == Some(data.frequency.GetOr(DefaultFrequency)) &&
      raw.isDoneToday == Some(data.isDoneToday.GetOr(false)) &&
      raw.history == Some(data.history.GetOr([])) &&
      (raw.createdAt.Some? <==> data.createdAt.Some? && data.createdAt.value != "") &&
      (raw.createdAt.Some? ==> raw.createdAt == data.createdAt)
  {
  }
}

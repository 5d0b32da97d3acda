/**
 * `JournalFetcher`: reads the locally saved entries and hands them to its
 * `onData` callback, keeping only those of one calendar day when a date is
 * given. It is a function of the storage contents: the callback receives
 * its result exactly once.
 *
 * `Date.prototype.toDateString` depends on the time zone and locale, so the
 * calendar day of an entry is the parameter `dayOf` (what
 * `new Date(entry.date).toDateString()` gives) and the target day is the
 * string the caller's date turns into.
 */
module JournalFetcher {
  import opened Wrappers
  import Json
  import opened Seqs
  import opened Storage

  datatype Entry = Entry(title: string, text: string, date: string)

  const JournalsKey: string := "journals"

  function FromObject(o: Json.Object): Option<Entry>
  {
    if |o| == 3
       && o[0].0 == "title" && o[0].1.Str?
       && o[1].0 == "text" && o[1].1.Str?
       && o[2].0 == "date" && o[2].1.Str?
    then Some(Entry(o[0].1.s, o[1].1.s, o[2].1.s))
    else None
  }

  function ToObject(e: Entry): (o: Json.Object)
    ensures FromObject(o) == Some(e)
  {
    [("title", Json.Str(e.title)), ("text", Json.Str(e.text)), ("date", Json.Str(e.date))]
  }

  /** The stored text of a list of entries, as `JSON.stringify` writes it. */
  function Serialize(es: seq<Entry>): string
  {
    Json.EncodeRecords(es, ToObject)
  }

  /** `JSON.parse(stored)`; `None` where it throws. */
  function Parse(text: string): Option<seq<Entry>>
  {
    Json.DecodeRecords(text, FromObject)
  }

  /** Whether an entry was written on the given calendar day. */
  function OnDay(dayOf: string -> string, day: string): Entry -> bool
  {
    (e: Entry) => dayOf(e.date) == day
  }

  /**
   * The list passed to `onData`: nothing stored, an empty value or a value
   * that does not parse gives the empty list; otherwise the parsed entries,
   * filtered to `date`'s day when a date is given.
   */
  function Delivered(items: map<string, string>, date: Option<string>, dayOf: string -> string): (r: seq<Entry>)
    ensures JournalsKey !in items ==> r == []
    ensures JournalsKey in items && Parse(items[JournalsKey]).None? ==> r == []
    ensures date.Some? ==> forall i :: 0 <= i < |r| ==> dayOf(r[i].date) == date.value
  {
    var stored := if JournalsKey in items then Some(items[JournalsKey]) else None;
    if !Truthy(stored) then []
    else
      match Parse(stored.value)
      case None => []
      case Some(parsed) =>
        if date.None? then parsed else Filter(OnDay(dayOf, date.value), parsed)
  }

  lemma ParseOfSerialize(es: seq<Entry>)
    ensures Parse(Serialize(es)) == Some(es)
    ensures Serialize(es) != ""
  {
    assert forall e :: FromObject(ToObject(e)) == Some(e);
    Json.DecodeRecordsOfEncoded(es, ToObject, FromObject);
  }

  /** With no date, every stored entry is delivered, in stored order. */
  lemma DeliversAllInOrder(items: map<string, string>, es: seq<Entry>, dayOf: string -> string)
    requires JournalsKey in items && items[JournalsKey] == Serialize(es)
    ensures Delivered(items, None, dayOf) == es
  {
    ParseOfSerialize(es);
  }

  /**
   * With a date, exactly the stored entries of that day are delivered, in
   * stored order (the filter distributes over concatenation), and never
   * more entries than are stored.
   */
  lemma DeliversTheDay(items: map<string, string>, es: seq<Entry>, day: string, dayOf: string -> string)
    requires JournalsKey in items && items[JournalsKey] == Serialize(es)
    ensures var r := Delivered(items, Some(day), dayOf);
            r == Filter(OnDay(dayOf, day), es) && |r| <= |es| &&
            (forall i :: 0 <= i < |r| ==> r[i] in es && dayOf(r[i].date) == day) &&
            (forall i :: 0 <= i < |es| && dayOf(es[i].date) == day ==> es[i] in r)
  {
    ParseOfSerialize(es);
    var r := Delivered(items, Some(day), dayOf);
    forall i | 0 <= i < |es| && dayOf(es[i].date) == day ensures es[i] in r {
      assert OnDay(dayOf, day)(es[i]);
    }
  }

  /**
   * Entries stored before others are delivered before them: a stored list
   * `front + back` delivers the day's entries of `front`, then those of
   * `back`.
   */
  lemma DeliversFrontBeforeBack(items: map<string, string>, front: seq<Entry>, back: seq<Entry>,
                                day: string, dayOf: string -> string)
    requires JournalsKey in items && items[JournalsKey] == Serialize(front + back)
    ensures Delivered(items, Some(day), dayOf) == Delivered(map[JournalsKey := Serialize(front)], Some(day), dayOf) +
                                                  Delivered(map[JournalsKey := Serialize(back)], Some(day), dayOf)
  {
    DeliversTheDay(items, front + back, day, dayOf);
    DeliversTheDay(map[JournalsKey := Serialize(front)], front, day, dayOf);
    DeliversTheDay(map[JournalsKey := Serialize(back)], back, day, dayOf);
    FilterAppend(OnDay(dayOf, day), front, back);
  }
}

/**
 * Webhook event list parsing, as done when the provider is constructed:
 * the comma-separated event list becomes one HookEvent per entry, whose
 * Scope is the event's category (the text before the first ':').
 */
module Events {
  import opened GoStrings

  datatype HookEvent = HookEvent(Scope: string, Event: string)

  /** `strings.Split(entry, ":")[0]`: the event category. */
  function Category(entry: string): string {
    Split(entry, ':')[0]
  }

  /** The records the construction loop appends, in input order. */
  function HookEvents(raw: string): seq<HookEvent> {
    var entries := Split(raw, ',');
    seq(|entries|, i requires 0 <= i < |entries| => HookEvent(Category(entries[i]), entries[i]))
  }

  function EventNames(events: seq<HookEvent>): seq<string> {
    seq(|events|, i requires 0 <= i < |events| => events[i].Event)
  }

  /**
   * The category is the longest prefix of the entry without ':'; it is
   * the whole entry when the entry has no ':'.
   */
  lemma CategoryBeforeFirstColon(entry: string)
    ensures Category(entry) <= entry
    ensures ':' !in Category(entry)
    ensures ':' in entry ==> |Category(entry)| < |entry| && entry[|Category(entry)|] == ':'
    ensures ':' !in entry ==> Category(entry) == entry
  {
    SplitFirstPiece(entry, ':');
  }

  /**
   * One record per comma-separated entry (one more than there are commas),
   * in input order; each record's Event is the entry and its Scope the
   * entry's category. Joining the Event fields with commas gives back the
   * configured list.
   */
  lemma HookEventsShape(raw: string)
    ensures |HookEvents(raw)| == Count(raw, ',') + 1
    ensures forall i :: 0 <= i < |HookEvents(raw)| ==>
      HookEvents(raw)[i].Event == Split(raw, ',')[i] &&
      HookEvents(raw)[i].Scope == Category(Split(raw, ',')[i]) &&
      ',' !in HookEvents(raw)[i].Event
    ensures Join(EventNames(HookEvents(raw)), ",") == raw
  {
    SplitLength(raw, ',');
    assert EventNames(HookEvents(raw)) == Split(raw, ',');
    JoinOfSplit(raw, ',');
  }

  /** A list built by joining comma-free names parses back into those names. */
  lemma HookEventsOfJoin(names: seq<string>)
    requires |names| >= 1
    requires forall i :: 0 <= i < |names| ==> ',' !in names[i]
    ensures EventNames(HookEvents(Join(names, ","))) == names
  {
    SplitOfJoin(names, ',');
  }
}

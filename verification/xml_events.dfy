/** The events of a type (XMLEvents.cs): a member group that also records
    each event's type and accessor methods. A matched event is compared on
    fresh counters, which are written onto the event's element and merged
    partial-to-partial into the group; the event type and the accessors
    are compared only when this group recorded any event type. */
module Events {
  import opened Wrappers
  import opened Tables
  import opened XmlNodes
  import opened Counters
  import opened XmlData
  import opened NameGroup
  import opened Member
  import opened Methods
  import opened Properties

  datatype EventsData = EventsData(
    keys: Table<string, string>,
    member: MemberBase,
    eventTypes: Table<string, string>,
    accessors: Table<string, MethodsData>)

  const NoEvents := EventsData([], NoMember, [], [])

  /** `XMLEvents.LoadExtraData`: `eventtype` when written, the first
      `methods` child as the accessors, then the member data. */
  function LoadEventExtra(s: EventsData, key: string, n: Node, cmp: (string, string) -> int): (r: Result<EventsData>)
    ensures r.Ok? ==> r.value.keys == s.keys
    ensures r.Ok? ==> Get(r.value.eventTypes, key) == (if "eventtype" in n.attrs then Some(n.attrs["eventtype"]) else Get(s.eventTypes, key))
    ensures ChildNamed(n, "methods").None? && r.Ok? ==> r.value.accessors == s.accessors
    ensures ChildNamed(n, "methods").Some? && r.Ok? ==>
      var m := LoadMethods(ChildNamed(n, "methods").value, "methods", cmp);
      m.Ok? && r.value.accessors == Put(s.accessors, key, m.value)
  {
    var eventTypes := if "eventtype" in n.attrs then Put(s.eventTypes, key, n.attrs["eventtype"]) else s.eventTypes;
    var accessors :-
      match ChildNamed(n, "methods")
      case Some(child) =>
        var m :- LoadMethods(child, "methods", cmp);
        Ok(Put(s.accessors, key, m))
      case None => Ok(s.accessors);
    var member :- LoadMemberExtra(s.member, key, n, cmp);
    Ok(EventsData(s.keys, member, eventTypes, accessors))
  }

  function EventStep(cmp: (string, string) -> int): (EventsData, string, Node) -> Result<EventsData> {
    (s: EventsData, name: string, n: Node) => LoadEventExtra(s.(keys := Put(s.keys, name, name)), name, n, cmp)
  }

  /** `XMLNameGroup.LoadData` for an `events` element. */
  function LoadEvents(node: Node, cmp: (string, string) -> int): (r: Result<EventsData>)
    ensures node.name != "events" ==> r == Err(FormatException("Expecting <events>"))
  {
    assert "Expecting <" + "events" + ">" == "Expecting <events>";
    LoadGroup(node, "events", NoEvents, EventStep(cmp))
  }

  /** The event-type warning. */
  function EventTypeWarnings(own: EventsData, other: EventsData, key: string): (r: seq<string>)
    ensures |r| == (if Get(own.eventTypes, key) != Get(other.eventTypes, key) then 1 else 0)
  {
    var etype := Get(own.eventTypes, key);
    var oetype := Get(other.eventTypes, key);
    if etype != oetype then ["Event type is " + Shown(oetype) + " and should be " + Shown(etype)] else []
  }

  /** The part of `XMLEvents.CompareToInner` that runs only when this
      group recorded some event type: the type warning, then the accessors. */
  function TypedEventChecks(own: EventsData, other: EventsData, key: string, node: Node, c: Counters)
    : (r: Result<(Node, Counters)>)
    ensures Get(other.accessors, key).None? ==> r.Ok?
    ensures r.Ok? ==> r.value.1.Warning >= c.Warning + |EventTypeWarnings(own, other, key)|
  {
    var (n, c') := AddWarnings(node, c, EventTypeWarnings(own, other, key));
    CompareAccessors(Get(own.accessors, key), Get(other.accessors, key), n, c')
  }

  /** `XMLEvents.CompareToInner`. When this group recorded no event type it
      returns after the member comparison, and the `finally` block writes
      the counters onto the element a second time. */
  function EventInner(own: EventsData, other: Option<EventsData>, key: string, v: string, node: Node)
    : (r: Result<Outcome>)
    ensures other.None? ==> r == Ok(Outcome(node, Zero))
    ensures r.Ok? ==> WarnedPartialDelta(r.value.delta)
    ensures other.Some? && |own.eventTypes| == 0 ==>
      (r.Ok? <==> AccessWarnings(EventMembers, own.member, other.value.member, key).Ok?)
    ensures r.Ok? && other.Some? && |own.eventTypes| > 0 ==>
      r.value.delta.Warning >= |EventTypeWarnings(own, other.value, key)|
  {
    if other.None? then Ok(Outcome(node, Zero))
    else
      var o := other.value;
      var (n, c) :- MemberInner(EventMembers, own.member, o.member, key, node, Zero);
      var n := AddCountersAttributes(n, c);
      var (n, c) :-
        if |own.eventTypes| == 0 then Ok((n, c))
        else TypedEventChecks(own, o, key, n, c);
      Ok(Outcome(AddCountersAttributes(n, c), PartialDelta(c)))
  }

  /** The accessors of matched events are compared only when this group
      recorded some event type: otherwise an event whose attributes and
      access flags agree adds nothing but its presence, even when the
      accessor methods differ. */
  lemma AccessorsIgnoredWithoutTypes(own: EventsData, other: EventsData, key: string, node: Node)
    requires |own.eventTypes| == 0
    requires Get(own.member.attributeMap, key).None? && Get(other.member.attributeMap, key).None?
    requires Get(own.member.access, key).None?
    ensures EventInner(own, Some(other), key, key, node).Ok?
    ensures EventInner(own, Some(other), key, key, node).value.delta == Zero
  {
    assert AccessWarnings(EventMembers, own.member, other.member, key) == Ok([]);
    var m := MemberInner(EventMembers, own.member, other.member, key, node, Zero);
    assert m.Ok? && m.value.1 == Zero;
  }

  function OtherEventKeys(other: Option<EventsData>): Option<Table<string, string>> {
    if other.Some? then Some(other.value.keys) else None
  }

  function EventItem(own: EventsData, other: Option<EventsData>): (inner: (string, string, Node) -> Result<Outcome>)
    ensures forall k, v, n :: inner(k, v, n).Ok? ==> WarnedPartialDelta(inner(k, v, n).value.delta)
    ensures other.None? ==> forall k, v, n :: inner(k, v, n).Ok?
  {
    (k: string, v: string, n: Node) => EventInner(own, other, k, v, n)
  }

  /** `XMLNameGroup.CompareTo` over two event groups. */
  function CompareEvents(own: EventsData, other: Option<EventsData>, parent: Node): (r: Result<GroupOutcome>)
    ensures other.None? ==> r.Ok?
    ensures r.Ok? ==> WarnedPartialDelta(r.value.innerCounts) && ClassOnly(r.value.classCounts)
    ensures r.Ok? && Distinct(own.keys) && (other.Some? ==> Distinct(other.value.keys)) ==>
      r.value.classCounts == Zero.(
        Present := |Keys(own.keys) * OtherKeys(OtherEventKeys(other))|,
        Missing := |Keys(own.keys) - OtherKeys(OtherEventKeys(other))|,
        Extra := |OtherKeys(OtherEventKeys(other)) - Keys(own.keys)|)
  {
    var inner := EventItem(own, other);
    PartialDeltaClosed();
    CompareGroupInner(WarnedPartialDelta, "events", "event", own.keys, OtherEventKeys(other), KeyName, inner, parent);
    CompareGroup("events", "event", own.keys, OtherEventKeys(other), KeyName, inner, parent)
  }
}

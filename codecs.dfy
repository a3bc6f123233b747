/**
 * The identifier pass of `generate_codecs`: the service and method records
 * loaded from the protocol documents, and the nested loop that writes the
 * request, response and event identifiers into them in place, skipping the
 * services on the target language's ignore list.
 */
module Codecs {
  import opened Outcomes
  import opened TypeNames
  import opened MessageIds
  import opened Names

  /** A request, response or event: its identifier (absent until the pass
      assigns it) and its fields. */
  datatype Message = Message(id: Option<nat>, fields: seq<Field>)

  /** A method record; `events` is `None` when the document has no `events` key. */
  datatype MethodDef = MethodDef(id: nat, name: string, request: Message, response: Message,
                                 events: Option<seq<Message>>)

  /** The `methods` entry of a service document: no such key, a key whose
      value is null, or the list of method records. */
  datatype MethodList = NoMethods | NullMethods | Methods(records: array<MethodDef>)

  datatype Service = Service(id: nat, name: string, methods: MethodList)

  /** Role byte of a message: request 0, response 1, event `i` at `i + 2`. */
  const RequestRole := 0
  const ResponseRole := 1
  function EventRole(i: nat): nat { i + 2 }

  /** The events numbered in declaration order. */
  function NumberEvents(serviceId: nat, methodId: nat, events: seq<Message>): (r: seq<Message>)
    ensures |r| == |events|
    ensures forall i :: 0 <= i < |r| ==> r[i].fields == events[i].fields
  {
    seq(|events|, i requires 0 <= i < |events| =>
      events[i].(id := Some(Id(serviceId, methodId, EventRole(i)))))
  }

  /** A method record after the pass: every message carries its identifier;
      the method's id, name, fields and number of events are unchanged. */
  function WithIds(serviceId: nat, m: MethodDef): (r: MethodDef)
    ensures r.id == m.id && r.name == m.name
    ensures r.request.fields == m.request.fields && r.response.fields == m.response.fields
    ensures r.events.Some? <==> m.events.Some?
    ensures r.events.Some? ==> |r.events.value| == |m.events.value|
  {
    m.(request := m.request.(id := Some(Id(serviceId, m.id, RequestRole))),
       response := m.response.(id := Some(Id(serviceId, m.id, ResponseRole))),
       events := if m.events.None? then None else Some(NumberEvents(serviceId, m.id, m.events.value)))
  }

  /** All method records of one service after the pass. */
  function WithIdsAll(serviceId: nat, ms: seq<MethodDef>): (r: seq<MethodDef>)
    ensures |r| == |ms|
  {
    seq(|ms|, j requires 0 <= j < |ms| => WithIds(serviceId, ms[j]))
  }

  /** The innermost loop `for i in range(len(events))`: numbers the events
      of one method in declaration order. */
  method AssignEventIds(serviceId: nat, methodId: nat, events: seq<Message>) returns (numbered: seq<Message>)
    ensures numbered == NumberEvents(serviceId, methodId, events)
  {
    numbered := events;
    for i := 0 to |numbered|
      invariant |numbered| == |events|
      invariant forall k :: 0 <= k < i ==>
                  numbered[k] == events[k].(id := Some(Id(serviceId, methodId, EventRole(k))))
      invariant forall k :: i <= k < |numbered| ==> numbered[k] == events[k]
    {
      numbered := numbered[i := numbered[i].(id := Some(Id(serviceId, methodId, EventRole(i))))];
    }
  }

  /** The body of the loop over methods: the identifiers of one method's
      request, response and (when present) events. */
  method MethodWithIds(serviceId: nat, m: MethodDef) returns (r: MethodDef)
    ensures r == WithIds(serviceId, m)
  {
    var request := m.request.(id := Some(Id(serviceId, m.id, RequestRole)));
    var response := m.response.(id := Some(Id(serviceId, m.id, ResponseRole)));
    var events := m.events;
    if events.Some? {
      var numbered := AssignEventIds(serviceId, m.id, events.value);
      events := Some(numbered);
    }
    r := m.(request := request, response := response, events := events);
  }

  /** `file_extensions[lang]` for the language the pass is hard-wired to. */
  const Extension := "cpp"

  /** Index of the first method whose codec file name cannot be built
      (`capital` of an empty service or method name raises `IndexError`), or
      the number of methods when every name can be built. */
  function FirstBadName(serviceName: string, ms: seq<MethodDef>): (j: nat)
    ensures j <= |ms|
    ensures j < |ms| ==> serviceName == [] || ms[j].name == []
    ensures forall k :: 0 <= k < j ==> serviceName != [] && ms[k].name != []
  {
    if ms == [] then 0
    else if CodecFileName(serviceName, ms[0].name, Extension).IndexError? then 0
    else
      var j := FirstBadName(serviceName, ms[1..]);
      assert forall k :: 1 <= k < 1 + j ==> ms[k] == ms[1..][k - 1];
      1 + j
  }

  /** How many method records the loop over a service reaches: all of them,
      or up to and including the one whose codec file name fails, since the
      identifiers are written before the name is built. */
  function Visited(serviceName: string, ms: seq<MethodDef>): (n: nat)
    ensures n <= |ms|
    ensures n == |ms| <==> FirstBadName(serviceName, ms) >= |ms| - 1
  {
    var j := FirstBadName(serviceName, ms);
    if j < |ms| then j + 1 else |ms|
  }

  /** The first `n` method records with their identifiers, the rest as they were. */
  function WithIdsUpTo(serviceId: nat, ms: seq<MethodDef>, n: nat): (r: seq<MethodDef>)
    requires n <= |ms|
    ensures |r| == |ms|
  {
    seq(|ms|, k requires 0 <= k < |ms| => if k < n then WithIds(serviceId, ms[k]) else ms[k])
  }

  /** Reaching every record is the full pass over the service. */
  lemma WithIdsUpToAll(serviceId: nat, ms: seq<MethodDef>)
    ensures WithIdsUpTo(serviceId, ms, |ms|) == WithIdsAll(serviceId, ms)
  {
  }

  /** The loop over the methods of one service: writes the identifiers of
      every message of every method record in place, and stops with
      `completed` false at the first method whose codec file name raises
      `IndexError`, after that method's identifiers have been written. */
  method AssignMethodIds(serviceId: nat, serviceName: string, records: array<MethodDef>)
    returns (completed: bool)
    modifies records
    ensures completed <==> FirstBadName(serviceName, old(records[..])) == records.Length
    ensures records[..] == WithIdsUpTo(serviceId, old(records[..]), Visited(serviceName, old(records[..])))
  {
    ghost var original := records[..];
    for j := 0 to records.Length
      invariant j <= FirstBadName(serviceName, original)
      invariant forall k :: 0 <= k < j ==> records[k] == WithIds(serviceId, original[k])
      invariant forall k :: j <= k < records.Length ==> records[k] == original[k]
    {
      var m := MethodWithIds(serviceId, records[j]);
      records[j] := m;
      var fileName := CodecFileName(serviceName, m.name, Extension);
      if fileName.IndexError? {
        assert records[..] == WithIdsUpTo(serviceId, original, j + 1);
        return false;
      }
    }
    assert records[..] == WithIdsUpTo(serviceId, original, records.Length);
    return true;
  }

  /** The pass stops inside service `s`: it is not ignored, and its
      `methods` value is null (iterating over it raises `TypeError`) or one of
      its methods' codec file names raises `IndexError`. */
  predicate Halts(s: Service, ignore: seq<nat>)
    reads if s.methods.Methods? then {s.methods.records} else {}
  {
    s.id !in ignore &&
    (s.methods.NullMethods? ||
     (s.methods.Methods? && FirstBadName(s.name, s.methods.records[..]) < s.methods.records.Length))
  }

  /** The method arrays of all services. */
  function MethodArrays(services: seq<Service>): set<array<MethodDef>> {
    set k | 0 <= k < |services| && services[k].methods.Methods? :: services[k].methods.records
  }

  /** Index of the first service from `n` on at which the pass stops, or the
      number of services. */
  function HaltFrom(services: seq<Service>, ignore: seq<nat>, n: nat): (k: nat)
    requires n <= |services|
    reads MethodArrays(services)
    ensures n <= k <= |services|
    ensures k < |services| ==> Halts(services[k], ignore)
    ensures forall j :: n <= j < k ==> !Halts(services[j], ignore)
    decreases |services| - n
  {
    if n == |services| then n
    else
      assert services[n].methods.Methods? ==> services[n].methods.records in MethodArrays(services);
      if Halts(services[n], ignore) then n else HaltFrom(services, ignore, n + 1)
  }

  /** Index of the first service at which the pass stops, or the number of services. */
  function HaltIndex(services: seq<Service>, ignore: seq<nat>): (k: nat)
    reads MethodArrays(services)
    ensures k <= |services|
    ensures k < |services| ==> Halts(services[k], ignore)
    ensures forall j :: 0 <= j < k ==> !Halts(services[j], ignore)
  {
    HaltFrom(services, ignore, 0)
  }

  /** Different services hold different method lists, as the loader builds
      one record tree per document. */
  predicate DistinctRecords(services: seq<Service>) {
    forall i, j :: 0 <= i < j < |services| && services[i].methods.Methods? && services[j].methods.Methods?
                   ==> services[i].methods.records != services[j].methods.records
  }

  /** The method records of a service after the pass, from the records `ms`
      it held before: untouched when the pass never reaches the service or
      ignores it, otherwise enriched as far as the loop over its methods got. */
  function RecordsAfter(s: Service, ms: seq<MethodDef>, ignore: seq<nat>, reached: bool): seq<MethodDef> {
    if reached && s.id !in ignore then WithIdsUpTo(s.id, ms, Visited(s.name, ms)) else ms
  }

  /** A service the pass gets through gets every method's identifiers. */
  lemma PassedServiceComplete(s: Service, ms: seq<MethodDef>, ignore: seq<nat>)
    requires s.id !in ignore && FirstBadName(s.name, ms) == |ms|
    ensures RecordsAfter(s, ms, ignore, true) == WithIdsAll(s.id, ms)
  {
    WithIdsUpToAll(s.id, ms);
  }

  /** The identifier pass of `generate_codecs` for the language whose ignore
      list is `ignore`: every service up to and including the halting point
      that is not ignored has its records enriched as far as its loop got;
      all other records stay as they were. `completed` is false when the pass
      stopped by raising an exception. */
  method AssignIds(services: seq<Service>, ignore: seq<nat>) returns (completed: bool)
    requires DistinctRecords(services)
    modifies MethodArrays(services)
    ensures completed <==> old(HaltIndex(services, ignore)) == |services|
    ensures forall k :: 0 <= k < |services| && services[k].methods.Methods? ==>
              services[k].methods.records[..] ==
                RecordsAfter(services[k], old(services[k].methods.records[..]), ignore,
                             k <= old(HaltIndex(services, ignore)))
  {
    var n := 0;
    while n < |services|
      invariant n <= |services|
      invariant forall j :: 0 <= j < n ==> !old(Halts(services[j], ignore))
      invariant forall k :: 0 <= k < |services| && services[k].methods.Methods? ==>
                  services[k].methods.records[..] ==
                    RecordsAfter(services[k], old(services[k].methods.records[..]), ignore, k < n)
    {
      var s := services[n];
      assert s.methods.Methods? ==> s.methods.records in MethodArrays(services);
      assert s.methods.Methods? ==> s.methods.records[..] == old(s.methods.records[..]);
      label before:
      var done := AssignServiceIds(s, ignore);
      forall k | 0 <= k < |services| && services[k].methods.Methods?
        ensures services[k].methods.records[..] ==
                  RecordsAfter(services[k], old(services[k].methods.records[..]), ignore, k < n + 1)
      {
        if k != n {
          assert services[k].methods.records[..] == old@before(services[k].methods.records[..]);
        }
      }
      if !done {
        assert old(HaltIndex(services, ignore)) == n;
        return false;
      }
      n := n + 1;
    }
    return true;
  }

  /** The body of the loop over services: skips an ignored service or one
      without `methods`, stops on null `methods`, and otherwise runs the loop
      over the service's methods. `done` is false when the pass stops here. */
  method AssignServiceIds(s: Service, ignore: seq<nat>) returns (done: bool)
    modifies if s.methods.Methods? then {s.methods.records} else {}
    ensures done <==> !old(Halts(s, ignore))
    ensures s.methods.Methods? ==>
              s.methods.records[..] == RecordsAfter(s, old(s.methods.records[..]), ignore, true)
  {
    if s.id in ignore {
      return true;
    }
    match s.methods
    case NoMethods =>
      return true;
    case NullMethods =>
      return false;
    case Methods(records) =>
      done := AssignMethodIds(s.id, s.name, records);
  }

  /** With byte-sized service and method ids and at most 254 events, the
      request gets `service << 16 | method << 8`, the response that value plus
      1, and the `i`-th event that value plus `i + 2`. */
  lemma {:induction false} IdsOfMethod(serviceId: nat, m: MethodDef)
    requires serviceId < 256 && m.id < 256
    requires m.events.Some? ==> |m.events.value| <= 254
    ensures WithIds(serviceId, m).request.id == Some(serviceId * 65536 + m.id * 256)
    ensures WithIds(serviceId, m).response.id == Some(serviceId * 65536 + m.id * 256 + 1)
    ensures m.events.Some? ==>
              forall i :: 0 <= i < |m.events.value| ==>
                WithIds(serviceId, m).events.value[i].id == Some(serviceId * 65536 + m.id * 256 + i + 2)
  {
    IdArithmetic(serviceId, m.id, RequestRole);
    IdArithmetic(serviceId, m.id, ResponseRole);
    if m.events.Some? {
      forall i | 0 <= i < |m.events.value|
        ensures WithIds(serviceId, m).events.value[i].id == Some(serviceId * 65536 + m.id * 256 + i + 2)
      {
        IdArithmetic(serviceId, m.id, EventRole(i));
      }
    }
  }

  /** Running the pass again over records it has already enriched changes nothing. */
  lemma WithIdsIdempotent(serviceId: nat, ms: seq<MethodDef>)
    ensures WithIdsAll(serviceId, WithIdsAll(serviceId, ms)) == WithIdsAll(serviceId, ms)
  {
    var once := WithIdsAll(serviceId, ms);
    forall j | 0 <= j < |ms| ensures WithIds(serviceId, once[j]) == once[j] {
      var m := ms[j];
      if m.events.Some? {
        var e1 := NumberEvents(serviceId, m.id, m.events.value);
        assert NumberEvents(serviceId, m.id, e1) == e1;
      }
    }
  }

  /** The message of `m` with the given role exists. */
  predicate HasRole(m: MethodDef, role: nat) {
    role == RequestRole || role == ResponseRole ||
    (m.events.Some? && 2 <= role < |m.events.value| + 2)
  }

  /** The identifier held by the message of `m` with the given role. */
  function IdAt(m: MethodDef, role: nat): Option<nat>
    requires HasRole(m, role)
  {
    if role == RequestRole then m.request.id
    else if role == ResponseRole then m.response.id
    else m.events.value[role - 2].id
  }

  /** After the pass, the message with a given role holds the identifier of that role. */
  lemma IdAtWithIds(serviceId: nat, m: MethodDef, role: nat)
    requires HasRole(m, role)
    ensures HasRole(WithIds(serviceId, m), role)
    ensures IdAt(WithIds(serviceId, m), role) == Some(Id(serviceId, m.id, role))
  {
    if role >= 2 {
      assert EventRole(role - 2) == role;
    }
  }

  /** Two messages of methods of one service at different (method id, role)
      positions get different identifiers, when the ids fit a byte and each
      method has at most 254 events. */
  lemma DistinctMessageIds(serviceId: nat, m1: MethodDef, r1: nat, m2: MethodDef, r2: nat)
    requires serviceId < 256 && m1.id < 256 && m2.id < 256
    requires m1.events.Some? ==> |m1.events.value| <= 254
    requires m2.events.Some? ==> |m2.events.value| <= 254
    requires HasRole(m1, r1) && HasRole(m2, r2)
    requires m1.id != m2.id || r1 != r2
    ensures HasRole(WithIds(serviceId, m1), r1) && HasRole(WithIds(serviceId, m2), r2)
    ensures IdAt(WithIds(serviceId, m1), r1) != IdAt(WithIds(serviceId, m2), r2)
  {
    IdAtWithIds(serviceId, m1, r1);
    IdAtWithIds(serviceId, m2, r2);
    IdInjective(serviceId, m1.id, r1, serviceId, m2.id, r2);
  }

  /** Within one service, with byte-sized ids, distinct method ids and at most
      254 events per method, no two messages share an identifier after the pass. */
  lemma IdsDistinctInService(serviceId: nat, ms: seq<MethodDef>)
    requires serviceId < 256
    requires forall j :: 0 <= j < |ms| ==> ms[j].id < 256
    requires forall j :: 0 <= j < |ms| && ms[j].events.Some? ==> |ms[j].events.value| <= 254
    requires forall i, j :: 0 <= i < |ms| && 0 <= j < |ms| && i != j ==> ms[i].id != ms[j].id
    ensures forall j1, r1, j2, r2 ::
              0 <= j1 < |ms| && 0 <= j2 < |ms| && HasRole(ms[j1], r1) && HasRole(ms[j2], r2) &&
              (j1 != j2 || r1 != r2)
              ==> IdAt(WithIds(serviceId, ms[j1]), r1) != IdAt(WithIds(serviceId, ms[j2]), r2)
  {
    forall j1, r1, j2, r2 |
      0 <= j1 < |ms| && 0 <= j2 < |ms| && HasRole(ms[j1], r1) && HasRole(ms[j2], r2) &&
      (j1 != j2 || r1 != r2)
      ensures IdAt(WithIds(serviceId, ms[j1]), r1) != IdAt(WithIds(serviceId, ms[j2]), r2)
    {
      DistinctMessageIds(serviceId, ms[j1], r1, ms[j2], r2);
    }
  }
}

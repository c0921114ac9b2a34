/**
 * Semantic events: the only input of the causal-graph builder.
 *
 * An event is a value. Its open payload is reduced to the one field the
 * inference rules read: the `to` agent of a `GOAL_DELEGATED` event.
 * Timestamps are exact reals (seconds).
 */
module Events {

  datatype Option<+T> = None | Some(value: T)

  const GoalDelegated: string := "GOAL_DELEGATED"
  const ReasoningStep: string := "REASONING_STEP"

  datatype Event = Event(
    id: string,
    eventType: string,
    agent: string,
    timestamp: real,
    delegateTo: Option<string>  // payload.get('to'), None when absent
  )

  /** The identifiers of the events of a log. */
  function EventIds(events: seq<Event>): set<string>
  {
    set e | e in events :: e.id
  }

  /** The producer's guarantee: no two events of the log share an id. */
  ghost predicate UniqueIds(events: seq<Event>)
  {
    forall i, j :: 0 <= i < j < |events| ==> events[i].id != events[j].id
  }

  /** No string occurs twice in `s`. */
  ghost predicate Distinct(s: seq<string>)
  {
    forall i, j :: 0 <= i < j < |s| ==> s[i] != s[j]
  }

  /** Linear scan for the first event carrying `id`, or None. */
  function FindEvent(events: seq<Event>, id: string): (r: Option<Event>)
    ensures r.None? <==> id !in EventIds(events)
    ensures r.Some? ==> r.value in events && r.value.id == id
    ensures r.Some? ==> exists k :: 0 <= k < |events| && events[k] == r.value &&
                          forall j :: 0 <= j < k ==> events[j].id != id
  {
    if events == [] then None
    else if events[0].id == id then
      Some(events[0])
    else
      var r := FindEvent(events[1..], id);
      assert EventIds(events) == {events[0].id} + EventIds(events[1..]) by {
        assert forall e :: e in events <==> e == events[0] || e in events[1..];
      }
      if r.Some? then
        var k :| 0 <= k < |events[1..]| && events[1..][k] == r.value &&
                 forall j :: 0 <= j < k ==> events[1..][j].id != id;
        assert events[k + 1] == r.value && forall j :: 0 <= j < k + 1 ==> events[j].id != id;
        r
      else r
  }

  /** With unique ids, the lookup returns the one event carrying that id. */
  lemma FindEventUnique(events: seq<Event>, e: Event)
    requires UniqueIds(events) && e in events
    ensures FindEvent(events, e.id) == Some(e)
  {
    var r := FindEvent(events, e.id);
    var k :| 0 <= k < |events| && events[k] == r.value &&
             forall j :: 0 <= j < k ==> events[j].id != e.id;
    var m :| 0 <= m < |events| && events[m] == e;
    assert events[m].id == events[k].id;
    assert m == k;
  }

  /** The events of one agent, in log order. */
  function EventsOf(events: seq<Event>, agent: string): (r: seq<Event>)
    ensures forall e :: e in r <==> e in events && e.agent == agent
    ensures |r| <= |events|
  {
    if events == [] then []
    else
      var last := events[|events| - 1];
      assert forall e :: e in events <==> e in events[..|events| - 1] || e == last;
      EventsOf(events[..|events| - 1], agent) + (if last.agent == agent then [last] else [])
  }

  /** The distinct agents of a log in order of first appearance (the key order of a Python dict built by one pass). */
  function AgentOrder(events: seq<Event>): (r: seq<string>)
    ensures forall a :: a in r <==> exists e :: e in events && e.agent == a
    ensures forall i, j :: 0 <= i < j < |r| ==> r[i] != r[j]
  {
    if events == [] then []
    else
      var last := events[|events| - 1];
      var prev := AgentOrder(events[..|events| - 1]);
      assert forall e :: e in events <==> e in events[..|events| - 1] || e == last;
      if last.agent in prev then prev else prev + [last.agent]
  }

  ghost predicate SortedByTime(s: seq<Event>)
  {
    forall i, j :: 0 <= i < j < |s| ==> s[i].timestamp <= s[j].timestamp
  }

  /** Inserts `x` in front of the first element not earlier than it. */
  function InsertByTime(x: Event, s: seq<Event>): (r: seq<Event>)
    ensures |r| == |s| + 1
    ensures multiset(r) == multiset(s) + multiset{x}
    ensures forall e :: e in r <==> e == x || e in s
  {
    if s == [] || x.timestamp <= s[0].timestamp then [x] + s
    else
      assert s == [s[0]] + s[1..];
      [s[0]] + InsertByTime(x, s[1..])
  }

  /** Insertion keeps a sorted list sorted. */
  lemma {:induction false} InsertByTimeSorted(x: Event, s: seq<Event>)
    requires SortedByTime(s)
    ensures SortedByTime(InsertByTime(x, s))
    decreases |s|
  {
    var r := InsertByTime(x, s);
    if s == [] || x.timestamp <= s[0].timestamp {
      forall i, j | 0 <= i < j < |r| ensures r[i].timestamp <= r[j].timestamp {
        if i > 0 {
          assert r[i] == s[i - 1] && r[j] == s[j - 1];
        } else if j > 1 {
          assert r[j] == s[j - 1];
        }
      }
    } else {
      var rest := InsertByTime(x, s[1..]);
      InsertByTimeSorted(x, s[1..]);
      assert r == [s[0]] + rest;
      forall i, j | 0 <= i < j < |r| ensures r[i].timestamp <= r[j].timestamp {
        if i > 0 {
          assert r[i] == rest[i - 1] && r[j] == rest[j - 1];
        } else {
          assert r[j] in rest;
        }
      }
    }
  }

  /**
   * Stable sort of events by timestamp (Python's `sorted(..., key=timestamp)`):
   * events with equal timestamps keep their log order.
   */
  function SortByTime(s: seq<Event>): (r: seq<Event>)
    ensures |r| == |s|
    ensures multiset(r) == multiset(s)
    ensures forall e :: e in r <==> e in s
    ensures SortedByTime(r)
  {
    if s == [] then []
    else
      assert s == [s[0]] + s[1..];
      var rest := SortByTime(s[1..]);
      InsertByTimeSorted(s[0], rest);
      InsertByTime(s[0], rest)
  }

  /** The events of `s` stamped exactly `t`, in order. */
  function At(s: seq<Event>, t: real): (r: seq<Event>)
    ensures forall e :: e in r <==> e in s && e.timestamp == t
  {
    if s == [] then []
    else
      assert forall e :: e in s <==> e == s[0] || e in s[1..];
      (if s[0].timestamp == t then [s[0]] else []) + At(s[1..], t)
  }

  lemma {:induction false} InsertByTimeAt(x: Event, s: seq<Event>, t: real)
    ensures At(InsertByTime(x, s), t) == (if x.timestamp == t then [x] else []) + At(s, t)
    decreases |s|
  {
    if s == [] || x.timestamp <= s[0].timestamp {
      assert ([x] + s)[1..] == s;
    } else {
      var rest := InsertByTime(x, s[1..]);
      InsertByTimeAt(x, s[1..], t);
      assert ([s[0]] + rest)[1..] == rest;
      var tail := At(s[1..], t);
      assert At(s, t) == (if s[0].timestamp == t then [s[0]] else []) + tail;
      assert At([s[0]] + rest, t) == (if s[0].timestamp == t then [s[0]] else []) + At(rest, t);
      if x.timestamp == t {
        assert s[0].timestamp != t;
        assert At(rest, t) == [x] + tail;
        assert At(s, t) == tail;
      } else {
        assert At(rest, t) == tail;
      }
    }
  }

  /** Stability: sorting keeps the log order of the events that share a timestamp. */
  lemma {:induction false} SortByTimeStable(s: seq<Event>, t: real)
    ensures At(SortByTime(s), t) == At(s, t)
  {
    if s != [] {
      SortByTimeStable(s[1..], t);
      InsertByTimeAt(s[0], SortByTime(s[1..]), t);
      assert s == [s[0]] + s[1..];
    }
  }

  lemma UniqueIdsCons(x: Event, s: seq<Event>)
    ensures UniqueIds([x] + s) <==> x.id !in EventIds(s) && UniqueIds(s)
  {
    var r := [x] + s;
    if UniqueIds(r) {
      forall i, j | 0 <= i < j < |s| ensures s[i].id != s[j].id {
        assert r[i + 1] == s[i] && r[j + 1] == s[j];
      }
      forall e | e in s ensures e.id != x.id {
        var k :| 0 <= k < |s| && s[k] == e;
        assert r[0] == x && r[k + 1] == e;
      }
    }
    if x.id !in EventIds(s) && UniqueIds(s) {
      forall i, j | 0 <= i < j < |r| ensures r[i].id != r[j].id {
        if i == 0 {
          assert r[j] == s[j - 1];
          assert s[j - 1] in s;
        } else {
          assert r[i] == s[i - 1] && r[j] == s[j - 1];
        }
      }
    }
  }

  lemma UniqueIdsSnoc(s: seq<Event>, x: Event)
    ensures UniqueIds(s + [x]) <==> x.id !in EventIds(s) && UniqueIds(s)
  {
    var r := s + [x];
    if UniqueIds(r) {
      forall i, j | 0 <= i < j < |s| ensures s[i].id != s[j].id {
        assert r[i] == s[i] && r[j] == s[j];
      }
      forall e | e in s ensures e.id != x.id {
        var k :| 0 <= k < |s| && s[k] == e;
        assert r[k] == e && r[|s|] == x;
      }
    }
    if x.id !in EventIds(s) && UniqueIds(s) {
      forall i, j | 0 <= i < j < |r| ensures r[i].id != r[j].id {
        if j == |s| {
          assert r[i] == s[i] && s[i] in s;
        } else {
          assert r[i] == s[i] && r[j] == s[j];
        }
      }
    }
  }

  lemma {:induction false} EventsOfUnique(events: seq<Event>, agent: string)
    requires UniqueIds(events)
    ensures UniqueIds(EventsOf(events, agent))
  {
    if events != [] {
      var n := |events| - 1;
      var prefix := events[..n];
      assert events == prefix + [events[n]];
      UniqueIdsSnoc(prefix, events[n]);
      EventsOfUnique(prefix, agent);
      if events[n].agent == agent {
        UniqueIdsSnoc(EventsOf(prefix, agent), events[n]);
      }
    }
  }

  lemma {:induction false} InsertByTimeUnique(x: Event, s: seq<Event>)
    requires UniqueIds(s) && x.id !in EventIds(s)
    ensures UniqueIds(InsertByTime(x, s))
  {
    if s == [] || x.timestamp <= s[0].timestamp {
      UniqueIdsCons(x, s);
    } else {
      assert s == [s[0]] + s[1..];
      UniqueIdsCons(s[0], s[1..]);
      InsertByTimeUnique(x, s[1..]);
      assert s[0] in s;
      UniqueIdsCons(s[0], InsertByTime(x, s[1..]));
    }
  }

  lemma {:induction false} SortByTimeUnique(s: seq<Event>)
    requires UniqueIds(s)
    ensures UniqueIds(SortByTime(s))
  {
    if s != [] {
      assert s == [s[0]] + s[1..];
      UniqueIdsCons(s[0], s[1..]);
      SortByTimeUnique(s[1..]);
      assert EventIds(SortByTime(s[1..])) == EventIds(s[1..]);
      InsertByTimeUnique(s[0], SortByTime(s[1..]));
    }
  }

  /** The first position of `id` in `s`, or |s| when absent. */
  function IndexOfId(s: seq<Event>, id: string): (k: nat)
    ensures k <= |s|
    ensures k < |s| ==> s[k].id == id
    ensures forall j :: 0 <= j < k ==> s[j].id != id
  {
    if s == [] then 0
    else if s[0].id == id then 0
    else 1 + IndexOfId(s[1..], id)
  }

  lemma IndexOfIdUnique(s: seq<Event>, i: nat)
    requires UniqueIds(s) && i < |s|
    ensures IndexOfId(s, s[i].id) == i
  {
    var k := IndexOfId(s, s[i].id);
    assert k <= i;
    assert s[k].id == s[i].id;
  }
}

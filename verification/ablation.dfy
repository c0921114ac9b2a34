/**
 * The ablation study over a given event log: for each event type present,
 * in sorted order, drop that type, rebuild, and measure the fraction of the
 * baseline edges recovered; then split the types into essential (recovery
 * below 80%) and optional.
 */
module Ablation {
  import opened Events
  import opened Graph
  import opened CausalDag
  import opened Rules
  import opened DagBuilder

  // ----- Python's string order -----

  /** Lexicographic order by code point (Python's `<` on `str`). */
  predicate StrLess(a: string, b: string)
  {
    if a == [] then b != []
    else if b == [] then false
    else if a[0] != b[0] then a[0] < b[0]
    else StrLess(a[1..], b[1..])
  }

  lemma {:induction false} StrLessIrreflexive(a: string)
    ensures !StrLess(a, a)
  {
    if a != [] {
      StrLessIrreflexive(a[1..]);
    }
  }

  lemma {:induction false} StrLessTrans(a: string, b: string, c: string)
    requires StrLess(a, b) && StrLess(b, c)
    ensures StrLess(a, c)
  {
    if a != [] && b != [] && c != [] && a[0] == b[0] && b[0] == c[0] {
      StrLessTrans(a[1..], b[1..], c[1..]);
    }
  }

  lemma {:induction false} StrLessTotal(a: string, b: string)
    requires a != b
    ensures StrLess(a, b) || StrLess(b, a)
  {
    if a != [] && b != [] && a[0] == b[0] {
      assert a == [a[0]] + a[1..] && b == [b[0]] + b[1..];
      StrLessTotal(a[1..], b[1..]);
    }
  }

  ghost predicate StrictlySorted(s: seq<string>)
  {
    forall i, j :: 0 <= i < j < |s| ==> StrLess(s[i], s[j])
  }

  /** Inserts `x` in front of the first element above it. */
  function InsertStr(x: string, s: seq<string>): (r: seq<string>)
    ensures forall y :: y in r <==> y == x || y in s
    ensures |r| == |s| + 1
  {
    if s == [] || StrLess(x, s[0]) then [x] + s
    else [s[0]] + InsertStr(x, s[1..])
  }

  lemma {:induction false} InsertStrSorted(x: string, s: seq<string>)
    requires StrictlySorted(s) && x !in s
    ensures StrictlySorted(InsertStr(x, s))
  {
    var r := InsertStr(x, s);
    if s == [] || StrLess(x, s[0]) {
      forall i, j | 0 <= i < j < |r| ensures StrLess(r[i], r[j]) {
        if i == 0 && j > 1 {
          StrLessTrans(x, s[0], s[j - 1]);
        } else if i > 0 {
          assert r[i] == s[i - 1] && r[j] == s[j - 1];
        }
      }
    } else {
      assert s[0] in s;
      StrLessTotal(x, s[0]);
      var rest := InsertStr(x, s[1..]);
      assert StrictlySorted(s[1..]) by {
        forall i, j | 0 <= i < j < |s[1..]| ensures StrLess(s[1..][i], s[1..][j]) {
          assert s[1..][i] == s[i + 1] && s[1..][j] == s[j + 1];
        }
      }
      assert x !in s[1..];
      InsertStrSorted(x, s[1..]);
      forall i, j | 0 <= i < j < |r| ensures StrLess(r[i], r[j]) {
        if i == 0 {
          var y := rest[j - 1];
          assert y in rest;
          if y != x {
            var k :| 0 <= k < |s[1..]| && s[1..][k] == y;
            assert s[k + 1] == y;
          }
        } else {
          assert r[i] == rest[i - 1] && r[j] == rest[j - 1];
        }
      }
    }
  }

  /** `sorted(...)` of distinct strings. */
  function SortStrs(s: seq<string>): (r: seq<string>)
    ensures forall y :: y in r <==> y in s
    ensures |r| == |s|
  {
    if s == [] then [] else InsertStr(s[0], SortStrs(s[1..]))
  }

  lemma {:induction false} SortStrsSorted(s: seq<string>)
    requires Distinct(s)
    ensures StrictlySorted(SortStrs(s))
  {
    if s != [] {
      assert Distinct(s[1..]) by {
        forall i, j | 0 <= i < j < |s[1..]| ensures s[1..][i] != s[1..][j] {
          assert s[1..][i] == s[i + 1] && s[1..][j] == s[j + 1];
        }
      }
      SortStrsSorted(s[1..]);
      assert s[0] !in s[1..] by {
        forall k | 0 <= k < |s[1..]| ensures s[1..][k] != s[0] {
          assert s[1..][k] == s[k + 1];
        }
      }
      InsertStrSorted(s[0], SortStrs(s[1..]));
    }
  }

  /** The distinct event types of a log, in order of first appearance. */
  function TypesOf(events: seq<Event>): (r: seq<string>)
    ensures forall t :: t in r <==> exists e :: e in events && e.eventType == t
    ensures Distinct(r)
  {
    if events == [] then []
    else
      var last := events[|events| - 1];
      var prev := TypesOf(events[..|events| - 1]);
      assert forall e :: e in events <==> e in events[..|events| - 1] || e == last;
      if last.eventType in prev then prev else prev + [last.eventType]
  }

  /** `sorted(set(e['event_type'] for e in all_events))`. */
  function SortedTypes(events: seq<Event>): seq<string>
  {
    SortStrs(TypesOf(events))
  }

  /** The event types present, each once, in increasing string order. */
  lemma SortedTypesSpec(events: seq<Event>)
    ensures forall t :: t in SortedTypes(events) <==> exists e :: e in events && e.eventType == t
    ensures StrictlySorted(SortedTypes(events))
  {
    SortStrsSorted(TypesOf(events));
  }

  // ----- Filtering and recovery -----

  /** The log without the events of type `t`, the rest in their original order. */
  function WithoutType(events: seq<Event>, t: string): (r: seq<Event>)
    ensures |r| <= |events|
  {
    if events == [] then []
    else
      var n := |events| - 1;
      WithoutType(events[..n], t) + (if events[n].eventType != t then [events[n]] else [])
  }

  /** The kept events are exactly the events of another type. */
  lemma {:induction false} WithoutTypeMembers(events: seq<Event>, t: string)
    ensures forall e :: e in WithoutType(events, t) <==> e in events && e.eventType != t
  {
    if events != [] {
      var n := |events| - 1;
      WithoutTypeMembers(events[..n], t);
      assert forall e :: e in events <==> e in events[..n] || e == events[n];
    }
  }

  /** Dropping a type that occurs makes the log strictly shorter. */
  lemma {:induction false} WithoutTypeShorter(events: seq<Event>, t: string, e: Event)
    requires e in events && e.eventType == t
    ensures |WithoutType(events, t)| < |events|
  {
    var n := |events| - 1;
    if events[n] != e {
      assert e in events[..n];
      WithoutTypeShorter(events[..n], t, e);
    }
  }

  /** Filtering distributes over concatenation: the relative order of the kept events is unchanged. */
  lemma {:induction false} WithoutTypeAppend(a: seq<Event>, b: seq<Event>, t: string)
    ensures WithoutType(a + b, t) == WithoutType(a, t) + WithoutType(b, t)
    decreases |b|
  {
    if b == [] {
      assert a + b == a;
    } else {
      var n := |b| - 1;
      WithoutTypeAppend(a, b[..n], t);
      var ab := a + b;
      assert ab[..|ab| - 1] == a + b[..n] && ab[|ab| - 1] == b[n];
      var last := if b[n].eventType != t then [b[n]] else [];
      assert WithoutType(ab, t) == WithoutType(a + b[..n], t) + last;
      assert WithoutType(b, t) == WithoutType(b[..n], t) + last;
    }
  }

  /** A count below the total makes a ratio in [0, 1). */
  lemma RatioBelowOne(part: nat, total: nat)
    requires part < total
    ensures 0.0 <= part as real / total as real < 1.0
  {
    var q := part as real / total as real;
    assert q * total as real == part as real;
  }

  /** `recovered / baseline_num_edges`, or 1.0 for an empty baseline. */
  function RecoveredAccuracy(rebuilt: set<Pair>, baseline: set<Pair>): (r: real)
    ensures 0.0 <= r <= 1.0
    ensures r == 1.0 <==> baseline <= rebuilt
  {
    if |baseline| > 0 then
      var recovered := |rebuilt * baseline|;
      SubsetCard(rebuilt * baseline, baseline);
      if baseline <= rebuilt then
        assert rebuilt * baseline == baseline;
        1.0
      else
        var x :| x in baseline && x !in rebuilt;
        SubsetCard(rebuilt * baseline, baseline - {x});
        RatioBelowOne(recovered, |baseline|);
        recovered as real / |baseline| as real
    else 1.0
  }

  // ----- The study -----

  /** One row of the results table; `removedType` is None for the baseline. */
  datatype AblationResult = AblationResult(removedType: Option<string>, numEvents: nat, numEdges: nat, accuracy: real)

  /** The row for dropping type `t`, if any events remain. */
  ghost function AblatedRow(all: seq<Event>, t: string): seq<AblationResult>
  {
    var filtered := WithoutType(all, t);
    if filtered == [] then []
    else
      var edges := BuildSpec(filtered).Keys;
      [AblationResult(Some(t), |filtered|, |edges|, RecoveredAccuracy(edges, BuildSpec(all).Keys))]
  }

  ghost function AblatedRows(all: seq<Event>, types: seq<string>): seq<AblationResult>
  {
    if types == [] then []
    else AblatedRows(all, types[..|types| - 1]) + AblatedRow(all, types[|types| - 1])
  }

  lemma AblatedRowsSnoc(all: seq<Event>, types: seq<string>, k: nat)
    requires k < |types|
    ensures AblatedRows(all, types[..k + 1]) == AblatedRows(all, types[..k]) + AblatedRow(all, types[k])
  {
    assert types[..k + 1][..k] == types[..k];
  }

  /** What every ablated row promises. */
  ghost predicate RowFacts(all: seq<Event>, types: seq<string>, r: AblationResult)
  {
    && r.removedType.Some? && r.removedType.value in types
    && 0 < r.numEvents < |all|
    && 0.0 <= r.accuracy <= 1.0
  }

  /** The row for a present type, if any, names that type, keeps some but not all events, and scores within [0, 1]. */
  lemma AblatedRowFacts(all: seq<Event>, t: string, e: Event)
    requires e in all && e.eventType == t
    ensures |AblatedRow(all, t)| <= 1
    ensures forall r :: r in AblatedRow(all, t) ==>
              r.removedType == Some(t) && 0 < r.numEvents < |all| && 0.0 <= r.accuracy <= 1.0
  {
    WithoutTypeShorter(all, t, e);
  }

  lemma {:induction false} AblatedRowsFacts(all: seq<Event>, types: seq<string>)
    requires forall t :: t in types ==> exists e :: e in all && e.eventType == t
    ensures |AblatedRows(all, types)| <= |types|
    ensures forall r :: r in AblatedRows(all, types) ==> RowFacts(all, types, r)
  {
    if types != [] {
      var n := |types| - 1;
      var t := types[n];
      assert forall t :: t in types[..n] ==> t in types;
      AblatedRowsFacts(all, types[..n]);
      assert t in types;
      var e :| e in all && e.eventType == t;
      AblatedRowFacts(all, t, e);
      var before := AblatedRows(all, types[..n]);
      var row := AblatedRow(all, t);
      assert AblatedRows(all, types) == before + row;
      forall r | r in before + row ensures RowFacts(all, types, r) {
        if r in before {
          assert RowFacts(all, types[..n], r);
        }
      }
    }
  }

  /**
   * The baseline row, then one row per present type in sorted order whose
   * removal leaves events, with the fraction of baseline edges recovered.
   */
  method Ablate(all: seq<Event>) returns (results: seq<AblationResult>)
    ensures |results| >= 1
    ensures results[0] == AblationResult(None, |all|, |BuildSpec(all).Keys|, 1.0)
    ensures results[1..] == AblatedRows(all, SortedTypes(all))
    ensures forall i :: 1 <= i < |results| ==> RowFacts(all, SortedTypes(all), results[i])
  {
    var baseline := Build(all);
    var baselineEdges := baseline.edges;
    results := [AblationResult(None, |all|, |baselineEdges|, 1.0)];
    results := AblateTypes(all, SortedTypes(all), baselineEdges, results);
    AblateFacts(all, results);
  }

  /** The `for remove_type in sorted(event_types)` loop, appending one row per type that leaves events. */
  method AblateTypes(all: seq<Event>, types: seq<string>, baselineEdges: set<Pair>, results: seq<AblationResult>)
    returns (results': seq<AblationResult>)
    requires baselineEdges == BuildSpec(all).Keys
    ensures results' == results + AblatedRows(all, types)
  {
    results' := results;
    for k := 0 to |types|
      invariant results' == results + AblatedRows(all, types[..k])
    {
      results' := AblateNext(all, types, k, baselineEdges, results, results');
    }
    assert types[..|types|] == types;
  }

  /** One turn of the loop: the rows so far extended by the row for `types[k]`. */
  method AblateNext(all: seq<Event>, types: seq<string>, k: nat, baselineEdges: set<Pair>,
                    results: seq<AblationResult>, sofar: seq<AblationResult>)
    returns (next: seq<AblationResult>)
    requires baselineEdges == BuildSpec(all).Keys
    requires k < |types| && sofar == results + AblatedRows(all, types[..k])
    ensures next == results + AblatedRows(all, types[..k + 1])
  {
    var rows := AblateType(all, types[k], baselineEdges);
    AblatedRowsSnoc(all, types, k);
    next := sofar + rows;
  }

  /** One iteration: drop type `t`; when events remain, rebuild and score against the baseline edges. */
  method AblateType(all: seq<Event>, t: string, baselineEdges: set<Pair>) returns (rows: seq<AblationResult>)
    requires baselineEdges == BuildSpec(all).Keys
    ensures rows == AblatedRow(all, t)
  {
    var filtered := WithoutType(all, t);
    if filtered == [] {
      return [];
    }
    var dag := Build(filtered);
    var accuracy := RecoveredAccuracy(dag.edges, baselineEdges);
    rows := [AblationResult(Some(t), |filtered|, |dag.edges|, accuracy)];
  }

  lemma AblateFacts(all: seq<Event>, results: seq<AblationResult>)
    requires |results| >= 1 && results[1..] == AblatedRows(all, SortedTypes(all))
    ensures forall i :: 1 <= i < |results| ==> RowFacts(all, SortedTypes(all), results[i])
  {
    SortedTypesSpec(all);
    AblatedRowsFacts(all, SortedTypes(all));
    forall i | 1 <= i < |results| ensures RowFacts(all, SortedTypes(all), results[i]) {
      assert results[i] in results[1..];
    }
  }

  /** An essential type and how far its removal drops accuracy. */
  datatype Essential = Essential(removedType: Option<string>, accuracyDrop: real)
  /** An optional type and the accuracy kept without it. */
  datatype Optional = Optional(removedType: Option<string>, accuracy: real)

  /** Recovery below this fraction marks a type as essential. */
  const EssentialThreshold: real := 0.8

  function EssentialOf(baselineAccuracy: real, rows: seq<AblationResult>): seq<Essential>
  {
    if rows == [] then []
    else
      var r := rows[|rows| - 1];
      EssentialOf(baselineAccuracy, rows[..|rows| - 1]) +
        if r.accuracy < EssentialThreshold then [Essential(r.removedType, baselineAccuracy - r.accuracy)] else []
  }

  function OptionalOf(rows: seq<AblationResult>): seq<Optional>
  {
    if rows == [] then []
    else
      var r := rows[|rows| - 1];
      OptionalOf(rows[..|rows| - 1]) + if r.accuracy < EssentialThreshold then [] else [Optional(r.removedType, r.accuracy)]
  }

  /** The interpretation loop: each non-baseline row goes to exactly one list. */
  method Classify(results: seq<AblationResult>) returns (essential: seq<Essential>, optional: seq<Optional>)
    requires |results| >= 1
    ensures essential == EssentialOf(results[0].accuracy, results[1..])
    ensures optional == OptionalOf(results[1..])
    ensures |essential| + |optional| == |results| - 1
  {
    var baselineAccuracy := results[0].accuracy;
    var rows := results[1..];
    essential, optional := [], [];
    for i := 0 to |rows|
      invariant essential == EssentialOf(baselineAccuracy, rows[..i])
      invariant optional == OptionalOf(rows[..i])
      invariant |essential| + |optional| == i
    {
      assert rows[..i + 1][..i] == rows[..i];
      var r := rows[i];
      if r.accuracy < EssentialThreshold {
        essential := essential + [Essential(r.removedType, baselineAccuracy - r.accuracy)];
      } else {
        optional := optional + [Optional(r.removedType, r.accuracy)];
      }
    }
    assert rows[..|rows|] == rows;
  }

  /** Each row lands in the list its accuracy selects; with the baseline at 1.0, an essential type drops accuracy by more than 0.2. */
  lemma {:induction false} ClassifySplits(rows: seq<AblationResult>)
    ensures forall r :: r in rows && r.accuracy < EssentialThreshold ==> Essential(r.removedType, 1.0 - r.accuracy) in EssentialOf(1.0, rows)
    ensures forall r :: r in rows && r.accuracy >= EssentialThreshold ==> Optional(r.removedType, r.accuracy) in OptionalOf(rows)
    ensures forall x :: x in EssentialOf(1.0, rows) ==> x.accuracyDrop > 1.0 - EssentialThreshold
    ensures forall x :: x in OptionalOf(rows) ==> x.accuracy >= EssentialThreshold
  {
    if rows != [] {
      var n := |rows| - 1;
      ClassifySplits(rows[..n]);
      assert forall r :: r in rows <==> r in rows[..n] || r == rows[n];
    }
  }

  /** The modelled part of `run_ablation_study`: the results table and the essential / optional split. */
  method RunAblationStudy(all: seq<Event>) returns (results: seq<AblationResult>, essential: seq<Essential>, optional: seq<Optional>)
    ensures |results| >= 1
    ensures results[0] == AblationResult(None, |all|, |BuildSpec(all).Keys|, 1.0)
    ensures results[1..] == AblatedRows(all, SortedTypes(all))
    ensures forall i :: 1 <= i < |results| ==> RowFacts(all, SortedTypes(all), results[i])
    ensures essential == EssentialOf(1.0, results[1..]) && optional == OptionalOf(results[1..])
    ensures forall x :: x in essential ==> x.accuracyDrop > 1.0 - EssentialThreshold
  {
    results := Ablate(all);
    essential, optional := Classify(results);
    ClassifySplits(results[1..]);
  }
}

/** `deduplicate_events` (src/analysis/deduplicator.py): a streaming filter
    that keeps an event unless its payload string is close, by fuzzy ratio,
    to the string of a payload already kept. */
module Deduplicator {
  import opened JsonValue
  import opened Wrappers
  import opened Sequences
  import opened Fuzz

  /** An event is a dict; only its `request_body` is read. */
  type Event = seq<(string, Json)>

  /** `event.get('request_body', {})` */
  function Body(e: Event): (p: Json)
    ensures Get(e, "request_body").None? ==> p == Object([])
    ensures Get(e, "request_body").Some? ==> p == Get(e, "request_body").value
  {
    Get(e, "request_body").GetOr(Object([]))
  }

  /** The `str()` form of an event's payload, as kept in `seen_payloads`. */
  function PayloadStr(e: Event): string {
    Str(Body(e))
  }

  /** `calculate_similarity`, given the `str()` forms of both payloads (the
      `str()` of a string is the string itself): the fuzzy ratio scaled to
      [0, 1]. */
  function CalculateSimilarity(ratio: Ratio, str1: string, str2: string): (r: real)
    ensures 0.0 <= r <= 1.0
    ensures r == 1.0 <==> ratio(str1, str2) == 100
  {
    ratio(str1, str2) as real / 100.0
  }

  /** `s` is similar to some string in `seen`. */
  predicate Similar(ratio: Ratio, threshold: real, seen: set<string>, s: string) {
    exists q :: q in seen && CalculateSimilarity(ratio, s, q) >= threshold
  }

  /** The kept events and the seen payload strings after the first `n`
      events. */
  function Pass(events: seq<Event>, ratio: Ratio, threshold: real, n: nat): (seq<Event>, set<string>)
    requires n <= |events|
  {
    if n == 0 then ([], {})
    else
      var (kept, seen) := Pass(events, ratio, threshold, n - 1);
      var s := PayloadStr(events[n - 1]);
      if Similar(ratio, threshold, seen, s) then (kept, seen)
      else (kept + [events[n - 1]], seen + {s})
  }

  function Deduplicated(events: seq<Event>, ratio: Ratio, threshold: real): seq<Event> {
    Pass(events, ratio, threshold, |events|).0
  }

  method DeduplicateEvents(events: seq<Event>, ratio: Ratio, similarityThreshold: real := 0.8)
    returns (deduplicatedEvents: seq<Event>)
    ensures deduplicatedEvents == Deduplicated(events, ratio, similarityThreshold)
  {
    deduplicatedEvents := [];
    var seenPayloads: set<string> := {};
    for i := 0 to |events|
      invariant (deduplicatedEvents, seenPayloads) == Pass(events, ratio, similarityThreshold, i)
    {
      var payloadStr := PayloadStr(events[i]);
      var isSimilar := AnySimilar(ratio, similarityThreshold, seenPayloads, payloadStr);
      if !isSimilar {
        deduplicatedEvents := deduplicatedEvents + [events[i]];
        seenPayloads := seenPayloads + {payloadStr};
      }
    }
  }

  /** The inner loop over `seen_payloads`, in whatever order the set yields
      them, stopping at the first similar one. */
  method AnySimilar(ratio: Ratio, threshold: real, seen: set<string>, s: string) returns (isSimilar: bool)
    ensures isSimilar == Similar(ratio, threshold, seen, s)
  {
    var unvisited := seen;
    while unvisited != {}
      invariant unvisited <= seen
      invariant forall q :: q in seen - unvisited ==> CalculateSimilarity(ratio, s, q) < threshold
      decreases |unvisited|
    {
      var q :| q in unvisited;
      if CalculateSimilarity(ratio, s, q) >= threshold {
        return true;
      }
      unvisited := unvisited - {q};
    }
    assert seen - unvisited == seen;
    return false;
  }

  function Strs(kept: seq<Event>): set<string> {
    set e | e in kept :: PayloadStr(e)
  }

  /** After each step the seen set holds exactly the payload strings of the
      kept events, and the kept events are a subsequence of the input. */
  lemma {:induction false} PassInvariant(events: seq<Event>, ratio: Ratio, threshold: real, n: nat)
    requires n <= |events|
    ensures Pass(events, ratio, threshold, n).1 == Strs(Pass(events, ratio, threshold, n).0)
    ensures IsSubseq(Pass(events, ratio, threshold, n).0, events[..n])
  {
    if n == 0 {
      EmptySubseq(events[..0]);
    } else {
      PassInvariant(events, ratio, threshold, n - 1);
      var (kept, seen) := Pass(events, ratio, threshold, n - 1);
      var e := events[n - 1];
      assert events[..n] == events[..n - 1] + [e];
      if Similar(ratio, threshold, seen, PayloadStr(e)) {
        SubseqSkip(kept, events[..n - 1], e);
      } else {
        SubseqTake(kept, events[..n - 1], e);
        assert Strs(kept + [e]) == Strs(kept) + {PayloadStr(e)};
      }
    }
  }

  /** The result keeps input order and the first event is always kept. */
  lemma DeduplicatedShape(events: seq<Event>, ratio: Ratio, threshold: real)
    ensures IsSubseq(Deduplicated(events, ratio, threshold), events)
    ensures |Deduplicated(events, ratio, threshold)| <= |events|
    ensures |events| > 0 ==>
      |Deduplicated(events, ratio, threshold)| > 0 && Deduplicated(events, ratio, threshold)[0] == events[0]
  {
    PassInvariant(events, ratio, threshold, |events|);
    assert events[..|events|] == events;
    SubseqLength(Deduplicated(events, ratio, threshold), events);
    if |events| > 0 {
      FirstKept(events, ratio, threshold, |events|);
    }
  }

  lemma {:induction false} FirstKept(events: seq<Event>, ratio: Ratio, threshold: real, n: nat)
    requires 0 < n <= |events|
    ensures |Pass(events, ratio, threshold, n).0| > 0 && Pass(events, ratio, threshold, n).0[0] == events[0]
  {
    if n > 1 {
      FirstKept(events, ratio, threshold, n - 1);
    }
  }

  /** Step `i` drops event `i` exactly when its payload string is similar to
      the payload string of an event kept before it, and appends it
      otherwise. */
  lemma DroppedIff(events: seq<Event>, ratio: Ratio, threshold: real, i: nat)
    requires i < |events|
    ensures Pass(events, ratio, threshold, i + 1).0 == Pass(events, ratio, threshold, i).0 <==>
      exists e :: e in Pass(events, ratio, threshold, i).0
        && CalculateSimilarity(ratio, PayloadStr(events[i]), PayloadStr(e)) >= threshold
    ensures Pass(events, ratio, threshold, i + 1).0 != Pass(events, ratio, threshold, i).0 ==>
      Pass(events, ratio, threshold, i + 1).0 == Pass(events, ratio, threshold, i).0 + [events[i]]
  {
    PassInvariant(events, ratio, threshold, i);
    var (kept, seen) := Pass(events, ratio, threshold, i);
    var s := PayloadStr(events[i]);
    if Similar(ratio, threshold, seen, s) {
      var q :| q in seen && CalculateSimilarity(ratio, s, q) >= threshold;
      var e :| e in kept && PayloadStr(e) == q;
    } else {
      assert |kept + [events[i]]| != |kept|;
      forall e | e in kept ensures CalculateSimilarity(ratio, s, PayloadStr(e)) < threshold {
        assert PayloadStr(e) in seen;
      }
    }
  }

  /** An event whose payload string equals that of a kept event is dropped,
      whenever the threshold is at most 1 and the ratio of a string with
      itself is 100. */
  lemma ExactRepeatDropped(events: seq<Event>, ratio: Ratio, threshold: real, i: nat, k: nat)
    requires i < |events| && k < |Pass(events, ratio, threshold, i).0|
    requires PayloadStr(Pass(events, ratio, threshold, i).0[k]) == PayloadStr(events[i])
    requires ratio(PayloadStr(events[i]), PayloadStr(events[i])) == 100 && threshold <= 1.0
    ensures Pass(events, ratio, threshold, i + 1).0 == Pass(events, ratio, threshold, i).0
  {
    DroppedIff(events, ratio, threshold, i);
    assert Pass(events, ratio, threshold, i).0[k] in Pass(events, ratio, threshold, i).0;
  }

  /** A kept event is never similar to an event kept before it. */
  lemma {:induction false} KeptSeparated(events: seq<Event>, ratio: Ratio, threshold: real, n: nat)
    requires n <= |events|
    ensures forall p, q :: 0 <= p < q < |Pass(events, ratio, threshold, n).0| ==>
      CalculateSimilarity(ratio, PayloadStr(Pass(events, ratio, threshold, n).0[q]),
                                 PayloadStr(Pass(events, ratio, threshold, n).0[p])) < threshold
  {
    if n > 0 {
      KeptSeparated(events, ratio, threshold, n - 1);
      var prev := Pass(events, ratio, threshold, n - 1).0;
      DroppedIff(events, ratio, threshold, n - 1);
      if Pass(events, ratio, threshold, n).0 != prev {
        forall p | 0 <= p < |prev|
          ensures CalculateSimilarity(ratio, PayloadStr(events[n - 1]), PayloadStr(prev[p])) < threshold
        {
          assert prev[p] in prev;
        }
      }
    }
  }

  /** The payload `{'name': name, 'age': age}` of the example at the end of
      the file, with a string name and an integer age. */
  function ExamplePayload(name: string, age: string): Json {
    Object([("name", Scalar(name, "'" + name + "'")), ("age", Scalar(age, age))])
  }

  function ExampleEvent(timestamp: Json, name: string, age: string): Event {
    [("timestamp", timestamp), ("path", Scalar("/api/users", "'/api/users'")),
     ("method", Scalar("POST", "'POST'")), ("request_body", ExamplePayload(name, age)),
     ("status", Scalar("200", "'200'"))]
  }

  lemma ExampleBody(timestamp: Json, name: string, age: string)
    ensures PayloadStr(ExampleEvent(timestamp, name, age)) == Str(ExamplePayload(name, age))
  {
    var e := ExampleEvent(timestamp, name, age);
    assert e[..4][3] == ("request_body", ExamplePayload(name, age));
    assert Get(e, "request_body") == Get(e[..4], "request_body");
  }

  /** In the example, the third event repeats the first one's payload and is
      dropped; whether the second survives depends on the ratio of the two
      different payload strings. */
  lemma ExampleRepeatDropped(ratio: Ratio, t0: Json, t1: Json, t2: Json)
    requires ratio(Str(ExamplePayload("John Doe", "30")), Str(ExamplePayload("John Doe", "30"))) == 100
    ensures var e0, e1 := ExampleEvent(t0, "John Doe", "30"), ExampleEvent(t1, "Jane Doe", "25");
      var out := Deduplicated([e0, e1, ExampleEvent(t2, "John Doe", "30")], ratio, 0.8);
      out == [e0] || out == [e0, e1]
  {
    var e0, e1, e2 := ExampleEvent(t0, "John Doe", "30"), ExampleEvent(t1, "Jane Doe", "25"),
      ExampleEvent(t2, "John Doe", "30");
    var events := [e0, e1, e2];
    var john := Str(ExamplePayload("John Doe", "30"));
    ExampleBody(t0, "John Doe", "30");
    ExampleBody(t2, "John Doe", "30");
    assert Pass(events, ratio, 0.8, 0) == ([], {});
    assert !Similar(ratio, 0.8, {}, PayloadStr(events[0]));
    assert Pass(events, ratio, 0.8, 1).0 == [e0];
    assert Pass(events, ratio, 0.8, 1).1 == {john};
    var (kept, seen) := Pass(events, ratio, 0.8, 2);
    assert kept == [e0] || kept == [e0, e1];
    assert john in seen;
    assert Similar(ratio, 0.8, seen, john);
  }
}

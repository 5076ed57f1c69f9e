/** The event helpers of the test suite: the raw events of a transaction
    folded into a dictionary keyed by each event's first key, and the
    lookup of one event by name. */
module Events {
  import opened Wrappers

  /** A field element, as the simulator reports it (an unbounded Python
      integer). */
  type Felt = int

  /** A raw event of an execution info: emitting contract, keys, data. */
  datatype RawEvent = RawEvent(fromAddress: Felt, keys: seq<Felt>, data: seq<Felt>)

  /** What `get_event_data` returns: Python's `False` when no event
      matches, otherwise the matching event's data list. */
  datatype EventData = NotFound | Found(data: seq<Felt>)

  /** `raw_event.keys[0]` can be evaluated. */
  predicate HasKey(e: RawEvent)
  {
    |e.keys| > 0
  }

  /** No event makes the loop raise IndexError. */
  predicate AllKeyed(events: seq<RawEvent>)
  {
    forall i :: 0 <= i < |events| ==> HasKey(events[i])
  }

  /** The first keys of the events. */
  function FirstKeys(events: seq<RawEvent>): set<Felt>
  {
    set i | 0 <= i < |events| && HasKey(events[i]) :: events[i].keys[0]
  }

  /** Event `i` is the last one whose first key is `k`. */
  predicate LastWithKey(events: seq<RawEvent>, k: Felt, i: int)
  {
    && 0 <= i < |events|
    && HasKey(events[i]) && events[i].keys[0] == k
    && forall j :: i < j < |events| && HasKey(events[j]) ==> events[j].keys[0] != k
  }

  /** Reference definition: the data of the last event whose first key is
      `k`, found by scanning from the back. */
  function LastData(events: seq<RawEvent>, k: Felt): (r: Option<seq<Felt>>)
    ensures r.None? <==> forall i :: 0 <= i < |events| && HasKey(events[i]) ==> events[i].keys[0] != k
    ensures r.Some? ==> exists i :: LastWithKey(events, k, i) && r.value == events[i].data
  {
    if events == [] then None
    else
      var n := |events| - 1;
      var e := events[n];
      if HasKey(e) && e.keys[0] == k then
        assert LastWithKey(events, k, n);
        Some(e.data)
      else
        var r := LastData(events[..n], k);
        if r.Some? then
          var i :| LastWithKey(events[..n], k, i) && r.value == events[..n][i].data;
          assert LastWithKey(events, k, i);
          r
        else
          assert forall i :: 0 <= i < n ==> events[..n][i] == events[i];
          r
  }

  /** `get_event_dict_from_execution_info`: for each raw event in order,
      `event_dict[raw_event.keys[0]] = raw_event.data`; `None` is the
      IndexError of an event without keys. Its keys are exactly the first
      keys of the events and each holds the data of the last event with
      that first key. */
  function EventDict(events: seq<RawEvent>): (r: Option<map<Felt, seq<Felt>>>)
    ensures r.Some? <==> AllKeyed(events)
    ensures r.Some? ==> r.value.Keys == FirstKeys(events)
    ensures r.Some? ==> forall k :: k in r.value <==> LastData(events, k).Some?
    ensures r.Some? ==> forall k :: k in r.value ==> r.value[k] == LastData(events, k).value
  {
    if events == [] then Some(map[])
    else
      var n := |events| - 1;
      var p := events[..n];
      var e := events[n];
      assert forall i :: 0 <= i < n ==> p[i] == events[i];
      assert events == p + [e];
      match EventDict(p)
      case None => None
      case Some(m) =>
        if HasKey(e) then
          var m' := m[e.keys[0] := e.data];
          assert m'.Keys == FirstKeys(events) by {
            assert m'.Keys == m.Keys + {e.keys[0]};
            assert FirstKeys(events) == FirstKeys(p) + {e.keys[0]};
          }
          Some(m')
        else None
  }

  /** `get_event_data`: the data of the last event whose first key is the
      selector of `eventName`, or `NotFound` (Python's `False`); `None` is
      the IndexError of an event without keys. `selector` stands for
      `get_selector_from_name`. */
  function GetEventData(events: seq<RawEvent>, selector: string -> Felt, eventName: string): (r: Option<EventData>)
    ensures r.Some? <==> AllKeyed(events)
    ensures r == Some(NotFound) <==>
      AllKeyed(events) && forall i :: 0 <= i < |events| ==> events[i].keys[0] != selector(eventName)
    ensures r.Some? && r.value.Found? ==>
      exists i :: LastWithKey(events, selector(eventName), i) && r.value.data == events[i].data
  {
    var key := selector(eventName);
    match EventDict(events)
    case None => None
    case Some(m) =>
      if key in m then Some(Found(m[key])) else Some(NotFound)
  }

  // ---------------------------------------------------------------------
  // Lemmas

  /** The last occurrence of `k` in `a + s` is in `s` if `s` has one. */
  lemma {:induction false} LastDataAppend(a: seq<RawEvent>, s: seq<RawEvent>, k: Felt)
    ensures LastData(a + s, k) == if LastData(s, k).Some? then LastData(s, k) else LastData(a, k)
    decreases |s|
  {
    if s == [] {
      assert a + s == a;
    } else {
      var n := |s| - 1;
      assert (a + s)[..|a + s| - 1] == a + s[..n];
      assert (a + s)[|a + s| - 1] == s[n];
      LastDataAppend(a, s[..n], k);
    }
  }

  /** Two keyed event lists that agree on the last data for every key
      build the same dictionary. */
  lemma {:induction false} SameLastDataSameDict(a: seq<RawEvent>, b: seq<RawEvent>)
    requires AllKeyed(a) && AllKeyed(b)
    requires forall k :: LastData(a, k) == LastData(b, k)
    ensures EventDict(a) == EventDict(b)
  {
    var ma := EventDict(a).value;
    var mb := EventDict(b).value;
    forall k
      ensures (k in ma <==> k in mb) && (k in ma ==> ma[k] == mb[k])
    {
      assert LastData(a, k) == LastData(b, k);
    }
    assert ma == mb;
    assert EventDict(a) == Some(ma) && EventDict(b) == Some(mb);
  }

  /** Swapping two neighbouring events with different first keys does not
      change the dictionary: only the order among events with the same
      first key matters. */
  lemma SwapDistinctKeys(p: seq<RawEvent>, x: RawEvent, y: RawEvent, s: seq<RawEvent>)
    requires HasKey(x) && HasKey(y) && x.keys[0] != y.keys[0]
    ensures EventDict(p + [x, y] + s) == EventDict(p + [y, x] + s)
  {
    var a := p + [x, y] + s;
    var b := p + [y, x] + s;
    SwapKeyed(p, x, y, s);
    if AllKeyed(a) {
      forall k
        ensures LastData(a, k) == LastData(b, k)
      {
        SwapLastData(p, x, y, s, k);
      }
      SameLastDataSameDict(a, b);
    }
  }

  lemma SwapKeyed(p: seq<RawEvent>, x: RawEvent, y: RawEvent, s: seq<RawEvent>)
    ensures AllKeyed(p + [x, y] + s) <==> AllKeyed(p + [y, x] + s)
  {
    var a := p + [x, y] + s;
    var b := p + [y, x] + s;
    assert forall i :: 0 <= i < |a| && i != |p| && i != |p| + 1 ==> a[i] == b[i];
    assert a[|p|] == b[|p| + 1] && a[|p| + 1] == b[|p|];
    if AllKeyed(a) {
      assert forall i :: 0 <= i < |b| ==> HasKey(b[i]) by {
        forall i | 0 <= i < |b|
          ensures HasKey(b[i])
        {
          if i == |p| {
            assert HasKey(a[|p| + 1]);
          } else if i == |p| + 1 {
            assert HasKey(a[|p|]);
          } else {
            assert HasKey(a[i]);
          }
        }
      }
    }
    if AllKeyed(b) {
      forall i | 0 <= i < |a|
        ensures HasKey(a[i])
      {
        if i == |p| {
          assert HasKey(b[|p| + 1]);
        } else if i == |p| + 1 {
          assert HasKey(b[|p|]);
        } else {
          assert HasKey(b[i]);
        }
      }
    }
  }

  lemma SwapLastData(p: seq<RawEvent>, x: RawEvent, y: RawEvent, s: seq<RawEvent>, k: Felt)
    requires HasKey(x) && HasKey(y) && x.keys[0] != y.keys[0]
    ensures LastData(p + [x, y] + s, k) == LastData(p + [y, x] + s, k)
  {
    LastDataAppend(p + [x, y], s, k);
    LastDataAppend(p + [y, x], s, k);
    LastDataAppend(p, [x, y], k);
    LastDataAppend(p, [y, x], k);
    assert [x, y][..1] == [x] && [y, x][..1] == [y];
    assert [x][..0] == [] && [y][..0] == [];
  }

  /** Keys after the first, and the emitting address, do not affect the
      dictionary. */
  lemma {:induction false} OnlyFirstKeyMatters(a: seq<RawEvent>, b: seq<RawEvent>)
    requires |a| == |b|
    requires forall i :: 0 <= i < |a| ==>
      (HasKey(a[i]) <==> HasKey(b[i])) &&
      (HasKey(a[i]) ==> a[i].keys[0] == b[i].keys[0] && a[i].data == b[i].data)
    ensures EventDict(a) == EventDict(b)
    decreases |a|
  {
    if a != [] {
      var n := |a| - 1;
      OnlyFirstKeyMatters(a[..n], b[..n]);
    }
  }

  /** Without any event, every lookup reports `False`. */
  lemma NoEventsNotFound(selector: string -> Felt, eventName: string)
    ensures GetEventData([], selector, eventName) == Some(NotFound)
  {
  }
}

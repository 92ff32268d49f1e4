/**
 * Stream multiplexing: each stream of a connection has a lifecycle state,
 * sequence counters and flow-control windows; the stream manager hands out
 * stream ids 1, 2, 3, ... and bounds the number of streams.
 *
 * `Instant::now()` is the caller's clock reading `now`.
 */
module Streams {
  import opened Base
  import opened Delivery

  datatype StreamState = Opening | Open | Closing | Closed {
    /** `is_active`: a stream is active while it is opening or open. */
    predicate IsActive() {
      this == Open || this == Opening
    }
  }

  /** The default size of both flow-control windows, 64 KiB. */
  const DEFAULT_WINDOW: u32 := 65536

  /** Everything a stream holds besides its id. */
  datatype StreamView = StreamView(
    state: StreamState,
    sendSeq: nat,
    recvSeq: nat,
    lastActivity: nat,
    priority: u8,
    sendWindow: u32,
    recvWindow: u32,
    deliveryMode: DeliveryMode)

  /** `u32::saturating_add`. */
  function SaturatingAdd32(a: u32, b: u32): (r: u32)
    ensures a <= r
    ensures a + b <= U32_MAX ==> r == a + b
    ensures a + b > U32_MAX ==> r == U32_MAX
  {
    if a + b <= U32_MAX then a + b else U32_MAX
  }

  class Stream {
    const id: nat
    var state: StreamState
    var sendSeq: nat
    var recvSeq: nat
    var lastActivity: nat
    var priority: u8
    var sendWindow: u32
    var recvWindow: u32
    var deliveryMode: DeliveryMode

    function View(): StreamView
      reads this
    {
      StreamView(state, sendSeq, recvSeq, lastActivity, priority, sendWindow, recvWindow, deliveryMode)
    }

    /** `Stream::new`: opening, both sequence numbers 0, both windows 64 KiB. */
    constructor (id: nat, priority: u8, deliveryMode: DeliveryMode, now: nat)
      ensures this.id == id
      ensures View() == StreamView(Opening, 0, 0, now, priority, DEFAULT_WINDOW, DEFAULT_WINDOW, deliveryMode)
    {
      this.id := id;
      state := Opening;
      sendSeq := 0;
      recvSeq := 0;
      lastActivity := now;
      this.priority := priority;
      sendWindow := DEFAULT_WINDOW;
      recvWindow := DEFAULT_WINDOW;
      this.deliveryMode := deliveryMode;
    }

    method Open(now: nat)
      modifies this
      ensures View() == old(View()).(state := StreamState.Open, lastActivity := now)
      ensures IsActive()
    {
      state := StreamState.Open;
      lastActivity := now;
    }

    method Close(now: nat)
      modifies this
      ensures View() == old(View()).(state := Closing, lastActivity := now)
      ensures !IsActive() && !CanSend()
    {
      state := Closing;
      lastActivity := now;
    }

    method FinalizeClose()
      modifies this
      ensures View() == old(View()).(state := Closed)
      ensures !IsActive() && !CanSend()
    {
      state := Closed;
    }

    method UpdateActivity(now: nat)
      modifies this
      ensures View() == old(View()).(lastActivity := now)
    {
      lastActivity := now;
    }

    predicate IsActive()
      reads this
    {
      state.IsActive()
    }

    /** Only an open stream with window left may send. */
    predicate CanSend()
      reads this
      ensures CanSend() ==> IsActive() && sendWindow > 0
    {
      state == StreamState.Open && sendWindow > 0
    }

    /** `consume_send_window`: the window shrinks by `bytes`, stopping at 0. */
    method ConsumeSendWindow(bytes: u32)
      modifies this
      ensures View() == old(View()).(sendWindow := SaturatingSub(old(sendWindow), bytes))
      ensures sendWindow <= old(sendWindow)
      ensures bytes >= old(sendWindow) ==> !CanSend()
    {
      sendWindow := SaturatingSub(sendWindow, bytes);
    }

    /** `add_recv_window`: the window grows by `bytes`, stopping at `u32::MAX`. */
    method AddRecvWindow(bytes: u32)
      modifies this
      ensures View() == old(View()).(recvWindow := SaturatingAdd32(old(recvWindow), bytes))
      ensures old(recvWindow) <= recvWindow
    {
      recvWindow := SaturatingAdd32(recvWindow, bytes);
    }
  }

  /** The flow-control scenario: an open stream sends, its window shrinks by 1000, its receive window grows by 500. */
  lemma FlowControlScenario()
    ensures SaturatingSub(DEFAULT_WINDOW, 1000) == 64536
    ensures SaturatingAdd32(DEFAULT_WINDOW, 500) == 66036
  {
  }

  class StreamManager {
    var streams: map<nat, Stream>
    var nextStreamId: nat
    const maxStreams: u32
    /** Every id ever handed out. */
    ghost var issued: set<nat>

    /** Each stream is stored under its own id, and every stored or issued id lies below the next one. */
    ghost predicate Valid()
      reads this
    {
      nextStreamId >= 1
      && (forall k :: k in streams ==> streams[k].id == k)
      && streams.Keys <= issued
      && (forall k :: k in issued ==> 1 <= k < nextStreamId)
    }

    /** The streams, by id. */
    function View(): map<nat, StreamView>
      reads this, streams.Values
    {
      map k | k in streams :: streams[k].View()
    }

    /** `active_stream_count`. */
    function ActiveStreamCount(): (n: nat)
      reads this, streams.Values
      ensures n <= |streams|
      ensures (forall k :: k in streams ==> streams[k].IsActive()) ==> n == |streams|
    {
      assert View().Keys == streams.Keys;
      ActiveCountBounds(View());
      |ActiveIds(View())|
    }

    /** `StreamManager::new`. */
    constructor (maxStreams: u32)
      ensures streams == map[] && nextStreamId == 1 && this.maxStreams == maxStreams
      ensures issued == {} && Valid()
    {
      streams := map[];
      nextStreamId := 1;
      this.maxStreams := maxStreams;
      issued := {};
    }

    /**
     * `open_stream`: refuse once `max_streams` streams exist; otherwise
     * hand out the next id, never handed out before, for a new open stream.
     */
    method OpenStream(priority: u8, deliveryMode: DeliveryMode, now: nat) returns (r: Result<nat, string>)
      requires Valid()
      modifies this
      ensures Valid()
      ensures r.Err? <==> old(|streams|) >= maxStreams
      ensures r.Err? ==>
        r.error == "Maximum streams reached" && View() == old(View())
        && nextStreamId == old(nextStreamId) && issued == old(issued)
      ensures r.Ok? ==> r.value == old(nextStreamId) && r.value !in old(issued)
      ensures r.Ok? ==> issued == old(issued) + {r.value} && nextStreamId == old(nextStreamId) + 1
      ensures r.Ok? ==>
        View() == old(View())[r.value := StreamView(Open, 0, 0, now, priority, DEFAULT_WINDOW, DEFAULT_WINDOW, deliveryMode)]
      ensures r.Ok? ==> ActiveStreamCount() == old(ActiveStreamCount()) + 1
    {
      if |streams| >= maxStreams as nat {
        return Err("Maximum streams reached");
      }
      var stream := OpenedStream(nextStreamId, priority, deliveryMode, now);
      InsertNext(stream);
      r := Ok(stream.id);
    }

    /** Store an opened stream under the next id and move past that id. */
    method InsertNext(stream: Stream)
      requires Valid() && stream.id == nextStreamId && stream.state.IsActive()
      modifies this
      ensures Valid()
      ensures issued == old(issued) + {stream.id} && nextStreamId == old(nextStreamId) + 1
      ensures View() == old(View())[stream.id := stream.View()]
      ensures ActiveStreamCount() == old(ActiveStreamCount()) + 1
    {
      ghost var oldView := View();
      streams := streams[nextStreamId := stream];
      issued := issued + {nextStreamId};
      nextStreamId := nextStreamId + 1;
      assert View() == oldView[stream.id := stream.View()];
      ActiveIdsInsert(oldView, stream.id, stream.View());
    }

    /** `close_stream`: an unknown id is an error; a known stream moves to Closing. */
    method CloseStream(streamId: nat, now: nat) returns (r: Result<(), string>)
      requires Valid()
      modifies this, streams.Values
      ensures Valid() && streams == old(streams) && nextStreamId == old(nextStreamId) && issued == old(issued)
      ensures streamId !in old(streams) ==> r == Err("Stream not found") && View() == old(View())
      ensures streamId in old(streams) ==>
        r == Ok(()) && View() == old(View())[streamId := old(View())[streamId].(state := Closing, lastActivity := now)]
      ensures streamId in old(streams) && old(streams[streamId].IsActive()) ==>
        ActiveStreamCount() == old(ActiveStreamCount()) - 1
    {
      if streamId !in streams {
        return Err("Stream not found");
      }
      ghost var oldView := View();
      streams[streamId].Close(now);
      assert View() == oldView[streamId := streams[streamId].View()];
      if oldView[streamId].state.IsActive() {
        ActiveIdsDeactivate(oldView, streamId, streams[streamId].View());
      }
      r := Ok(());
    }

    /** `remove_stream`: forget the stream, if any. */
    method RemoveStream(streamId: nat)
      requires Valid()
      modifies this
      ensures Valid() && nextStreamId == old(nextStreamId) && issued == old(issued)
      ensures View() == old(View()) - {streamId}
    {
      streams := streams - {streamId};
    }

    /** `get_stream` and `get_stream_mut`: the stream stored under `streamId`, if any. */
    function GetStream(streamId: nat): (r: Option<Stream>)
      reads this
      ensures r.Some? <==> streamId in streams
      ensures r.Some? ==> r.value == streams[streamId]
    {
      if streamId in streams then Some(streams[streamId]) else None
    }

    /** `cleanup_closed_streams`: drop exactly the closed streams. */
    method CleanupClosedStreams()
      requires Valid()
      modifies this
      ensures Valid() && nextStreamId == old(nextStreamId) && issued == old(issued)
      ensures View() == map k | k in old(View()) && old(View())[k].state != Closed :: old(View())[k]
      ensures ActiveStreamCount() == old(ActiveStreamCount())
    {
      ghost var oldView := View();
      streams := map k | k in streams && streams[k].state != Closed :: streams[k];
      assert ActiveIds(View()) == ActiveIds(oldView);
    }
  }

  /** `Stream::new` followed by `open`, as `open_stream` does. */
  method OpenedStream(id: nat, priority: u8, deliveryMode: DeliveryMode, now: nat) returns (s: Stream)
    ensures fresh(s) && s.id == id
    ensures s.View() == StreamView(Open, 0, 0, now, priority, DEFAULT_WINDOW, DEFAULT_WINDOW, deliveryMode)
  {
    s := new Stream(id, priority, deliveryMode, now);
    s.Open(now);
  }

  /** The ids of the active streams in `v`. */
  function ActiveIds(v: map<nat, StreamView>): set<nat> {
    set k | k in v && v[k].state.IsActive()
  }

  lemma ActiveCountBounds(v: map<nat, StreamView>)
    ensures |ActiveIds(v)| <= |v|
    ensures (forall k :: k in v ==> v[k].state.IsActive()) ==> |ActiveIds(v)| == |v|
  {
    CardinalityMonotone(ActiveIds(v), v.Keys);
    assert (forall k :: k in v ==> v[k].state.IsActive()) ==> ActiveIds(v) == v.Keys;
  }

  /** Adding an active stream under a new id raises the count by one. */
  lemma ActiveIdsInsert(v: map<nat, StreamView>, k: nat, s: StreamView)
    requires k !in v && s.state.IsActive()
    ensures |ActiveIds(v[k := s])| == |ActiveIds(v)| + 1
  {
    assert ActiveIds(v[k := s]) == ActiveIds(v) + {k};
  }

  /** Replacing an active stream by an inactive one lowers the count by one. */
  lemma ActiveIdsDeactivate(v: map<nat, StreamView>, k: nat, s: StreamView)
    requires k in v && v[k].state.IsActive() && !s.state.IsActive()
    ensures |ActiveIds(v[k := s])| == |ActiveIds(v)| - 1
  {
    assert ActiveIds(v[k := s]) == ActiveIds(v) - {k};
  }

  lemma CardinalityMonotone<T>(a: set<T>, b: set<T>)
    requires a <= b
    ensures |a| <= |b|
  {
    assert b == a + (b - a);
  }
}

/** The public API's waiters as steps: registering, completing by key, cancelling by channel and
    receiving, in any interleaving. A completion takes its channels in one step and then sends to and
    closes them one at a time, outside the lock.
 */
module Waiter {
  import opened Digests

  /** Where a channel is: in the map, taken by a completion, sent to and not yet closed, or closed after a
      value or by a cancellation. This is history, which no step decides on. */
  datatype Stage = Registered | Taken(completion: nat) | Sent(completion: nat) | Completed(completion: nat) | Cancelled

  /** A channel with room for one value, the values received from it and how often it was closed. */
  datatype Channel<V> = Channel(key: string, buffer: seq<V>, got: seq<V>, closes: nat, stage: Stage)

  const CAPACITY := 1

  /** A running or finished call of complete: what it took, what is left to send, and the channel it has
      sent to and not yet closed. */
  datatype Completion<V> = Completion(key: string, value: V, taken: set<nat>, left: set<nat>, current: Option<nat>)

  datatype State<V> = State(m: map<string, set<nat>>, channels: seq<Channel<V>>, completions: seq<Completion<V>>)

  datatype Event<V> =
    | Add(key: string)
    | DeleteByKey(key: string, value: V)
    | Send(completion: nat, c: nat)
    | Close(completion: nat)
    | DeleteByChannel(c: nat)
    | Receive(c: nat)

  predicate Enabled<V>(s: State<V>, e: Event<V>)
  {
    match e
    case Add(_) => true
    case DeleteByKey(_, _) => true
    case Send(t, c) => t < |s.completions| && s.completions[t].current.None? && c in s.completions[t].left && c < |s.channels|
    case Close(t) => t < |s.completions| && s.completions[t].current.Some? && s.completions[t].current.value < |s.channels|
    case DeleteByChannel(c) => c < |s.channels|
    case Receive(c) => c < |s.channels| && s.channels[c].buffer != []
  }

  function Adding<V>(s: State<V>, k: string): State<V>
  {
    s.(m := s.m[k := (if k in s.m then s.m[k] else {}) + {|s.channels|}],
       channels := s.channels + [Channel(k, [], [], 0, Registered)])
  }

  /** The channels of a key change hands. */
  function Moved<V>(channels: seq<Channel<V>>, wcs: set<nat>, t: nat): (r: seq<Channel<V>>)
    ensures |r| == |channels|
    ensures forall i | 0 <= i < |channels| :: r[i] == if i in wcs then channels[i].(stage := Taken(t)) else channels[i]
  {
    seq(|channels|, i requires 0 <= i < |channels| => if i in wcs then channels[i].(stage := Taken(t)) else channels[i])
  }

  function Taking<V>(s: State<V>, k: string, v: V): State<V>
  {
    var wcs := if k in s.m then s.m[k] else {};
    State(s.m - {k}, Moved(s.channels, wcs, |s.completions|), s.completions + [Completion(k, v, wcs, wcs, None)])
  }

  function Sending<V>(s: State<V>, t: nat, c: nat): State<V>
    requires Enabled(s, Send(t, c))
  {
    var x, ch := s.completions[t], s.channels[c];
    s.(channels := s.channels[c := ch.(buffer := ch.buffer + [x.value], stage := Sent(t))],
       completions := s.completions[t := x.(left := x.left - {c}, current := Some(c))])
  }

  function Closing<V>(s: State<V>, t: nat): State<V>
    requires Enabled(s, Close(t))
  {
    var x := s.completions[t];
    var c := x.current.value;
    s.(channels := s.channels[c := s.channels[c].(closes := s.channels[c].closes + 1, stage := Completed(t))],
       completions := s.completions[t := x.(current := None)])
  }

  function Cancelling<V>(s: State<V>, c: nat): State<V>
    requires c < |s.channels|
  {
    var k := s.channels[c].key;
    if k in s.m && c in s.m[k] then
      s.(m := if s.m[k] == {c} then s.m - {k} else s.m[k := s.m[k] - {c}],
         channels := s.channels[c := s.channels[c].(closes := s.channels[c].closes + 1, stage := Cancelled)])
    else s
  }

  function Receiving<V>(s: State<V>, c: nat): State<V>
    requires Enabled(s, Receive(c))
  {
    var ch := s.channels[c];
    s.(channels := s.channels[c := ch.(buffer := ch.buffer[1..], got := ch.got + [ch.buffer[0]])])
  }

  function Next<V>(s: State<V>, e: Event<V>): State<V>
    requires Enabled(s, e)
  {
    match e
    case Add(k) => Adding(s, k)
    case DeleteByKey(k, v) => Taking(s, k, v)
    case Send(t, c) => Sending(s, t, c)
    case Close(t) => Closing(s, t)
    case DeleteByChannel(c) => Cancelling(s, c)
    case Receive(c) => Receiving(s, c)
  }

  // ----- the invariant -----

  /** The values ever sent to a channel. */
  function Values<V>(ch: Channel<V>): seq<V> { ch.got + ch.buffer }

  ghost predicate ChannelRight<V>(s: State<V>, c: nat)
    requires c < |s.channels|
  {
    var ch := s.channels[c];
    match ch.stage
    case Registered => ch.key in s.m && c in s.m[ch.key] && Values(ch) == [] && ch.closes == 0
    case Taken(t) => t < |s.completions| && c in s.completions[t].left && Values(ch) == [] && ch.closes == 0
    case Sent(t) => t < |s.completions| && s.completions[t].current == Some(c) && Values(ch) == [s.completions[t].value] && ch.closes == 0
    case Completed(t) => t < |s.completions| && Values(ch) == [s.completions[t].value] && ch.closes == 1
    case Cancelled => Values(ch) == [] && ch.closes == 1
  }

  ghost predicate KeyRight<V>(s: State<V>, k: string)
    requires k in s.m
  {
    s.m[k] != {} && forall c | c in s.m[k] :: c < |s.channels| && s.channels[c].key == k && s.channels[c].stage == Registered
  }

  ghost predicate Stays<V>(s: State<V>, t: nat, c: nat)
    requires t < |s.completions|
  {
    && c < |s.channels| && s.channels[c].key == s.completions[t].key
    && (s.channels[c].stage == Taken(t) || s.channels[c].stage == Sent(t) || s.channels[c].stage == Completed(t))
  }

  ghost predicate CompletionRight<V>(s: State<V>, t: nat)
    requires t < |s.completions|
  {
    var x := s.completions[t];
    && (forall c | c in x.taken :: Stays(s, t, c))
    && x.left <= x.taken && (forall c | c in x.left :: s.channels[c].stage == Taken(t))
    && (x.current.Some? ==> x.current.value in x.taken && s.channels[x.current.value].stage == Sent(t))
  }

  ghost predicate Inv<V>(s: State<V>)
  {
    && (forall c | 0 <= c < |s.channels| :: ChannelRight(s, c))
    && (forall k | k in s.m :: KeyRight(s, k))
    && forall t | 0 <= t < |s.completions| :: CompletionRight(s, t)
  }

  lemma AddKeepsInv<V>(s: State<V>, k: string)
    requires Inv(s)
    ensures Inv(Adding(s, k))
  {
    var s' := Adding(s, k);
    forall c | 0 <= c < |s'.channels| ensures ChannelRight(s', c) {
      if c < |s.channels| { assert ChannelRight(s, c); }
    }
    forall j | j in s'.m ensures KeyRight(s', j) {
      if j in s.m { assert KeyRight(s, j); }
      assert |s.channels| in s'.m[k];
    }
    forall t | 0 <= t < |s'.completions| ensures CompletionRight(s', t) {
      assert CompletionRight(s, t);
      assert forall c | c in s.completions[t].taken :: Stays(s, t, c);
    }
  }

  lemma DeleteByKeyKeepsInv<V>(s: State<V>, k: string, v: V)
    requires Inv(s)
    ensures Inv(Taking(s, k, v))
  {
    hide ChannelRight, CompletionRight;
    var s' := Taking(s, k, v);
    forall c | 0 <= c < |s'.channels| ensures ChannelRight(s', c) {
      TakingChannel(s, k, v, c);
    }
    forall j | j in s'.m ensures KeyRight(s', j) {
      assert KeyRight(s, j);
    }
    forall t | 0 <= t < |s'.completions| ensures CompletionRight(s', t) {
      TakingCompletion(s, k, v, t);
    }
  }

  lemma TakingChannel<V>(s: State<V>, k: string, v: V, c: nat)
    requires c < |s.channels| && ChannelRight(s, c) && (k in s.m ==> KeyRight(s, k))
    ensures ChannelRight(Taking(s, k, v), c)
  {
  }

  lemma TakingCompletion<V>(s: State<V>, k: string, v: V, t: nat)
    requires t <= |s.completions| && (t < |s.completions| ==> CompletionRight(s, t)) && (k in s.m ==> KeyRight(s, k))
    ensures CompletionRight(Taking(s, k, v), t)
  {
    if t < |s.completions| {
      assert forall c | c in s.completions[t].taken :: Stays(s, t, c);
    }
  }

  lemma SendKeepsInv<V>(s: State<V>, t: nat, c: nat)
    requires Inv(s) && Enabled(s, Send(t, c))
    ensures Inv(Sending(s, t, c))
  {
    var s' := Sending(s, t, c);
    assert CompletionRight(s, t) && ChannelRight(s, c) && Stays(s, t, c);
    forall d | 0 <= d < |s'.channels| ensures ChannelRight(s', d) {
      assert ChannelRight(s, d);
    }
    forall k | k in s'.m ensures KeyRight(s', k) {
      assert KeyRight(s, k);
    }
    forall u | 0 <= u < |s'.completions| ensures CompletionRight(s', u) {
      assert CompletionRight(s, u);
      assert forall d | d in s.completions[u].taken :: Stays(s, u, d);
    }
  }

  lemma CloseKeepsInv<V>(s: State<V>, t: nat)
    requires Inv(s) && Enabled(s, Close(t))
    ensures Inv(Closing(s, t))
  {
    var s', c := Closing(s, t), s.completions[t].current.value;
    assert CompletionRight(s, t) && ChannelRight(s, c) && Stays(s, t, c);
    forall d | 0 <= d < |s'.channels| ensures ChannelRight(s', d) {
      assert ChannelRight(s, d);
    }
    forall k | k in s'.m ensures KeyRight(s', k) {
      assert KeyRight(s, k);
    }
    forall u | 0 <= u < |s'.completions| ensures CompletionRight(s', u) {
      assert CompletionRight(s, u);
      assert forall d | d in s.completions[u].taken :: Stays(s, u, d);
    }
  }

  lemma DeleteByChannelKeepsInv<V>(s: State<V>, c: nat)
    requires Inv(s) && c < |s.channels|
    ensures Inv(Cancelling(s, c))
  {
    var s', k := Cancelling(s, c), s.channels[c].key;
    if k in s.m && c in s.m[k] {
      assert KeyRight(s, k) && ChannelRight(s, c);
      assert s.m[k] - {c} == {} ==> s.m[k] == {c};
      forall d | 0 <= d < |s'.channels| ensures ChannelRight(s', d) {
        assert ChannelRight(s, d);
      }
      forall j | j in s'.m ensures KeyRight(s', j) {
        assert KeyRight(s, j);
      }
      forall u | 0 <= u < |s'.completions| ensures CompletionRight(s', u) {
        assert CompletionRight(s, u);
        assert forall d | d in s.completions[u].taken :: Stays(s, u, d);
      }
    }
  }

  lemma ReceiveKeepsInv<V>(s: State<V>, c: nat)
    requires Inv(s) && Enabled(s, Receive(c))
    ensures Inv(Receiving(s, c))
  {
    var s', ch := Receiving(s, c), s.channels[c];
    assert ch.got + [ch.buffer[0]] + ch.buffer[1..] == ch.got + ch.buffer;
    assert ChannelRight(s, c);
    forall d | 0 <= d < |s'.channels| ensures ChannelRight(s', d) {
      assert ChannelRight(s, d);
    }
    forall k | k in s'.m ensures KeyRight(s', k) {
      assert KeyRight(s, k);
    }
    forall u | 0 <= u < |s'.completions| ensures CompletionRight(s', u) {
      assert CompletionRight(s, u);
      assert forall d | d in s.completions[u].taken :: Stays(s, u, d);
    }
  }

  lemma StepKeepsInv<V>(s: State<V>, e: Event<V>)
    requires Inv(s) && Enabled(s, e)
    ensures Inv(Next(s, e))
  {
    hide Inv;
    match e
    case Add(k) => AddKeepsInv(s, k);
    case DeleteByKey(k, v) => DeleteByKeyKeepsInv(s, k, v);
    case Send(t, c) => SendKeepsInv(s, t, c);
    case Close(t) => CloseKeepsInv(s, t);
    case DeleteByChannel(c) => DeleteByChannelKeepsInv(s, c);
    case Receive(c) => ReceiveKeepsInv(s, c);
  }

  // ----- every run -----

  ghost predicate IsRun<V>(states: seq<State<V>>, events: seq<Event<V>>)
  {
    && |states| == |events| + 1 && states[0] == State(map[], [], [])
    && forall i | 0 <= i < |events| :: Enabled(states[i], events[i]) && states[i + 1] == Next(states[i], events[i])
  }

  lemma {:induction false} RunKeepsInv<V>(states: seq<State<V>>, events: seq<Event<V>>, n: nat)
    requires IsRun(states, events) && n < |states|
    ensures Inv(states[n])
  {
    hide Next, Enabled;
    if n > 0 {
      RunKeepsInv(states, events, n - 1);
      StepKeepsInv(states[n - 1], events[n - 1]);
      assert states[n] == Next(states[n - 1], events[n - 1]);
    }
  }

  predicate Open<V>(ch: Channel<V>) { ch.closes == 0 }

  /** In every reachable state each channel has had at most one value and was closed at most once, and no
      key is mapped to an empty set. */
  lemma {:induction false} AtMostOnce<V>(states: seq<State<V>>, events: seq<Event<V>>, n: nat)
    requires IsRun(states, events) && n < |states|
    ensures forall c | 0 <= c < |states[n].channels| ::
              |Values(states[n].channels[c])| <= 1 && states[n].channels[c].closes <= 1
    ensures forall k | k in states[n].m :: states[n].m[k] != {}
  {
    RunKeepsInv(states, events, n);
    var s := states[n];
    forall c | 0 <= c < |s.channels| ensures |Values(s.channels[c])| <= 1 && s.channels[c].closes <= 1 {
      assert ChannelRight(s, c);
    }
    forall k | k in s.m ensures s.m[k] != {} {
      assert KeyRight(s, k);
    }
  }

  /** Whatever comes next in a run, a send is to an open channel with room, so it neither panics nor
      blocks, and whatever closes a channel finds it open. */
  lemma {:induction false} StepsAreSafe<V>(states: seq<State<V>>, events: seq<Event<V>>, n: nat)
    requires IsRun(states, events) && n < |events|
    ensures var s := states[n];
            match events[n]
            case Send(_, c) => Open(s.channels[c]) && |s.channels[c].buffer| < CAPACITY
            case Close(t) => Open(s.channels[s.completions[t].current.value])
            case DeleteByChannel(c) => Next(s, events[n]) != s ==> Open(s.channels[c])
            case _ => true
  {
    RunKeepsInv(states, events, n);
    var s := states[n];
    assert Enabled(s, events[n]);
    match events[n] {
      case Send(t, c) =>
        assert CompletionRight(s, t) && ChannelRight(s, c);
      case Close(t) =>
        assert CompletionRight(s, t);
        var c := s.completions[t].current.value;
        assert Stays(s, t, c) && ChannelRight(s, c);
      case DeleteByChannel(c) =>
        var k := s.channels[c].key;
        if k in s.m && c in s.m[k] { assert KeyRight(s, k) && ChannelRight(s, c); }
      case _ =>
    }
  }

  /** A completion that is over has given its value, once, to every channel it took, all of them waiting
      for its key, and has closed them. */
  lemma {:induction false} FinishedDelivers<V>(states: seq<State<V>>, events: seq<Event<V>>, n: nat, t: nat)
    requires IsRun(states, events) && n < |states| && t < |states[n].completions|
    requires states[n].completions[t].left == {} && states[n].completions[t].current == None
    ensures var s := states[n];
            forall c | c in s.completions[t].taken ::
              && c < |s.channels| && s.channels[c].key == s.completions[t].key
              && Values(s.channels[c]) == [s.completions[t].value] && !Open(s.channels[c])
  {
    RunKeepsInv(states, events, n);
    var s := states[n];
    assert CompletionRight(s, t);
    forall c | c in s.completions[t].taken
      ensures && c < |s.channels| && s.channels[c].key == s.completions[t].key
              && Values(s.channels[c]) == [s.completions[t].value] && !Open(s.channels[c])
    {
      assert Stays(s, t, c);
      assert ChannelRight(s, c);
    }
  }

  // ----- the waiter itself -----

  /** Every method but Complete is one atomic step; Complete is several, here run without interruption. */
  class Waiters<V> {
    var m: map<string, set<nat>>
    var channels: seq<Channel<V>>
    var completions: seq<Completion<V>>

    ghost function Current(): State<V>
      reads this
    {
      State(m, channels, completions)
    }

    constructor ()
      ensures Current() == State(map[], [], [])
    {
      m, channels, completions := map[], [], [];
    }

    method AddChannel(k: string) returns (wc: nat)
      modifies this
      ensures Current() == Next(old(Current()), Add(k)) && wc == |old(channels)|
      ensures wc < |channels| && channels[wc].key == k && channels[wc].buffer == [] && Open(channels[wc])
      ensures k in m && m[k] == (if k in old(m) then old(m)[k] else {}) + {wc} && forall j | j != k :: j in m <==> j in old(m)
    {
      var wcs := {};
      if k in m {
        wcs := m[k];
      }
      wc := |channels|;
      channels := channels + [Channel(k, [], [], 0, Registered)];
      m := m[k := wcs + {wc}];
    }

    method RemoveKey(k: string, v: V) returns (wcs: set<nat>)
      modifies this
      ensures Current() == Next(old(Current()), DeleteByKey(k, v))
      ensures wcs == if k in old(m) then old(m)[k] else {}
    {
      wcs := if k in m then m[k] else {};
      m := m - {k};
      channels := Moved(channels, wcs, |completions|);
      completions := completions + [Completion(k, v, wcs, wcs, None)];
    }

    method CloseByChannel(wc: nat)
      requires wc < |channels|
      modifies this
      ensures Current() == Next(old(Current()), DeleteByChannel(wc))
      ensures |channels| == |old(channels)| && forall c | 0 <= c < |channels| && c != wc :: channels[c] == old(channels)[c]
      ensures var k := old(channels)[wc].key;
              if k in old(m) && wc in old(m)[k] then
                && channels[wc].closes == old(channels)[wc].closes + 1 && channels[wc].buffer == old(channels)[wc].buffer
                && (k in m ==> m[k] == old(m)[k] - {wc} && m[k] != {}) && (k !in m ==> old(m)[k] == {wc})
                && forall j | j != k :: (j in m <==> j in old(m)) && (j in m ==> m[j] == old(m)[j])
              else m == old(m) && channels == old(channels)
    {
      var k := channels[wc].key;
      if k in m && wc in m[k] {
        assert m[k] - {wc} == {} ==> m[k] == {wc};
        if m[k] == {wc} {
          m := m - {k};
        } else {
          m := m[k := m[k] - {wc}];
        }
        channels := channels[wc := channels[wc].(closes := channels[wc].closes + 1, stage := Cancelled)];
      }
    }

    method SendTo(t: nat, wc: nat)
      requires Enabled(Current(), Send(t, wc))
      modifies this
      ensures Current() == Sending(old(Current()), t, wc)
    {
      var x := completions[t];
      channels := channels[wc := channels[wc].(buffer := channels[wc].buffer + [x.value], stage := Sent(t))];
      completions := completions[t := x.(left := x.left - {wc}, current := Some(wc))];
    }

    method CloseAfterSend(t: nat)
      requires Enabled(Current(), Close(t))
      modifies this
      ensures Current() == Closing(old(Current()), t)
    {
      var x := completions[t];
      var wc := x.current.value;
      channels := channels[wc := channels[wc].(closes := channels[wc].closes + 1, stage := Completed(t))];
      completions := completions[t := x.(current := None)];
    }

    /** Every channel registered under the key gets the value and is closed; no other channel changes. */
    method Complete(k: string, v: V)
      requires Inv(Current())
      modifies this
      ensures Inv(Current()) && k !in m
      ensures Delivered(old(channels), channels, if k in old(m) then old(m)[k] else {}, {}, v)
    {
      hide Inv, Delivered;
      var t := |completions|;
      DeleteByKeyKeepsInv(Current(), k, v);
      NothingDelivered(Current(), k, v);
      var left := RemoveKey(k, v);
      ghost var wcs := left;
      while left != {}
        invariant Inv(Current()) && m == old(m) - {k}
        invariant t < |completions| && completions[t].value == v && completions[t].left == left && completions[t].current == None
        invariant left <= wcs && Delivered(old(channels), channels, wcs, left, v)
        decreases left
      {
        var wc :| wc in left;
        TakenInRange(Current(), t, wc);
        SendKeepsInv(Current(), t, wc);
        CloseKeepsInv(Sending(Current(), t, wc), t);
        DeliverOne(old(channels), channels, wcs, left, v, wc, t);
        SendTo(t, wc);
        CloseAfterSend(t);
        left := left - {wc};
      }
    }

    /** A value if the channel has one, else a failure if it is closed; neither means the wait goes on. */
    method TryReceive(wc: nat) returns (response: Option<V>, aborted: bool)
      requires wc < |channels|
      modifies this
      ensures response.Some? <==> old(channels)[wc].buffer != []
      ensures response.Some? ==> response.value == old(channels)[wc].buffer[0] && Current() == Next(old(Current()), Receive(wc))
      ensures response.None? ==> Current() == old(Current())
      ensures aborted <==> response.None? && !Open(old(channels)[wc])
    {
      var ch := channels[wc];
      if ch.buffer != [] {
        channels := channels[wc := ch.(buffer := ch.buffer[1..], got := ch.got + [ch.buffer[0]])];
        return Some(ch.buffer[0]), false;
      }
      return None, ch.closes != 0;
    }
  }

  /** The channels wcs, but for those left, have been given v and closed since they were as in before;
      those left are still open and empty, and no other channel has changed. */
  ghost predicate Delivered<V>(before: seq<Channel<V>>, after: seq<Channel<V>>, wcs: set<nat>, left: set<nat>, v: V)
  {
    && |after| == |before|
    && forall c | 0 <= c < |after| ::
         if c in left then after[c].buffer == after[c].got == [] && after[c].closes == 0
         else if c in wcs then after[c].buffer == [v] && after[c].got == [] && after[c].closes == 1
         else after[c] == before[c]
  }

  lemma NothingDelivered<V>(s: State<V>, k: string, v: V)
    requires Inv(s)
    ensures var wcs := if k in s.m then s.m[k] else {};
            Delivered(s.channels, Taking(s, k, v).channels, wcs, wcs, v)
  {
    if k in s.m {
      assert KeyRight(s, k);
      assert forall c | c in s.m[k] :: ChannelRight(s, c);
    }
  }

  lemma DeliverOne<V>(before: seq<Channel<V>>, after: seq<Channel<V>>, wcs: set<nat>, left: set<nat>, v: V, c: nat, t: nat)
    requires Delivered(before, after, wcs, left, v) && c in left && left <= wcs && c < |after|
    ensures var sent := after[c].(buffer := after[c].buffer + [v], stage := Sent(t));
            Delivered(before, after[c := sent][c := sent.(closes := sent.closes + 1, stage := Completed(t))], wcs, left - {c}, v)
  {
  }

  lemma TakenInRange<V>(s: State<V>, t: nat, c: nat)
    requires Inv(s) && t < |s.completions| && c in s.completions[t].left
    ensures c < |s.channels|
  {
    assert CompletionRight(s, t) && Stays(s, t, c);
  }
}

/**
 The tool relay of the reliability soak: it forwards requests to the Host and passes replies back, or,
 while told to hold, keeps one whole committed reply until it is released.
 */
module Relay {
  import opened Frames
  import opened Prelude

  const MAX_REQUEST := 4 * 1024 * 1024 + 4
  const MAX_RESPONSE := 2 * 1024 * 1024 + 4

  datatype Side = Open | Ended | Destroyed

  /** One accepted connection: what it has buffered, what it has written to each side, and how each side
      stands. */
  datatype Conn = Conn(
    requests: seq<Bytes>, responses: seq<Bytes>, requestSize: nat, responseSize: nat,
    forwarded: Bytes, delivered: Bytes, upstream: Side, downstream: Side)

  const FRESH := Conn([], [], 0, 0, [], [], Open, Open)

  datatype Held = Held(id: nat, bytes: Bytes)

  datatype Run = Run(hold: bool, held: Option<Held>, failed: bool, conns: map<nat, Conn>) {
    function At(id: nat): Conn {
      if id in conns then conns[id] else FRESH
    }
  }

  datatype Event =
    | FromClient(id: nat, chunk: Bytes)
    | FromHost(id: nat, chunk: Bytes)
    | HostEnd(id: nat)
    | ClientGone(id: nat)
    | HostFailed(id: nat)
    | Hold
    | Release

  /** Whether a request and its reply are a successful committed write, by their JSON envelopes. */
  type Judge = (Bytes, Bytes) -> bool

  // ----- One event -----

  function Kill(c: Conn): Conn {
    c.(upstream := Destroyed, downstream := Destroyed)
  }

  function OnClientData(c: Conn, chunk: Bytes): Conn {
    if c.downstream.Destroyed? then c
    else
      var size := c.requestSize + |chunk|;
      if size > MAX_REQUEST then Kill(c.(requestSize := size))
      else c.(requestSize := size, requests := c.requests + [chunk],
              forwarded := if c.upstream.Open? then c.forwarded + chunk else c.forwarded)
  }

  function OnHostData(c: Conn, hold: bool, chunk: Bytes): Conn {
    if !c.upstream.Open? then c
    else
      var size := c.responseSize + |chunk|;
      if size > MAX_RESPONSE then Kill(c.(responseSize := size))
      else if hold then c.(responseSize := size, responses := c.responses + [chunk])
      else c.(responseSize := size, delivered := if c.downstream.Open? then c.delivered + chunk else c.delivered)
  }

  predicate Holdable(judge: Judge, c: Conn) {
    var request, response := Joined(c.requests), Joined(c.responses);
    IsWhole(request) && IsWhole(response) && judge(request[4..], response[4..])
  }

  function OnHostEnd(judge: Judge, run: Run, id: nat): Run {
    var c := run.At(id);
    if !c.upstream.Open? then run
    else if !run.hold then
      run.(conns := run.conns[id := c.(upstream := Ended, downstream := if c.downstream.Open? then Ended else c.downstream)])
    else if run.held.None? && Holdable(judge, c) then
      run.(held := Some(Held(id, Joined(c.responses))), conns := run.conns[id := c.(upstream := Ended)])
    else run.(failed := true, conns := run.conns[id := Kill(c)])
  }

  function OnRelease(run: Run): Run {
    var calm := run.(hold := false, held := None);
    if run.held.None? then calm
    else
      var h := run.held.value;
      var c := run.At(h.id);
      if c.downstream.Destroyed? then calm
      else calm.(conns := run.conns[h.id := c.(delivered := c.delivered + h.bytes, downstream := Ended)])
  }

  function Handle(judge: Judge, run: Run, e: Event): Run {
    match e
    case FromClient(id, chunk) => run.(conns := run.conns[id := OnClientData(run.At(id), chunk)])
    case FromHost(id, chunk) => run.(conns := run.conns[id := OnHostData(run.At(id), run.hold, chunk)])
    case HostEnd(id) => OnHostEnd(judge, run, id)
    case ClientGone(id) => run.(conns := run.conns[id := Kill(run.At(id))])
    case HostFailed(id) => run.(conns := run.conns[id := Kill(run.At(id))])
    case Hold => run.(hold := true)
    case Release => OnRelease(run)
  }

  /** The relay's variables, changed in place by its event handlers. */
  class ToolProxy {
    const judge: Judge
    var holdToolResponse: bool
    var heldToolReply: Option<Held>
    var proxyFailure: bool
    var conns: map<nat, Conn>

    function State(): Run
      reads this
    {
      Run(holdToolResponse, heldToolReply, proxyFailure, conns)
    }

    constructor (judge: Judge)
      ensures this.judge == judge && State() == Run(false, None, false, map[])
    {
      this.judge := judge;
      holdToolResponse, heldToolReply, proxyFailure, conns := false, None, false, map[];
    }

    method ClientData(id: nat, chunk: Bytes)
      modifies this
      ensures State() == Handle(judge, old(State()), FromClient(id, chunk))
    {
      var c := State().At(id);
      if !c.downstream.Destroyed? {
        c := c.(requestSize := c.requestSize + |chunk|);
        if c.requestSize > MAX_REQUEST {
          c := c.(upstream := Destroyed, downstream := Destroyed);
        } else {
          c := c.(requests := c.requests + [chunk]);
          if c.upstream.Open? {
            c := c.(forwarded := c.forwarded + chunk);
          }
        }
      }
      conns := conns[id := c];
    }

    method HostData(id: nat, chunk: Bytes)
      modifies this
      ensures State() == Handle(judge, old(State()), FromHost(id, chunk))
    {
      var c := State().At(id);
      if c.upstream.Open? {
        c := c.(responseSize := c.responseSize + |chunk|);
        if c.responseSize > MAX_RESPONSE {
          c := c.(upstream := Destroyed, downstream := Destroyed);
        } else if holdToolResponse {
          c := c.(responses := c.responses + [chunk]);
        } else if c.downstream.Open? {
          c := c.(delivered := c.delivered + chunk);
        }
      }
      conns := conns[id := c];
    }

    method HostEnds(id: nat)
      modifies this
      ensures State() == Handle(judge, old(State()), HostEnd(id))
    {
      var c := State().At(id);
      if !c.upstream.Open? {
        return;
      }
      c := c.(upstream := Ended);
      if !holdToolResponse {
        if c.downstream.Open? {
          c := c.(downstream := Ended);
        }
        conns := conns[id := c];
        return;
      }
      var request, response := Joined(c.requests), Joined(c.responses);
      if heldToolReply.None? && IsWhole(request) && IsWhole(response) && judge(request[4..], response[4..]) {
        heldToolReply := Some(Held(id, response));
      } else {
        proxyFailure := true;
        c := c.(upstream := Destroyed, downstream := Destroyed);
      }
      conns := conns[id := c];
    }

    method ReleaseHostToolResponse()
      modifies this
      ensures State() == Handle(judge, old(State()), Release)
    {
      holdToolResponse := false;
      var held := heldToolReply;
      heldToolReply := None;
      if held.None? {
        return;
      }
      var c := State().At(held.value.id);
      if !c.downstream.Destroyed? {
        conns := conns[held.value.id := c.(delivered := c.delivered + held.value.bytes, downstream := Ended)];
      }
    }
  }

  // ----- Whole runs, and what was asked of each connection -----

  function Outcome(judge: Judge, events: seq<Event>): Run {
    if events == [] then Run(false, None, false, map[])
    else Handle(judge, Outcome(judge, events[..|events| - 1]), events[|events| - 1])
  }

  datatype Sent = Sent(hold: bool, chunk: Bytes)

  /** What a bystander sees of one connection: the hold flag, what the client sent, what the Host sent
      before it ended with the flag each chunk met, the flag at that end, and a release after it. */
  datatype Watch = Watch(hold: bool, asked: seq<Bytes>, sent: seq<Sent>, ended: Option<bool>, released: bool) {
    function Reply(): Bytes {
      Joined(Chunks(sent))
    }

    function Passed(): Bytes {
      Joined(Only(sent, false))
    }

    function Kept(): Bytes {
      Joined(Only(sent, true))
    }
  }

  function See(w: Watch, e: Event, id: nat): Watch {
    match e
    case FromClient(i, chunk) => if i == id then w.(asked := w.asked + [chunk]) else w
    case FromHost(i, chunk) => if i == id && w.ended.None? then w.(sent := w.sent + [Sent(w.hold, chunk)]) else w
    case HostEnd(i) => if i == id && w.ended.None? then w.(ended := Some(w.hold)) else w
    case ClientGone(_) => w
    case HostFailed(_) => w
    case Hold => w.(hold := true)
    case Release => w.(hold := false, released := w.released || w.ended.Some?)
  }

  function Watched(events: seq<Event>, id: nat): Watch {
    if events == [] then Watch(false, [], [], None, false)
    else See(Watched(events[..|events| - 1], id), events[|events| - 1], id)
  }

  function Chunks(h: seq<Sent>): seq<Bytes> {
    if h == [] then [] else Chunks(h[..|h| - 1]) + [h[|h| - 1].chunk]
  }

  /** The chunks that met the flag in one position. */
  function Only(h: seq<Sent>, hold: bool): seq<Bytes> {
    if h == [] then []
    else Only(h[..|h| - 1], hold) + if h[|h| - 1].hold == hold then [h[|h| - 1].chunk] else []
  }

  lemma SnocFacts(h: seq<Sent>, s: Sent)
    ensures Chunks(h + [s]) == Chunks(h) + [s.chunk] && Only(h + [s], s.hold) == Only(h, s.hold) + [s.chunk]
    ensures Only(h + [s], !s.hold) == Only(h, !s.hold)
    ensures Joined(Chunks(h + [s])) == Joined(Chunks(h)) + s.chunk
    ensures Joined(Only(h + [s], s.hold)) == Joined(Only(h, s.hold)) + s.chunk
  {
    assert (h + [s])[..|h|] == h;
    JoinedSnoc(Chunks(h), s.chunk);
    JoinedSnoc(Only(h, s.hold), s.chunk);
  }

  lemma JoinedSnoc(chunks: seq<Bytes>, chunk: Bytes)
    ensures Joined(chunks + [chunk]) == Joined(chunks) + chunk
  {
    assert (chunks + [chunk])[..|chunks|] == chunks;
  }

  // ----- The law of every run -----

  predicate Broken(c: Conn) {
    c.upstream.Destroyed? || c.downstream.Destroyed?
  }

  /** Every byte sent on an unbroken connection is where the flags it met say it is. */
  predicate Accounts(run: Run, w: Watch, id: nat) {
    var c := run.At(id);
    && c.requests == w.asked && c.requestSize == |Joined(w.asked)|
    && c.responses == Only(w.sent, true) && c.responseSize == |w.Reply()|
    && (c.upstream.Open? <==> w.ended.None?) && (w.ended.None? ==> !w.released && c.forwarded == Joined(w.asked))
    && c.delivered == (if w.ended == Some(true) && w.released then w.Passed() + w.Kept() else w.Passed())
    && (c.downstream.Ended? <==> w.ended.Some? && (w.ended.value ==> w.released))
    && (run.held.Some? && run.held.value.id == id <==> w.ended == Some(true) && !w.released)
    && (run.held.Some? && run.held.value.id == id ==> run.held.value.bytes == w.Kept())
  }

  lemma OthersDoNotMatter(judge: Judge, run: Run, w: Watch, id: nat, e: Event)
    requires Accounts(run, w, id) && run.hold == w.hold && !e.Release? && !e.Hold? && e.id != id
    ensures Accounts(Handle(judge, run, e), See(w, e, id), id)
  {
    assert Handle(judge, run, e).At(id) == run.At(id);
  }

  lemma AccountsForClient(judge: Judge, run: Run, w: Watch, id: nat, chunk: Bytes)
    requires Accounts(run, w, id) && !Broken(Handle(judge, run, FromClient(id, chunk)).At(id))
    ensures Accounts(Handle(judge, run, FromClient(id, chunk)), See(w, FromClient(id, chunk), id), id)
  {
    JoinedSnoc(w.asked, chunk);
  }

  /** What one more chunk adds to what is seen of a reply. */
  lemma SeenChunk(w: Watch, chunk: Bytes)
    ensures
      var v := w.(sent := w.sent + [Sent(w.hold, chunk)]);
      && v.Reply() == w.Reply() + chunk
      && Only(v.sent, true) == Only(w.sent, true) + (if w.hold then [chunk] else [])
      && v.Passed() == w.Passed() + if w.hold then [] else chunk
  {
    SnocFacts(w.sent, Sent(w.hold, chunk));
  }

  /** What a chunk within the limit changes on an open connection. */
  lemma OpenHostData(c: Conn, hold: bool, chunk: Bytes)
    requires c.upstream.Open? && c.downstream.Open? && !Broken(OnHostData(c, hold, chunk))
    ensures OnHostData(c, hold, chunk) == c.(
      responseSize := c.responseSize + |chunk|,
      responses := c.responses + (if hold then [chunk] else []),
      delivered := c.delivered + if hold then [] else chunk)
  {
  }

  lemma AccountsForHost(judge: Judge, run: Run, w: Watch, id: nat, chunk: Bytes)
    requires Accounts(run, w, id) && run.hold == w.hold && !Broken(Handle(judge, run, FromHost(id, chunk)).At(id))
    ensures Accounts(Handle(judge, run, FromHost(id, chunk)), See(w, FromHost(id, chunk), id), id)
  {
    assert Handle(judge, run, FromHost(id, chunk)).At(id) == OnHostData(run.At(id), run.hold, chunk);
    if w.ended.None? {
      SeenChunk(w, chunk);
      OpenHostData(run.At(id), run.hold, chunk);
    }
  }

  lemma AccountsForEnd(judge: Judge, run: Run, w: Watch, id: nat)
    requires Accounts(run, w, id) && run.hold == w.hold && !Broken(Handle(judge, run, HostEnd(id)).At(id))
    ensures Accounts(Handle(judge, run, HostEnd(id)), See(w, HostEnd(id), id), id)
  {
  }

  lemma AccountsForItsRelease(run: Run, w: Watch, id: nat)
    requires Accounts(run, w, id) && !Broken(run.At(id)) && run.held.Some? && run.held.value.id == id
    ensures Accounts(OnRelease(run), w.(hold := false, released := true), id)
  {
    var v := w.(hold := false, released := true);
    var d := OnRelease(run).At(id);
    assert v.Passed() == w.Passed() && v.Kept() == w.Kept() && v.Reply() == w.Reply();
    assert d == run.At(id).(delivered := w.Passed() + w.Kept(), downstream := Ended);
  }

  lemma AccountsForOtherRelease(run: Run, w: Watch, id: nat)
    requires Accounts(run, w, id) && !(run.held.Some? && run.held.value.id == id)
    ensures Accounts(OnRelease(run), w.(hold := false, released := w.released || w.ended.Some?), id)
  {
    var v := w.(hold := false, released := w.released || w.ended.Some?);
    assert v.Passed() == w.Passed() && v.Kept() == w.Kept() && v.Reply() == w.Reply();
    ReleaseSparesOthers(run, id);
  }

  lemma ReleaseSparesOthers(run: Run, id: nat)
    requires !(run.held.Some? && run.held.value.id == id)
    ensures OnRelease(run).At(id) == run.At(id) && OnRelease(run).held == None
  {
  }

  lemma AccountsForRelease(judge: Judge, run: Run, w: Watch, id: nat)
    requires Accounts(run, w, id) && !Broken(run.At(id))
    ensures Accounts(Handle(judge, run, Release), See(w, Release, id), id)
  {
    if run.held.Some? && run.held.value.id == id {
      AccountsForItsRelease(run, w, id);
    } else {
      AccountsForOtherRelease(run, w, id);
    }
  }

  lemma BrokenStaysBroken(judge: Judge, run: Run, e: Event, id: nat)
    requires Broken(run.At(id))
    ensures Broken(Handle(judge, run, e).At(id))
  {
  }

  lemma AccountsStep(judge: Judge, run: Run, w: Watch, id: nat, e: Event)
    requires Accounts(run, w, id) && !Broken(run.At(id)) && run.hold == w.hold
    requires !Broken(Handle(judge, run, e).At(id))
    ensures Accounts(Handle(judge, run, e), See(w, e, id), id)
  {
    if e.Release? {
      AccountsForRelease(judge, run, w, id);
    } else if e.Hold? {
      var v := See(w, e, id);
      assert v.Passed() == w.Passed() && v.Kept() == w.Kept() && v.Reply() == w.Reply();
    } else if e.id != id {
      OthersDoNotMatter(judge, run, w, id, e);
    } else if e.FromClient? {
      AccountsForClient(judge, run, w, id, e.chunk);
    } else if e.FromHost? {
      AccountsForHost(judge, run, w, id, e.chunk);
    } else if e.HostEnd? {
      AccountsForEnd(judge, run, w, id);
    }
  }

  lemma HoldAgrees(judge: Judge, run: Run, w: Watch, id: nat, e: Event)
    requires run.hold == w.hold
    ensures Handle(judge, run, e).hold == See(w, e, id).hold
  {
  }

  /** The relay and the bystander agree about a connection: it is broken, or every byte is accounted for. */
  predicate Agree(run: Run, w: Watch, id: nat) {
    run.hold == w.hold && (!Broken(run.At(id)) ==> Accounts(run, w, id))
  }

  lemma AgreeStep(judge: Judge, run: Run, w: Watch, id: nat, e: Event)
    requires Agree(run, w, id)
    ensures Agree(Handle(judge, run, e), See(w, e, id), id)
  {
    HoldAgrees(judge, run, w, id, e);
    var next, v := Handle(judge, run, e), See(w, e, id);
    if !Broken(next.At(id)) {
      assert !Broken(run.At(id)) by {
        if Broken(run.At(id)) {
          BrokenStaysBroken(judge, run, e, id);
        }
      }
      AccountsStep(judge, run, w, id, e);
      assert Accounts(next, v, id);
    }
  }

  lemma {:induction false} AgreeAlways(judge: Judge, events: seq<Event>, id: nat)
    ensures Agree(Outcome(judge, events), Watched(events, id), id)
  {
    if events != [] {
      var front := events[..|events| - 1];
      AgreeAlways(judge, front, id);
      AgreeStep(judge, Outcome(judge, front), Watched(front, id), id, events[|events| - 1]);
    }
  }

  lemma EveryByteIsAccountedFor(judge: Judge, events: seq<Event>, id: nat)
    ensures Outcome(judge, events).hold == Watched(events, id).hold
    ensures Broken(Outcome(judge, events).At(id)) || Accounts(Outcome(judge, events), Watched(events, id), id)
  {
    AgreeAlways(judge, events, id);
  }

  // ----- Which connections stay whole -----

  /** By what was sent, this is a whole successful exchange. */
  predicate Holds(judge: Judge, w: Watch) {
    IsWhole(Joined(w.asked)) && IsWhole(w.Kept()) && judge(Joined(w.asked)[4..], w.Kept()[4..])
  }

  /** The event neither closes this connection nor exceeds a limit on it, and if it ends a reply under
      the hold, no reply is held yet and this one is a whole successful one. */
  predicate Spares(judge: Judge, free: bool, w: Watch, e: Event, id: nat) {
    match e
    case FromClient(i, chunk) => i == id ==> |Joined(w.asked)| + |chunk| <= MAX_REQUEST
    case FromHost(i, chunk) => i == id && w.ended.None? ==> |w.Reply()| + |chunk| <= MAX_RESPONSE
    case HostEnd(i) => i == id && w.ended.None? && w.hold ==> free && Holds(judge, w)
    case ClientGone(i) => i != id
    case HostFailed(i) => i != id
    case Hold => true
    case Release => true
  }

  /** To a bystander: whose reply is held. It was ended under the hold, on a connection that was intact,
      with no other reply held, and nothing was released since. */
  function Holder(judge: Judge, events: seq<Event>): Option<nat>
    decreases |events|, 0
  {
    if events == [] then None
    else
      var front, last := events[..|events| - 1], events[|events| - 1];
      match last
      case Release => None
      case HostEnd(i) =>
        var w := Watched(front, i);
        if Holder(judge, front).None? && w.ended.None? && w.hold && Holds(judge, w) && Intact(judge, front, i) then Some(i)
        else Holder(judge, front)
      case _ => Holder(judge, front)
  }

  /** To a bystander: no event so far has broken this connection. */
  predicate Intact(judge: Judge, events: seq<Event>, id: nat)
    decreases |events|, 1
  {
    events == [] ||
      var front := events[..|events| - 1];
      && Intact(judge, front, id)
      && Spares(judge, Holder(judge, front).None?, Watched(front, id), events[|events| - 1], id)
  }

  lemma ReleaseBreaksNothing(run: Run, id: nat)
    ensures Broken(OnRelease(run).At(id)) <==> Broken(run.At(id))
  {
    if !(run.held.Some? && run.held.value.id == id) {
      assert OnRelease(run).At(id) == run.At(id);
    }
  }

  lemma HoldableIff(judge: Judge, run: Run, w: Watch, id: nat)
    requires Accounts(run, w, id)
    ensures Holdable(judge, run.At(id)) <==> Holds(judge, w)
  {
  }

  lemma EndBreaksIff(judge: Judge, run: Run, id: nat)
    requires !Broken(run.At(id))
    ensures Broken(OnHostEnd(judge, run, id).At(id)) <==>
      run.At(id).upstream.Open? && run.hold && !(run.held.None? && Holdable(judge, run.At(id)))
  {
  }

  lemma SparesIffUnbroken(judge: Judge, run: Run, w: Watch, e: Event, id: nat)
    requires Accounts(run, w, id) && !Broken(run.At(id)) && run.hold == w.hold
    ensures Spares(judge, run.held.None?, w, e, id) <==> !Broken(Handle(judge, run, e).At(id))
  {
    if e.Release? {
      ReleaseBreaksNothing(run, id);
    } else if e.Hold? || e.id != id {
      assert Handle(judge, run, e).At(id) == run.At(id);
    } else if e.HostEnd? {
      HoldableIff(judge, run, w, id);
      EndBreaksIff(judge, run, id);
    }
  }

  function HeldId(run: Run): Option<nat> {
    if run.held.None? then None else Some(run.held.value.id)
  }

  /** The bystander and the relay agree on which connections are unbroken and on whose reply is held. */
  lemma {:induction false} IntactIffUnbroken(judge: Judge, events: seq<Event>, id: nat)
    ensures Intact(judge, events, id) <==> !Broken(Outcome(judge, events).At(id))
    ensures Holder(judge, events) == HeldId(Outcome(judge, events))
    decreases |events|
  {
    if events != [] {
      var front, e := events[..|events| - 1], events[|events| - 1];
      IntactIffUnbroken(judge, front, id);
      EveryByteIsAccountedFor(judge, front, id);
      var run := Outcome(judge, front);
      if Broken(run.At(id)) {
        BrokenStaysBroken(judge, run, e, id);
      } else {
        SparesIffUnbroken(judge, run, Watched(front, id), e, id);
      }
      if e.HostEnd? {
        IntactIffUnbroken(judge, front, e.id);
        EveryByteIsAccountedFor(judge, front, e.id);
        HolderAtEnd(judge, front, e.id);
      }
    }
  }

  lemma HolderAtEnd(judge: Judge, front: seq<Event>, i: nat)
    requires Intact(judge, front, i) <==> !Broken(Outcome(judge, front).At(i))
    requires Holder(judge, front) == HeldId(Outcome(judge, front))
    requires Outcome(judge, front).hold == Watched(front, i).hold
    requires Broken(Outcome(judge, front).At(i)) || Accounts(Outcome(judge, front), Watched(front, i), i)
    ensures
      var run, w := Outcome(judge, front), Watched(front, i);
      var takes := Holder(judge, front).None? && w.ended.None? && w.hold && Holds(judge, w) && Intact(judge, front, i);
      HeldId(OnHostEnd(judge, run, i)) == if takes then Some(i) else Holder(judge, front)
  {
    var run, w := Outcome(judge, front), Watched(front, i);
    if !Broken(run.At(i)) {
      HoldableIff(judge, run, w, i);
    } else {
      BrokenHasClosed(judge, front, i);
    }
  }

  predicate ClosedIfBroken(c: Conn) {
    Broken(c) ==> c.upstream.Destroyed?
  }

  lemma ClosedIfBrokenStep(judge: Judge, run: Run, e: Event, id: nat)
    requires ClosedIfBroken(run.At(id))
    ensures ClosedIfBroken(Handle(judge, run, e).At(id))
  {
    if !e.Release? && !e.Hold? && e.id != id {
      assert Handle(judge, run, e).At(id) == run.At(id);
    }
  }

  /** A broken connection hears no more from the Host. */
  lemma {:induction false} BrokenHasClosed(judge: Judge, events: seq<Event>, id: nat)
    ensures ClosedIfBroken(Outcome(judge, events).At(id))
  {
    if events != [] {
      BrokenHasClosed(judge, events[..|events| - 1], id);
      ClosedIfBrokenStep(judge, Outcome(judge, events[..|events| - 1]), events[|events| - 1], id);
    }
  }

  // ----- When the relay fails -----

  /** To a bystander: the Host ends a reply on an intact connection under the hold, and another reply is
      held already or this one is not a whole successful exchange. */
  ghost predicate RefusedAt(judge: Judge, events: seq<Event>, i: nat) {
    && i < |events| && events[i].HostEnd?
    && var front, id := events[..i], events[i].id;
       && Intact(judge, front, id) && Watched(front, id).ended.None? && Watched(front, id).hold
       && !(Holder(judge, front).None? && Holds(judge, Watched(front, id)))
  }

  lemma FailsIffRefused(judge: Judge, events: seq<Event>)
    requires events != []
    ensures
      var front := events[..|events| - 1];
      Outcome(judge, events).failed <==> Outcome(judge, front).failed || RefusedAt(judge, events, |events| - 1)
  {
    var front, e := events[..|events| - 1], events[|events| - 1];
    if e.HostEnd? {
      IntactIffUnbroken(judge, front, e.id);
      EveryByteIsAccountedFor(judge, front, e.id);
      if Broken(Outcome(judge, front).At(e.id)) {
        BrokenHasClosed(judge, front, e.id);
      } else {
        HoldableIff(judge, Outcome(judge, front), Watched(front, e.id), e.id);
      }
    }
  }

  lemma RefusedInFront(judge: Judge, events: seq<Event>, i: nat)
    requires i < |events| - 1
    ensures RefusedAt(judge, events, i) <==> RefusedAt(judge, events[..|events| - 1], i)
  {
    assert events[..|events| - 1][..i] == events[..i];
  }

  lemma {:induction false} RefusedStaysBroken(judge: Judge, events: seq<Event>, i: nat)
    requires RefusedAt(judge, events, i)
    ensures !Intact(judge, events, events[i].id)
  {
    if i < |events| - 1 {
      RefusedInFront(judge, events, i);
      RefusedStaysBroken(judge, events[..|events| - 1], i);
    }
  }

  lemma {:induction false} FailedIffRefused(judge: Judge, events: seq<Event>)
    ensures Outcome(judge, events).failed <==> exists i: nat :: RefusedAt(judge, events, i)
  {
    if events != [] {
      var n := |events| - 1;
      FailedIffRefused(judge, events[..n]);
      FailsIffRefused(judge, events);
      if i: nat :| RefusedAt(judge, events[..n], i) {
        RefusedInFront(judge, events, i);
      }
      if i: nat :| i < n && RefusedAt(judge, events, i) {
        RefusedInFront(judge, events, i);
      }
    }
  }

  /** The relay reports a failure exactly when some reply was refused, and that reply's connection is
      broken from then on. */
  lemma FailedExactly(judge: Judge, events: seq<Event>)
    ensures Outcome(judge, events).failed <==> exists i: nat :: RefusedAt(judge, events, i)
    ensures forall i: nat | RefusedAt(judge, events, i) :: !Intact(judge, events, events[i].id)
  {
    FailedIffRefused(judge, events);
    forall i: nat | RefusedAt(judge, events, i) ensures !Intact(judge, events, events[i].id) {
      RefusedStaysBroken(judge, events, i);
    }
  }

  // ----- Replies whose hold flag does not change -----

  lemma {:induction false} OnlyOne(h: seq<Sent>, hold: bool)
    requires forall i | 0 <= i < |h| :: h[i].hold == hold
    ensures Only(h, hold) == Chunks(h) && Only(h, !hold) == []
  {
    if h != [] {
      OnlyOne(h[..|h| - 1], hold);
    }
  }

  /** With the hold off throughout, the client has the whole reply, in order and once. With it on
      throughout, the client has nothing until the release and the whole reply, in order and once, after. */
  lemma WholeReplyArrives(judge: Judge, events: seq<Event>, id: nat, hold: bool)
    requires Intact(judge, events, id) && Watched(events, id).ended == Some(hold)
    requires forall i | 0 <= i < |Watched(events, id).sent| :: Watched(events, id).sent[i].hold == hold
    ensures
      var run, w := Outcome(judge, events), Watched(events, id);
      if hold && !w.released then
        run.At(id).delivered == [] && run.At(id).downstream.Open? && run.held == Some(Held(id, w.Reply()))
      else
        run.At(id).delivered == w.Reply() && run.At(id).downstream.Ended?
  {
    IntactIffUnbroken(judge, events, id);
    EveryByteIsAccountedFor(judge, events, id);
    var w := Watched(events, id);
    OnlyOne(w.sent, hold);
    assert w.Kept() == if hold then w.Reply() else [];
    assert w.Passed() + w.Kept() == w.Reply();
  }

  /** At most one connection's reply is held. */
  lemma OneReplyIsHeld(judge: Judge, events: seq<Event>, a: nat, b: nat)
    requires Intact(judge, events, a) && Intact(judge, events, b)
    requires Watched(events, a).ended == Some(true) && !Watched(events, a).released
    requires Watched(events, b).ended == Some(true) && !Watched(events, b).released
    ensures a == b
  {
    IntactIffUnbroken(judge, events, a);
    EveryByteIsAccountedFor(judge, events, a);
    IntactIffUnbroken(judge, events, b);
    EveryByteIsAccountedFor(judge, events, b);
  }

  predicate Finished(run: Run, id: nat) {
    var c := run.At(id);
    !c.upstream.Open? && !c.downstream.Open? && !(run.held.Some? && run.held.value.id == id)
  }

  lemma FinishedStep(judge: Judge, run: Run, e: Event, id: nat)
    requires Finished(run, id)
    ensures Finished(Handle(judge, run, e), id) && Handle(judge, run, e).At(id).delivered == run.At(id).delivered
  {
  }

  lemma {:induction false} FinishedForever(judge: Judge, events: seq<Event>, more: seq<Event>, id: nat)
    requires Finished(Outcome(judge, events), id)
    ensures Finished(Outcome(judge, events + more), id)
    ensures Outcome(judge, events + more).At(id).delivered == Outcome(judge, events).At(id).delivered
  {
    if more == [] {
      assert events + more == events;
    } else {
      var front, last := more[..|more| - 1], more[|more| - 1];
      FinishedForever(judge, events, front, id);
      assert events + more == (events + front) + [last];
      Next(judge, events + front, last, id);
      FinishedStep(judge, Outcome(judge, events + front), last, id);
    }
  }

  /** Once the client's side is ended, nothing is ever delivered on it again: not by more data, not by a
      second release. */
  lemma DeliveryIsFinal(judge: Judge, events: seq<Event>, more: seq<Event>, id: nat)
    requires Intact(judge, events, id) && Outcome(judge, events).At(id).downstream.Ended?
    ensures Outcome(judge, events + more).At(id).delivered == Outcome(judge, events).At(id).delivered
  {
    IntactIffUnbroken(judge, events, id);
    EveryByteIsAccountedFor(judge, events, id);
    FinishedForever(judge, events, more, id);
  }

  // ----- Replies whose hold flag does change -----

  lemma {:induction false} SizesAddUp(h: seq<Sent>)
    ensures |Joined(Chunks(h))| == |Joined(Only(h, false))| + |Joined(Only(h, true))|
  {
    if h != [] {
      var front := h[..|h| - 1];
      SizesAddUp(front);
      assert h == front + [h[|h| - 1]];
      SnocFacts(front, h[|h| - 1]);
    }
  }

  /** A reply that ends with the hold off arrives whole exactly when none of it was buffered before. */
  lemma EndedFreeIsWholeIff(judge: Judge, events: seq<Event>, id: nat)
    requires Intact(judge, events, id) && Watched(events, id).ended == Some(false)
    ensures
      var c, w := Outcome(judge, events).At(id), Watched(events, id);
      c.downstream.Ended? && (c.delivered == w.Reply() <==> forall i | 0 <= i < |w.sent| && w.sent[i].hold :: w.sent[i].chunk == [])
  {
    IntactIffUnbroken(judge, events, id);
    EveryByteIsAccountedFor(judge, events, id);
    var w := Watched(events, id);
    SizesAddUp(w.sent);
    NothingMetIff(w.sent, true);
    if w.Kept() == [] {
      AllMetOther(w.sent, true);
    }
  }

  lemma {:induction false} NothingMetIff(h: seq<Sent>, hold: bool)
    ensures Joined(Only(h, hold)) == [] <==> forall i | 0 <= i < |h| && h[i].hold == hold :: h[i].chunk == []
  {
    if h != [] {
      var front, last := h[..|h| - 1], h[|h| - 1];
      NothingMetIff(front, hold);
      assert h == front + [last];
      SnocFacts(front, last);
      assert forall i | 0 <= i < |front| :: front[i] == h[i];
    }
  }

  lemma {:induction false} AllMetOther(h: seq<Sent>, hold: bool)
    requires Joined(Only(h, hold)) == []
    ensures Joined(Only(h, !hold)) == Joined(Chunks(h))
  {
    if h != [] {
      var front, last := h[..|h| - 1], h[|h| - 1];
      assert h == front + [last];
      SnocFacts(front, last);
      AllMetOther(front, hold);
    }
  }

  /** No chunk passed through after one was buffered. */
  predicate SwitchedOnce(h: seq<Sent>) {
    forall i, j | 0 <= i < j < |h| && h[i].hold :: h[j].hold
  }

  function Select(h: seq<Sent>, hold: bool): (r: seq<Sent>)
    ensures forall i | 0 <= i < |r| :: r[i].hold == hold
  {
    if h == [] then []
    else Select(h[..|h| - 1], hold) + if h[|h| - 1].hold == hold then [h[|h| - 1]] else []
  }

  lemma {:induction false} SelectOne(h: seq<Sent>, hold: bool)
    requires forall i | 0 <= i < |h| :: h[i].hold == hold
    ensures Select(h, hold) == h && Select(h, !hold) == []
  {
    if h != [] {
      SelectOne(h[..|h| - 1], hold);
    }
  }

  /** Sending the passed chunks and then the buffered ones keeps the Host's order exactly when no chunk
      passed through after one was buffered. */
  lemma {:induction false} OrderIsKeptIff(h: seq<Sent>)
    ensures Select(h, false) + Select(h, true) == h <==> SwitchedOnce(h)
  {
    if SwitchedOnce(h) {
      SwitchedOnceKeepsOrder(h);
    }
    if Select(h, false) + Select(h, true) == h {
      var n := |Select(h, false)|;
      assert forall i | 0 <= i < |h| :: h[i].hold <==> n <= i;
    }
  }

  lemma {:induction false} SwitchedOnceKeepsOrder(h: seq<Sent>)
    requires SwitchedOnce(h)
    ensures Select(h, false) + Select(h, true) == h
  {
    if h != [] {
      var front, last := h[..|h| - 1], h[|h| - 1];
      if last.hold {
        SwitchedOnceKeepsOrder(front);
        assert Select(h, false) + Select(h, true) == (Select(front, false) + Select(front, true)) + [last];
      } else {
        assert forall i | 0 <= i < |h| :: !h[i].hold;
        SelectOne(h, false);
      }
    }
  }

  lemma {:induction false} SwitchedOnceKeepsBytes(h: seq<Sent>)
    requires SwitchedOnce(h)
    ensures Joined(Only(h, false)) + Joined(Only(h, true)) == Joined(Chunks(h))
  {
    if h != [] {
      var front, last := h[..|h| - 1], h[|h| - 1];
      assert h == front + [last];
      if last.hold {
        SwitchedOnceKeepsBytes(front);
        HeldLastKeepsBytes(front, last);
      } else {
        FreeKeepsBytes(h);
      }
    }
  }

  lemma FreeKeepsBytes(h: seq<Sent>)
    requires SwitchedOnce(h) && h != [] && !h[|h| - 1].hold
    ensures Joined(Only(h, false)) + Joined(Only(h, true)) == Joined(Chunks(h))
  {
    OnlyOne(h, false);
    assert Joined([]) == [];
  }

  lemma HeldLastKeepsBytes(h: seq<Sent>, last: Sent)
    requires last.hold && Joined(Only(h, false)) + Joined(Only(h, true)) == Joined(Chunks(h))
    ensures Joined(Only(h + [last], false)) + Joined(Only(h + [last], true)) == Joined(Chunks(h + [last]))
  {
    SnocFacts(h, last);
    Regroup(Joined(Only(h, false)), Joined(Only(h, true)), last.chunk);
  }

  lemma Regroup(a: Bytes, b: Bytes, c: Bytes)
    ensures a + (b + c) == (a + b) + c
  {
  }

  /** A held reply that was switched from passing to buffering at most once arrives whole and in order
      when released. */
  lemma HeldLateIsWhole(judge: Judge, events: seq<Event>, id: nat)
    requires Intact(judge, events, id) && SwitchedOnce(Watched(events, id).sent)
    requires Watched(events, id).ended == Some(true) && Watched(events, id).released
    ensures Outcome(judge, events).At(id).delivered == Watched(events, id).Reply()
  {
    IntactIffUnbroken(judge, events, id);
    EveryByteIsAccountedFor(judge, events, id);
    SwitchedOnceKeepsBytes(Watched(events, id).sent);
  }

  lemma Next(judge: Judge, events: seq<Event>, e: Event, id: nat)
    ensures Outcome(judge, events + [e]) == Handle(judge, Outcome(judge, events), e)
    ensures Watched(events + [e], id) == See(Watched(events, id), e, id)
  {
    assert (events + [e])[..|events|] == events;
  }

  ghost predicate Stands(judge: Judge, events: seq<Event>, hold: bool, held: Option<Held>, c: Conn, w: Watch) {
    var run := Outcome(judge, events);
    run.hold == hold && run.held == held && !run.failed && run.At(0) == c && Watched(events, 0) == w
  }

  /** A reply begun under the hold and ended after the release is lost without any failure. */
  lemma ReleaseTooEarlyLosesTheReply(judge: Judge, chunk: Bytes)
    requires 0 < |chunk| <= MAX_RESPONSE
    ensures
      var events := [Hold] + [FromHost(0, chunk)] + [Release] + [HostEnd(0)];
      var run := Outcome(judge, events);
      Watched(events, 0).Reply() == chunk && run.At(0).delivered == [] && run.At(0).downstream.Ended? && !run.failed
  {
    var sent, c := [Sent(true, chunk)], FRESH.(responses := [chunk], responseSize := |chunk|);
    var e1 := [Hold];
    assert e1[..0] == [];
    assert Stands(judge, e1, true, None, FRESH, Watch(true, [], [], None, false));
    var e2 := e1 + [FromHost(0, chunk)];
    Next(judge, e1, FromHost(0, chunk), 0);
    assert Stands(judge, e2, true, None, c, Watch(true, [], sent, None, false));
    var e3 := e2 + [Release];
    Next(judge, e2, Release, 0);
    assert Stands(judge, e3, false, None, c, Watch(false, [], sent, None, false));
    Next(judge, e3, HostEnd(0), 0);
    ReplyOfOne(true, chunk);
  }

  lemma ReplyOfOne(hold: bool, chunk: Bytes)
    ensures Joined(Chunks([Sent(hold, chunk)])) == chunk && Joined([chunk]) == chunk
  {
    SnocFacts([], Sent(hold, chunk));
    JoinedSnoc([], chunk);
    assert [] + [Sent(hold, chunk)] == [Sent(hold, chunk)] && [] + [chunk] == [chunk];
  }

  /** A request and a reply frame the relay holds, and bytes after it, all within the limits. */
  ghost predicate Exchange(judge: Judge, q: Bytes, f: Bytes, x: Bytes) {
    && IsWhole(q) && IsWhole(f) && judge(q[4..], f[4..])
    && |q| <= MAX_REQUEST && |f| + |x| <= MAX_RESPONSE
  }

  ghost function Buffered(q: Bytes, f: Bytes): seq<Event> {
    [FromClient(0, q)] + [Hold] + [FromHost(0, f)]
  }

  ghost function ThenPassed(q: Bytes, f: Bytes, x: Bytes): seq<Event> {
    Buffered(q, f) + [Release] + [FromHost(0, x)]
  }

  ghost function ThenHeld(q: Bytes, f: Bytes, x: Bytes): seq<Event> {
    ThenPassed(q, f, x) + [Hold] + [HostEnd(0)]
  }

  lemma AfterBuffered(judge: Judge, q: Bytes, f: Bytes)
    requires |q| <= MAX_REQUEST && |f| <= MAX_RESPONSE
    ensures Stands(judge, Buffered(q, f), true, None, Conn([q], [f], |q|, |f|, q, [], Open, Open),
      Watch(true, [q], [Sent(true, f)], None, false))
  {
    var e1 := [FromClient(0, q)];
    assert e1[..0] == [] && [] + q == q;
    var c := Conn([q], [], |q|, 0, q, [], Open, Open);
    assert Stands(judge, e1, false, None, c, Watch(false, [q], [], None, false));
    Next(judge, e1, Hold, 0);
    assert Stands(judge, e1 + [Hold], true, None, c, Watch(true, [q], [], None, false));
    Next(judge, e1 + [Hold], FromHost(0, f), 0);
  }

  lemma AfterPassed(judge: Judge, q: Bytes, f: Bytes, x: Bytes)
    requires |q| <= MAX_REQUEST && |f| + |x| <= MAX_RESPONSE
    ensures Stands(judge, ThenPassed(q, f, x), false, None, Conn([q], [f], |q|, |f| + |x|, q, x, Open, Open),
      Watch(false, [q], [Sent(true, f)] + [Sent(false, x)], None, false))
  {
    var e3 := Buffered(q, f);
    AfterBuffered(judge, q, f);
    Next(judge, e3, Release, 0);
    assert Stands(judge, e3 + [Release], false, None, Conn([q], [f], |q|, |f|, q, [], Open, Open),
      Watch(false, [q], [Sent(true, f)], None, false));
    Next(judge, e3 + [Release], FromHost(0, x), 0);
    assert [] + x == x;
  }

  lemma BeforeEnd(judge: Judge, q: Bytes, f: Bytes, x: Bytes)
    requires |q| <= MAX_REQUEST && |f| + |x| <= MAX_RESPONSE
    ensures Stands(judge, ThenPassed(q, f, x) + [Hold], true, None, Conn([q], [f], |q|, |f| + |x|, q, x, Open, Open),
      Watch(true, [q], [Sent(true, f)] + [Sent(false, x)], None, false))
  {
    AfterPassed(judge, q, f, x);
    Next(judge, ThenPassed(q, f, x), Hold, 0);
  }

  lemma HoldableOne(judge: Judge, c: Conn, q: Bytes, f: Bytes)
    requires c.requests == [q] && c.responses == [f] && IsWhole(q) && IsWhole(f) && judge(q[4..], f[4..])
    ensures Joined(c.responses) == f && Holdable(judge, c)
  {
    ReplyOfOne(true, f);
    ReplyOfOne(true, q);
  }

  lemma AfterHeld(judge: Judge, q: Bytes, f: Bytes, x: Bytes)
    requires Exchange(judge, q, f, x)
    ensures Stands(judge, ThenHeld(q, f, x), true, Some(Held(0, f)), Conn([q], [f], |q|, |f| + |x|, q, x, Ended, Open),
      Watch(true, [q], [Sent(true, f)] + [Sent(false, x)], Some(true), false))
  {
    var e6 := ThenPassed(q, f, x) + [Hold];
    BeforeEnd(judge, q, f, x);
    var c := Conn([q], [f], |q|, |f| + |x|, q, x, Open, Open);
    HoldableOne(judge, c, q, f);
    EndHolds(judge, Outcome(judge, e6), c, f);
    Next(judge, e6, HostEnd(0), 0);
  }

  lemma EndHolds(judge: Judge, run: Run, c: Conn, reply: Bytes)
    requires run.hold && run.held.None? && run.At(0) == c && c.upstream.Open?
    requires Joined(c.responses) == reply && Holdable(judge, c)
    ensures
      var end := OnHostEnd(judge, run, 0);
      end.hold && end.held == Some(Held(0, reply)) && end.At(0) == c.(upstream := Ended) && end.failed == run.failed
  {
  }

  /** A reply whose frame was buffered, followed by bytes that passed, and ended under a second hold: the
      later bytes arrive first, and no failure is reported. */
  lemma SecondHoldReordersTheReply(judge: Judge, q: Bytes, f: Bytes, x: Bytes)
    requires Exchange(judge, q, f, x)
    ensures
      var events := ThenHeld(q, f, x) + [Release];
      var run := Outcome(judge, events);
      && Watched(events, 0).Reply() == f + x && run.At(0).delivered == x + f && !run.failed
      && (run.At(0).delivered == Watched(events, 0).Reply() <==> x + f == f + x)
  {
    AfterSecondRelease(judge, q, f, x);
  }

  lemma AfterSecondRelease(judge: Judge, q: Bytes, f: Bytes, x: Bytes)
    requires Exchange(judge, q, f, x)
    ensures Watched(ThenHeld(q, f, x) + [Release], 0).Reply() == f + x
    ensures
      var run := Outcome(judge, ThenHeld(q, f, x) + [Release]);
      run.At(0).delivered == x + f && !run.failed
  {
    var held := ThenHeld(q, f, x);
    AfterHeld(judge, q, f, x);
    ReleasesHeld(judge, held, f);
    ReplyOfTwo(f, x);
  }

  lemma ReleasesHeld(judge: Judge, events: seq<Event>, bytes: Bytes)
    requires Outcome(judge, events).held == Some(Held(0, bytes)) && !Outcome(judge, events).At(0).downstream.Destroyed?
    ensures Watched(events + [Release], 0).Reply() == Watched(events, 0).Reply()
    ensures
      var run := Outcome(judge, events + [Release]);
      && run.At(0).delivered == Outcome(judge, events).At(0).delivered + bytes && run.failed == Outcome(judge, events).failed
  {
    Next(judge, events, Release, 0);
    ReleaseDelivers(Outcome(judge, events), bytes);
  }

  lemma ReleaseDelivers(run: Run, bytes: Bytes)
    requires run.held == Some(Held(0, bytes)) && !run.At(0).downstream.Destroyed?
    ensures OnRelease(run).At(0).delivered == run.At(0).delivered + bytes && OnRelease(run).failed == run.failed
  {
  }

  lemma ReplyOfTwo(f: Bytes, x: Bytes)
    ensures Joined(Chunks([Sent(true, f)] + [Sent(false, x)])) == f + x
  {
    SnocFacts([Sent(true, f)], Sent(false, x));
    ReplyOfOne(true, f);
  }

  // ----- Replies that are one frame -----

  /** Everything that carries one of the first four bytes was buffered. */
  predicate HeaderBuffered(h: seq<Sent>) {
    forall i | 0 <= i < |h| && |Joined(Chunks(h[..i]))| < 4 && h[i].chunk != [] :: h[i].hold
  }

  lemma HeaderOfFront(h: seq<Sent>)
    requires h != [] && HeaderBuffered(h)
    ensures HeaderBuffered(h[..|h| - 1])
    ensures |Joined(Chunks(h[..|h| - 1]))| < 4 ==> h[|h| - 1].chunk == [] || h[|h| - 1].hold
  {
    var front := h[..|h| - 1];
    forall i | 0 <= i < |front| && |Joined(Chunks(front[..i]))| < 4 && front[i].chunk != [] ensures front[i].hold {
      assert front[..i] == h[..i];
    }
  }

  /** The buffered bytes begin as the reply begins, up to its header. */
  predicate SameHeader(all: Bytes, kept: Bytes) {
    |kept| <= |all| && if |all| < 4 then kept == all else |kept| >= 4 && kept[..4] == all[..4]
  }

  lemma SameHeaderStep(all: Bytes, kept: Bytes, chunk: Bytes, hold: bool)
    requires SameHeader(all, kept) && (|all| < 4 ==> chunk == [] || hold)
    ensures SameHeader(all + chunk, if hold then kept + chunk else kept)
  {
    if |all| >= 4 {
      assert (all + chunk)[..4] == all[..4] && (kept + chunk)[..4] == kept[..4];
    }
  }

  lemma {:induction false} HeaderIsKept(h: seq<Sent>)
    requires HeaderBuffered(h)
    ensures SameHeader(Joined(Chunks(h)), Joined(Only(h, true)))
  {
    if h != [] {
      var front, last := h[..|h| - 1], h[|h| - 1];
      HeaderOfFront(h);
      HeaderIsKept(front);
      HeaderSnoc(h, front, last, Joined(Chunks(front)), Joined(Only(front, true)));
    }
  }

  lemma HeaderSnoc(h: seq<Sent>, front: seq<Sent>, last: Sent, all: Bytes, kept: Bytes)
    requires h == front + [last] && all == Joined(Chunks(front)) && kept == Joined(Only(front, true))
    requires SameHeader(all, kept) && (|all| < 4 ==> last.hold || last.chunk == [])
    ensures SameHeader(Joined(Chunks(h)), Joined(Only(h, true)))
  {
    SnocFacts(front, last);
    SameHeaderStep(all, kept, last.chunk, last.hold);
  }

  lemma SameHeaderSameSize(all: Bytes, kept: Bytes)
    requires IsWhole(all) && IsWhole(kept) && SameHeader(all, kept)
    ensures |all| == |kept|
  {
    assert kept[0] == kept[..4][0] == all[0] && kept[1] == kept[..4][1] == all[1];
    assert kept[2] == kept[..4][2] == all[2] && kept[3] == kept[..4][3] == all[3];
  }

  /** When the Host's whole reply is one frame and is held at its end, nothing of it had passed through
      exactly when its header had not. */
  lemma NothingPassedIff(judge: Judge, events: seq<Event>, id: nat)
    requires Intact(judge, events, id) && Watched(events, id).ended == Some(true)
    requires IsWhole(Watched(events, id).Reply())
    ensures Watched(events, id).Passed() == [] <==> HeaderBuffered(Watched(events, id).sent)
  {
    var w := Watched(events, id);
    HeldIsWhole(judge, events, id);
    FramedPassedNothing(w.sent);
  }

  lemma FramedPassedNothing(h: seq<Sent>)
    requires IsWhole(Joined(Chunks(h))) && IsWhole(Joined(Only(h, true)))
    ensures Joined(Only(h, false)) == [] <==> HeaderBuffered(h)
  {
    if HeaderBuffered(h) {
      HeaderIsKept(h);
      SameHeaderSameSize(Joined(Chunks(h)), Joined(Only(h, true)));
      SizesAddUp(h);
    }
    NothingMetIff(h, false);
  }

  /** A reply ended under the hold, on a connection still intact, was itself a whole frame. */
  lemma {:induction false} HeldIsWhole(judge: Judge, events: seq<Event>, id: nat)
    requires Intact(judge, events, id) && Watched(events, id).ended == Some(true)
    ensures IsWhole(Watched(events, id).Kept())
  {
    var front, e := events[..|events| - 1], events[|events| - 1];
    if Watched(front, id).ended == Some(true) {
      HeldIsWhole(judge, front, id);
    }
  }

  /** A reply that is one frame and whose header was buffered arrives whole, in order and once: nothing
      before the release and all of it after, whatever the flag did in between. */
  lemma FramedReplyArrives(judge: Judge, events: seq<Event>, id: nat)
    requires Intact(judge, events, id) && Watched(events, id).ended == Some(true)
    requires IsWhole(Watched(events, id).Reply()) && HeaderBuffered(Watched(events, id).sent)
    ensures
      var run, w := Outcome(judge, events), Watched(events, id);
      if w.released then run.At(id).delivered == w.Reply() && run.At(id).downstream.Ended?
      else run.At(id).delivered == [] && run.held == Some(Held(id, w.Reply()))
  {
    var w := Watched(events, id);
    NothingPassedIff(judge, events, id);
    AllMetOther(w.sent, false);
    IntactIffUnbroken(judge, events, id);
    EveryByteIsAccountedFor(judge, events, id);
    HeldWhole(Outcome(judge, events), w, id);
  }

  lemma HeldWhole(run: Run, w: Watch, id: nat)
    requires Accounts(run, w, id) && !Broken(run.At(id)) && w.ended == Some(true)
    requires w.Passed() == [] && w.Kept() == w.Reply()
    ensures
      if w.released then run.At(id).delivered == w.Reply() && run.At(id).downstream.Ended?
      else run.At(id).delivered == [] && run.held == Some(Held(id, w.Reply()))
  {
    assert [] + w.Kept() == w.Kept();
  }
}

/** The relay: node and client handlers that share two maps, as interleaved steps. */
module Relay {
  import opened Bytes

  /** Connections are numbered; a number is never used again. */
  type Conn = nat

  datatype Response = Payload(req: string, payload: bytes) | Error(req: string)

  /** Where the handler of a client stands. */
  datatype ClientPc =
    | Asking             // before the target is looked up
    | Found(node: Conn)  // the target was attached
    | Waiting(node: Conn)   // in the pending map, not forwarded yet
    | Forwarded(node: Conn)
    | Failing            // the forward failed, still in the pending map
    | Dropped            // removed from the pending map, the error is still to be written
    | Done               // an error was written

  datatype Client = Client(target: string, req: string, at: ClientPc)

  /** Where the handler of a node stands; it holds a waiter between taking and answering it. */
  datatype NodePc = Serving | Holding(client: Conn, req: string, payload: bytes) | Gone

  datatype Node = Node(id: string, at: NodePc)

  /** The shared maps, the handlers, and what has happened: who was answered, what was delivered and sent,
      and the last registration of each ID. */
  datatype State = State(
    attached: map<string, Conn>,
    pending: map<string, Conn>,
    clients: map<Conn, Client>,
    nodes: map<Conn, Node>,
    replies: map<Conn, seq<Response>>,
    delivered: set<(Conn, string)>,
    sent: set<(Conn, string, bytes)>,
    latest: map<string, Conn>)

  function Start(): State {
    State(map[], map[], map[], map[], map[], {}, {}, map[])
  }

  function Detached(attached: map<string, Conn>, id: string, c: Conn): map<string, Conn> {
    if id in attached && attached[id] == c then attached - {id} else attached
  }

  // ---------------------------------------------------------------- steps

  datatype Step =
    | Register(n: Conn, id: string)
    | NodeSends(n: Conn, req: string, payload: bytes) // a response frame arrives from a node
    | WritePayload(n: Conn)
    | Detach(n: Conn)
    | Arrive(k: Conn, target: string, req: string)
    | LookUp(k: Conn)
    | AddWaiter(k: Conn)
    | Forward(k: Conn, ok: bool)
    | DropWaiter(k: Conn)
    | WriteError(k: Conn)

  predicate Fresh(s: State, c: Conn) {
    c !in s.clients && c !in s.nodes
  }

  predicate WellFormed(c: Client) {
    c.target != "" && c.req != ""
  }

  predicate ClientAt(s: State, k: Conn) {
    k in s.clients && k in s.replies
  }

  /** When a step can happen. Honest nodes answer only requests that were delivered to them,
      and well-formed requests have request IDs of their own. */
  predicate Enabled(s: State, step: Step, honest: bool) {
    match step
    case Register(n, id) => Fresh(s, n) && id != ""
    case NodeSends(n, req, payload) =>
      n in s.nodes && s.nodes[n].at == Serving && (honest ==> (n, req) in s.delivered)
    case WritePayload(n) => n in s.nodes && s.nodes[n].at.Holding? && ClientAt(s, s.nodes[n].at.client)
    case Detach(n) => n in s.nodes && s.nodes[n].at == Serving
    case Arrive(k, target, req) =>
      Fresh(s, k) && (WellFormed(Client(target, req, Asking)) ==>
        forall j :: j in s.clients && WellFormed(s.clients[j]) ==> s.clients[j].req != req)
    case LookUp(k) => ClientAt(s, k) && s.clients[k].at == Asking
    case AddWaiter(k) => ClientAt(s, k) && s.clients[k].at.Found?
    case Forward(k, ok) => ClientAt(s, k) && s.clients[k].at.Waiting?
    case DropWaiter(k) => ClientAt(s, k) && s.clients[k].at == Failing
    case WriteError(k) => ClientAt(s, k) && s.clients[k].at == Dropped
  }

  function Move(s: State, k: Conn, at: ClientPc): State
    requires k in s.clients
  {
    s.(clients := s.clients[k := s.clients[k].(at := at)])
  }

  function MoveNode(s: State, n: Conn, at: NodePc): State
    requires n in s.nodes
  {
    s.(nodes := s.nodes[n := s.nodes[n].(at := at)])
  }

  function Write(s: State, k: Conn, r: Response): State
    requires k in s.replies
  {
    s.(replies := s.replies[k := s.replies[k] + [r]])
  }

  function Apply(s: State, step: Step): State
    requires Enabled(s, step, false)
  {
    match step
    case Register(n, id) =>
      s.(attached := s.attached[id := n], nodes := s.nodes[n := Node(id, Serving)], latest := s.latest[id := n])
    case NodeSends(n, req, payload) =>
      var s' := s.(sent := s.sent + {(n, req, payload)}, pending := s.pending - {req});
      if req in s.pending then MoveNode(s', n, Holding(s.pending[req], req, payload)) else s'
    case WritePayload(n) =>
      var held := s.nodes[n].at;
      MoveNode(Write(s, held.client, Payload(held.req, held.payload)), n, Serving)
    case Detach(n) =>
      MoveNode(s.(attached := Detached(s.attached, s.nodes[n].id, n)), n, Gone)
    case Arrive(k, target, req) =>
      if WellFormed(Client(target, req, Asking))
      then s.(clients := s.clients[k := Client(target, req, Asking)], replies := s.replies[k := []])
      else s.(clients := s.clients[k := Client(target, req, Done)], replies := s.replies[k := [Error(req)]])
    case LookUp(k) =>
      var c := s.clients[k];
      if c.target in s.attached then Move(s, k, Found(s.attached[c.target]))
      else Move(Write(s, k, Error(c.req)), k, Done)
    case AddWaiter(k) =>
      Move(s.(pending := s.pending[s.clients[k].req := k]), k, Waiting(s.clients[k].at.node))
    case Forward(k, ok) =>
      var c := s.clients[k];
      if ok then Move(s.(delivered := s.delivered + {(c.at.node, c.req)}), k, Forwarded(c.at.node))
      else Move(s, k, Failing)
    case DropWaiter(k) =>
      Move(s.(pending := s.pending - {s.clients[k].req}), k, Dropped)
    case WriteError(k) =>
      Move(Write(s, k, Error(s.clients[k].req)), k, Done)
  }

  /** The two maps, and the sections of the handlers that change them under their locks: each one is a step. */
  class Server {
    var attached: map<string, Conn>
    var pending: map<string, Conn>

    constructor ()
      ensures Mirrors(Start())
    {
      attached, pending := map[], map[];
    }

    ghost predicate Mirrors(s: State)
      reads this
    {
      attached == s.attached && pending == s.pending
    }

    /** Registers a node; the connection it replaces is to be closed. */
    method Attach(id: string, c: Conn, ghost s: State) returns (replaced: Option<Conn>)
      requires Mirrors(s) && Enabled(s, Register(c, id), false)
      modifies this`attached
      ensures Mirrors(Apply(s, Register(c, id)))
      ensures replaced == if id in s.attached then Some(s.attached[id]) else None
    {
      replaced := if id in attached then Some(attached[id]) else None;
      attached := attached[id := c];
    }

    /** Removes a registration, unless a later one has replaced it. */
    method Detach(id: string, c: Conn, ghost s: State)
      requires Mirrors(s) && Enabled(s, Step.Detach(c), false) && s.nodes[c].id == id
      modifies this`attached
      ensures Mirrors(Apply(s, Step.Detach(c)))
    {
      if id in attached && attached[id] == c {
        attached := attached - {id};
      }
    }

    /** Where the handler of a client stands after it has looked the target up. */
    method GetAttached(id: string, ghost s: State, ghost k: Conn) returns (r: Option<Conn>)
      requires Mirrors(s) && Enabled(s, LookUp(k), false) && s.clients[k].target == id
      ensures Mirrors(Apply(s, LookUp(k)))
      ensures Apply(s, LookUp(k)).clients[k].at == if r.Some? then Found(r.value) else Done
    {
      return if id in attached then Some(attached[id]) else None;
    }

    method AddWaiter(req: string, c: Conn, ghost s: State)
      requires Mirrors(s) && Enabled(s, Step.AddWaiter(c), false) && s.clients[c].req == req
      modifies this`pending
      ensures Mirrors(Apply(s, Step.AddWaiter(c)))
    {
      pending := pending[req := c];
    }

    /** Takes the waiter of a request out of the map, so that nobody else can answer it. */
    method TakeWaiter(req: string, n: Conn, payload: bytes, ghost s: State) returns (waiter: Option<Conn>)
      requires Mirrors(s) && Enabled(s, NodeSends(n, req, payload), false)
      modifies this`pending
      ensures Mirrors(Apply(s, NodeSends(n, req, payload)))
      ensures Apply(s, NodeSends(n, req, payload)).nodes[n].at
           == if waiter.Some? then Holding(waiter.value, req, payload) else Serving
    {
      if req in pending {
        waiter := Some(pending[req]);
        pending := pending - {req};
      } else {
        waiter := None;
      }
    }

    method DropWaiter(req: string, c: Conn, ghost s: State)
      requires Mirrors(s) && Enabled(s, Step.DropWaiter(c), false) && s.clients[c].req == req
      modifies this`pending
      ensures Mirrors(Apply(s, Step.DropWaiter(c)))
    {
      pending := pending - {req};
    }
  }

  // ---------------------------------------------------------------- the invariant

  /** attached[id] is the last registration of id as long as its handler runs, and absent afterwards. */
  ghost predicate LatestAttached(s: State) {
    && s.attached.Keys <= s.latest.Keys
    && forall id :: id in s.latest ==>
         && s.latest[id] in s.nodes && s.nodes[s.latest[id]].id == id
         && (if s.nodes[s.latest[id]].at == Gone then id !in s.attached
             else id in s.attached && s.attached[id] == s.latest[id])
  }

  ghost predicate Undelivered(s: State, req: string) {
    forall n :: (n, req) !in s.delivered
  }

  /** What holds of a client, by where its handler stands. */
  ghost predicate ClientOk(s: State, k: Conn)
    requires ClientAt(s, k)
  {
    var c, out := s.clients[k], s.replies[k];
    match c.at
    case Asking => out == [] && c.req !in s.pending && Undelivered(s, c.req)
    case Found(n) =>
      && out == [] && c.req !in s.pending && Undelivered(s, c.req)
      && n in s.nodes && s.nodes[n].id == c.target
    case Waiting(n) =>
      && out == [] && c.req in s.pending && s.pending[c.req] == k && Undelivered(s, c.req)
      && n in s.nodes && s.nodes[n].id == c.target
    case Failing => out == [] && c.req in s.pending && s.pending[c.req] == k && Undelivered(s, c.req)
    case Dropped => out == [] && c.req !in s.pending && Undelivered(s, c.req)
    case Done => out == [Error(c.req)] && (WellFormed(c) ==> c.req !in s.pending && Undelivered(s, c.req))
    case Forwarded(n) =>
      && n in s.nodes && s.nodes[n].id == c.target
      && (forall m :: (m, c.req) in s.delivered ==> m == n)
      && if c.req in s.pending then out == [] && s.pending[c.req] == k && !HeldBy(s, n, k)
         else if HeldBy(s, n, k) then out == []
         else |out| == 1 && out[0].Payload? && out[0].req == c.req && (n, c.req, out[0].payload) in s.sent
  }

  predicate HeldBy(s: State, n: Conn, k: Conn) {
    n in s.nodes && s.nodes[n].at.Holding? && s.nodes[n].at.client == k
  }

  ghost predicate ClientsOk(s: State) {
    forall k :: k in s.clients ==>
      ClientAt(s, k) && ClientOk(s, k) && (WellFormed(s.clients[k]) || s.clients[k].at == Done)
  }

  ghost predicate OwnRequests(s: State) {
    forall j, k ::
      j in s.clients && k in s.clients && j != k && WellFormed(s.clients[j]) && WellFormed(s.clients[k]) ==>
      s.clients[j].req != s.clients[k].req
  }

  ghost predicate WaitersOk(s: State) {
    forall r :: r in s.pending ==>
      s.pending[r] in s.clients && s.clients[s.pending[r]].req == r && WellFormed(s.clients[s.pending[r]])
  }

  ghost predicate HoldersOk(s: State) {
    forall n, k :: HeldBy(s, n, k) ==>
      && k in s.clients && s.clients[k].at == Forwarded(n) && s.nodes[n].at.req == s.clients[k].req
      && s.nodes[n].at.req !in s.pending
      && (n, s.nodes[n].at.req, s.nodes[n].at.payload) in s.sent
  }

  ghost predicate ForwardedTo(s: State, n: Conn, r: string, k: Conn) {
    k in s.clients && s.clients[k].req == r && s.clients[k].at == Forwarded(n)
  }

  ghost predicate DeliveredOk(s: State) {
    forall n, r :: (n, r) in s.delivered ==> exists k :: ForwardedTo(s, n, r, k)
  }

  ghost predicate SentOk(s: State) {
    forall n, r, p :: (n, r, p) in s.sent ==> (n, r) in s.delivered
  }

  ghost predicate Inv(s: State) {
    SentOk(s) && LatestAttached(s) && ClientsOk(s) && OwnRequests(s) && WaitersOk(s) && HoldersOk(s) && DeliveredOk(s)
  }

  /** Nothing that concerns client j differs in s'. */
  ghost predicate SameFor(s: State, s': State, j: Conn)
    requires j in s.clients
  {
    var c := s.clients[j];
    && j in s'.clients && s'.clients[j] == c
    && j in s.replies && j in s'.replies && s'.replies[j] == s.replies[j]
    && (WellFormed(c) ==>
          && (c.req in s'.pending <==> c.req in s.pending)
          && (c.req in s.pending ==> s'.pending[c.req] == s.pending[c.req])
          && forall n :: (n, c.req) in s'.delivered <==> (n, c.req) in s.delivered)
    && (forall n :: n in s.nodes ==> n in s'.nodes && s'.nodes[n].id == s.nodes[n].id)
    && s.sent <= s'.sent
    && forall n :: HeldBy(s', n, j) <==> HeldBy(s, n, j)
  }

  lemma SameClientOk(s: State, s': State, j: Conn)
    requires ClientAt(s, j) && ClientOk(s, j) && SameFor(s, s', j)
    requires WellFormed(s.clients[j]) || s.clients[j].at == Done
    ensures ClientAt(s', j) && ClientOk(s', j)
  {
  }

  /** One client's handler moves, touching only its own entry, its own replies and its own request. */
  ghost predicate OnlyClient(s: State, s': State, k: Conn)
    requires ClientAt(s, k)
  {
    var r := s.clients[k].req;
    && ClientAt(s', k) && s'.clients == s.clients[k := s.clients[k].(at := s'.clients[k].at)]
    && s'.replies == s.replies[k := s'.replies[k]]
    && s'.nodes == s.nodes && s'.sent == s.sent && s'.attached == s.attached && s'.latest == s.latest
    && (forall q :: q != r ==>
          (q in s'.pending <==> q in s.pending) && (q in s.pending ==> s'.pending[q] == s.pending[q]))
    && (forall n, q :: q != r ==> ((n, q) in s'.delivered <==> (n, q) in s.delivered))
  }

  lemma ClientStepKeeps(s: State, s': State, k: Conn)
    requires Inv(s) && ClientAt(s, k) && OnlyClient(s, s', k)
    requires WellFormed(s.clients[k]) && !s.clients[k].at.Forwarded?
    requires ClientOk(s', k)
    requires s.clients[k].req in s'.pending ==> s'.pending[s.clients[k].req] == k
    requires forall n :: (n, s.clients[k].req) in s'.delivered ==> s'.clients[k].at == Forwarded(n)
    requires SentOk(s')
    ensures Inv(s')
  {
    SameAttached(s, s');
    ClientStepDelivered(s, s', k);
    ClientStepMaps(s, s', k);
    ClientStepHolders(s, s', k);
    ClientStepOthers(s, s', k);
    hide ClientsOk, LatestAttached, DeliveredOk, WaitersOk, HoldersOk, OwnRequests, SentOk;
  }

  lemma ClientStepOthers(s: State, s': State, k: Conn)
    requires Inv(s) && ClientAt(s, k) && OnlyClient(s, s', k)
    requires WellFormed(s.clients[k]) && ClientOk(s', k)
    ensures ClientsOk(s')
  {
    hide ClientOk, LatestAttached, SameFor;
    OthersSame(s, s', k);
    forall j | j in s.clients && j != k
      ensures ClientAt(s', j) && ClientOk(s', j)
    {
      SameClientOk(s, s', j);
    }
  }

  lemma ClientStepMaps(s: State, s': State, k: Conn)
    requires OwnRequests(s) && WaitersOk(s) && ClientAt(s, k) && OnlyClient(s, s', k)
    requires WellFormed(s.clients[k])
    requires s.clients[k].req in s'.pending ==> s'.pending[s.clients[k].req] == k
    ensures OwnRequests(s') && WaitersOk(s')
  {
  }

  lemma ClientStepHolders(s: State, s': State, k: Conn)
    requires OwnRequests(s) && HoldersOk(s) && ClientAt(s, k) && OnlyClient(s, s', k)
    requires forall j :: j in s.clients ==> WellFormed(s.clients[j]) || s.clients[j].at == Done
    requires WellFormed(s.clients[k]) && !s.clients[k].at.Forwarded?
    ensures HoldersOk(s')
  {
    forall n, j | HeldBy(s', n, j)
      ensures HeldBy(s, n, j) && j != k
    {
    }
  }

  lemma ClientStepDelivered(s: State, s': State, k: Conn)
    requires DeliveredOk(s) && ClientAt(s, k) && OnlyClient(s, s', k) && !s.clients[k].at.Forwarded?
    requires forall n :: (n, s.clients[k].req) in s'.delivered ==> s'.clients[k].at == Forwarded(n)
    ensures DeliveredOk(s')
  {
    forall n, q | (n, q) in s'.delivered
      ensures exists j :: ForwardedTo(s', n, q, j)
    {
      if q == s.clients[k].req {
        assert ForwardedTo(s', n, q, k);
      } else {
        var j :| ForwardedTo(s, n, q, j);
        assert ForwardedTo(s', n, q, j);
      }
    }
  }

  lemma SameAttached(s: State, s': State)
    requires LatestAttached(s) && s'.attached == s.attached && s'.latest == s.latest && s'.nodes == s.nodes
    ensures LatestAttached(s')
  {
  }

  lemma OthersSame(s: State, s': State, k: Conn)
    requires Inv(s) && ClientAt(s, k) && OnlyClient(s, s', k) && WellFormed(s.clients[k])
    ensures forall j :: j in s.clients && j != k ==> SameFor(s, s', j)
    ensures forall q :: q != s.clients[k].req && q in s'.pending ==> q in s.pending && s'.pending[q] == s.pending[q]
  {
    hide ClientOk, LatestAttached;
  }

  /** Steps of a client's handler. */
  predicate ClientStep(step: Step, k: Conn) {
    match step
    case LookUp(j) => j == k
    case AddWaiter(j) => j == k
    case Forward(j, ok) => j == k
    case DropWaiter(j) => j == k
    case WriteError(j) => j == k
    case _ => false
  }

  lemma ClientStepOk(s: State, step: Step, k: Conn)
    requires ClientAt(s, k) && ClientOk(s, k) && Enabled(s, step, true) && ClientStep(step, k)
    requires forall n :: !HeldBy(s, n, k)
    requires var t := s.clients[k].target;
             t in s.attached ==> s.attached[t] in s.nodes && s.nodes[s.attached[t]].id == t
    ensures ClientAt(Apply(s, step), k) && ClientOk(Apply(s, step), k)
  {
    if step == Forward(k, true) {
      assert !HeldBy(s, s.clients[k].at.node, k);
    }
  }

  lemma ClientStepOnly(s: State, step: Step, k: Conn)
    requires ClientAt(s, k) && ClientOk(s, k) && Enabled(s, step, true) && ClientStep(step, k)
    ensures var s' := Apply(s, step);
            && OnlyClient(s, s', k) && s'.sent == s.sent && s.delivered <= s'.delivered
            && !s.clients[k].at.Forwarded? && s.clients[k].at != Done
  {
    hide ClientOk;
  }

  lemma ClientStepOwn(s: State, step: Step, k: Conn)
    requires ClientAt(s, k) && ClientOk(s, k) && Enabled(s, step, true) && ClientStep(step, k)
    ensures var s' := Apply(s, step);
            var r := s.clients[k].req;
            && k in s'.clients && (r in s'.pending ==> s'.pending[r] == k)
            && (forall n :: (n, r) in s'.delivered ==> s'.clients[k].at == Forwarded(n))
  {
  }

  lemma ClientSteps(s: State, step: Step, k: Conn)
    requires Inv(s) && Enabled(s, step, true) && ClientStep(step, k)
    ensures Inv(Apply(s, step))
  {
    TargetIsNode(s, s.clients[k].target);
    NotHeld(s, k);
    hide LatestAttached, OwnRequests, WaitersOk, HoldersOk, DeliveredOk, Apply, OnlyClient, ClientOk;
    ClientStepOnly(s, step, k);
    ClientStepOwn(s, step, k);
    ClientStepOk(s, step, k);
    ClientStepKeeps(s, Apply(s, step), k);
  }

  lemma NotHeld(s: State, k: Conn)
    requires HoldersOk(s) && k in s.clients && !s.clients[k].at.Forwarded?
    ensures forall n :: !HeldBy(s, n, k)
  {
  }

  lemma TargetIsNode(s: State, id: string)
    requires LatestAttached(s)
    ensures id in s.attached ==> s.attached[id] in s.nodes && s.nodes[s.attached[id]].id == id
  {
  }

  lemma ArriveKeeps(s: State, k: Conn, target: string, req: string)
    requires Inv(s) && Enabled(s, Arrive(k, target, req), true)
    ensures Inv(Apply(s, Arrive(k, target, req)))
  {
    ArriveShape(s, k, target, req);
    hide Apply, Enabled;
    var s' := Apply(s, Arrive(k, target, req));
    SameAttached(s, s');
    NewClientOk(s, s', k);
    MoreForwarded(s, s');
    ArriveMaps(s, s', k);
    ArriveClients(s, s', k);
    hide ClientsOk, LatestAttached, DeliveredOk, WaitersOk, HoldersOk, OwnRequests;
  }

  lemma ArriveShape(s: State, k: Conn, target: string, req: string)
    requires Enabled(s, Arrive(k, target, req), true)
    ensures var s' := Apply(s, Arrive(k, target, req));
            && k !in s.clients && ClientAt(s', k)
            && s' == s.(clients := s.clients[k := s'.clients[k]], replies := s.replies[k := s'.replies[k]])
            && var c := s'.clients[k];
               if WellFormed(c)
               then c.at == Asking && s'.replies[k] == []
                    && forall j :: j in s.clients && WellFormed(s.clients[j]) ==> s.clients[j].req != c.req
               else c.at == Done && s'.replies[k] == [Error(c.req)]
  {
  }

  lemma ArriveClients(s: State, s': State, k: Conn)
    requires ClientsOk(s) && k !in s.clients && ClientAt(s', k) && ClientOk(s', k)
    requires s' == s.(clients := s.clients[k := s'.clients[k]], replies := s.replies[k := s'.replies[k]])
    requires WellFormed(s'.clients[k]) || s'.clients[k].at == Done
    ensures ClientsOk(s')
  {
    hide ClientOk;
    forall j | j in s'.clients
      ensures ClientAt(s', j) && ClientOk(s', j)
    {
      if j != k {
        SameClientOk(s, s', j);
      }
    }
  }

  lemma ArriveMaps(s: State, s': State, k: Conn)
    requires OwnRequests(s) && WaitersOk(s) && HoldersOk(s) && k !in s.clients && k in s'.clients
    requires s' == s.(clients := s.clients[k := s'.clients[k]], replies := s'.replies)
    requires forall j :: j in s.clients && WellFormed(s.clients[j]) && WellFormed(s'.clients[k]) ==>
               s.clients[j].req != s'.clients[k].req
    ensures OwnRequests(s') && WaitersOk(s') && HoldersOk(s')
  {
    forall n, j | HeldBy(s', n, j)
      ensures HeldBy(s, n, j)
    {
    }
  }

  lemma MoreForwarded(s: State, s': State)
    requires DeliveredOk(s) && s'.delivered == s.delivered
    requires forall j :: j in s.clients ==> j in s'.clients && s'.clients[j] == s.clients[j]
    ensures DeliveredOk(s')
  {
    forall n, q | (n, q) in s'.delivered
      ensures exists j :: ForwardedTo(s', n, q, j)
    {
      var j :| ForwardedTo(s, n, q, j);
      assert ForwardedTo(s', n, q, j);
    }
  }

  lemma NewClientOk(s: State, s': State, k: Conn)
    requires WaitersOk(s) && DeliveredOk(s) && k !in s.clients && ClientAt(s', k)
    requires s'.pending == s.pending && s'.delivered == s.delivered
    requires var c := s'.clients[k];
             if WellFormed(c)
             then c.at == Asking && s'.replies[k] == []
                  && forall j :: j in s.clients && WellFormed(s.clients[j]) ==> s.clients[j].req != c.req
             else c.at == Done && s'.replies[k] == [Error(c.req)]
    requires forall j :: j in s.clients ==> WellFormed(s.clients[j]) || s.clients[j].at == Done
    ensures ClientOk(s', k)
  {
    var c := s'.clients[k];
    if WellFormed(c) {
      assert forall n, j :: !ForwardedTo(s, n, c.req, j);
    }
  }

  /** A node that registers or detaches changes nothing for any client. */
  lemma NodeComesOrGoes(s: State, s': State)
    requires Inv(s) && LatestAttached(s')
    requires s' == s.(attached := s'.attached, latest := s'.latest, nodes := s'.nodes)
    requires forall n :: n in s.nodes ==> n in s'.nodes && s'.nodes[n].id == s.nodes[n].id
    requires forall n, k :: HeldBy(s', n, k) <==> HeldBy(s, n, k)
    requires forall n, k :: HeldBy(s, n, k) ==> s'.nodes[n] == s.nodes[n]
    ensures Inv(s')
  {
    hide ClientOk, LatestAttached;
    forall j | j in s.clients
      ensures ClientAt(s', j) && ClientOk(s', j)
    {
      SameClientOk(s, s', j);
    }
    MoreForwarded(s, s');
  }

  lemma RegisterKeeps(s: State, n: Conn, id: string)
    requires Inv(s) && Enabled(s, Register(n, id), true)
    ensures Inv(Apply(s, Register(n, id)))
  {
    hide ClientsOk, OwnRequests, WaitersOk, HoldersOk, DeliveredOk, SentOk;
    NodeComesOrGoes(s, Apply(s, Register(n, id)));
  }

  lemma DetachKeeps(s: State, n: Conn)
    requires Inv(s) && Enabled(s, Detach(n), true)
    ensures Inv(Apply(s, Detach(n)))
  {
    hide ClientsOk, OwnRequests, WaitersOk, HoldersOk, DeliveredOk, SentOk;
    NodeComesOrGoes(s, Apply(s, Detach(n)));
  }

  /** A node's handler takes or answers the waiter in ks, if there is one. */
  lemma NodeHandlerKeeps(s: State, s': State, n: Conn, ks: set<Conn>)
    requires Inv(s) && n in s.nodes && n in s'.nodes && s.nodes[n].at != Gone && s'.nodes[n].at != Gone
    requires s' == s.(pending := s'.pending, sent := s'.sent, replies := s'.replies,
                      nodes := s.nodes[n := s.nodes[n].(at := s'.nodes[n].at)])
    requires forall r :: r in s'.pending ==> r in s.pending && s'.pending[r] == s.pending[r]
    requires forall j :: j in s.clients && j !in ks ==> SameFor(s, s', j)
    requires forall j :: j in ks ==> ClientAt(s', j) && ClientOk(s', j)
    requires HoldersOk(s') && SentOk(s')
    ensures Inv(s')
  {
    BusyAttached(s, s', n);
    hide ClientOk, LatestAttached, HoldersOk;
    forall j | j in s.clients && j !in ks
      ensures ClientAt(s', j) && ClientOk(s', j)
    {
      SameClientOk(s, s', j);
    }
    assert DeliveredOk(s') by {
      MoreForwarded(s, s');
    }
  }

  lemma BusyAttached(s: State, s': State, n: Conn)
    requires LatestAttached(s) && n in s.nodes && n in s'.nodes && s.nodes[n].at != Gone && s'.nodes[n].at != Gone
    requires s'.attached == s.attached && s'.latest == s.latest
    requires s'.nodes == s.nodes[n := s.nodes[n].(at := s'.nodes[n].at)]
    ensures LatestAttached(s')
  {
  }

  lemma SendsKeeps(s: State, n: Conn, req: string, payload: bytes)
    requires Inv(s) && Enabled(s, NodeSends(n, req, payload), true)
    ensures Inv(Apply(s, NodeSends(n, req, payload)))
  {
    hide LatestAttached, DeliveredOk, ClientOk, SameFor;
    var s' := Apply(s, NodeSends(n, req, payload));
    SendsSame(s, n, req, payload);
    if req in s.pending {
      TakenOk(s, n, req, payload);
      NodeHandlerKeeps(s, s', n, {s.pending[req]});
    } else {
      NodeHandlerKeeps(s, s', n, {});
    }
  }

  lemma TakenOk(s: State, n: Conn, req: string, payload: bytes)
    requires Inv(s) && Enabled(s, NodeSends(n, req, payload), true) && req in s.pending
    ensures var s' := Apply(s, NodeSends(n, req, payload));
            var k := s.pending[req];
            && s.clients[k].at == Forwarded(n) && ClientAt(s', k) && ClientOk(s', k)
  {
    hide LatestAttached, DeliveredOk, HoldersOk, OwnRequests;
    assert ClientOk(s, s.pending[req]);
  }

  lemma SendsSame(s: State, n: Conn, req: string, payload: bytes)
    requires Inv(s) && Enabled(s, NodeSends(n, req, payload), true)
    ensures var s' := Apply(s, NodeSends(n, req, payload));
            forall j :: j in s.clients && !(req in s.pending && s.pending[req] == j) ==> SameFor(s, s', j)
  {
    hide LatestAttached, DeliveredOk, ClientOk;
  }

  lemma WriteKeeps(s: State, n: Conn)
    requires Inv(s) && Enabled(s, WritePayload(n), true)
    ensures Inv(Apply(s, WritePayload(n)))
  {
    hide LatestAttached, DeliveredOk, ClientOk;
    var s' := Apply(s, WritePayload(n));
    var k := s.nodes[n].at.client;
    WrittenOk(s, n);
    NodeHandlerKeeps(s, s', n, {k});
  }

  lemma WrittenOk(s: State, n: Conn)
    requires Inv(s) && Enabled(s, WritePayload(n), true)
    ensures var k := s.nodes[n].at.client;
            k in s.clients && ClientAt(Apply(s, WritePayload(n)), k) && ClientOk(Apply(s, WritePayload(n)), k)
  {
    hide LatestAttached, DeliveredOk, OwnRequests, WaitersOk;
    assert HeldBy(s, n, s.nodes[n].at.client) && ClientOk(s, s.nodes[n].at.client);
  }

  // ---------------------------------------------------------------- runs

  ghost predicate Run(ss: seq<State>, steps: seq<Step>) {
    && |ss| == |steps| + 1 && ss[0] == Start()
    && forall i :: 0 <= i < |steps| ==> Enabled(ss[i], steps[i], true) && ss[i + 1] == Apply(ss[i], steps[i])
  }

  lemma StepKeeps(s: State, step: Step)
    requires Inv(s) && Enabled(s, step, true)
    ensures Inv(Apply(s, step))
  {
    hide Inv, Apply;
    match step
    case Register(n, id) => RegisterKeeps(s, n, id);
    case Detach(n) => DetachKeeps(s, n);
    case NodeSends(n, req, payload) => SendsKeeps(s, n, req, payload);
    case WritePayload(n) => WriteKeeps(s, n);
    case Arrive(k, target, req) => ArriveKeeps(s, k, target, req);
    case LookUp(k) => ClientSteps(s, step, k);
    case AddWaiter(k) => ClientSteps(s, step, k);
    case Forward(k, ok) => ClientSteps(s, step, k);
    case DropWaiter(k) => ClientSteps(s, step, k);
    case WriteError(k) => ClientSteps(s, step, k);
  }

  lemma {:induction false} RunKeeps(ss: seq<State>, steps: seq<Step>, i: nat)
    requires Run(ss, steps) && i < |ss|
    ensures Inv(ss[i])
  {
    if i > 0 {
      RunKeeps(ss, steps, i - 1);
      hide Inv, Apply, Enabled;
      StepKeeps(ss[i - 1], steps[i - 1]);
      assert ss[(i - 1) + 1] == ss[i];
    }
  }

  /** Over all interleavings a client is written at most one response. It carries the client's own request ID,
      and a payload in it was sent for that request by the one node the request was delivered to, which had
      registered under the target the client named. */
  lemma ClientSafety(ss: seq<State>, steps: seq<Step>, i: nat, k: Conn)
    requires Run(ss, steps) && i < |ss| && k in ss[i].clients
    ensures var s := ss[i];
            var c := s.clients[k];
            && k in s.replies && |s.replies[k]| <= 1
            && forall r :: r in s.replies[k] ==>
                 && r.req == c.req
                 && (r.Payload? ==> exists n :: (n, c.req, r.payload) in s.sent && (n, c.req) in s.delivered
                                             && n in s.nodes && s.nodes[n].id == c.target
                                             && forall m :: (m, c.req) in s.delivered ==> m == n)
  {
    RunKeeps(ss, steps, i);
  }

  /** Over all interleavings the table maps each ID to its last registration while that handler runs, and else to
      nothing. */
  lemma AttachedIsLatest(ss: seq<State>, steps: seq<Step>, i: nat, id: string)
    requires Run(ss, steps) && i < |ss|
    ensures var s := ss[i];
            id in s.attached <==> id in s.latest && s.latest[id] in s.nodes && s.nodes[s.latest[id]].at != Gone
    ensures id in ss[i].attached ==> ss[i].attached[id] == ss[i].latest[id] && ss[i].nodes[ss[i].latest[id]].id == id
  {
    RunKeeps(ss, steps, i);
  }

  // ---------------------------------------------------------------- every request is answered

  /** A client's request was delivered before its handler forgets it, and an answer that was sent takes the request out
      of the pending map. */
  ghost predicate Traced(s: State) {
    ForwardsTraced(s) && AnswersTraced(s)
  }

  ghost predicate ForwardsTraced(s: State) {
    forall k :: k in s.clients && s.clients[k].at.Forwarded? ==>
      (s.clients[k].at.node, s.clients[k].req) in s.delivered
  }

  ghost predicate AnswersTraced(s: State) {
    forall n, r, p :: (n, r, p) in s.sent ==> r !in s.pending
  }

  lemma TracedStep(s: State, step: Step)
    requires Inv(s) && Traced(s) && Enabled(s, step, true)
    ensures Traced(Apply(s, step))
  {
    hide Inv, ForwardsTraced, AnswersTraced, Apply;
    ForwardStays(s, step);
    AnswerStays(s, step);
  }

  lemma ForwardStays(s: State, step: Step)
    requires ForwardsTraced(s) && Enabled(s, step, true)
    ensures ForwardsTraced(Apply(s, step))
  {
  }

  lemma AnswerStays(s: State, step: Step)
    requires Inv(s) && AnswersTraced(s) && Enabled(s, step, true)
    ensures AnswersTraced(Apply(s, step))
  {
    hide Inv;
    if step.AddWaiter? {
      NothingSent(s, step.k);
    }
  }

  lemma NothingSent(s: State, k: Conn)
    requires Inv(s) && ClientAt(s, k) && s.clients[k].at.Found?
    ensures forall n, p :: (n, s.clients[k].req, p) !in s.sent
  {
    hide LatestAttached, OwnRequests, WaitersOk, HoldersOk, DeliveredOk;
    assert ClientOk(s, k);
  }

  lemma {:induction false} RunTraced(ss: seq<State>, steps: seq<Step>, i: nat)
    requires Run(ss, steps) && i < |ss|
    ensures Inv(ss[i]) && Traced(ss[i])
  {
    RunKeeps(ss, steps, i);
    if i > 0 {
      hide Inv, Apply, Enabled, Traced;
      RunTraced(ss, steps, i - 1);
      TracedStep(ss[i - 1], steps[i - 1]);
      assert ss[(i - 1) + 1] == ss[i];
    }
  }

  /** A client asks for a node that is attached: it is led to the last registration of the ID while that one's handler
      runs, and is told of an error if and only if there is none. */
  lemma LookUpFinds(ss: seq<State>, steps: seq<Step>, i: nat, k: Conn)
    requires Run(ss, steps) && i < |ss| && Enabled(ss[i], LookUp(k), true)
    ensures var s, s' := ss[i], Apply(ss[i], LookUp(k));
            var target := s.clients[k].target;
            var there := target in s.latest && s.latest[target] in s.nodes && s.nodes[s.latest[target]].at != Gone;
            && ClientAt(s', k)
            && s'.clients[k].at == (if there then Found(s.latest[target]) else Done)
            && s'.replies[k] == s.replies[k] + if there then [] else [Error(s.clients[k].req)]
  {
    AttachedIsLatest(ss, steps, i, ss[i].clients[k].target);
  }

  /** A request without a target or an ID is answered by an error at once; every other one goes on unanswered. */
  lemma ArrivalSorted(s: State, k: Conn, target: string, req: string)
    requires Enabled(s, Arrive(k, target, req), true)
    ensures var s' := Apply(s, Arrive(k, target, req));
            && ClientAt(s', k)
            && (s'.clients[k].at == Asking <==> target != "" && req != "")
            && s'.replies[k] == if target != "" && req != "" then [] else [Error(req)]
  {
  }

  /** A request that was forwarded was delivered to its node. It is written a payload if and only if the node has sent
      an answer and no handler still holds it, and waits in the map if and only if none was sent. */
  lemma AnswerArrives(ss: seq<State>, steps: seq<Step>, i: nat, k: Conn)
    requires Run(ss, steps) && i < |ss| && k in ss[i].clients && ss[i].clients[k].at.Forwarded?
    ensures var s, c := ss[i], ss[i].clients[k];
            var n := c.at.node;
            var answered := exists p :: (n, c.req, p) in s.sent;
            && (n, c.req) in s.delivered && k in s.replies
            && (c.req in s.pending <==> !answered)
            && (answered && !HeldBy(s, n, k) <==> |s.replies[k]| == 1 && s.replies[k][0].Payload?)
            && (!answered || HeldBy(s, n, k) <==> s.replies[k] == [])
            && (HeldBy(s, n, k) ==> Enabled(s, WritePayload(n), true))
  {
    RunTraced(ss, steps, i);
    var s := ss[i];
    assert ClientAt(s, k) && ClientOk(s, k);
    hide Run, LatestAttached, OwnRequests, WaitersOk, DeliveredOk, SentOk;
    var n := s.clients[k].at.node;
    if HeldBy(s, n, k) {
      assert (n, s.nodes[n].at.req, s.nodes[n].at.payload) in s.sent;
    }
  }

  /** How far a client's handler still has to go. */
  function StepsLeft(at: ClientPc): nat {
    match at
    case Asking => 5
    case Found(_) => 4
    case Waiting(_) => 3
    case Failing => 2
    case Dropped => 1
    case Forwarded(_) => 0
    case Done => 0
  }

  /** The step of the relay that is next for a client; a forward may fail. */
  function NextFor(k: Conn, at: ClientPc, ok: bool): Step
    requires StepsLeft(at) > 0
  {
    match at
    case Asking => LookUp(k)
    case Found(_) => AddWaiter(k)
    case Waiting(_) => Forward(k, ok)
    case Failing => DropWaiter(k)
    case Dropped => WriteError(k)
  }

  /** No client's handler gets stuck: its next step is always possible, and brings it nearer to its end. */
  lemma HandlerEnds(ss: seq<State>, steps: seq<Step>, i: nat, k: Conn, ok: bool)
    requires Run(ss, steps) && i < |ss| && k in ss[i].clients && StepsLeft(ss[i].clients[k].at) > 0
    ensures var s, step := ss[i], NextFor(k, ss[i].clients[k].at, ok);
            && Enabled(s, step, true) && k in Apply(s, step).clients
            && StepsLeft(Apply(s, step).clients[k].at) < StepsLeft(s.clients[k].at)
  {
    RunKeeps(ss, steps, i);
    assert ClientAt(ss[i], k);
    hide Run, Inv, ClientOk, Enabled, Apply;
    NextLowers(ss[i], k, ok);
  }

  lemma NextLowers(s: State, k: Conn, ok: bool)
    requires ClientAt(s, k) && StepsLeft(s.clients[k].at) > 0
    ensures var step := NextFor(k, s.clients[k].at, ok);
            && Enabled(s, step, true) && k in Apply(s, step).clients
            && StepsLeft(Apply(s, step).clients[k].at) < StepsLeft(s.clients[k].at)
  {
  }

  /** s' can follow s in one step. */
  predicate Follows(s: State, step: Step, s': State, honest: bool) {
    Enabled(s, step, false) && Enabled(s, step, honest) && s' == Apply(s, step)
  }

  /** The assumption that nodes are honest is needed. A client k asks for a node n, the forward fails on the relay's
      side, and the node answers all the same: the answer and the error both go out. Whatever the target, the request
      and the payload, this run is possible, and all its steps but the answer meet the assumptions. */
  lemma LateDeliveryDoubles(n: Conn, k: Conn, target: string, req: string, payload: bytes) returns (ss: seq<State>)
    requires n != k && target != "" && req != ""
    ensures |ss| == 10 && ss[0] == Start()
    ensures Follows(ss[0], Register(n, target), ss[1], true)
    ensures Follows(ss[1], Arrive(k, target, req), ss[2], true)
    ensures Follows(ss[2], LookUp(k), ss[3], true)
    ensures Follows(ss[3], AddWaiter(k), ss[4], true)
    ensures Follows(ss[4], Forward(k, false), ss[5], true)
    ensures Follows(ss[5], NodeSends(n, req, payload), ss[6], false)
    ensures Follows(ss[6], WritePayload(n), ss[7], true)
    ensures Follows(ss[7], DropWaiter(k), ss[8], true)
    ensures Follows(ss[8], WriteError(k), ss[9], true)
    ensures ClientAt(ss[9], k) && ss[9].replies[k] == [Payload(req, payload), Error(req)]
  {
    hide Follows, Start, Inv;
    var s1, s2, s3, s4 := WaitingReached(n, k, target, req);
    var s5, s6, s7 := LateAnswer(s4, k, n, payload);
    var s8, s9 := ErrorGoesOut(s7, k);
    ss := [Start(), s1, s2, s3, s4, s5, s6, s7, s8, s9];
  }

  lemma WaitingReached(n: Conn, k: Conn, target: string, req: string)
    returns (s1: State, s2: State, s3: State, s4: State)
    requires n != k && target != "" && req != ""
    ensures Follows(Start(), Register(n, target), s1, true) && Follows(s1, Arrive(k, target, req), s2, true)
    ensures Follows(s2, LookUp(k), s3, true) && Follows(s3, AddWaiter(k), s4, true)
    ensures Inv(s4) && ClientAt(s4, k) && s4.clients[k] == Client(target, req, Waiting(n))
    ensures n in s4.nodes && s4.nodes[n].at == Serving
  {
    s1 := Apply(Start(), Register(n, target));
    s2 := Apply(s1, Arrive(k, target, req));
    s3 := Apply(s2, LookUp(k));
    s4 := Apply(s3, AddWaiter(k));
    hide Inv, Apply;
    StartKeeps();
    StepKeeps(Start(), Register(n, target));
    StepKeeps(s1, Arrive(k, target, req));
    StepKeeps(s2, LookUp(k));
    StepKeeps(s3, AddWaiter(k));
  }

  lemma StartKeeps()
    ensures Inv(Start())
  {
  }

  lemma LateAnswer(s: State, k: Conn, n: Conn, payload: bytes) returns (s1: State, s2: State, s3: State)
    requires Inv(s) && ClientAt(s, k) && s.clients[k].at == Waiting(n) && s.nodes[n].at == Serving
    ensures Follows(s, Forward(k, false), s1, true)
    ensures Follows(s1, NodeSends(n, s.clients[k].req, payload), s2, false)
    ensures Follows(s2, WritePayload(n), s3, true)
    ensures ClientAt(s3, k) && s3.clients[k] == s.clients[k].(at := Failing)
    ensures s3.replies[k] == [Payload(s.clients[k].req, payload)]
  {
    assert ClientOk(s, k);
    hide ClientOk, ClientsOk, OwnRequests, WaitersOk, HoldersOk, DeliveredOk, LatestAttached, SentOk;
    s1 := Move(s, k, Failing);
    assert Follows(s, Forward(k, false), s1, true);
    s2 := LateSend(s1, k, n, payload);
    s3 := MoveNode(Write(s2, k, Payload(s.clients[k].req, payload)), n, Serving);
    hide Move, Write;
    assert Follows(s2, WritePayload(n), s3, true);
  }

  lemma LateSend(s: State, k: Conn, n: Conn, payload: bytes) returns (s': State)
    requires ClientAt(s, k) && n in s.nodes && s.nodes[n].at == Serving
    requires s.clients[k].req in s.pending && s.pending[s.clients[k].req] == k
    ensures Follows(s, NodeSends(n, s.clients[k].req, payload), s', false)
    ensures s'.clients == s.clients && s'.replies == s.replies && n in s'.nodes
    ensures s'.nodes[n].at == Holding(k, s.clients[k].req, payload)
  {
    s' := Apply(s, NodeSends(n, s.clients[k].req, payload));
  }

  lemma ErrorGoesOut(s: State, k: Conn) returns (s1: State, s2: State)
    requires ClientAt(s, k) && s.clients[k].at == Failing
    ensures Follows(s, DropWaiter(k), s1, true) && Follows(s1, WriteError(k), s2, true)
    ensures ClientAt(s2, k) && s2.replies[k] == s.replies[k] + [Error(s.clients[k].req)]
  {
    s1 := Apply(s, DropWaiter(k));
    s2 := Apply(s1, WriteError(k));
  }
}

/** The REST mapping of the discovery store: client over handler, stacked to any depth over any store. */
module HttpLayer {
  import opened Types
  import opened DiscoveryApi
  import opened EtagCodec

  // ---- The wire ----

  datatype Verb = GET | POST | PUT | PATCH | DELETE

  /** A JSON field that can be left out. */
  datatype Field = Absent | Null | Text(text: string)

  datatype Body =
    | Empty
    | OneBackend(backend: Backend)
    | ManyBackends(backends: seq<Backend>)
    | Fields(sparse: Sparse)
    | PatchBody(name: Field, partitions: Option<set<string>>, weight: Option<u64>, enabled: Option<bool>)

  datatype HttpRequest = HttpRequest(verb: Verb, path: Option<Key>, ifNoneMatch: Option<string>, body: Body)

  datatype HttpResponse = HttpResponse(status: nat, etag: Option<string>, body: Body)

  const OK: nat := 200
  const CREATED: nat := 201
  const NO_CONTENT: nat := 204
  const NOT_MODIFIED: nat := 304
  const BAD_REQUEST: nat := 400
  const NOT_FOUND: nat := 404
  const CONFLICT: nat := 409
  const INTERNAL_SERVER_ERROR: nat := 500
  const BAD_GATEWAY: nat := 502

  function ToHttpStatus(s: ErrorSource): nat {
    match s case Downstream => BAD_REQUEST case Upstream => BAD_GATEWAY case Internal => INTERNAL_SERVER_ERROR
  }

  /** How the implementation bytes travel: parsed as a JSON value and printed again; None when they are not JSON. */
  type Normalizer = Bytes -> Option<Bytes>

  ghost predicate Stable(norm: Normalizer) {
    forall b, c {:trigger norm(b), norm(c)} | norm(b) == Some(c) :: norm(c) == Some(c)
  }

  function WireSparse(norm: Normalizer, s: Sparse): Option<Sparse> {
    match norm(s.implementation)
    case None => None
    case Some(c) => Some(s.(implementation := c))
  }

  function WireBackend(norm: Normalizer, b: Backend): Option<Backend> {
    match WireSparse(norm, b.sparse)
    case None => None
    case Some(s) => Some(b.(sparse := s))
  }

  function WireBackends(norm: Normalizer, l: seq<Backend>): Option<seq<Backend>> {
    if l == [] then Some([])
    else
      match (WireBackend(norm, l[0]), WireBackends(norm, l[1..]))
      case (Some(b), Some(rest)) => Some([b] + rest)
      case _ => None
  }

  /** An absent name is left out of the body, a null one is written as null. */
  function PrintPatch(p: PatchFields): Body {
    PatchBody(
      match p.name case None => Absent case Some(None) => Null case Some(Some(n)) => Text(n),
      p.partitions, p.weight, p.enabled)
  }

  /** Reading an optional field, null and absent come to the same. */
  function ParsePatch(b: Body): PatchFields
    requires b.PatchBody?
  {
    PatchFields(if b.name.Text? then Some(Some(b.name.text)) else None, b.partitions, b.weight, b.enabled)
  }

  // ---- The client ----

  /** The request the client sends; None when the body cannot be written. */
  function Send(norm: Normalizer, req: Request): Option<HttpRequest> {
    match req
    case Get(k) => Some(HttpRequest(GET, Some(k), None, Empty))
    case GetAll(etag) =>
      Some(HttpRequest(GET, None, match etag case None => None case Some(e) => Some(EtagString(e)), Empty))
    case Post(b) =>
      (match WireBackend(norm, b)
       case None => None
       case Some(w) => Some(HttpRequest(POST, None, None, OneBackend(w))))
    case Put(b) =>
      (match WireSparse(norm, b.sparse)
       case None => None
       case Some(w) => Some(HttpRequest(PUT, Some(b.key), None, Fields(w))))
    case Patch(k, p) => Some(HttpRequest(PATCH, Some(k), None, PrintPatch(p)))
    case Delete(k) => Some(HttpRequest(DELETE, Some(k), None, Empty))
  }

  function GeneralError(status: nat): Answer {
    if 200 <= status < 300 then Failed(Upstream)
    else if 400 <= status < 500 then Failed(Downstream)
    else Failed(Upstream)
  }

  function Receive(req: Request, r: HttpResponse): Answer {
    match req
    case Get(_) =>
      if r.status == OK then (if r.body.OneBackend? then Found(Some(r.body.backend)) else Failed(Upstream))
      else if r.status == NOT_FOUND then Found(None)
      else GeneralError(r.status)
    case GetAll(_) =>
      // the etag header is looked at before the status
      if r.etag.None? then Failed(Upstream)
      else
        (match EtagFromStr(r.etag.value)
         case None => Failed(Upstream)
         case Some(e) =>
           if r.status == OK then
             (if r.body.ManyBackends? then All(Backends(e, Some(r.body.backends))) else Failed(Upstream))
           else if r.status == NOT_MODIFIED then All(Backends(e, None))
           else GeneralError(r.status))
    case Post(b) =>
      if r.status == CREATED then Posted(Some(b.key))
      else if r.status == CONFLICT then Posted(None)
      else GeneralError(r.status)
    case Put(_) =>
      if r.status == NO_CONTENT then Flag(false)
      else if r.status == CREATED then Flag(true)
      else GeneralError(r.status)
    case Patch(_, _) =>
      if r.status == NO_CONTENT then Flag(true)
      else if r.status == NOT_FOUND then Flag(false)
      else GeneralError(r.status)
    case Delete(_) =>
      if r.status == NO_CONTENT then Flag(true)
      else if r.status == NOT_FOUND then Flag(false)
      else GeneralError(r.status)
  }

  // ---- The handler ----

  /** The store request a handler makes of an HTTP request; None for one that no route accepts. */
  function Dispatch(h: HttpRequest): Option<Request> {
    match (h.verb, h.path, h.body)
    case (GET, Some(k), _) => Some(Get(k))
    case (GET, None, _) =>
      if h.ifNoneMatch.None? then Some(GetAll(None))
      else (match EtagFromStr(h.ifNoneMatch.value) case None => None case Some(e) => Some(GetAll(Some(e))))
    case (POST, None, OneBackend(b)) => Some(Post(b))
    case (PUT, Some(k), Fields(s)) => Some(Put(Backend(k, s)))
    case (PATCH, Some(k), PatchBody(_, _, _, _)) => Some(Patch(k, ParsePatch(h.body)))
    case (DELETE, Some(k), _) => Some(Delete(k))
    case _ => None
  }

  /** The answers a store can give to a request. */
  predicate Fits(req: Request, a: Answer) {
    a.Failed? ||
    match req
    case Get(_) => a.Found?
    case GetAll(_) => a.All?
    case Post(_) => a.Posted?
    case Put(_) => a.Flag?
    case Patch(_, _) => a.Flag?
    case Delete(_) => a.Flag?
  }

  function Status(code: nat): HttpResponse {
    HttpResponse(code, None, Empty)
  }

  function Respond(norm: Normalizer, req: Request, a: Answer): HttpResponse
    requires Fits(req, a)
  {
    match a
    case Failed(source) => Status(ToHttpStatus(source))
    case Found(None) => Status(NOT_FOUND)
    case Found(Some(b)) =>
      (match WireBackend(norm, b)
       case None => Status(INTERNAL_SERVER_ERROR)
       case Some(w) => HttpResponse(OK, None, OneBackend(w)))
    case All(Backends(etag, None)) => HttpResponse(NOT_MODIFIED, Some(EtagString(etag)), Empty)
    case All(Backends(etag, Some(l))) =>
      (match WireBackends(norm, l)
       case None => HttpResponse(INTERNAL_SERVER_ERROR, Some(EtagString(etag)), Empty)
       case Some(w) => HttpResponse(OK, Some(EtagString(etag)), ManyBackends(w)))
    case Posted(Some(_)) => Status(CREATED)
    case Posted(None) => Status(CONFLICT)
    case Flag(flag) =>
      if req.Put? then Status(if flag then CREATED else NO_CONTENT)
      else Status(if flag then NO_CONTENT else NOT_FOUND)
  }

  // ---- The protocol, in numbers ----

  /** Which method and path each request takes, and when it is conditional. */
  lemma RequestsOnTheWire(norm: Normalizer, req: Request)
    requires Send(norm, req).Some?
    ensures var h := Send(norm, req).value;
      && (h.ifNoneMatch.Some? <==> req.GetAll? && req.ifNoneMatch.Some?)
      && (h.ifNoneMatch.Some? ==> h.ifNoneMatch == Some(EtagString(req.ifNoneMatch.value)))
      && match req
         case Get(k) => h.verb == GET && h.path == Some(k)
         case GetAll(_) => h.verb == GET && h.path == None
         case Post(_) => h.verb == POST && h.path == None
         case Put(b) => h.verb == PUT && h.path == Some(b.key)
         case Patch(k, _) => h.verb == PATCH && h.path == Some(k)
         case Delete(k) => h.verb == DELETE && h.path == Some(k)
  {
  }

  /** The status each answer of a store is given. */
  lemma StatusesOnTheWire(norm: Normalizer, req: Request, a: Answer)
    requires Fits(req, a)
    ensures Respond(norm, req, a).status ==
      match a
      case Failed(Downstream) => 400
      case Failed(Upstream) => 502
      case Failed(Internal) => 500
      case Found(None) => 404
      case Found(Some(b)) => if norm(b.sparse.implementation).None? then 500 else 200
      case Posted(Some(_)) => 201
      case Posted(None) => 409
      case Flag(true) => if req.Put? then 201 else 204
      case Flag(false) => if req.Put? then 204 else 404
      case All(all) =>
        if all.backends.None? then 304 else if WireBackends(norm, all.backends.value).None? then 500 else 200
    ensures Respond(norm, req, a).etag == if a.All? then Some(EtagString(a.all.etag)) else None
  {
  }

  /** What a client makes of each status, whoever answers: those it knows are answers, and of the rest the 400s are the
      caller's fault and all others the server's. A listing without a readable etag is the server's fault whatever its
      status. */
  lemma StatusesHeard(req: Request, r: HttpResponse)
    ensures (req.Get? && r.status != 200 && r.status != 404) || (req.Post? && r.status != 201 && r.status != 409)
      || (req.Put? && r.status != 201 && r.status != 204)
      || ((req.Patch? || req.Delete?) && r.status != 204 && r.status != 404)
      || (req.GetAll? && r.etag.Some? && EtagFromStr(r.etag.value).Some? && r.status != 200 && r.status != 304)
      ==> Receive(req, r) == Failed(if 400 <= r.status < 500 then Downstream else Upstream)
    ensures req.GetAll? && (r.etag.None? || EtagFromStr(r.etag.value).None?) ==> Receive(req, r) == Failed(Upstream)
    ensures req.Get? && r.status == 200 ==>
      Receive(req, r) == if r.body.OneBackend? then Found(Some(r.body.backend)) else Failed(Upstream)
    ensures req.GetAll? && r.etag.Some? && EtagFromStr(r.etag.value).Some? && (r.status == 200 || r.status == 304) ==>
      var etag := EtagFromStr(r.etag.value).value;
      Receive(req, r) == if r.status == 304 then All(Backends(etag, None))
        else if r.body.ManyBackends? then All(Backends(etag, Some(r.body.backends))) else Failed(Upstream)
    ensures req.Get? && r.status == 404 ==> Receive(req, r) == Found(None)
    ensures req.Post? && r.status == 201 ==> Receive(req, r) == Posted(Some(req.backend.key))
    ensures req.Post? && r.status == 409 ==> Receive(req, r) == Posted(None)
    ensures req.Put? && (r.status == 201 || r.status == 204) ==> Receive(req, r) == Flag(r.status == 201)
    ensures (req.Patch? || req.Delete?) && (r.status == 204 || r.status == 404) ==>
      Receive(req, r) == Flag(r.status == 204)
  {
  }

  // ---- Layers ----

  type Base<!S> = (S, Request) -> (S, Answer)

  ghost predicate WellTyped<S(!new)>(base: Base<S>) {
    forall s, req :: Fits(req, base(s, req).1)
  }

  /** `depth` layers of client over handler, over the store `base`. */
  ghost function Tower<S(!new)>(norm: Normalizer, base: Base<S>, depth: nat, s: S, req: Request): (r: (S, Answer))
    requires WellTyped(base)
    ensures Fits(req, r.1)
  {
    if depth == 0 then base(s, req)
    else
      match Send(norm, req)
      case None => (s, Failed(Upstream))
      case Some(h) =>
        match Dispatch(h)
        case None => (s, Receive(req, Status(BAD_REQUEST)))
        case Some(below) =>
          var (t, a) := Tower(norm, base, depth - 1, s, below);
          (t, Receive(req, Respond(norm, below, a)))
  }

  // ---- What any number of layers amounts to ----

  /** The request as it arrives at the store. */
  function Through(norm: Normalizer, req: Request): Option<Request> {
    match req
    case Post(b) => (match WireBackend(norm, b) case None => None case Some(w) => Some(Post(w)))
    case Put(b) => (match WireBackend(norm, b) case None => None case Some(w) => Some(Put(w)))
    case Patch(k, p) => Some(Patch(k, if p.name == Some(None) then p.(name := None) else p))
    case _ => Some(req)
  }

  /** The answer as it arrives at the caller. */
  function Seen(norm: Normalizer, req: Request, a: Answer): Answer {
    match a
    case Found(Some(b)) => (match WireBackend(norm, b) case None => Failed(Upstream) case Some(w) => Found(Some(w)))
    case All(Backends(etag, Some(l))) =>
      (match WireBackends(norm, l) case None => Failed(Upstream) case Some(w) => All(Backends(etag, Some(w))))
    case Posted(Some(_)) => if req.Post? then Posted(Some(req.backend.key)) else a
    case Failed(source) => Failed(if source == Downstream && !req.GetAll? then Downstream else Upstream)
    case _ => a
  }

  lemma {:induction false} WireTwice(norm: Normalizer, l: seq<Backend>)
    requires Stable(norm)
    ensures WireBackends(norm, l).Some? ==> WireBackends(norm, WireBackends(norm, l).value) == WireBackends(norm, l)
  {
    if l != [] && WireBackends(norm, l).Some? {
      WireTwice(norm, l[1..]);
      var w := WireBackends(norm, l).value;
      assert w[1..] == WireBackends(norm, l[1..]).value;
      assert norm(l[0].sparse.implementation) == Some(w[0].sparse.implementation);
      assert norm(w[0].sparse.implementation) == Some(w[0].sparse.implementation);
      assert WireBackend(norm, w[0]) == Some(w[0]);
    }
  }

  lemma SeenTwice(norm: Normalizer, req: Request, a: Answer)
    requires Stable(norm) && Through(norm, req).Some? && Fits(req, a)
    ensures Through(norm, Through(norm, req).value) == Through(norm, req)
    ensures Fits(Through(norm, req).value, Seen(norm, Through(norm, req).value, a))
    ensures Seen(norm, req, Seen(norm, Through(norm, req).value, a)) == Seen(norm, req, a)
  {
    if a.All? && a.all.backends.Some? {
      WireTwice(norm, a.all.backends.value);
    }
    if a.Found? && a.found.Some? && norm(a.found.value.sparse.implementation).Some? {
      assert norm(norm(a.found.value.sparse.implementation).value) == norm(a.found.value.sparse.implementation);
    }
    if (req.Post? || req.Put?) && norm(req.backend.sparse.implementation).Some? {
      assert norm(norm(req.backend.sparse.implementation).value) == norm(req.backend.sparse.implementation);
    }
  }

  /** What goes out and comes in over the wire is `Through` and `Seen`. */
  lemma WireIsThrough(norm: Normalizer, req: Request)
    ensures Through(norm, req).None? <==> Send(norm, req).None?
    ensures Through(norm, req).Some? ==> Dispatch(Send(norm, req).value) == Through(norm, req)
  {
    if req.GetAll? && req.ifNoneMatch.Some? {
      EtagRoundTrip(req.ifNoneMatch.value);
    }
  }

  lemma WireIsSeen(norm: Normalizer, req: Request, a: Answer)
    requires Through(norm, req).Some? && Fits(req, a)
    ensures Fits(Through(norm, req).value, a)
    ensures Receive(req, Respond(norm, Through(norm, req).value, a)) == Seen(norm, req, a)
  {
    if a.All? {
      EtagRoundTrip(a.all.etag);
    }
  }

  /** Any number of layers, from one up, does the same: the store gets the normalised request, the caller the
      normalised answer; errors stay Downstream if they were and the request is not a listing, and are Upstream else. */
  lemma {:induction false} TowerCollapses<S(!new)>(norm: Normalizer, base: Base<S>, depth: nat, s: S, req: Request)
    requires Stable(norm) && WellTyped(base) && depth > 0
    ensures Tower(norm, base, depth, s, req) ==
      match Through(norm, req)
      case None => (s, Failed(Upstream))
      case Some(below) => (base(s, below).0, Seen(norm, req, base(s, below).1))
  {
    WireIsThrough(norm, req);
    if Through(norm, req).Some? {
      var below := Through(norm, req).value;
      var a := base(s, below).1;
      assert Fits(below, a);
      if depth == 1 {
        WireIsSeen(norm, req, a);
      } else {
        TowerCollapses(norm, base, depth - 1, s, below);
        SeenTwice(norm, req, a);
        WireIsSeen(norm, req, Seen(norm, below, a));
      }
    }
  }

  // ---- When the layers cannot be told from the store ----

  predicate Canonical(norm: Normalizer, b: Backend) {
    norm(b.sparse.implementation) == Some(b.sparse.implementation)
  }

  /** A request the wire does not change: its implementation prints as it is, and it does not patch a name to null. */
  predicate Transparent(norm: Normalizer, req: Request) {
    match req
    case Post(b) => Canonical(norm, b)
    case Put(b) => Canonical(norm, b)
    case Patch(_, p) => p.name != Some(None)
    case _ => true
  }

  lemma TransparentExactly(norm: Normalizer, req: Request)
    ensures Through(norm, req) == Some(req) <==> Transparent(norm, req)
  {
  }

  lemma {:induction false} WireKeeps(norm: Normalizer, l: seq<Backend>)
    requires forall b | b in l :: Canonical(norm, b)
    ensures WireBackends(norm, l) == Some(l)
  {
    if l != [] {
      assert l[0] in l && WireBackend(norm, l[0]) == Some(l[0]);
      WireKeeps(norm, l[1..]);
      assert l == [l[0]] + l[1..];
    }
  }
}

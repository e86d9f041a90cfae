/**
 * The HTTP handlers of daemon/api/api.go, without the HTTP layer: the merge
 * rule for definitions pushed by peers (`updateFresherService(s)`), the
 * batch decoder of `putServices`, the API-key check of `auth`, and the
 * read-only views `getServices` and `getService`. The in-memory store is the
 * map of services the daemon keeps; no handler changes it.
 */
module Api {
  import opened Wrappers
  import opened Types
  import Daemon

  /** A definition file to write: the path and the record serialised into it. */
  datatype FileWrite = FileWrite(path: string, record: Service)

  /**
   * The condition of updateFresherService: there is no entry for the name,
   * or the fingerprint differs and the incoming record is strictly newer.
   */
  predicate ShouldWrite(services: map<string, Service>, v: Service, h: Hasher)
  {
    v.name !in services ||
    (Sum(v, h) != Sum(services[v.name], h) && v.lastUpdated > services[v.name].lastUpdated)
  }

  /** The file updateFresherService writes a record to, which load reads back as YAML. */
  function DefinitionPath(dir: string, name: string): (path: string)
    ensures Daemon.IsYaml(path)
  {
    var path := dir + "/" + name + ".yml";
    assert path[|path| - 3..] == "yml";
    path
  }

  /** updateFresherService: the file it writes, if any; the store is left alone. */
  function UpdateFresherService(services: map<string, Service>, v: Service, dir: string, h: Hasher): (w: Option<FileWrite>)
    ensures w.Some? <==> ShouldWrite(services, v, h)
    ensures w.Some? ==> w.value.record == v && w.value.path == DefinitionPath(dir, v.name)
  {
    if ShouldWrite(services, v, h) then Some(FileWrite(DefinitionPath(dir, v.name), v)) else None
  }

  /** A record with the stored fingerprint is never written, whatever its time. */
  lemma SameSumNeverWritten(services: map<string, Service>, v: Service, dir: string, h: Hasher)
    requires v.name in services && Sum(v, h) == Sum(services[v.name], h)
    ensures UpdateFresherService(services, v, dir, h).None?
  {
  }

  /** A record no newer than the stored one is never written, whatever its fingerprint. */
  lemma OlderNeverWritten(services: map<string, Service>, v: Service, dir: string, h: Hasher)
    requires v.name in services && v.lastUpdated <= services[v.name].lastUpdated
    ensures UpdateFresherService(services, v, dir, h).None?
  {
  }

  /** A record for an unknown name is always written. */
  lemma UnknownAlwaysWritten(services: map<string, Service>, v: Service, dir: string, h: Hasher)
    requires v.name !in services
    ensures UpdateFresherService(services, v, dir, h) == Some(FileWrite(DefinitionPath(dir, v.name), v))
  {
  }

  /**
   * Writing is antisymmetric: of two records with different fingerprints, at
   * most one would replace the other, so two nodes cannot keep overwriting
   * each other with the same pair.
   */
  lemma NoMutualOverwrite(a: Service, b: Service, h: Hasher)
    requires a.name == b.name
    ensures !(ShouldWrite(map[b.name := b], a, h) && ShouldWrite(map[a.name := a], b, h))
  {
  }

  /** The writes for a batch, in input order, each decided against the same store. */
  function Writes(services: map<string, Service>, vs: seq<Service>, dir: string, h: Hasher): (ws: seq<FileWrite>)
    ensures |ws| <= |vs|
    decreases |vs|
  {
    if vs == [] then []
    else
      var prev := Writes(services, vs[..|vs| - 1], dir, h);
      match UpdateFresherService(services, vs[|vs| - 1], dir, h)
      case Some(w) => prev + [w]
      case None => prev
  }

  /** updateFresherServices. */
  method UpdateFresherServices(services: map<string, Service>, vs: seq<Service>, dir: string, h: Hasher)
    returns (ws: seq<FileWrite>)
    ensures ws == Writes(services, vs, dir, h)
  {
    ws := [];
    for i := 0 to |vs|
      invariant ws == Writes(services, vs[..i], dir, h)
    {
      assert vs[..i + 1][..i] == vs[..i];
      var w := UpdateFresherService(services, vs[i], dir, h);
      if w.Some? {
        ws := ws + [w.value];
      }
    }
    assert vs[..|vs|] == vs;
  }

  /** What a batch writes: exactly the records the merge rule accepts, each to its own definition file. */
  lemma {:induction false} WritesSpec(services: map<string, Service>, vs: seq<Service>, dir: string, h: Hasher)
    ensures forall w :: w in Writes(services, vs, dir, h) <==>
      exists v :: v in vs && ShouldWrite(services, v, h) && w == FileWrite(DefinitionPath(dir, v.name), v)
    decreases |vs|
  {
    if vs != [] {
      var init := vs[..|vs| - 1];
      WritesSpec(services, init, dir, h);
      assert vs == init + [vs[|vs| - 1]];
      forall w ensures w in Writes(services, vs, dir, h) <==>
        exists v :: v in vs && ShouldWrite(services, v, h) && w == FileWrite(DefinitionPath(dir, v.name), v)
      {
        if exists v :: v in vs && ShouldWrite(services, v, h) && w == FileWrite(DefinitionPath(dir, v.name), v) {
          var v :| v in vs && ShouldWrite(services, v, h) && w == FileWrite(DefinitionPath(dir, v.name), v);
          if v != vs[|vs| - 1] {
            assert v in init;
          }
        }
      }
    }
  }

  /**
   * putServices decodes into a zero record, so pushed records carry the zero
   * time and never replace a stored entry (whose time is a file's, not before
   * the zero time).
   */
  lemma PushedNeverReplaces(services: map<string, Service>, v: Service, h: Hasher)
    requires v.lastUpdated == ZeroTime
    requires v.name in services && services[v.name].lastUpdated >= ZeroTime
    ensures !ShouldWrite(services, v, h)
  {
  }

  /**
   * putServices, from the request body onwards: `body` is the body read and
   * decoded as a JSON list of strings (None when either fails). Each string
   * is decoded into a fresh zero record; the first failure aborts the whole
   * request before anything is written.
   */
  method PutServices(services: map<string, Service>, body: Option<seq<string>>, dir: string, json: JsonCodec, h: Hasher)
    returns (r: Result<seq<FileWrite>>)
    ensures body.None? ==> r.Err?
    ensures body.Some? ==> (r.Err? <==> exists k :: 0 <= k < |body.value| && Unmarshal(ZeroService, body.value[k], json).1.Some?)
    ensures r.Ok? ==> r.value == Writes(services, DecodeAll(body.value, json), dir, h)
  {
    if body.None? {
      return Err("cannot read request");
    }
    var decoded := DecodeBody(body.value, json);
    if decoded.Err? {
      return Err(decoded.error);
    }
    var ws := UpdateFresherServices(services, decoded.value, dir, h);
    return Ok(ws);
  }

  /**
   * putServices' decoding loop: each string is unmarshalled into a fresh
   * zero record, and the first failure aborts the whole batch.
   */
  method DecodeBody(encoded: seq<string>, json: JsonCodec) returns (r: Result<seq<Service>>)
    ensures r.Err? <==> exists k :: 0 <= k < |encoded| && Unmarshal(ZeroService, encoded[k], json).1.Some?
    ensures r.Ok? ==> r.value == DecodeAll(encoded, json)
  {
    var ss: seq<Service> := [];
    for i := 0 to |encoded|
      invariant ss == DecodeAll(encoded[..i], json)
      invariant AllDecode(encoded[..i], json)
    {
      var decoded := Unmarshal(ZeroService, encoded[i], json);
      if decoded.1.Some? {
        return Err(decoded.1.value);
      }
      DecodeAllStep(encoded, i, json);
      assert encoded[..i + 1][..i] == encoded[..i];
      ss := ss + [decoded.0];
    }
    assert encoded[..|encoded|] == encoded;
    AllDecodeIff(encoded, json);
    return Ok(ss);
  }

  /** Every string of a batch unmarshals without error, stated prefix by prefix. */
  predicate AllDecode(encoded: seq<string>, json: JsonCodec)
    decreases |encoded|
  {
    encoded == [] ||
    (AllDecode(encoded[..|encoded| - 1], json) && Unmarshal(ZeroService, encoded[|encoded| - 1], json).1.None?)
  }

  lemma {:induction false} AllDecodeIff(encoded: seq<string>, json: JsonCodec)
    ensures AllDecode(encoded, json) <==> forall k :: 0 <= k < |encoded| ==> Unmarshal(ZeroService, encoded[k], json).1.None?
    decreases |encoded|
  {
    if encoded != [] {
      var init := encoded[..|encoded| - 1];
      AllDecodeIff(init, json);
      assert forall k :: 0 <= k < |init| ==> init[k] == encoded[k];
    }
  }

  /** The records putServices decodes, in order (each into a zero record). */
  function DecodeAll(encoded: seq<string>, json: JsonCodec): (ss: seq<Service>)
    ensures |ss| == |encoded|
    ensures forall k :: 0 <= k < |ss| ==> ss[k] == Unmarshal(ZeroService, encoded[k], json).0
    decreases |encoded|
  {
    if encoded == [] then []
    else DecodeAll(encoded[..|encoded| - 1], json) + [Unmarshal(ZeroService, encoded[|encoded| - 1], json).0]
  }

  /** Decoding one more string appends its record. */
  lemma DecodeAllStep(encoded: seq<string>, i: nat, json: JsonCodec)
    requires i < |encoded|
    ensures DecodeAll(encoded[..i + 1], json) == DecodeAll(encoded[..i], json) + [Unmarshal(ZeroService, encoded[i], json).0]
  {
    assert encoded[..i + 1][..i] == encoded[..i];
  }

  /**
   * A batch of marshalled records decodes to those records with the zero
   * time, provided the JSON layer round-trips.
   */
  lemma DecodeMarshalled(ss: seq<Service>, json: JsonCodec)
    requires forall k :: 0 <= k < |ss| ==> json.decode(json.encode(WireOf(ss[k]))) == Some(WireOf(ss[k]))
    ensures var encoded := seq(|ss|, k requires 0 <= k < |ss| => Marshal(ss[k], json));
            forall k :: 0 <= k < |ss| ==> Unmarshal(ZeroService, encoded[k], json) == (ss[k].(lastUpdated := ZeroTime), None)
  {
    forall k | 0 <= k < |ss| ensures Unmarshal(ZeroService, Marshal(ss[k], json), json) == (ss[k].(lastUpdated := ZeroTime), None) {
      MarshalRoundTrip(ss[k], ZeroService, json);
    }
  }

  /**
   * What an `auth`-wrapped route does with a request: `NotAuthorized` is
   * Go's `panic("not authorized")` (which net/http turns into a dropped
   * connection, not an HTTP reply), `Empty` an untouched response, and
   * `Handled` the response the wrapped handler writes.
   */
  datatype Reply = NotAuthorized | Empty | Handled(body: string)

  /**
   * auth: the request's `authorization` header (empty when absent) is
   * checked against the configured key; the wrapped handler is never run,
   * so putServices, getServices, getService, pull and pullAndPropagate,
   * which are all routed through it, never run either.
   */
  function Auth<Req>(apiKey: string, handler: Req -> string, authorization: string, req: Req): (r: Reply)
    ensures r == NotAuthorized <==> |apiKey| > 0 && apiKey != authorization
  {
    if |apiKey| > 0 && apiKey != authorization then NotAuthorized else Empty
  }

  /** The wrapped handler makes no difference: no request ever reaches it. */
  lemma AuthIgnoresHandler<Req>(apiKey: string, f: Req -> string, g: Req -> string, authorization: string, req: Req)
    ensures Auth(apiKey, f, authorization, req) == Auth(apiKey, g, authorization, req)
    ensures Auth(apiKey, f, authorization, req) != NotAuthorized ==> Auth(apiKey, f, authorization, req) == Empty
  {
  }

  /** The wrapper as evidently intended: an admitted request runs the handler. */
  function AuthIntended<Req>(apiKey: string, handler: Req -> string, authorization: string, req: Req): (r: Reply)
    ensures r == NotAuthorized <==> |apiKey| > 0 && apiKey != authorization
    ensures r != NotAuthorized ==> r == Handled(handler(req))
  {
    if |apiKey| > 0 && apiKey != authorization then NotAuthorized else Handled(handler(req))
  }

  /**
   * Both wrappers refuse the same requests, but on every admitted request
   * the intended one answers with the handler's response where auth answers
   * with nothing.
   */
  lemma AuthIntendedRunsHandler<Req>(apiKey: string, handler: Req -> string, authorization: string, req: Req)
    ensures (Auth(apiKey, handler, authorization, req) == NotAuthorized) == (AuthIntended(apiKey, handler, authorization, req) == NotAuthorized)
    ensures Auth(apiKey, handler, authorization, req) != NotAuthorized ==>
      Auth(apiKey, handler, authorization, req) == Empty && AuthIntended(apiKey, handler, authorization, req) == Handled(handler(req))
  {
  }

  /** Without a configured key every request passes. */
  lemma AuthOpenWithoutKey<Req>(handler: Req -> string, authorization: string, req: Req)
    ensures Auth("", handler, authorization, req) == Empty
  {
  }

  /**
   * `ss` lists the services stored under every name not in `todo`, each
   * once: `pos` gives the position of each listed name.
   */
  ghost predicate Listing(services: map<string, Service>, ss: seq<Service>, todo: set<string>, pos: map<string, nat>)
  {
    && todo <= services.Keys
    && |ss| + |todo| == |services|
    && (forall n :: n in pos <==> n in services && n !in todo)
    && (forall i :: 0 <= i < |ss| ==> ss[i].name in pos && services[ss[i].name] == ss[i] && pos[ss[i].name] == i)
    && (forall n :: n in pos ==> pos[n] < |ss| && ss[pos[n]] == services[n])
  }

  /** Appending the service of one more name keeps the listing exact. */
  lemma ListingStep(services: map<string, Service>, ss: seq<Service>, todo: set<string>, pos: map<string, nat>, name: string)
    requires forall n :: n in services ==> services[n].name == n
    requires Listing(services, ss, todo, pos) && name in todo
    ensures Listing(services, ss + [services[name]], todo - {name}, pos[name := |ss|])
  {
    var ss' := ss + [services[name]];
    assert forall i :: 0 <= i < |ss| ==> ss'[i] == ss[i];
    assert ss'[|ss|] == services[name];
  }

  /** A listing of every stored name holds each stored service exactly once. */
  lemma ListingComplete(services: map<string, Service>, ss: seq<Service>, pos: map<string, nat>)
    requires Listing(services, ss, {}, pos)
    ensures |ss| == |services|
    ensures forall s :: s in ss <==> s in services.Values
    ensures forall i, j :: 0 <= i < j < |ss| ==> ss[i].name != ss[j].name
  {
    forall s | s in services.Values ensures s in ss {
      var n :| n in services && services[n] == s;
      assert ss[pos[n]] == s;
    }
  }

  /** getServices: every stored service exactly once, in the map's (unspecified) order. */
  method GetServices(services: map<string, Service>) returns (ss: seq<Service>)
    requires forall n :: n in services ==> services[n].name == n
    ensures |ss| == |services|
    ensures forall s :: s in ss <==> s in services.Values
    ensures forall i, j :: 0 <= i < j < |ss| ==> ss[i].name != ss[j].name
  {
    ss := [];
    var todo := services.Keys;
    ghost var pos: map<string, nat> := map[];
    while todo != {}
      invariant Listing(services, ss, todo, pos)
      decreases todo
    {
      var name :| name in todo;
      ListingStep(services, ss, todo, pos, name);
      pos := pos[name := |ss|];
      ss := ss + [services[name]];
      todo := todo - {name};
    }
    ListingComplete(services, ss, pos);
  }

  /** getService: the entry stored under the requested name, or nothing. */
  method GetService(services: map<string, Service>, name: string) returns (out: Option<Service>)
    ensures out.Some? <==> name in services
    ensures out.Some? ==> out.value == services[name]
  {
    out := None;
    var todo := services.Keys;
    while todo != {}
      invariant todo <= services.Keys
      invariant out.Some? <==> name in services && name !in todo
      invariant out.Some? ==> out.value == services[name]
      decreases todo
    {
      var key :| key in todo;
      if key == name {
        out := Some(services[key]);
      }
      todo := todo - {key};
    }
  }
}

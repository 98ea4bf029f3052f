/** Dispatching a request to a registered service. Services are uninterpreted functions from the
    serialized parameter to the serialized result or a failure. */
module PbDispatcher {
  import opened Wrappers
  import opened Bytes
  import opened PbCoder

  const NO_ERROR: int32 := 0
  const SERVICE_NOT_FOUND: int32 := 1
  const FUNCTION_NOT_FOUND: int32 := 2
  const INVALID_REQUEST: int32 := 3
  const UNKNOWN: int32 := 4

  const HEARTBEAT: bytes := [72, 69, 65, 82, 84, 66, 69, 65, 84]
  const PONG: bytes := [80, 79, 78, 71]
  const MINUS_ONE: bytes := [45, 49]
  const DOT: byte := 46

  /** What calling a method comes to. */
  datatype Outcome = NoPrototype | ParameterError | ResultError | Result(result: bytes)

  datatype Service = Service(hasDescriptor: bool, methods: map<bytes, bytes -> Outcome>)

  datatype Name = Name(service: bytes, procedure: bytes)

  /** The full name, read as a service, a dot and a method. */
  function Joined(n: Name): bytes {
    n.service + [DOT] + n.procedure
  }

  function FirstDot(s: bytes): (pos: nat)
    ensures pos <= |s| && DOT !in s[..pos] && (pos < |s| ==> s[pos] == DOT)
  {
    if s == [] || s[0] == DOT then 0
    else
      var rest := FirstDot(s[1..]);
      assert s[..1 + rest] == [s[0]] + s[1..][..rest];
      1 + rest
  }

  lemma FirstDotUnique(s: bytes, pos: nat)
    requires pos <= |s| && DOT !in s[..pos] && (pos < |s| ==> s[pos] == DOT)
    ensures FirstDot(s) == pos
  {
    var first := FirstDot(s);
    forall i | 0 <= i < pos ensures s[i] != DOT {
      assert s[..pos][i] == s[i];
    }
    forall i | 0 <= i < first ensures s[i] != DOT {
      assert s[..first][i] == s[i];
    }
  }

  /** GetServiceAndMethod: the split at the first dot, unless nothing follows it. */
  function Split(s: bytes): Option<Name> {
    var pos := FirstDot(s);
    if pos == |s| || pos + 1 == |s| then None else Some(Name(s[..pos], s[pos + 1..]))
  }

  /** A name splits into a service and a method exactly when it is the two joined by a dot, the
      service holding no dot of its own and the method not being empty. */
  lemma SplitIff(s: bytes, n: Name)
    ensures Split(s) == Some(n) <==> s == Joined(n) && DOT !in n.service && n.procedure != []
  {
    var pos := FirstDot(s);
    if s == Joined(n) && DOT !in n.service && n.procedure != [] {
      assert s[..|n.service|] == n.service && s[|n.service|] == DOT;
      FirstDotUnique(s, |n.service|);
      assert s[..pos] == n.service && s[pos + 1..] == n.procedure;
    }
    if Split(s) == Some(n) {
      assert s == s[..pos] + [DOT] + s[pos + 1..];
    }
  }

  /** The response to a request, or to the null pointer. */
  function Dispatched(services: map<bytes, Service>, request: Option<Request>): Response {
    if request.None? then Response(INVALID_REQUEST, MINUS_ONE, [])
    else
      var r := request.value;
      if r.msgId == HEARTBEAT then Response(NO_ERROR, r.msgId, PONG)
      else match Split(r.serviceFullName)
        case None => Response(FUNCTION_NOT_FOUND, r.msgId, [])
        case Some(n) =>
          if n.service !in services || !services[n.service].hasDescriptor then Response(SERVICE_NOT_FOUND, r.msgId, [])
          else if n.procedure !in services[n.service].methods then Response(FUNCTION_NOT_FOUND, r.msgId, [])
          else match services[n.service].methods[n.procedure](r.param)
            case NoPrototype => Response(UNKNOWN, r.msgId, [])
            case ParameterError => Response(INVALID_REQUEST, r.msgId, [])
            case ResultError => Response(UNKNOWN, r.msgId, [])
            case Result(result) => Response(NO_ERROR, r.msgId, result)
  }

  class PbRpcDispatcher {
    var services: map<bytes, Service>

    constructor ()
      ensures services == map[]
    {
      services := map[];
    }

    /** A null service is ignored. */
    method RegisterService(name: bytes, service: Option<Service>)
      modifies this
      ensures services == if service.Some? then old(services)[name := service.value] else old(services)
    {
      if service.Some? {
        services := services[name := service.value];
      }
    }

    method UnRegisterService(name: bytes)
      modifies this
      ensures services == old(services) - {name}
    {
      if name in services {
        services := services - {name};
      }
    }

    method GetServiceAndMethod(fullName: bytes) returns (name: Option<Name>)
      ensures name == Split(fullName)
    {
      var pos := 0;
      while pos < |fullName| && fullName[pos] != DOT
        invariant pos <= |fullName| && DOT !in fullName[..pos]
      {
        pos := pos + 1;
      }
      FirstDotUnique(fullName, pos);
      if pos == |fullName| || pos + 1 == |fullName| {
        return None;
      }
      return Some(Name(fullName[..pos], fullName[pos + 1..]));
    }

    /** The response starts out as the answer to a null request and is filled in step by step. */
    method Dispatch(request: Option<Request>) returns (response: Response)
      ensures response == Dispatched(services, request)
    {
      response := Response(NO_ERROR, MINUS_ONE, []);
      if request.None? {
        return response.(errorCode := INVALID_REQUEST);
      }
      response := response.(msgId := request.value.msgId);
      if request.value.msgId == HEARTBEAT {
        return response.(result := PONG);
      }
      var name := GetServiceAndMethod(request.value.serviceFullName);
      if name.None? {
        return response.(errorCode := FUNCTION_NOT_FOUND);
      }
      if name.value.service !in services {
        return response.(errorCode := SERVICE_NOT_FOUND);
      }
      var service := services[name.value.service];
      if !service.hasDescriptor {
        return response.(errorCode := SERVICE_NOT_FOUND);
      }
      if name.value.procedure !in service.methods {
        return response.(errorCode := FUNCTION_NOT_FOUND);
      }
      match service.methods[name.value.procedure](request.value.param) {
        case NoPrototype => response := response.(errorCode := UNKNOWN);
        case ParameterError => response := response.(errorCode := INVALID_REQUEST);
        case ResultError => response := response.(errorCode := UNKNOWN);
        case Result(result) => response := response.(result := result);
      }
    }
  }

  /** A response carries its request's message id, an error carries no result, and a result comes only
      from a heartbeat or from calling the named method. */
  lemma DispatchedMeaning(services: map<bytes, Service>, r: Request)
    ensures var p := Dispatched(services, Some(r));
            && p.msgId == r.msgId
            && (p.errorCode != NO_ERROR ==> p.result == [])
            && (r.msgId == HEARTBEAT ==> p.errorCode == NO_ERROR && p.result == PONG)
            && (r.msgId != HEARTBEAT ==> (p.errorCode == NO_ERROR <==> exists n :: Calls(services, r, n, p.result)))
  {
    var p := Dispatched(services, Some(r));
    if r.msgId != HEARTBEAT {
      if p.errorCode == NO_ERROR {
        var n := Split(r.serviceFullName).value;
        SplitIff(r.serviceFullName, n);
        assert Calls(services, r, n, p.result);
      }
      forall n | Calls(services, r, n, p.result) ensures p.errorCode == NO_ERROR {
        SplitIff(r.serviceFullName, n);
      }
    }
  }

  /** The request names a registered method whose call gives `result`. */
  ghost predicate Calls(services: map<bytes, Service>, r: Request, n: Name, result: bytes) {
    && r.serviceFullName == Joined(n) && DOT !in n.service && n.procedure != []
    && n.service in services && services[n.service].hasDescriptor && n.procedure in services[n.service].methods
    && services[n.service].methods[n.procedure](r.param) == Result(result)
  }

  // ---- which error ----

  /** The name is a service without a dot, a dot, and a method. */
  ghost predicate Names(r: Request, service: bytes, procedure: bytes) {
    r.serviceFullName == Joined(Name(service, procedure)) && DOT !in service && procedure != []
  }

  predicate Described(services: map<bytes, Service>, service: bytes) {
    service in services && services[service].hasDescriptor
  }

  /** The name is that of a method of a described service, and calling it with the request's parameter
      comes to `outcome`. */
  ghost predicate ComesTo(services: map<bytes, Service>, r: Request, service: bytes, procedure: bytes, outcome: Outcome)
  {
    && Names(r, service, procedure) && Described(services, service)
    && procedure in services[service].methods && services[service].methods[procedure](r.param) == outcome
  }

  lemma NamesOnce(r: Request, n: Name)
    ensures Names(r, n.service, n.procedure) <==> Split(r.serviceFullName) == Some(n)
  {
    SplitIff(r.serviceFullName, n);
  }

  /** The response when the name splits. */
  lemma NamedResponse(services: map<bytes, Service>, r: Request, service: bytes, procedure: bytes)
    requires r.msgId != HEARTBEAT && Names(r, service, procedure)
    ensures var p := Dispatched(services, Some(r));
            if !Described(services, service) then p == Response(1, r.msgId, [])
            else if procedure !in services[service].methods then p == Response(2, r.msgId, [])
            else
              var outcome := services[service].methods[procedure](r.param);
              if outcome.ParameterError? then p == Response(3, r.msgId, [])
              else if outcome.Result? then p == Response(0, r.msgId, outcome.result)
              else p == Response(4, r.msgId, [])
  {
    NamesOnce(r, Name(service, procedure));
  }

  lemma UnnamedResponse(services: map<bytes, Service>, r: Request)
    requires r.msgId != HEARTBEAT && forall service, procedure :: !Names(r, service, procedure)
    ensures Dispatched(services, Some(r)) == Response(2, r.msgId, [])
  {
    forall n: Name ensures Split(r.serviceFullName) != Some(n) {
      NamesOnce(r, n);
    }
  }

  lemma OneName(r: Request, s: bytes, m: bytes, s': bytes, m': bytes)
    requires Names(r, s, m) && Names(r, s', m')
    ensures s == s' && m == m'
  {
    NamesOnce(r, Name(s, m));
    NamesOnce(r, Name(s', m'));
  }

  /** Every error of a request that is no heartbeat has its one cause: 1, the name is well-formed and no
      described service of that name is registered; 2, the name is not well-formed, or the described
      service has no such method; 3, the parameter does not parse; 4, there is no prototype or the result
      does not serialize. */
  lemma ErrorsMean(services: map<bytes, Service>, r: Request)
    requires r.msgId != HEARTBEAT
    ensures var code := Dispatched(services, Some(r)).errorCode;
            && (code == 1 <==> exists s, m :: Names(r, s, m) && !Described(services, s))
            && (code == 2 <==>
                  || (forall s, m :: !Names(r, s, m))
                  || exists s, m :: Names(r, s, m) && Described(services, s) && m !in services[s].methods)
            && (code == 3 <==> exists s, m :: ComesTo(services, r, s, m, ParameterError))
            && (code == 4 <==> exists s, m ::
                  ComesTo(services, r, s, m, NoPrototype) || ComesTo(services, r, s, m, ResultError))
            && (code == 0 <==> exists s, m, result :: ComesTo(services, r, s, m, Result(result)))
            && 0 <= code <= 4
  {
    if s, m :| Names(r, s, m) {
      NamedResponse(services, r, s, m);
      forall s', m' | Names(r, s', m') ensures s' == s && m' == m {
        OneName(r, s, m, s', m');
      }
      if Described(services, s) && m in services[s].methods {
        assert ComesTo(services, r, s, m, services[s].methods[m](r.param));
      }
    } else {
      UnnamedResponse(services, r);
    }
  }

  /** The null request is answered with error 3 and the message id "-1". */
  lemma NullRequest(services: map<bytes, Service>)
    ensures Dispatched(services, None) == Response(3, [45, 49], [])
  {
  }

  /** A heartbeat, by its message id alone, is answered with "PONG". */
  lemma Heartbeat(services: map<bytes, Service>, r: Request)
    requires r.msgId == [72, 69, 65, 82, 84, 66, 69, 65, 84]
    ensures Dispatched(services, Some(r)) == Response(0, r.msgId, [80, 79, 78, 71])
  {
  }
}

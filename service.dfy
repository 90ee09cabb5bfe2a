/** The HTTP boundary of the registry: the request method selects the
    operation, and each failure maps to a status code. Decoding the JSON body
    and reading the raw body happen outside the model; their outcome arrives
    as an Option. */
module Service {
  import opened RegistrySpec
  import opened RegistryServer

  /** A request to the services endpoint, with its body already decoded or read. */
  datatype Request =
    | Post(decoded: Option<Registration>)  // None: the body was not a registration
    | Delete(payload: Option<string>)      // None: the body could not be read
    | OtherMethod

  const StatusOK := 200
  const StatusBadRequest := 400
  const StatusMethodNotAllowed := 405
  const StatusInternalServerError := 500

  /** POST registers, DELETE deregisters by the URL in the body, anything else
      is refused. A registration that was stored but whose bootstrap push failed
      still answers 400; an unknown URL or an unreadable body answers 500. */
  method ServeHTTP(reg: Registry, req: Request, deliver: Send -> bool) returns (status: int)
    modifies reg
    ensures req.OtherMethod? ==> status == StatusMethodNotAllowed && unchanged(reg)
    ensures req == Post(None) ==> status == StatusBadRequest && unchanged(reg)
    ensures req == Delete(None) ==> status == StatusInternalServerError && unchanged(reg)
    ensures req.Post? && req.decoded.Some? ==>
              var r := req.decoded.value;
              reg.registrations == old(reg.registrations) + [r]
              && reg.outbox == old(reg.outbox) + [Send(r.serviceUpdateURL, BootstrapPatch(reg.registrations, r))]
                               + NotifySends(reg.registrations, AnnounceAdded(r), deliver)
              && status == if deliver(Send(r.serviceUpdateURL, BootstrapPatch(reg.registrations, r)))
                           then StatusOK else StatusBadRequest
    ensures req.Delete? && req.payload.Some? ==>
              var url := req.payload.value;
              (FindURL(old(reg.registrations), url).None? ==>
                 status == StatusInternalServerError
                 && reg.registrations == old(reg.registrations) && reg.outbox == old(reg.outbox))
              && (FindURL(old(reg.registrations), url).Some? ==>
                    status == StatusOK
                    && reg.registrations == RemoveAt(old(reg.registrations), FindURL(old(reg.registrations), url).value)
                    && reg.outbox == old(reg.outbox)
                       + NotifySends(old(reg.registrations),
                                     AnnounceRemoved(old(reg.registrations)[FindURL(old(reg.registrations), url).value]),
                                     deliver))
  {
    match req
    case Post(decoded) =>
      if decoded.None? {
        return StatusBadRequest;
      }
      var err := reg.Add(decoded.value, deliver);
      status := if err.Err? then StatusBadRequest else StatusOK;
    case Delete(payload) =>
      if payload.None? {
        return StatusInternalServerError;
      }
      var err := reg.Remove(payload.value, deliver);
      status := if err.Err? then StatusInternalServerError else StatusOK;
    case OtherMethod =>
      status := StatusMethodNotAllowed;
  }
}

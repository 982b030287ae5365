/** HTTP messages as the server sees them: requests after parsing, responses before
    serialisation, and the keep-alive rules of HTTP/1.0 and HTTP/1.1. */
module Messages {

  datatype Option<+T> = None | Some(value: T)

  newtype Byte = x: int | 0 <= x < 256

  type Bytes = seq<Byte>

  datatype Verb = Get | Head | OtherVerb(name: string)

  /** A token of the Connection header field. */
  datatype ConnectionToken = CloseToken | KeepAliveToken | UpgradeToken | OtherToken(name: string)

  /** `version` counts as the library does: 10 is HTTP/1.0, 11 is HTTP/1.1.
      `upgrade` holds the tokens of the Upgrade header field, in lower case. */
  datatype Request = Request(
    verb: Verb, target: string, version: nat,
    connection: set<ConnectionToken>, upgrade: set<string>)

  datatype Body = NoBody | Text(content: string) | File(path: string, size: nat)

  datatype Response = Response(
    status: nat, version: nat, server: string, contentType: string,
    connection: set<ConnectionToken>, contentLength: Option<nat>, body: Body)

  /** Whether the connection persists after a message carrying these tokens:
      section 9.3 of RFC 9112. */
  predicate KeepAlive(version: nat, connection: set<ConnectionToken>)
  {
    if version < 11 then KeepAliveToken in connection else CloseToken !in connection
  }

  /** An HTTP/1.0 request has to ask for the connection to persist, a later one has
      to ask for it not to. */
  predicate Persistent(req: Request): (persists: bool)
    ensures req.version == 10 ==> (persists <==> KeepAliveToken in req.connection)
    ensures req.version == 11 ==> (persists <==> CloseToken !in req.connection)
  {
    KeepAlive(req.version, req.connection)
  }

  /** Rewrites the Connection tokens so that reading them back gives `keep`,
      and leaves every token that is not about persistence alone. */
  function SetKeepAlive(version: nat, connection: set<ConnectionToken>, keep: bool): (r: set<ConnectionToken>)
    ensures KeepAlive(version, r) == keep
    ensures version < 11 ==> CloseToken !in r && (KeepAliveToken in r <==> keep)
    ensures version >= 11 ==> KeepAliveToken !in r && (CloseToken in r <==> !keep)
    ensures r - {CloseToken, KeepAliveToken} == connection - {CloseToken, KeepAliveToken}
    ensures !(CloseToken in r && KeepAliveToken in r)
  {
    var others := connection - {CloseToken, KeepAliveToken};
    if version < 11 then
      if keep then others + {KeepAliveToken} else others
    else
      if keep then others else others + {CloseToken}
  }

  /** Whether the end of this response is marked by the end of the stream, so
      that the connection has to be closed after it. */
  predicate NeedEof(m: Response)
  {
    if m.status / 100 == 1 || m.status == 204 || m.status == 304 || m.contentLength.Some?
    then !KeepAlive(m.version, m.connection)
    else true
  }

  /** A request to switch to WebSocket: section 4.1 of RFC 6455. */
  predicate IsUpgrade(req: Request)
  {
    && 11 <= req.version
    && req.verb.Get?
    && UpgradeToken in req.connection
    && "websocket" in req.upgrade
  }

  /** Exactly five things make a request an upgrade: with them it is one, whatever
      else it carries, and without any one of them it is none. */
  lemma UpgradeNeedsEach(req: Request, name: string, more: set<ConnectionToken>, others: set<string>)
    ensures req.version >= 11 ==>
              IsUpgrade(req.(verb := Get, connection := more + {UpgradeToken}, upgrade := others + {"websocket"}))
    ensures !IsUpgrade(req.(version := 10))
    ensures !IsUpgrade(req.(verb := Head)) && !IsUpgrade(req.(verb := OtherVerb(name)))
    ensures !IsUpgrade(req.(connection := more - {UpgradeToken}))
    ensures !IsUpgrade(req.(upgrade := others - {"websocket"}))
  {
  }

  /** A response without a length ends with the stream, unless its status says that
      it has no body; then, as with a length, the tokens decide. */
  lemma WhenTheStreamEndsIt(m: Response)
    ensures m.contentLength.None? && m.status in {200, 400, 404, 500} ==> NeedEof(m)
    ensures m.contentLength.Some? || m.status in {100, 101, 204, 304} ==>
              (NeedEof(m) <==>
                || (m.version < 11 && KeepAliveToken !in m.connection)
                || (m.version >= 11 && CloseToken in m.connection))
  {
  }
}

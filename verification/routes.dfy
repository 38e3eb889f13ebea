/** The route table of `Router.go` and the handler chain `NewRouter`
    builds for each route. */
module Routes {

  datatype Route = Route(name: string, verb: string, pattern: string, requireAuth: bool)

  /** A handler as `NewRouter` assembles it: the route's own handler,
      possibly behind `Authenticator`, always behind `Logger`. */
  datatype Handler = Inner(route: string) | Authenticator(next: Handler) | Logger(next: Handler)

  const AuthenticatePattern: string := "/api/authenticate"

  /** The `routes` table, in declaration order (the first name is spelt as
      in the source). */
  const Table: seq<Route> := [
    Route("Auhenticate", "POST", AuthenticatePattern, false),
    Route("Config", "GET", "/api/config", true),
    Route("Client List", "GET", "/api/clients", true),
    Route("Client Create", "POST", "/api/clients", true),
    Route("Client", "GET", "/api/clients/{clientId}", true),
    Route("Client Delete", "DELETE", "/api/clients/{clientId}", true)
  ]

  /** The handler chain for one route. */
  function Wrap(route: Route): (h: Handler)
    ensures h.Logger?
    ensures h.next.Authenticator? <==> route.requireAuth
  {
    var inner := Inner(route.name);
    Logger(if route.requireAuth then Authenticator(inner) else inner)
  }

  /** The registered handlers, one per route and in table order. */
  function NewRouter(routes: seq<Route>): (hs: seq<Handler>)
    ensures |hs| == |routes|
    ensures forall i :: 0 <= i < |routes| ==> hs[i] == Wrap(routes[i])
  {
    seq(|routes|, i requires 0 <= i < |routes| => Wrap(routes[i]))
  }

  /** Whether a request reaches the route's own handler, given whether
      `Authenticator` would admit it. */
  function Reaches(h: Handler, admitted: bool): bool
  {
    match h
    case Inner(_) => true
    case Logger(next) => Reaches(next, admitted)
    case Authenticator(next) => admitted && Reaches(next, admitted)
  }

  /** Every route but the authenticate route requires a token, and exactly
      those routes sit behind `Authenticator`, so their handlers run only
      for admitted requests. */
  lemma GuardedRoutes()
    ensures forall i :: 0 <= i < |Table| ==>
              (Table[i].requireAuth <==> Table[i].pattern != AuthenticatePattern)
    ensures forall i :: 0 <= i < |Table| ==>
              var h := NewRouter(Table)[i];
              && h.Logger?
              && (h.next.Authenticator? <==> Table[i].pattern != AuthenticatePattern)
              && (forall admitted: bool :: Reaches(h, admitted) <==>
                    admitted || Table[i].pattern == AuthenticatePattern)
  {
    forall i | 0 <= i < |Table|
      ensures Table[i].requireAuth <==> Table[i].pattern != AuthenticatePattern
    {
      assert Table[i] in Table;
    }
  }
}

# wg-vpn-server: a Dafny model of the admin server's core logic

wg-vpn-server is a small WireGuard administration server written in Go. Its
web API hands out client addresses from a subnet, logs users in with a JWT
that is split between the JSON body and a cookie, keeps a client directory,
and keeps the WireGuard device's peer list in line with that directory. The
repository holds two generations of this server: the root package
(`Router.go`, `Client.go`, `ClientsApi.go`, `Wireguard.go`, `main.go`, over
gorilla/mux and bbolt) and the `api`/`database`/`wireguard` packages (over
fiber and gorm).

This project models the sequential logic of both generations as pure Dafny
functions and proves what the code promises about them:

- **Address pool** (`address_pool.dfy`, `bytes.dfy`, `config_handlers.dfy`).
  - `inc` is a big-endian increment with carry.
  - `findAvailableIps` enumerates the host routes of a subnet.
  - `remove` deletes the first occurrence of a value. The handlers discard
    its result, so the caller's slice keeps its length and its last
    element. The key invariant is that the live prefix of that slice is
    the candidate list minus the assigned addresses.
  - The next-address selection of `apiGetConfig` and `GetConfig` is
    modelled on top of these.
- **Split-credential login and the token gate** (`jwt.dfy`, `auth.dfy`,
  `routes.dfy`).
  - Login decides, then splits the signed token into body and cookie.
  - The `Authenticator` middleware (root package) and
    `NewAuthenticationMiddleware` (`api` package) glue the token back
    together and check it.
  - The route table puts every route but login behind the gate.
  - The JWT library is an abstract record (`Jwt.Lib`): its encoders, the
    HMAC and the signature check are parameters, and a well-formedness
    predicate states what they guarantee. The signature check decodes the
    third segment leniently and compares bytes, so the model does not
    assume that the MAC the server wrote is the only text that verifies.
- **Client directory** (`client_store.dfy`, `clients_api.dfy`,
  `gorm_clients.dfy`, `records.dfy`).
  - The bbolt bucket is a map from id to record plus the bucket's sequence
    counter. It has 8-byte big-endian keys, and the model proves that
    cursor order is ascending id order.
  - The status decisions of the two handler sets are functions over the
    bucket and over the gorm table.
- **Peer reconciliation** (`reconcile.dfy`).
  - The `wgtypes.Config` lists built at startup and for a single client.
  - `getAllowedIpNets`.
  - An explicitly assumed semantics of applying a configuration with
    `ReplacePeers` false. Under it, the device ends up holding exactly the
    keys of the clients whose key parses.
- **User bootstrap** (`users.dfy`).
  - `username:password[:role]` specs are parsed and reconciled against the
    stored users.
  - Removal of a spec uses swap-with-last on the configuration slice. The
    model follows Go's `range` semantics: the loop keeps the length it
    started with but reads the live backing array.
  - The password generator is modelled over its 63-rune alphabet.

`Outcomes` holds the `Option` type and the HTTP status constants; `Text`
holds `strings.Split` and `strings.Join` with their round trip.

Inputs the code gets from libraries or the environment are parameters:
- the JWT encoders and HMAC;
- argon2id verification, and a stored hash stands for the password it was
  made from;
- `wgtypes.ParseKey`;
- `net.ParseCIDR` on an address string;
- the random draws of `crand.Int`;
- the current time;
- the outcome of decoding a request body or a stored record.

## Model

| member | source | states |
|---|---|---|
| Bytes.IncValue | Router.go:78-85 | `inc` adds one to the big-endian number the bytes denote, and the largest value 256^len - 1 wraps to zero |
| Bytes.IncAllOnes | api/config.go:31-38 | a slice of 0xFF bytes wraps to all zeros |
| Bytes.IncCarry | wireguard/interface_linux.go:22-29 | a trailing run of 0xFF bytes rolls over to zeros, the byte before it is bumped, and every byte further left is untouched |
| Bytes.ValueEncode | Client.go:100-104 | reading back the `width`-byte big-endian encoding gives the number modulo 256^width |
| Bytes.EncodeInjective | Client.go:100-104 | equal encodings of numbers below 256^width come from equal numbers |
| Bytes.EncodeOrder | Client.go:100-104 | a smaller number gets a lexicographically smaller encoding |
| AddressPool.ContainsRange | Router.go:250 | `ipnet.Contains` holds exactly on the half-open block that starts at the masked network address |
| AddressPool.NetworkBounds | Router.go:250 | the masked address is block-aligned and the whole block fits in the IPv4 space |
| AddressPool.StepOrWrap | Router.go:250 | an increment inside the subnet either yields the successor inside it or leaves it exactly at the block end, so the loop ends for every prefix 1..32 |
| AddressPool.Remaining | Router.go:249-252 | the addresses the loop still visits: from an address inside the subnet, up to the block end; from one outside it, none |
| AddressPool.EnumerateStep | Router.go:249-252 | one turn of the loop strictly lowers the remaining count, and the visited address followed by what is left is the whole remainder |
| AddressPool.Enumerate | Router.go:249-252 | the loop started inside the subnet appends exactly the host routes from the start address to the block end; started outside it appends nothing |
| AddressPool.EnumerateSubnet | Router.go:249-252 | starting at the network address visits every address of the subnet, in order |
| AddressPool.FindAvailableIps | wireguard/interface_linux.go:31-48 | an unparsable CIDR or a subnet of two or fewer addresses gives an empty list; otherwise the list is the host routes from network+1 to broadcast-1 |
| AddressPool.FindAvailableIpsShape | Router.go:243-260 | the list has 2^(32-p)-2 entries (or none), all "/32" host routes inside the subnet, strictly ascending, each the increment of the one before, without the network and broadcast addresses |
| AddressPool.IndexOf | Router.go:87-94 | the scan of `remove` finds the first occurrence, and runs to the end exactly when the value is absent |
| AddressPool.RemoveFirst | Router.go:87-94 | `remove` returns the list unchanged when the value is absent, and one element shorter when it is present |
| AddressPool.RemoveFirstAt | Router.go:87-94 | `remove` cuts the list at the position the scan finds, i.e. at the first occurrence, keeping everything before and after it |
| AddressPool.RemoveDiscarded | Router.go:223 | after `remove` with a discarded result, the caller's slice keeps its length: the first occurrence is cut and the old last element stays in the last slot |
| AddressPool.DiscardAll | Router.go:222-224 | a run of discarded removals never changes the slice length |
| AddressPool.RemoveFirstDistinct | api/config.go:59-66 | in a list without duplicates, removing the first occurrence removes the value altogether |
| AddressPool.DiscardLive | api/config.go:74-76 | a discarded removal of a value in the live prefix shrinks the prefix by exactly that value |
| AddressPool.DiscardStale | api/config.go:74-76 | a discarded removal of a value outside the live prefix leaves the prefix alone |
| AddressPool.LivePrefix | api/config.go:74-76 | after any sequence of discarded removals the slice keeps its length, holds only candidates, and its live prefix is the candidates minus everything removed, in their original order |
| ConfigHandlers.SelectNext | Router.go:202-233 | the selection panics exactly when the candidate list is empty (`ips[1:]`), and a single candidate yields "" |
| ConfigHandlers.SelectNextOffers | Router.go:202-233 | with at least two distinct candidates, the offer is a candidate above the gateway: the first unassigned one while one is unassigned, otherwise an assigned one |
| ConfigHandlers.LiveSlice | Router.go:207-233 | after the removal loop the slice has its old length, its live prefix is the unassigned candidates, and slot 0 is the first unassigned candidate when there is one |
| ConfigHandlers.AssignedIps | Router.go:209-228 | the assigned strings are exactly those of the records that decode; undecodable records are skipped |
| ConfigHandlers.NextFromSubnet | Router.go:202-233 | a subnet panics exactly when it is unparsable or has at most two addresses; otherwise the offer lies between network+2 and broadcast-1, is the lowest unassigned address while one is free, and an assigned one when all are taken |
| ConfigHandlers.SelectOverHosts | Router.go:202-233 | the same bounds and choice, stated for the candidates of a subnet with at least four addresses |
| ConfigHandlers.RouterGetConfig | Router.go:199-241 | `apiGetConfig` panics exactly for an unparsable or tiny subnet, and otherwise never offers the gateway network+1 |
| ConfigHandlers.RouterDefaultSubnetFirstOffer | Router.go:202-233 | 10.0.0.0/24 with no clients offers 10.0.0.2/32 |
| ConfigHandlers.FixedSubnetIps | api/config.go:40-57 | the fixed list is the 254 strings 10.0.0.1/32 .. 10.0.0.254/32, in order |
| ConfigHandlers.DefaultSubnetShape | api/config.go:40-57 | 10.0.0.0/24 has 256 addresses and `findAvailableIps` lists hosts 1..254 |
| ConfigHandlers.DefaultNext | api/config.go:67-94 | over 10.0.0.0/24 the offer lies in 10.0.0.2 .. 10.0.0.254, is the lowest free address while one is free, and a held one once all are held |
| ConfigHandlers.ApiGetConfig | api/config.go:67-94 | `GetConfig` never panics, never answers "" and never the gateway 10.0.0.1/32; it offers the lowest free address while one is free, and an address some client holds once all are assigned |
| ConfigHandlers.ApiCandidateSlice | api/config.go:73-79 | the candidate slice keeps 253 slots, its live prefix is the candidates minus the clients' addresses in original order, and every slot holds a candidate |
| ConfigHandlers.ApiFirstOffer | api/config.go:72-84 | with no clients, `GetConfig` offers 10.0.0.2/32 |
| ConfigHandlers.StaleOfferOnFullSubnet | Router.go:222-233 | on 10.0.0.0/30 with its only candidate held, the held address is offered again |
| ConfigHandlers.RemoveAll | Router.go:87-94 | `remove` with its result kept, over every assigned string, filters the candidates |
| ConfigHandlers.SelectNextKeepingResult | Router.go:222-233 | with results kept, the offer is the first free candidate above the gateway, or "" once all are held |
| ConfigHandlers.KeepingResultOnFullSubnet | Router.go:222-233 | with results kept, the full /30 subnet reports "" |
| Jwt.SignedSegments | Router.go:140-145 | the signed token splits at its dots into header, claims and the MAC of those two |
| Jwt.ParseShape | Router.go:339-345 | a token parses exactly when it is three dot-free segments joined by dots: an HS256 header, decodable claims, and a signature that verifies against "header.claims" |
| Jwt.ParseSigned | api/authentication.go:83-90 | every token the server signs parses |
| Jwt.ParseThirdSegment | api/authentication.go:83-91 | behind dot-free header and claims segments, the token parses exactly when the third segment is dot-free and verifies against "header.claims", under an HS256 header with decodable claims |
| Auth.IssueSplit | Router.go:135-156 | on success the cookie is segment 3, the body token is segments 1 and 2 joined by ".", body + "." + cookie is the signed token, and the split never panics |
| Auth.RouterLogin | Router.go:96-170 | an unparsable body gives 400 (the later 500 is superfluous), an empty password 401 before any lookup, and no cookie or token comes with a failure |
| Auth.RouterScan | Router.go:110-162 | no failure status carries a cookie or token |
| Auth.StopAt | Router.go:114-123 | the scan stops at the first record that fails to decode or names the user |
| Auth.RouterScanDecides | Router.go:110-162 | no matching record gives 401; an undecodable record or hash error before it gives 500; the first matching record's wrong password gives 401; a match issues the token with 201 |
| Auth.RouterGate | Router.go:322-353 | the gate denies only with 403, and admits only with a cookie and a reassembled token that parses |
| Auth.RouterGateAdmits | Router.go:324-351 | the gate admits exactly the requests with header "bearer " + a non-empty space-free token whose concatenation with the cookie parses |
| Auth.RouterLoginOpensGate | Router.go:145-156 | the token and cookie handed out at login open the gate as "bearer <token>", and the gate sees the signed token |
| Auth.IssuedToken | Router.go:140-156 | the body token handed out at login is "header.claims" of the signed token, space-free, and the cookie is the MAC of it |
| Auth.RouterGateCookieVerifies | Router.go:331-345 | behind the issued body token, the gate admits a cookie exactly when it is dot-free and verifies against that token; the issued cookie does |
| Auth.FindUser | api/authentication.go:27-28 | the lookup gives the zero user or a row with the requested name, and the first row of that name whenever one exists |
| Auth.ApiLogin | api/authentication.go:15-67 | 400 for an unparsable body; 401 for an empty password; 401 for an empty or unknown username and for a wrong password alike; 500 when the hash check fails; the split token with 200 when it matches, and a 200 only for a stored user whose hash matches |
| Auth.ApiGate | api/authentication.go:69-97 | 401 exactly when the header does not split on " " into two parts, the cookie is empty or the header token does not have two dot segments; otherwise 403 exactly when header token "." cookie does not parse; otherwise that token passes |
| Auth.ApiGateAdmits | api/authentication.go:69-97 | the middleware admits exactly a non-empty cookie behind a header of a space-free scheme word, a space and "header.claims", where header, claims and cookie are valid token segments |
| Auth.PassedHeader | api/authentication.go:71-95 | an admitted header is a scheme word, a space and "header.claims" with valid segments |
| Auth.HeaderPasses | api/authentication.go:71-95 | such a header with a non-empty cookie of valid segments is admitted |
| Auth.ApiLoginOpensGate | api/authentication.go:54-66 | the issued token passes the middleware behind any space-free scheme word, and the middleware sees the signed token |
| Auth.ApiGateCookieVerifies | api/authentication.go:78-91 | behind the issued body token, the middleware admits a cookie exactly when it is non-empty, dot-free and verifies against that token; the issued cookie does |
| Routes.Wrap | Router.go:41-48 | every handler is behind `Logger`, and behind `Authenticator` exactly when the route requires auth |
| Routes.NewRouter | Router.go:41-55 | one wrapped handler per route, in table order |
| Routes.GuardedRoutes | Router.go:262-305 | every route except the authenticate route requires auth, and its handler runs only for admitted requests |
| ClientStore.ItobValue | Client.go:100-104 | the 8-byte key reads back as `uint64(v)` |
| ClientStore.ItobInjective | Client.go:100-104 | `itob` is injective on the uint64 range |
| ClientStore.ItobOrder | Client.go:100-104 | `itob` orders keys as their ids, so a cursor walks ascending ids |
| ClientStore.ClientFind | Client.go:44-62 | a found record carries the requested id and one the sequence handed out; id 0 and ids beyond the sequence find nothing |
| ClientStore.At | Client.go:28-35 | one cursor step yields the client under a key exactly when a record is stored there and decodes |
| ClientStore.CollectFromStore | Client.go:27-36 | everything the cursor walk yields is a decodable stored record, in ascending id order |
| ClientStore.CollectComplete | Client.go:27-36 | the cursor walk misses no decodable record from its start id on |
| ClientStore.ClientList | Client.go:18-42 | the list holds exactly the decodable records, each findable under its id, in ascending id order |
| ClientStore.ListInCursorOrder | Client.go:18-42 | consecutive list entries have lexicographically ascending keys |
| ClientStore.ClientRemove | Client.go:64-76 | the id is gone afterwards, every other id finds what it found before, and an absent id changes nothing |
| ClientStore.ClientCreate | Client.go:78-98 | the caller's id is replaced by the next sequence value, the record is findable under it, and every other id is unchanged |
| ClientStore.CreateAppends | Client.go:78-98 | a created client goes to the end of the list, behind every existing record |
| ClientsApi.ScanDigits | ClientsApi.go:47 | the digit loop of `strconv.ParseUint` never yields a value past the unsigned 64-bit range |
| ClientsApi.Atoi | ClientsApi.go:47 | the ignored-error `strconv.Atoi` stays within the 64-bit range and is negative only behind a "-" |
| ClientsApi.DigitRun | ClientsApi.go:47 | the leading run of digits ends at the first byte that is not a digit |
| ClientsApi.ScanFrom | ClientsApi.go:47 | the digit loop ends in a range error exactly when the leading run of digits exceeds the unsigned 64-bit range, otherwise in a syntax error when anything follows the run, otherwise in the run's value |
| ClientsApi.AtoiDigits | ClientsApi.go:47 | `Atoi` is 0 for text that is not a number, and otherwise the value of the leading digits clamped to the range of the sign |
| ClientsApi.OverflowBeforeGarbage | ClientsApi.go:47 | leading digits past the unsigned 64-bit range read as the bound of the sign whatever follows them, not as 0 |
| ClientsApi.AtoiItoa | ClientsApi.go:45-56 | every 64-bit number reads back from its decimal text |
| ClientsApi.ApiClientCreate | ClientsApi.go:12-37 | 201, or 422 when the body does not decode, and in both cases the client is stored under the next id |
| ClientsApi.CreateDespiteDecodeFailure | ClientsApi.go:23-31 | an undecodable body is answered 422 and still appends a client to the list |
| ClientsApi.ApiClientCreateReturning | ClientsApi.go:23-31 | returning after the 422 leaves the bucket untouched |
| ClientsApi.ReturningCreateKeepsList | ClientsApi.go:23-31 | with the return, a refused create leaves the list as it was |
| ClientsApi.ApiClientsIndex | ClientsApi.go:38-44 | the index answers with every decodable record, each under its own id, in ascending id order |
| ClientsApi.ApiClientShow | ClientsApi.go:45-56 | show answers 404 exactly when `ClientFind` of the parsed id is nil |
| ClientsApi.ShowNonNumeric | ClientsApi.go:45-56 | an id that is not a number (empty, or a non-digit before the leading digits overflow) is looked up as 0 and answered 404 |
| ClientsApi.ShowAfterCreate | ClientsApi.go:45-56 | showing the id a create reported finds the created client |
| ClientsApi.ApiClientRemove | ClientsApi.go:57-63 | remove always answers 204, afterwards the id shows 404, and no other id changes |
| GormClients.FindRow | api/clients.go:66-67 | the lookup finds a row with the key, or reports that no row has it |
| GormClients.GetClients | api/clients.go:17-36 | 200 with one response per row in table order, each with the same placeholder statistics; no rows give `null` |
| GormClients.GetClient | api/clients.go:59-83 | 400 for an empty id; 404 for an absent row and for an empty public key alike; 200 with the row otherwise |
| GormClients.Without | api/clients.go:99 | deleting keeps exactly the rows with other keys |
| GormClients.DeleteClient | api/clients.go:85-102 | 204 exactly when the get would succeed, after which the key is gone and other rows stay; otherwise the get's status and no change |
| GormClients.DeleteThenGet | api/clients.go:85-102 | after a delete, getting or deleting the same id answers 404 |
| GormClients.CreateClientAsWritten | api/clients.go:38-43 | `BodyParser` is handed the struct by value and fails for every body, so every create is answered 400 and the table does not change |
| GormClients.CreateAsWrittenLosesClient | api/clients.go:38-83 | a client with a fresh key posted to the handler as written cannot be fetched afterwards, while with the corrected handler it can |
| GormClients.CreateClient | api/clients.go:38-57 | with the body parsed into a pointer: an unparsable body gives 400 and no change; otherwise the row is appended and the answer is 200, not 201 |
| GormClients.CreateThenGet | api/clients.go:38-83 | with the corrected handler, a created row with a fresh key and a public key can be fetched |
| Reconcile.AllowedIpNets | wireguard/wireguard.go:221-230 | one network: the client's CIDR with the host bits cleared, holding its address; an unparsable address is the nil-dereference panic |
| Reconcile.HostRouteNets | Wireguard.go:60-69 | a "/32" address gives exactly that host network |
| Reconcile.Removals | main.go:274-288 | one `Remove=true` entry per device peer with its key and allowed IPs |
| Reconcile.Parsable | main.go:294-299 | exactly the clients whose key parses, skipping the others |
| Reconcile.ParsableInOrder | main.go:294-299 | the kept clients are the positions whose key parses, each taken once and in directory order |
| Reconcile.AddsFor | main.go:301-309 | over clients whose keys parse: one add entry per client, in order, exactly when every address parses |
| Reconcile.Adds | main.go:294-310 | one `Remove=false` entry per client whose key parses, in directory order, with its key and network; a panic when such a client's address does not parse |
| Reconcile.Resync | main.go:274-310 | the first config is the removals, the second the same removals followed by the adds (`cfg.Peers` is not reset), both with `ReplacePeers` false; when an address does not parse, the process panics after the first config was sent |
| Reconcile.InitWireguard | main.go:255-316 | a missing device is fatal because `createInterface` always fails; another lookup error panics before anything is sent; a found device gets the resync |
| Reconcile.Run | wireguard/wireguard.go:41-103 | the embedded device starts exactly when the first lookup fails; a failing second lookup is fatal; otherwise the resync |
| Reconcile.AddKeys | main.go:294-310 | the adds carry exactly the keys of the clients whose key parses |
| Reconcile.ResyncKeys | main.go:274-315 | under the assumed device semantics, after the second config the device holds exactly the parsable client keys |
| Reconcile.FirstConfigClears | main.go:274-306 | under the assumed semantics, the first config empties the device, also when the startup then panics on an unparsable address, which leaves the device empty |
| Reconcile.KeyOrZero | wireguard/wireguard.go:173 | a key that fails to parse is used as the zero key |
| Reconcile.RemoveClient | wireguard/wireguard.go:172-192 | exactly one `Remove=true` entry with `ReplacePeers` false, `UpdateOnly` and `ReplaceAllowedIPs` false, the client's network, under the parsed or zero key |
| Reconcile.AddClient | Wireguard.go:33-58 | exactly one `Remove=false` entry with `ReplacePeers`, `UpdateOnly` and `ReplaceAllowedIPs` false and the client's network, sent even after a key-parse failure |
| Reconcile.AddThenRemove | wireguard/wireguard.go:172-219 | under the assumed semantics, adding a client whose key is not on the device puts it there with the client's network, and removing it restores the previous peers |
| Text.JoinSplit | api/authentication.go:54-66 | joining the pieces of a split gives the string back |
| Text.SplitSingle | database/user.go:31-34 | a string splits into one piece exactly when it holds no separator |
| Users.ParseSpec | database/user.go:31-34 | a spec is refused exactly when it has no colon; the username and password parts hold no colon |
| Users.SpecRoundTrip | database/user.go:78-85 | a spec written as `user:password[:role]` with colon-free fields reads back as written |
| Users.PasswordStopsAtColon | database/user.go:31-54 | the password ends at the second colon, and a role is taken only when exactly three parts exist |
| Users.RemoveIndex | main.go:249-253 | `removeIndexFromList`, and the live entries after `removeIndexFromUsersList`: index i must be in the list, the last element moves to index i, the list shrinks by one, and its multiset is the original minus element i |
| Users.RemoveFromSlice | database/user.go:119-122 | `removeIndexFromUsersList` panics exactly for an index at or past the current length; otherwise the live list is the swap-with-last removal and only slot i of the backing array is written |
| Users.Refreshed | database/user.go:51-54 | the refreshed user keeps its name, takes the new hash, and takes the spec's role only when the spec has one |
| Users.RefreshUser | database/user.go:30-58 | the inner loop leaves every other stored user as it was and keeps the backing array's length |
| Users.RefreshAll | database/user.go:27-59 | the first phase keeps the number of stored users and their names |
| Users.NewUser | database/user.go:78-85 | a remaining spec creates a user with its name and password and role "admin" unless it names one |
| Users.CreateUsers | database/user.go:61-89 | the second loop is fatal exactly when a spec is malformed; otherwise one new user per spec, in order |
| Users.AlphabetDistinct | database/user.go:125 | no rune of the 63-rune alphabet occurs twice |
| Users.GeneratePassword | database/user.go:124-136 | the password has exactly `length` runes, the i-th from draw i; any failed draw is an error |
| Users.PasswordShape | database/user.go:124-136 | every rune is in the alphabet, and a password determines its draws |
| Users.InitUsers | database/user.go:21-117 | a completed bootstrap has at least as many users as were stored |
| Users.NoStoredUsers | database/user.go:61-89 | with no stored users, a malformed spec is fatal, and otherwise every spec becomes a user |
| Users.GeneratedAdmin | database/user.go:91-116 | the admin is generated exactly when there are neither stored users nor specs, with a ten-rune password from the alphabet |
| Users.MalformedSpecHalts | database/user.go:30-65 | a spec without a colon always stops the bootstrap |
| Users.ReadsEverySpec | database/user.go:30-34 | the first stored user's loop parses every spec before it can finish |
| Users.RemoveIndexNamed | database/user.go:119-122 | with distinct names, the removal drops exactly the spec at i and keeps the names distinct |
| Users.SkipRun | database/user.go:36-38 | specs naming other users are passed over |
| Users.RefreshOne | database/user.go:30-58 | with distinct names, the spec naming the user refreshes it and is removed; without one nothing changes |
| Users.RefreshFound | database/user.go:30-58 | the spec at m naming the user is the one that refreshes it, and it alone leaves the pending list |
| Users.RefreshAbsent | database/user.go:30-38 | a user no spec names leaves the table and the pending list as they were |
| Users.StepDistinct | database/user.go:30-58 | one stored user's pass keeps every spec but the one naming it |
| Users.StepRefreshes | database/user.go:30-58 | one stored user's pass refreshes it with the spec naming it, touches no other user, and keeps every spec naming someone else |
| Users.StepUntouched | database/user.go:30-58 | one stored user's pass leaves an unnamed user as it was, and a name no spec held stays unheld |
| Users.RefreshAllPending | database/user.go:27-59 | with distinct names, the specs still pending after the first phase are exactly those naming no stored user, and they stay distinct and well-formed |
| Users.RefreshAllRefreshes | database/user.go:27-59 | with distinct names, every stored user a spec names is refreshed by that spec |
| Users.RefreshAllUntouched | database/user.go:27-59 | with distinct names, every stored user no spec names is left as it was |
| Users.RefreshAllDistinct | database/user.go:27-59 | with distinct names, every stored user is refreshed by the spec naming it, and the pending specs are those naming no stored user |
| Users.InitUsersReconciles | database/user.go:21-89 | with stored users and distinct well-formed specs: each stored user is refreshed by its spec; every other spec becomes a new user; nothing is generated |
| Users.DuplicateSpecPanics | database/user.go:30-57 | two specs naming one stored user make the bootstrap panic |
| Users.DuplicateSpecExample | database/user.go:30-57 | a stored `alice` with specs `alice:x` and `alice:y` panics |
| Users.RefreshFixed | database/user.go:30-58 | read against the current list: fatal exactly on a malformed spec; otherwise the specs naming the user leave the list, every other spec stays, and a changed user took its new hash from a spec naming it |
| Users.RefreshAllFixed | database/user.go:27-59 | the corrected first phase fails exactly on a malformed spec when stored users exist, and leaves pending exactly the specs naming no stored user |
| Users.InitUsersFixed | database/user.go:21-117 | the corrected bootstrap never panics, and halts exactly on a malformed spec or a failed password draw |
| Users.DuplicateSpecFixed | database/user.go:30-57 | with the correction, two specs naming one stored user both leave the pending list, the bootstrap completes, and no new user is created |

## Left out

- I/O and process plumbing are not modelled:
  - TLS and key files, flags and `config/config.go`, database opening;
  - the fiber and gorilla wiring, CORS, compression and static files;
  - logging and signal handling.
  - A fatal log or a panic is an outcome value; what was written before it is not.
- `runEmbeddedWireGuard`, tun/uapi and the accept goroutines are left out. They are concurrency and kernel I/O.
- `configureInterface` in `wireguard/interface_linux.go` is left out. It refers to undefined names.
- The JWT and argon2id libraries are parameters. HMAC, base64url encoding and the signature check are abstract functions, and `Jwt.Wellformed` states what they are assumed to guarantee.
- Auth.RouterGateCookieVerifies: which texts other than the issued cookie verify is left to the abstract check. jwt-go decodes the segment leniently, so an altered last character or added padding may verify too.
- Token expiry is not modelled. `exp` is written with `UnixNano`, so no lifetime claim is made.
- The cookie attributes (`MaxAge`, `Expires`, `Secure`, `SameSite`) are not modelled.
- Reconcile.ApplyOne: the effect of `ConfigureDevice` with `ReplacePeers` false is an assumption, not a verified fact. Under it, a removal deletes the key and any other entry inserts the peer or appends to its allowed IPs. wgctrl is not part of this model.
- Configuration errors of `ConfigureDevice` are only logged by the source. The model carries the configs that are sent, not the error.
- Users.InitUsers: a stored hash is `HashOf(password)`. The random argon2id salt is not modelled, and neither is the `CreateHash` error.
- Users.InitUsers: gorm's `Save` and `Create` with struct values are assumed to write the row.
- IPv6 and the /0 prefix are not modelled. The enumeration never ends on /0, so prefixes are 1..32.
- Dotted-quad formatting is abstract. A "/32" string is `HostRoute(address)`, taking the formatting to be injective.
- ClientStore.ClientCreate: requires a sequence below 2^63 - 1. The `int(id)` conversion past that bound is not modelled.
- `removeIndexFromList` (main.go) is modelled by `Users.RemoveIndex` on its returned list. Its write into the caller's backing array is not modelled: the function has no caller in the repository.
- ClientsApi.Atoi follows `strconv.ParseInt(s, 10, 0)` of the Go standard library on a 64-bit platform; strconv is not part of this model. The fast path `Atoi` takes for strings under 19 bytes is not modelled separately: it gives the same value, as 18 digits stay in range.
- ClientStore.ClientFind: a record that fails to decode is not found. The source can leave a partly decoded client behind, and that case is not modelled.
- GormClients.FindRow: gorm's lookup is modelled as an exact key match.
  - How gorm turns a non-numeric id into an SQL condition is left out.
  - Soft deletion of `gorm.Model` is left out.
- GormClients.CreateClient: the outcome of `BodyParser` into a pointer is a parameter. How fiber decodes each content type is not modelled. `database.Connection.Create(newClient)` also receives the struct by value; like the `Save` and `Create` calls of `Users.InitUsers`, it is assumed to write the row.
- Auth.RouterLogin: `ioutil.ReadAll` errors are not modelled. The source treats them as fatal.
- The signing error branch is not modelled. The abstract library always signs.
- The fields the root package reads but does not declare (`client.AllowedIps`) are taken as given. `ConfigHandlers.BoltClient` is a record with its address strings.
- The JSON body of the `/config` answer other than `nextAvailableIp4` is not modelled. The endpoint, public key, DNS and MTU fields are copied from configuration.

## Findings

| source | as written | input that shows it | evidently intended | confidence | as-written member | corrected member |
|---|---|---|---|---|---|---|
| Router.go:222-233 | `remove(ips, ip)` discards its result, so the caller's slice keeps its old last element; when every candidate is taken, slot 0 still holds an assigned address | subnet 10.0.0.0/30, one client holding 10.0.0.2/32: `apiGetConfig` offers 10.0.0.2/32 again | keep the result (`ips = remove(ips, ip)`), so a full subnet offers no address | not executed | ConfigHandlers.StaleOfferOnFullSubnet | ConfigHandlers.SelectNextKeepingResult |
| ClientsApi.go:23-31 | after writing 422 for an undecodable body, the handler does not return and creates the client anyway | any body that fails `json.Unmarshal` | return after the 422, leaving the bucket unchanged | not executed | ClientsApi.CreateDespiteDecodeFailure | ClientsApi.ApiClientCreateReturning |
| api/clients.go:38-43 | `c.BodyParser(newClient)` passes the struct by value, which no body decoder can fill, so parsing fails for every request | any POST to the create route, e.g. a JSON client with a fresh key: 400, and `GetClient` of that key then answers 404 | parse into a pointer (`c.BodyParser(&newClient)`) and insert the parsed row | not executed | GormClients.CreateAsWrittenLosesClient | GormClients.CreateClient |
| database/user.go:30-57 | specs are removed by swap-with-last while a `range` loop over the original length keeps reading the backing array | stored user `alice`, specs `alice:x` and `alice:y`: the second spec is read again from the stale last slot and `removeIndexFromUsersList(1)` indexes past the shortened list | every spec naming a stored user refreshes it and leaves the pending list, without a panic | not executed | Users.DuplicateSpecPanics | Users.InitUsersFixed |

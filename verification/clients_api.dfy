/** The handlers of `ClientsApi.go` over the bbolt client bucket, and the
    `strconv.Atoi` they use on the `clientId` route parameter. */
module ClientsApi {
  import opened Outcomes
  import opened ClientStore

  const MaxInt64: int := 0x7FFF_FFFF_FFFF_FFFF
  const MinInt64: int := -0x8000_0000_0000_0000

  predicate IsDigit(c: char)
  {
    '0' <= c <= '9'
  }

  predicate AllDigits(s: string)
  {
    forall i :: 0 <= i < |s| ==> IsDigit(s[i])
  }

  /** The number a string of decimal digits denotes. */
  function DigitsValue(s: string): nat
    requires AllDigits(s)
  {
    if |s| == 0 then 0
    else DigitsValue(s[..|s| - 1]) * 10 + (s[|s| - 1] as int - '0' as int)
  }

  /** The digits after an optional leading sign. */
  function Unsigned(s: string): string
  {
    if |s| > 0 && (s[0] == '+' || s[0] == '-') then s[1..] else s
  }

  const MaxUint64: int := 0xFFFF_FFFF_FFFF_FFFF

  /** How `strconv.ParseUint(s, 10, 64)` ends. */
  datatype Scan = Scanned(value: nat) | SyntaxError | RangeError

  /** The digit loop of `ParseUint` from accumulator `n`, byte by byte: a
      byte that is not a decimal digit is a syntax error; an accumulator at
      or above the cutoff `MaxUint64 / 10 + 1`, or a next value past
      `MaxUint64` (the wrap-around test `n1 < n` included), is a range
      error at once, before any later byte is looked at. */
  function ScanDigits(s: string, n: nat): (r: Scan)
    requires n <= MaxUint64
    ensures r.Scanned? ==> r.value <= MaxUint64
    decreases |s|
  {
    if |s| == 0 then Scanned(n)
    else if !IsDigit(s[0]) then SyntaxError
    else if n >= MaxUint64 / 10 + 1 then RangeError
    else
      var n1 := n * 10 + (s[0] as int - '0' as int);
      if n1 > MaxUint64 then RangeError else ScanDigits(s[1..], n1)
  }

  /** `strconv.ParseUint(s, 10, 64)`: the empty string is a syntax
      error. */
  function ParseUint(s: string): (r: Scan)
    ensures r.Scanned? ==> r.value <= MaxUint64
  {
    if |s| == 0 then SyntaxError else ScanDigits(s, 0)
  }

  /** The clamp `ParseInt` applies to an unsigned magnitude `v`. */
  function Clamp(neg: bool, v: nat): (n: int)
    ensures MinInt64 <= n <= MaxInt64
    ensures n < 0 ==> neg
  {
    if neg then (if v > -MinInt64 then MinInt64 else -(v as int))
    else if v > MaxInt64 then MaxInt64 else v
  }

  /** `strconv.Atoi` with its error dropped, as the handlers use it: it is
      `ParseInt(s, 10, 0)` on a 64-bit platform. A syntax error yields 0;
      a range error from `ParseUint` leaves the magnitude at `MaxUint64`,
      which `ParseInt` clamps to the bound of the sign, as it clamps any
      magnitude outside the 64-bit range. The fast path `Atoi` takes for
      strings shorter than 19 bytes computes the same value, since at most
      18 digits cannot leave that range. */
  function Atoi(s: string): (n: int)
    ensures MinInt64 <= n <= MaxInt64
    ensures n < 0 ==> |s| > 0 && s[0] == '-'
  {
    var neg := |s| > 0 && s[0] == '-';
    match ParseUint(Unsigned(s))
    case SyntaxError => 0
    case RangeError => Clamp(neg, MaxUint64)
    case Scanned(v) => Clamp(neg, v)
  }

  /** The length of the run of decimal digits that starts `s`. */
  function DigitRun(s: string): (j: nat)
    ensures j <= |s|
    ensures forall i :: 0 <= i < j ==> IsDigit(s[i])
    ensures j < |s| ==> !IsDigit(s[j])
    decreases |s|
  {
    if |s| == 0 || !IsDigit(s[0]) then 0
    else
      var rest := DigitRun(s[1..]);
      assert forall i :: 1 <= i < 1 + rest ==> s[i] == s[1..][i - 1];
      1 + rest
  }

  /** `s`, without its sign, is not read as a number: it is empty, or a
      byte that is not a digit comes before the leading digits leave the
      unsigned 64-bit range. */
  predicate NotANumber(s: string)
  {
    var body := Unsigned(s);
    var j := DigitRun(body);
    body == "" || (j < |body| && DigitsValue(body[..j]) <= MaxUint64)
  }

  /** One more digit of a prefix. */
  lemma DigitsStep(s: string, k: nat)
    requires k < |s| && AllDigits(s[..k + 1])
    ensures DigitsValue(s[..k + 1]) == DigitsValue(s[..k]) * 10 + (s[k] as int - '0' as int)
  {
    assert s[..k + 1][..k] == s[..k];
  }

  /** Longer digit prefixes are worth at least as much. */
  lemma {:induction false} DigitsMonotone(s: string, a: nat, b: nat)
    requires a <= b <= |s| && AllDigits(s[..b])
    ensures DigitsValue(s[..a]) <= DigitsValue(s[..b])
    decreases b - a
  {
    if a < b {
      DigitsStep(s, b - 1);
      DigitsMonotone(s, a, b - 1);
    }
  }

  /** The digit loop from the value of the first `k` digits ends in a range
      error exactly when the whole leading run of digits exceeds
      `MaxUint64`, and otherwise in a syntax error when a non-digit
      follows that run, and in the run's value when it is the whole
      string. */
  lemma {:induction false} ScanFrom(s: string, k: nat)
    requires k <= DigitRun(s)
    requires DigitsValue(s[..k]) <= MaxUint64
    ensures var j := DigitRun(s);
            var v := DigitsValue(s[..j]);
            ScanDigits(s[k..], DigitsValue(s[..k])) ==
              if v > MaxUint64 then RangeError
              else if j < |s| then SyntaxError
              else Scanned(v)
    decreases |s| - k
  {
    var j := DigitRun(s);
    var n := DigitsValue(s[..k]);
    if k < j {
      DigitsStep(s, k);
      DigitsMonotone(s, k + 1, j);
      var n1 := DigitsValue(s[..k + 1]);
      assert s[k..][0] == s[k] && s[k..][1..] == s[k + 1..];
      if n < MaxUint64 / 10 + 1 && n1 <= MaxUint64 {
        ScanFrom(s, k + 1);
      }
    }
  }

  /** `Atoi` in terms of the leading digits: 0 for what is not a number,
      otherwise the value of the leading run of digits, clamped by the
      sign. A string of twenty or more digits followed by garbage is thus
      read as a bound, not as 0. */
  lemma AtoiDigits(s: string)
    ensures var body := Unsigned(s);
            Atoi(s) == if NotANumber(s) then 0
                       else Clamp(|s| > 0 && s[0] == '-', DigitsValue(body[..DigitRun(body)]))
  {
    var body := Unsigned(s);
    if body != "" {
      ScanFrom(body, 0);
      assert body[0..] == body;
    }
  }

  /** A run of leading digits worth more than `MaxUint64` reads as the
      bound of the sign. */
  lemma AtoiRunOverflows(s: string)
    requires var body := Unsigned(s); DigitsValue(body[..DigitRun(body)]) > MaxUint64
    ensures Atoi(s) == if |s| > 0 && s[0] == '-' then MinInt64 else MaxInt64
  {
    AtoiDigits(s);
  }

  /** The first `k` bytes of `s`, all digits, start a leading run worth at
      least as much. */
  lemma RunCovers(s: string, k: nat)
    requires k <= |s| && AllDigits(s[..k])
    ensures k <= DigitRun(s)
    ensures DigitsValue(s[..k]) <= DigitsValue(s[..DigitRun(s)])
  {
    assert forall i :: 0 <= i < k ==> s[i] == s[..k][i];
    DigitsMonotone(s, k, DigitRun(s));
  }

  /** Leading digits worth more than `MaxUint64` decide the result, whatever
      follows them: the bound of the sign, not the 0 of a syntax error. */
  lemma OverflowBeforeGarbage(s: string, k: nat)
    requires 0 < k <= |s| && AllDigits(s[..k]) && DigitsValue(s[..k]) > MaxUint64
    ensures Atoi(s) == MaxInt64
    ensures Atoi("-" + s) == MinInt64
  {
    RunCovers(s, k);
    assert s[0] == s[..k][0] && Unsigned(s) == s;
    AtoiRunOverflows(s);
    var t := "-" + s;
    assert t[0] == '-' && t[1..] == s;
    AtoiRunOverflows(t);
  }

  function DigitChar(d: nat): (c: char)
    requires d < 10
    ensures IsDigit(c)
  {
    ('0' as int + d) as char
  }

  /** The decimal text of a natural number, without leading zeros. */
  function DecimalText(v: nat): (s: string)
    ensures |s| >= 1 && AllDigits(s)
    ensures s[0] != '+' && s[0] != '-'
  {
    if v < 10 then [DigitChar(v)] else DecimalText(v / 10) + [DigitChar(v % 10)]
  }

  /** `strconv.Itoa`. */
  function Itoa(n: int): string
  {
    if n < 0 then "-" + DecimalText(-n) else DecimalText(n)
  }

  lemma {:induction false} DecimalValue(v: nat)
    ensures DigitsValue(DecimalText(v)) == v
  {
    if v >= 10 {
      DecimalValue(v / 10);
      var s := DecimalText(v);
      assert s[..|s| - 1] == DecimalText(v / 10);
    }
  }

  /** `Atoi` reads back every 64-bit number `Itoa` writes. */
  lemma AtoiItoa(n: int)
    requires MinInt64 <= n <= MaxInt64
    ensures Atoi(Itoa(n)) == n
  {
    var s := Itoa(n);
    var body := if n < 0 then DecimalText(-n) else DecimalText(n);
    DecimalValue(if n < 0 then -n else n);
    if n < 0 {
      assert s == "-" + body && s[0] == '-';
    } else {
      assert s == body;
    }
    assert Unsigned(s) == body;
    assert DigitRun(body) == |body| && body[..|body|] == body;
    AtoiDigits(s);
  }

  // ---------------------------------------------------------------------
  // Handlers

  /** The outcome of decoding the create body: the client, or whatever
      `json.Unmarshal` left in the zero client before it failed. */
  datatype Decode = Decoded(client: Client) | Undecodable(partial: Client)

  datatype CreateReply = CreateReply(status: Status, store: Store, client: Client)

  /** `apiClientCreate`: on a decode failure the handler writes 422 but
      goes on, so the partly decoded client is still stored and the later
      201 is a superfluous header; otherwise 201 with the stored client. */
  function ApiClientCreate(s: Store, body: Decode): (r: CreateReply)
    requires Wf(s) && s.sequence < MaxId
    ensures Wf(r.store)
    ensures r.status == if body.Undecodable? then StatusUnprocessable else StatusCreated
    ensures r.client.id == s.sequence + 1
    ensures ClientFind(r.store, r.client.id) == Some(r.client)
    ensures body.Decoded? ==> r.client == body.client.(id := s.sequence + 1)
    ensures body.Undecodable? ==> r.client == body.partial.(id := s.sequence + 1)
  {
    var submitted := if body.Decoded? then body.client else body.partial;
    var created := ClientCreate(s, submitted);
    var status := if body.Undecodable? then StatusUnprocessable else StatusCreated;
    CreateReply(status, created.store, created.client)
  }

  /** A body that fails to decode is refused with 422 and still adds a
      client to the end of the list. */
  lemma CreateDespiteDecodeFailure(s: Store, partial: Client)
    requires Wf(s) && s.sequence < MaxId
    ensures var r := ApiClientCreate(s, Undecodable(partial));
            && r.status == StatusUnprocessable
            && ClientList(r.store) == ClientList(s) + [partial.(id := s.sequence + 1)]
  {
    CreateAppends(s, partial);
  }

  /** The create handler as evidently intended: return after the 422, so a
      body that fails to decode leaves the bucket alone. */
  function ApiClientCreateReturning(s: Store, body: Decode): (r: CreateReply)
    requires Wf(s) && s.sequence < MaxId
    ensures Wf(r.store)
    ensures body.Undecodable? ==> r.status == StatusUnprocessable && r.store == s
    ensures body.Decoded? ==> r == ApiClientCreate(s, body)
  {
    if body.Undecodable? then CreateReply(StatusUnprocessable, s, body.partial)
    else ApiClientCreate(s, body)
  }

  /** A refused create adds nothing to the list. */
  lemma ReturningCreateKeepsList(s: Store, partial: Client)
    requires Wf(s) && s.sequence < MaxId
    ensures var r := ApiClientCreateReturning(s, Undecodable(partial));
            r.status == StatusUnprocessable && ClientList(r.store) == ClientList(s)
  {
  }

  datatype IndexReply = IndexReply(status: Status, clients: seq<Client>)

  /** `apiClientsIndex`: every record that decodes, in ascending id order. */
  function ApiClientsIndex(s: Store): (r: IndexReply)
    requires Wf(s)
    ensures r.status == StatusOk
    ensures forall i :: 0 <= i < |r.clients| ==> ClientFind(s, r.clients[i].id) == Some(r.clients[i])
    ensures forall k :: k in s.records && s.records[k].Valid? ==> s.records[k].client in r.clients
    ensures forall i, j :: 0 <= i < j < |r.clients| ==> r.clients[i].id < r.clients[j].id
  {
    IndexReply(StatusOk, ClientList(s))
  }

  datatype ShowReply = Found(client: Client) | NotFound

  /** `apiClientShow`: the client under `Atoi(clientId)`, or 404. */
  function ApiClientShow(s: Store, clientId: string): (r: ShowReply)
    ensures r.NotFound? <==> ClientFind(s, Atoi(clientId)).None?
  {
    match ClientFind(s, Atoi(clientId))
    case Some(c) => Found(c)
    case None => NotFound
  }

  /** A `clientId` that is not a number is looked up as 0, which no record
      has: 404. */
  lemma ShowNonNumeric(s: Store, clientId: string)
    requires Wf(s)
    requires NotANumber(clientId)
    ensures ApiClientShow(s, clientId) == NotFound
  {
    AtoiDigits(clientId);
  }

  /** Showing the id a create reported yields the created client. */
  lemma ShowAfterCreate(s: Store, body: Decode)
    requires Wf(s) && s.sequence < MaxId
    ensures var r := ApiClientCreate(s, body);
            ApiClientShow(r.store, Itoa(r.client.id)) == Found(r.client)
  {
    var r := ApiClientCreate(s, body);
    AtoiItoa(r.client.id);
  }

  /** `apiClientRemove`: delete the record under `Atoi(clientId)` and answer
      204, whether or not it existed. */
  function ApiClientRemove(s: Store, clientId: string): (r: (Status, Store))
    requires Wf(s)
    ensures r.0 == StatusNoContent
    ensures Wf(r.1)
    ensures ApiClientShow(r.1, clientId) == NotFound
    ensures forall other :: Uint64(other) != Uint64(Atoi(clientId)) ==>
              ClientFind(r.1, other) == ClientFind(s, other)
  {
    (StatusNoContent, ClientRemove(s, Atoi(clientId)))
  }
}

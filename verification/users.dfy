/** User bootstrap of `database/user.go`: the `username:password[:role]`
    specs of the configuration are reconciled against the stored users,
    the rest become new users, and an `admin` user with a generated
    password is created when there is nothing else. */
module Users {
  import opened Outcomes
  import opened Text

  /** A stored hash, standing for an argon2id hash of `password`. */
  datatype Hash = HashOf(password: string)

  datatype User = User(username: string, hash: Hash, role: string)

  const DefaultRole: string := "admin"
  const AdminName: string := "admin"
  const AdminPasswordLength: nat := 10

  // ---------------------------------------------------------------------
  // Specs

  /** What a spec says: the first two colon-separated parts, and the third
      when there are exactly three. */
  datatype Spec = Spec(username: string, password: string, role: Option<string>)

  /** The username part of a spec. */
  function Name(u: string): string
  {
    Split(u, ':')[0]
  }

  /** The fields of a spec, whether or not it has a password part. */
  function SpecOf(u: string): Spec
  {
    var parts := Split(u, ':');
    Spec(parts[0], if |parts| >= 2 then parts[1] else "",
         if |parts| == 3 then Some(parts[2]) else None)
  }

  /** A spec with fewer than two parts is refused (fatal in both loops). */
  function ParseSpec(u: string): (r: Option<Spec>)
    ensures r.None? <==> ':' !in u
    ensures r.Some? ==> r.value == SpecOf(u) && r.value.username == Name(u)
    ensures r.Some? ==> ':' !in r.value.username && ':' !in r.value.password
  {
    SplitSingle(u, ':');
    if |Split(u, ':')| < 2 then None else Some(SpecOf(u))
  }

  /** The text a spec is written as. */
  function FormatSpec(s: Spec): string
  {
    s.username + ":" + s.password + (if s.role.Some? then ":" + s.role.value else "")
  }

  /** A spec whose fields hold no colon reads back as written. */
  lemma SpecRoundTrip(s: Spec)
    requires ':' !in s.username && ':' !in s.password
    requires s.role.Some? ==> ':' !in s.role.value
    ensures ParseSpec(FormatSpec(s)) == Some(s)
  {
    if s.role.Some? {
      assert FormatSpec(s) == s.username + [':'] + s.password + [':'] + s.role.value;
      SplitThree(s.username, s.password, s.role.value, ':');
    } else {
      assert FormatSpec(s) == s.username + [':'] + s.password;
      SplitTwo(s.username, s.password, ':');
    }
  }

  /** The password ends at the second colon, and text holding a further
      colon after it is no role: four or more parts keep the old role. */
  lemma PasswordStopsAtColon(user: string, password: string, rest: string)
    requires ':' !in user && ':' !in password
    ensures var s := ParseSpec(user + ":" + password + ":" + rest);
            && s.Some? && s.value.username == user && s.value.password == password
            && (s.value.role.Some? <==> ':' !in rest)
  {
    var u := user + ":" + password + ":" + rest;
    assert u == user + [':'] + (password + [':'] + rest);
    SplitAfter(user, password + [':'] + rest, ':');
    SplitAfter(password, rest, ':');
    SplitSingle(rest, ':');
  }

  // ---------------------------------------------------------------------
  // The pending list as a Go slice

  /** `config.Config.Users`: the backing array and the current length.
      Removal writes into the backing array, so a `range` loop that
      captured an earlier length still reads its later slots. */
  datatype Slice = Slice(backing: seq<string>, len: nat)

  predicate SliceOk(s: Slice)
  {
    s.len <= |s.backing|
  }

  /** The entries the slice currently holds. */
  function Live(s: Slice): seq<string>
    requires SliceOk(s)
  {
    s.backing[..s.len]
  }

  /** Move the last element to index `i` and drop the last slot: the list
      `removeIndexFromList` in `main.go` returns, and the live entries
      `removeIndexFromUsersList` leaves. */
  function RemoveIndex<T>(list: seq<T>, i: nat): (r: seq<T>)
    requires i < |list|
    ensures |r| == |list| - 1
    ensures multiset(r) == multiset(list) - multiset{list[i]}
    ensures forall j :: 0 <= j < |r| && j != i ==> r[j] == list[j]
    ensures i < |r| ==> r[i] == list[|list| - 1]
  {
    MovedLast(list, i);
    list[i := list[|list| - 1]][..|list| - 1]
  }

  /** Overwriting slot `i` with the last element and dropping the last
      slot removes one copy of `list[i]`. */
  lemma MovedLast<T>(list: seq<T>, i: nat)
    requires i < |list|
    ensures multiset(list[i := list[|list| - 1]][..|list| - 1]) == multiset(list) - multiset{list[i]}
  {
    var n, last := |list|, list[|list| - 1];
    var moved := list[i := last];
    assert list == list[..n - 1] + [last];
    assert moved == moved[..n - 1] + [last];
    MultisetSwap(list, i);
  }

  lemma MultisetSwap<T>(list: seq<T>, i: nat)
    requires i < |list|
    ensures multiset(list[i := list[|list| - 1]]) ==
              multiset(list) - multiset{list[i]} + multiset{list[|list| - 1]}
  {
    var x := list[i];
    assert list == list[..i] + [x] + list[i + 1..];
    assert list[i := list[|list| - 1]] == list[..i] + [list[|list| - 1]] + list[i + 1..];
  }

  /** `removeIndexFromUsersList(i)` on the slice: `None` is the index
      panic when `i` is not below the current length. Only slot `i` of the
      backing array is written. */
  function RemoveFromSlice(s: Slice, i: nat): (r: Option<Slice>)
    requires SliceOk(s)
    ensures r.None? <==> i >= s.len
    ensures r.Some? ==> SliceOk(r.value) && |r.value.backing| == |s.backing|
    ensures r.Some? ==> Live(r.value) == RemoveIndex(Live(s), i)
    ensures r.Some? ==> forall j :: 0 <= j < |s.backing| && j != i ==> r.value.backing[j] == s.backing[j]
  {
    if i >= s.len then None
    else
      var r := Slice(s.backing[i := s.backing[s.len - 1]], s.len - 1);
      assert Live(r) == RemoveIndex(Live(s), i);
      Some(r)
  }

  // ---------------------------------------------------------------------
  // InitUsers

  /** The state of the first loop, or how it stopped. */
  datatype Halt = Fatal | Panic
  datatype Phase = Running(pending: Slice, table: seq<User>) | Stopped(halt: Halt)

  /** A stored user after a spec naming it: the new hash, and the spec's
      role when it has one. */
  function Refreshed(u: User, s: Spec): (r: User)
    ensures r.username == u.username && r.hash == HashOf(s.password)
    ensures r.role == if s.role.Some? then s.role.value else u.role
  {
    u.(hash := HashOf(s.password), role := if s.role.Some? then s.role.value else u.role)
  }

  /** The inner loop of the first phase for stored user `k`, from index `i`:
      `range` runs over the `n` entries the slice held when the loop began
      and reads each from the current backing array. A spec naming the
      user refreshes and saves it, then is removed at index `i`. */
  function RefreshUser(table: seq<User>, pending: Slice, k: nat, i: nat, n: nat): (r: Phase)
    requires SliceOk(pending) && k < |table| && i <= n <= |pending.backing|
    ensures r.Running? ==> SliceOk(r.pending) && |r.pending.backing| == |pending.backing|
    ensures r.Running? ==> r.pending.len <= pending.len && |r.table| == |table|
    ensures r.Running? ==> forall j :: 0 <= j < |table| && j != k ==> r.table[j] == table[j]
    ensures r.Running? ==> r.table[k].username == table[k].username
    decreases n - i
  {
    if i == n then Running(pending, table)
    else
      match ParseSpec(pending.backing[i])
      case None => Stopped(Fatal)
      case Some(spec) =>
        if spec.username != table[k].username then RefreshUser(table, pending, k, i + 1, n)
        else
          var t := table[k := Refreshed(table[k], spec)];
          match RemoveFromSlice(pending, i)
          case None => Stopped(Panic)
          case Some(p) => RefreshUser(t, p, k, i + 1, n)
  }

  /** The outer loop of the first phase, from stored user `k` on. */
  function RefreshAll(table: seq<User>, pending: Slice, k: nat): (r: Phase)
    requires SliceOk(pending) && k <= |table|
    ensures r.Running? ==> SliceOk(r.pending) && |r.table| == |table|
    ensures r.Running? ==> forall j :: 0 <= j < k ==> r.table[j] == table[j]
    ensures r.Running? ==> forall j :: 0 <= j < |table| ==> r.table[j].username == table[j].username
    decreases |table| - k
  {
    if k == |table| then Running(pending, table)
    else
      match RefreshUser(table, pending, k, 0, pending.len)
      case Stopped(h) => Stopped(h)
      case Running(p, t) => RefreshAll(t, p, k + 1)
  }

  /** The user a remaining spec creates: role "admin" unless the spec has
      a third part. */
  function NewUser(s: Spec): (u: User)
    ensures u.username == s.username && u.hash == HashOf(s.password)
    ensures s.role.None? ==> u.role == DefaultRole
  {
    User(s.username, HashOf(s.password), if s.role.Some? then s.role.value else DefaultRole)
  }

  /** The second loop: one new user per remaining spec, in order; a
      malformed spec is fatal. */
  function CreateUsers(specs: seq<string>): (r: Option<seq<User>>)
    ensures r.None? <==> exists i :: 0 <= i < |specs| && ParseSpec(specs[i]).None?
    ensures r.Some? ==> |r.value| == |specs|
    ensures r.Some? ==> forall i :: 0 <= i < |specs| ==> r.value[i] == NewUser(SpecOf(specs[i]))
  {
    if |specs| == 0 then Some([])
    else
      var rest := CreateUsers(specs[1..]);
      assert forall i :: 1 <= i < |specs| ==> specs[i] == specs[1..][i - 1];
      match ParseSpec(specs[0])
      case None => None
      case Some(s) => if rest.None? then None else Some([NewUser(s)] + rest.value)
  }

  /** One draw of `crand.Int(crand.Reader, 63)`: an index into the
      alphabet, or the error of the random source. */
  type AlphabetIndex = n: nat | n < 63
  datatype Draw = Drawn(n: AlphabetIndex) | DrawError

  function Range(first: char, count: nat): (r: seq<char>)
    requires first as int + count <= 0xD800
    ensures |r| == count
    ensures forall i :: 0 <= i < count ==> r[i] as int == first as int + i
  {
    seq(count, i requires 0 <= i < count => (first as int + i) as char)
  }

  /** The 63 runes: A-Z, the letter A with ring above (U+00C5), a-z, 0-9. */
  const Alphabet: seq<char> := Range('A', 26) + ['\U{00C5}'] + Range('a', 26) + Range('0', 10)

  /** Rune `i` of the alphabet, by code point. */
  lemma AlphabetAt(i: nat)
    requires i < 63
    ensures |Alphabet| == 63
    ensures i < 26 ==> Alphabet[i] as int == 'A' as int + i
    ensures i == 26 ==> Alphabet[i] as int == 0xC5
    ensures 27 <= i < 53 ==> Alphabet[i] as int == 'a' as int + (i - 27)
    ensures 53 <= i ==> Alphabet[i] as int == '0' as int + (i - 53)
  {
  }

  /** No rune occurs twice, so a password determines its draws. */
  lemma AlphabetDistinct(a: AlphabetIndex, b: AlphabetIndex)
    requires Alphabet[a] == Alphabet[b]
    ensures a == b
  {
    AlphabetAt(a);
    AlphabetAt(b);
  }

  /** `generatePassword(length)` over the draws `draw(0)`, `draw(1)`, ...:
      `None` when a draw fails. */
  function GeneratePassword(length: nat, draw: nat -> Draw): (r: Option<string>)
    ensures r.None? <==> exists i :: 0 <= i < length && draw(i).DrawError?
    ensures r.Some? ==> |r.value| == length
    ensures r.Some? ==> forall i :: 0 <= i < length ==> r.value[i] == Alphabet[draw(i).n]
  {
    AlphabetAt(0);
    if length == 0 then Some([])
    else
      match GeneratePassword(length - 1, draw)
      case None => None
      case Some(s) =>
        match draw(length - 1)
        case DrawError => None
        case Drawn(n) => Some(s + [Alphabet[n]])
  }

  /** Every generated password is `length` runes of the alphabet, and two
      equal passwords came from the same draws. */
  lemma PasswordShape(length: nat, d1: nat -> Draw, d2: nat -> Draw)
    requires GeneratePassword(length, d1).Some?
    ensures forall i :: 0 <= i < length ==> GeneratePassword(length, d1).value[i] in Alphabet
    ensures GeneratePassword(length, d2) == GeneratePassword(length, d1) ==>
              forall i :: 0 <= i < length ==> d1(i) == d2(i)
  {
    var p := GeneratePassword(length, d1).value;
    forall i | 0 <= i < length
      ensures p[i] in Alphabet
    {
      assert p[i] == Alphabet[d1(i).n];
    }
    if GeneratePassword(length, d2) == GeneratePassword(length, d1) {
      forall i | 0 <= i < length
        ensures d1(i) == d2(i)
      {
        AlphabetDistinct(d1(i).n, d2(i).n);
      }
    }
  }

  /** The result of `InitUsers`: the users table, what is left in
      `config.Config.Users`, and the password logged for a generated
      admin. */
  datatype Outcome = Bootstrapped(table: seq<User>, remaining: seq<string>, adminPassword: Option<string>)
                   | Halted(halt: Halt)

  /** `InitUsers` over the stored users, in the order `Find` returns them. */
  function InitUsers(stored: seq<User>, specs: seq<string>, draw: nat -> Draw): (r: Outcome)
    ensures r.Bootstrapped? ==> |r.table| >= |stored|
  {
    match RefreshAll(stored, Slice(specs, |specs|), 0)
    case Stopped(h) => Halted(h)
    case Running(p, t) =>
      var remaining := Live(p);
      match CreateUsers(remaining)
      case None => Halted(Fatal)
      case Some(created) =>
        if |stored| > 0 || |remaining| > 0 then Bootstrapped(t + created, remaining, None)
        else
          match GeneratePassword(AdminPasswordLength, draw)
          case None => Halted(Fatal)
          case Some(pw) => Bootstrapped([User(AdminName, HashOf(pw), DefaultRole)], [], Some(pw))
  }

  // ---------------------------------------------------------------------
  // Properties of InitUsers

  /** With no stored users the first loop does nothing: every spec becomes
      a user, with role "admin" unless it names one. */
  lemma NoStoredUsers(specs: seq<string>, draw: nat -> Draw)
    requires |specs| > 0
    ensures var r := InitUsers([], specs, draw);
            && (r.Halted? <==> exists i :: 0 <= i < |specs| && ':' !in specs[i])
            && (r.Bootstrapped? ==>
                  && r.remaining == specs && r.adminPassword.None? && |r.table| == |specs|
                  && forall i :: 0 <= i < |specs| ==> r.table[i] == NewUser(SpecOf(specs[i])))
  {
    assert Live(Slice(specs, |specs|)) == specs;
  }

  /** The admin user is generated exactly when there are neither stored
      users nor specs; its password is ten runes of the alphabet. */
  lemma GeneratedAdmin(stored: seq<User>, specs: seq<string>, draw: nat -> Draw)
    ensures var r := InitUsers(stored, specs, draw);
            r.Bootstrapped? ==> (r.adminPassword.Some? <==> |stored| == 0 && |specs| == 0)
    ensures var r := InitUsers(stored, specs, draw);
            r.Bootstrapped? && r.adminPassword.Some? ==>
              && r.table == [User(AdminName, HashOf(r.adminPassword.value), DefaultRole)]
              && |r.adminPassword.value| == AdminPasswordLength
              && forall i :: 0 <= i < AdminPasswordLength ==> r.adminPassword.value[i] in Alphabet
    ensures |stored| == 0 && |specs| == 0 ==>
              (InitUsers(stored, specs, draw).Halted? <==>
               exists i :: 0 <= i < AdminPasswordLength && draw(i).DrawError?)
  {
    var r := InitUsers(stored, specs, draw);
    if |stored| == 0 {
      assert Live(Slice(specs, |specs|)) == specs;
    }
    if r.Bootstrapped? && r.adminPassword.Some? {
      PasswordShape(AdminPasswordLength, draw, draw);
    }
  }

  /** A malformed spec stops the bootstrap: the first loop of the first
      stored user reads every spec, and the second loop reads them all
      when there is no stored user. */
  lemma MalformedSpecHalts(stored: seq<User>, specs: seq<string>, draw: nat -> Draw, j: nat)
    requires j < |specs| && ':' !in specs[j]
    ensures InitUsers(stored, specs, draw).Halted?
  {
    var p := Slice(specs, |specs|);
    if |stored| == 0 {
      assert Live(p) == specs;
    } else {
      ReadsEverySpec(stored, p, 0, 0, |specs|, j);
    }
  }

  /** Slots at or after the loop index are still unwritten, so the loop
      parses slot `j` before it can finish. */
  lemma {:induction false} ReadsEverySpec(table: seq<User>, pending: Slice, k: nat, i: nat, n: nat, j: nat)
    requires SliceOk(pending) && k < |table| && i <= j < n <= |pending.backing|
    requires ':' !in pending.backing[j]
    ensures RefreshUser(table, pending, k, i, n).Stopped?
    decreases n - i
  {
    var r := RefreshUser(table, pending, k, i, n);
    if i == j {
      assert ParseSpec(pending.backing[i]).None?;
    } else {
      match ParseSpec(pending.backing[i])
      case None =>
      case Some(spec) =>
        if spec.username != table[k].username {
          ReadsEverySpec(table, pending, k, i + 1, n, j);
          assert r == RefreshUser(table, pending, k, i + 1, n);
        } else {
          var t := table[k := Refreshed(table[k], spec)];
          match RemoveFromSlice(pending, i)
          case None =>
          case Some(p) =>
            assert p.backing[j] == pending.backing[j];
            ReadsEverySpec(t, p, k, i + 1, n, j);
            assert r == RefreshUser(t, p, k, i + 1, n);
        }
    }
  }

  // ---------------------------------------------------------------------
  // Reconciliation when usernames are distinct

  /** No two specs name the same user. */
  predicate NamesDistinct(specs: seq<string>)
  {
    forall i, j :: 0 <= i < j < |specs| ==> Name(specs[i]) != Name(specs[j])
  }

  /** No two stored users share a username. */
  predicate UsernamesDistinct(table: seq<User>)
  {
    forall i, j :: 0 <= i < j < |table| ==> table[i].username != table[j].username
  }

  predicate AllParse(specs: seq<string>)
  {
    forall i :: 0 <= i < |specs| ==> ':' in specs[i]
  }

  /** No spec in `live` names `name`. */
  predicate Unnamed(live: seq<string>, name: string)
  {
    forall x :: x in live ==> Name(x) != name
  }

  /** Whether some stored user from index `k` on is named by spec `x`. */
  predicate NamedFrom(x: string, table: seq<User>, k: nat)
  {
    exists j :: k <= j < |table| && table[j].username == Name(x)
  }

  /** Removal drops exactly the spec at `m` when names are distinct. */
  lemma RemoveIndexNamed(list: seq<string>, m: nat)
    requires m < |list| && NamesDistinct(list) && AllParse(list)
    ensures var r := RemoveIndex(list, m);
            && NamesDistinct(r) && AllParse(r)
            && forall x :: x in r <==> x in list && Name(x) != Name(list[m])
  {
    var r := RemoveIndex(list, m);
    var last := |list| - 1;
    // Slot `j` of the result holds slot `Src(j)` of the list.
    assert forall j :: 0 <= j < |r| ==> r[j] == list[if j == m then last else j];
    forall a, b | 0 <= a < b < |r|
      ensures Name(r[a]) != Name(r[b])
    {
      var sa := if a == m then last else a;
      var sb := if b == m then last else b;
      assert sa != sb;
      if sa < sb { assert Name(list[sa]) != Name(list[sb]); }
      else { assert Name(list[sb]) != Name(list[sa]); }
    }
    forall x
      ensures x in r <==> x in list && Name(x) != Name(list[m])
    {
      if x in r {
        var j :| 0 <= j < |r| && r[j] == x;
        var s := if j == m then last else j;
        assert x == list[s] && s != m;
        if s < m { assert Name(list[s]) != Name(list[m]); }
        else { assert Name(list[m]) != Name(list[s]); }
      }
      if x in list && Name(x) != Name(list[m]) {
        var s :| 0 <= s < |list| && list[s] == x;
        assert s != m;
        if s < |r| { assert r[s] == x; } else { assert m < |r| && r[m] == x; }
      }
    }
  }

  /** The loop passes over specs that do not name the user. */
  lemma {:induction false} SkipRun(table: seq<User>, pending: Slice, k: nat, i: nat, m: nat, n: nat)
    requires SliceOk(pending) && k < |table| && i <= m <= n <= |pending.backing|
    requires forall j :: i <= j < m ==>
               ':' in pending.backing[j] && Name(pending.backing[j]) != table[k].username
    ensures RefreshUser(table, pending, k, i, n) == RefreshUser(table, pending, k, m, n)
    decreases m - i
  {
    if i < m {
      SkipRun(table, pending, k, i + 1, m, n);
    }
  }

  /** With distinct names the inner loop for user `k` takes the one spec
      naming it, if any: the user is refreshed and the spec removed. */
  lemma RefreshOne(table: seq<User>, pending: Slice, k: nat)
    requires SliceOk(pending) && k < |table|
    requires AllParse(Live(pending)) && NamesDistinct(Live(pending))
    ensures var r := RefreshUser(table, pending, k, 0, pending.len);
            && r.Running? && |r.pending.backing| == |pending.backing|
            && (forall m :: 0 <= m < pending.len && Name(pending.backing[m]) == table[k].username ==>
                  && r.table == table[k := Refreshed(table[k], SpecOf(pending.backing[m]))]
                  && Live(r.pending) == RemoveIndex(Live(pending), m))
            && ((forall m :: 0 <= m < pending.len ==> Name(pending.backing[m]) != table[k].username) ==>
                  r == Running(pending, table))
  {
    var n := pending.len;
    if m :| 0 <= m < n && Name(pending.backing[m]) == table[k].username {
      RefreshFound(table, pending, k, m);
      forall m' | 0 <= m' < n && Name(pending.backing[m']) == table[k].username
        ensures m' == m
      {
        assert Live(pending)[m'] == pending.backing[m'] && Live(pending)[m] == pending.backing[m];
      }
    } else {
      RefreshAbsent(table, pending, k);
    }
  }

  /** The inner loop for user `k` when spec `m` names it: the specs before
      `m` are passed over, spec `m` refreshes the user and is removed, and
      the ones after it name someone else. */
  lemma RefreshFound(table: seq<User>, pending: Slice, k: nat, m: nat)
    requires SliceOk(pending) && k < |table|
    requires AllParse(Live(pending)) && NamesDistinct(Live(pending))
    requires m < pending.len && Name(pending.backing[m]) == table[k].username
    ensures var r := RefreshUser(table, pending, k, 0, pending.len);
            && r.Running? && |r.pending.backing| == |pending.backing|
            && r.table == table[k := Refreshed(table[k], SpecOf(pending.backing[m]))]
            && Live(r.pending) == RemoveIndex(Live(pending), m)
  {
    var live := Live(pending);
    var n := pending.len;
    assert live[m] == pending.backing[m];
    forall j | 0 <= j < m
      ensures ':' in pending.backing[j] && Name(pending.backing[j]) != table[k].username
    {
      assert live[j] == pending.backing[j];
    }
    SkipRun(table, pending, k, 0, m, n);
    var spec := ParseSpec(pending.backing[m]).value;
    var t := table[k := Refreshed(table[k], spec)];
    var p := RemoveFromSlice(pending, m).value;
    assert RefreshUser(table, pending, k, m, n) == RefreshUser(t, p, k, m + 1, n);
    forall j | m + 1 <= j < n
      ensures ':' in p.backing[j] && Name(p.backing[j]) != t[k].username
    {
      assert p.backing[j] == live[j];
    }
    SkipRun(t, p, k, m + 1, n, n);
  }

  /** The inner loop for user `k` when no spec names it changes nothing. */
  lemma RefreshAbsent(table: seq<User>, pending: Slice, k: nat)
    requires SliceOk(pending) && k < |table| && AllParse(Live(pending))
    requires forall m :: 0 <= m < pending.len ==> Name(pending.backing[m]) != table[k].username
    ensures RefreshUser(table, pending, k, 0, pending.len) == Running(pending, table)
  {
    var live := Live(pending);
    var n := pending.len;
    forall j | 0 <= j < n
      ensures ':' in pending.backing[j] && Name(pending.backing[j]) != table[k].username
    {
      assert live[j] == pending.backing[j];
    }
    SkipRun(table, pending, k, 0, n, n);
  }

  /** One turn of the outer loop with distinct names, in terms of the
      specs: the spec naming user `k`, if any, refreshes it and leaves the
      pending list; every other spec stays. */
  lemma StepDistinct(table: seq<User>, pending: Slice, k: nat)
    requires SliceOk(pending) && k < |table|
    requires AllParse(Live(pending)) && NamesDistinct(Live(pending))
    ensures var s := RefreshUser(table, pending, k, 0, pending.len);
            && s.Running?
            && AllParse(Live(s.pending)) && NamesDistinct(Live(s.pending))
            && (forall x :: x in Live(s.pending) <==> x in Live(pending) && Name(x) != table[k].username)
            && (forall x :: x in Live(pending) && Name(x) == table[k].username ==>
                  s.table[k] == Refreshed(table[k], SpecOf(x)))
            && ((forall x :: x in Live(pending) ==> Name(x) != table[k].username) ==> s.table[k] == table[k])
  {
    var live := Live(pending);
    RefreshOne(table, pending, k);
    var s := RefreshUser(table, pending, k, 0, pending.len);
    if m :| 0 <= m < pending.len && Name(pending.backing[m]) == table[k].username {
      assert live[m] == pending.backing[m];
      RemoveIndexNamed(live, m);
      forall x | x in live && Name(x) == table[k].username
        ensures s.table[k] == Refreshed(table[k], SpecOf(x))
      {
        var m' :| 0 <= m' < |live| && live[m'] == x;
        assert pending.backing[m'] == x;
      }
    } else {
      forall x | x in live
        ensures Name(x) != table[k].username
      {
        var m :| 0 <= m < |live| && live[m] == x;
        assert pending.backing[m] == x;
      }
    }
  }

  /** Being named from `k` on is being named by user `k` or from `k + 1`
      on, in any table with the same usernames. */
  lemma NamedFromStep(x: string, table: seq<User>, t: seq<User>, k: nat)
    requires k < |table| == |t|
    requires forall j :: 0 <= j < |table| ==> t[j].username == table[j].username
    ensures NamedFrom(x, table, k) <==> Name(x) == table[k].username || NamedFrom(x, t, k + 1)
  {
    if NamedFrom(x, t, k + 1) {
      var j :| k + 1 <= j < |t| && t[j].username == Name(x);
      assert table[j].username == Name(x);
    }
    if NamedFrom(x, table, k) && Name(x) != table[k].username {
      var j :| k <= j < |table| && table[j].username == Name(x);
      assert t[j].username == Name(x);
    }
  }

  /** The first phase with distinct names keeps running, and leaves
      pending exactly the specs naming no stored user from `k` on. */
  lemma {:induction false} RefreshAllPending(table: seq<User>, pending: Slice, k: nat)
    requires SliceOk(pending) && k <= |table|
    requires AllParse(Live(pending)) && NamesDistinct(Live(pending))
    ensures var r := RefreshAll(table, pending, k);
            && r.Running?
            && AllParse(Live(r.pending)) && NamesDistinct(Live(r.pending))
            && (forall x :: x in Live(r.pending) <==> x in Live(pending) && !NamedFrom(x, table, k))
    decreases |table| - k
  {
    if k < |table| {
      StepDistinct(table, pending, k);
      var step := RefreshUser(table, pending, k, 0, pending.len);
      RefreshAllPending(step.table, step.pending, k + 1);
      var r := RefreshAll(table, pending, k);
      assert r == RefreshAll(step.table, step.pending, k + 1);
      forall x
        ensures x in Live(r.pending) <==> x in Live(pending) && !NamedFrom(x, table, k)
      {
        NamedFromStep(x, table, step.table, k);
      }
    }
  }

  /** One stored user's pass, as the refresh half of the first phase needs
      it: the spec naming the user refreshes it, and every spec naming
      someone else stays pending. */
  lemma StepRefreshes(table: seq<User>, pending: Slice, k: nat)
    requires SliceOk(pending) && k < |table|
    requires AllParse(Live(pending)) && NamesDistinct(Live(pending))
    ensures var s := RefreshUser(table, pending, k, 0, pending.len);
            && s.Running?
            && AllParse(Live(s.pending)) && NamesDistinct(Live(s.pending))
            && (forall j :: 0 <= j < |table| && j != k ==> s.table[j] == table[j])
            && (forall x :: x in Live(pending) && Name(x) == table[k].username ==>
                  s.table[k] == Refreshed(table[k], SpecOf(x)))
            && (forall x :: x in Live(pending) && Name(x) != table[k].username ==> x in Live(s.pending))
  {
    StepDistinct(table, pending, k);
  }

  /** One stored user's pass, as the untouched half of the first phase
      needs it: an unnamed user stays, and no name becomes named. */
  lemma StepUntouched(table: seq<User>, pending: Slice, k: nat)
    requires SliceOk(pending) && k < |table|
    requires AllParse(Live(pending)) && NamesDistinct(Live(pending))
    ensures var s := RefreshUser(table, pending, k, 0, pending.len);
            && s.Running?
            && AllParse(Live(s.pending)) && NamesDistinct(Live(s.pending))
            && (forall j :: 0 <= j < |table| && j != k ==> s.table[j] == table[j])
            && (Unnamed(Live(pending), table[k].username) ==> s.table[k] == table[k])
            && (forall n :: Unnamed(Live(pending), n) ==> Unnamed(Live(s.pending), n))
  {
    StepDistinct(table, pending, k);
  }

  /** Every user of `table` from `k` on that a spec of `live` names is, in
      `t`, refreshed by that spec. */
  predicate RefreshedFrom(table: seq<User>, live: seq<string>, k: nat, t: seq<User>)
    requires |t| == |table|
  {
    forall j, x :: k <= j < |table| && x in live && Name(x) == table[j].username ==>
      t[j] == Refreshed(table[j], SpecOf(x))
  }

  /** The first phase with distinct names: every stored user from `k` on
      that a spec names is refreshed by that spec. */
  lemma {:induction false} RefreshAllRefreshes(table: seq<User>, pending: Slice, k: nat)
    requires SliceOk(pending) && k <= |table| && UsernamesDistinct(table)
    requires AllParse(Live(pending)) && NamesDistinct(Live(pending))
    ensures var r := RefreshAll(table, pending, k);
            r.Running? && RefreshedFrom(table, Live(pending), k, r.table)
    decreases |table| - k
  {
    if k < |table| {
      StepRefreshes(table, pending, k);
      var step := RefreshUser(table, pending, k, 0, pending.len);
      var t1, live, live1 := step.table, Live(pending), Live(step.pending);
      assert UsernamesDistinct(t1) by {
        forall i, j | 0 <= i < j < |t1|
          ensures t1[i].username != t1[j].username
        {
          assert t1[i].username == table[i].username && t1[j].username == table[j].username;
        }
      }
      RefreshAllRefreshes(t1, step.pending, k + 1);
      var r := RefreshAll(table, pending, k);
      assert r == RefreshAll(t1, step.pending, k + 1);
      RefreshedCombine(table, live, k, t1, live1, r.table);
    }
  }

  /** The inductive step of `RefreshAllRefreshes`, over the tables alone:
      user `k` refreshed by the first pass and every later named user
      refreshed by the rest give every user from `k` on refreshed. */
  lemma RefreshedCombine(table: seq<User>, live: seq<string>, k: nat,
                         t1: seq<User>, live1: seq<string>, rt: seq<User>)
    requires k < |table| == |t1| == |rt| && UsernamesDistinct(table)
    requires forall x :: x in live && Name(x) == table[k].username ==> t1[k] == Refreshed(table[k], SpecOf(x))
    requires forall j :: 0 <= j < |table| && j != k ==> t1[j] == table[j]
    requires forall x :: x in live && Name(x) != table[k].username ==> x in live1
    requires rt[k] == t1[k] && RefreshedFrom(t1, live1, k + 1, rt)
    ensures RefreshedFrom(table, live, k, rt)
  {
    forall j, x | k <= j < |table| && x in live && Name(x) == table[j].username
      ensures rt[j] == Refreshed(table[j], SpecOf(x))
    {
      if j != k {
        assert table[j].username != table[k].username;
        assert x in live1 && t1[j] == table[j];
      }
    }
  }

  /** The first phase with distinct names leaves every stored user from `k`
      on that no spec names as it was. */
  lemma {:induction false} RefreshAllUntouched(table: seq<User>, pending: Slice, k: nat)
    requires SliceOk(pending) && k <= |table|
    requires AllParse(Live(pending)) && NamesDistinct(Live(pending))
    ensures var r := RefreshAll(table, pending, k);
            && r.Running?
            && forall j :: k <= j < |table| && Unnamed(Live(pending), table[j].username) ==> r.table[j] == table[j]
    decreases |table| - k
  {
    if k < |table| {
      StepUntouched(table, pending, k);
      var step := RefreshUser(table, pending, k, 0, pending.len);
      var t1, live, live1 := step.table, Live(pending), Live(step.pending);
      RefreshAllUntouched(t1, step.pending, k + 1);
      var r := RefreshAll(table, pending, k);
      assert r == RefreshAll(t1, step.pending, k + 1);
      forall j | k <= j < |table| && Unnamed(live, table[j].username)
        ensures r.table[j] == table[j]
      {
        if j == k {
          assert r.table[k] == t1[k];
        } else {
          assert t1[j] == table[j];
          assert Unnamed(live1, t1[j].username);
        }
      }
    }
  }

  /** The first phase with distinct names: every stored user from `k` on is
      refreshed by the spec naming it, if any, and the specs left pending
      are those naming none of them. */
  lemma RefreshAllDistinct(table: seq<User>, pending: Slice, k: nat)
    requires SliceOk(pending) && k <= |table| && UsernamesDistinct(table)
    requires AllParse(Live(pending)) && NamesDistinct(Live(pending))
    ensures var r := RefreshAll(table, pending, k);
            && r.Running?
            && AllParse(Live(r.pending)) && NamesDistinct(Live(r.pending))
            && (forall j :: 0 <= j < k ==> r.table[j] == table[j])
            && (forall j, x :: k <= j < |table| && x in Live(pending) && Name(x) == table[j].username ==>
                  r.table[j] == Refreshed(table[j], SpecOf(x)))
            && (forall j :: k <= j < |table| && (forall x :: x in Live(pending) ==> Name(x) != table[j].username) ==>
                  r.table[j] == table[j])
            && (forall x :: x in Live(r.pending) <==> x in Live(pending) && !NamedFrom(x, table, k))
  {
    RefreshAllPending(table, pending, k);
    RefreshAllRefreshes(table, pending, k);
    RefreshAllUntouched(table, pending, k);
  }

  /** Bootstrap with stored users and distinct, well-formed specs: each
      stored user is refreshed by the spec naming it, every other spec
      becomes a new user, and nothing is generated. */
  lemma InitUsersReconciles(stored: seq<User>, specs: seq<string>, draw: nat -> Draw)
    requires |stored| > 0 && UsernamesDistinct(stored)
    requires AllParse(specs) && NamesDistinct(specs)
    ensures var r := InitUsers(stored, specs, draw);
            && r.Bootstrapped? && r.adminPassword.None?
            && |r.table| == |stored| + |r.remaining|
            && (forall k, x :: 0 <= k < |stored| && x in specs && Name(x) == stored[k].username ==>
                  r.table[k] == Refreshed(stored[k], SpecOf(x)))
            && (forall k :: 0 <= k < |stored| && (forall x :: x in specs ==> Name(x) != stored[k].username) ==>
                  r.table[k] == stored[k])
            && (forall x :: x in r.remaining <==> x in specs && !NamedFrom(x, stored, 0))
            && NamesDistinct(r.remaining)
            && forall j :: 0 <= j < |r.remaining| ==> r.table[|stored| + j] == NewUser(SpecOf(r.remaining[j]))
  {
    var p := Slice(specs, |specs|);
    assert Live(p) == specs;
    RefreshAllDistinct(stored, p, 0);
  }

  /** Two specs naming the same stored user: the first is removed by moving
      the last into its slot, the loop still reads the old last slot, finds
      the second spec there and removes at an index past the shortened
      list, which panics. */
  lemma DuplicateSpecPanics(u: User, first: string, second: string, draw: nat -> Draw)
    requires ':' in first && ':' in second
    requires Name(first) == u.username && Name(second) == u.username
    ensures InitUsers([u], [first, second], draw) == Halted(Panic)
  {
    var table := [u];
    var p0 := Slice([first, second], 2);
    var t1 := table[0 := Refreshed(u, SpecOf(first))];
    var p1 := RemoveFromSlice(p0, 0).value;
    assert p1 == Slice([second, second], 1);
    assert RefreshUser(table, p0, 0, 0, 2) == RefreshUser(t1, p1, 0, 1, 2);
    assert RefreshUser(t1, p1, 0, 1, 2) == Stopped(Panic);
  }

  /** For instance a stored `alice` with the specs `alice:x` and `alice:y`. */
  lemma DuplicateSpecExample(draw: nat -> Draw)
    ensures InitUsers([User("alice", HashOf("old"), "admin")], ["alice:x", "alice:y"], draw) == Halted(Panic)
  {
    assert "alice:x" == "alice" + [':'] + "x";
    assert "alice:y" == "alice" + [':'] + "y";
    SplitTwo("alice", "x", ':');
    SplitTwo("alice", "y", ':');
    DuplicateSpecPanics(User("alice", HashOf("old"), "admin"), "alice:x", "alice:y", draw);
  }

  // ---------------------------------------------------------------------
  // The first phase as evidently intended

  /** A stored user takes every spec naming it, in order, and those specs
      leave the pending list; the list is read as it currently is. */
  function RefreshFixed(user: User, live: seq<string>): (r: Option<(User, seq<string>)>)
    ensures r.None? <==> exists i :: 0 <= i < |live| && ':' !in live[i]
    ensures r.Some? ==> r.value.0.username == user.username
    ensures r.Some? ==> forall x :: x in r.value.1 <==> x in live && Name(x) != user.username
    ensures r.Some? && (forall x :: x in live ==> Name(x) != user.username) ==> r.value.0 == user
    ensures r.Some? && r.value.0 != user ==>
              exists x :: x in live && Name(x) == user.username && r.value.0.hash == HashOf(SpecOf(x).password)
    decreases |live|
  {
    if |live| == 0 then Some((user, []))
    else
      assert forall i :: 1 <= i < |live| ==> live[i] == live[1..][i - 1];
      match ParseSpec(live[0])
      case None => None
      case Some(spec) =>
        var named := spec.username == user.username;
        var u := if named then Refreshed(user, spec) else user;
        match RefreshFixed(u, live[1..])
        case None => None
        case Some((v, rest)) => Some((v, if named then rest else [live[0]] + rest))
  }

  /** The intended first phase over all stored users. */
  function RefreshAllFixed(table: seq<User>, live: seq<string>): (r: Option<(seq<User>, seq<string>)>)
    ensures r.None? <==> |table| > 0 && exists i :: 0 <= i < |live| && ':' !in live[i]
    ensures r.Some? ==> |r.value.0| == |table|
    ensures r.Some? ==> forall x :: x in r.value.1 <==> x in live && !NamedFrom(x, table, 0)
    decreases |table|
  {
    if |table| == 0 then Some(([], live))
    else
      match RefreshFixed(table[0], live)
      case None => None
      case Some((u, rest)) =>
        var tail := RefreshAllFixed(table[1..], rest);
        assert tail.Some? by {
          forall i | 0 <= i < |rest|
            ensures ':' in rest[i]
          {
            assert rest[i] in live;
          }
        }
        var (t, remaining) := tail.value;
        assert forall x :: NamedFrom(x, table, 0) <==> Name(x) == table[0].username || NamedFrom(x, table[1..], 0) by {
          forall x
            ensures NamedFrom(x, table, 0) <==> Name(x) == table[0].username || NamedFrom(x, table[1..], 0)
          {
            if NamedFrom(x, table[1..], 0) {
              var j :| 0 <= j < |table[1..]| && table[1..][j].username == Name(x);
              assert table[j + 1].username == Name(x);
            }
            if NamedFrom(x, table, 0) && Name(x) != table[0].username {
              var j :| 0 <= j < |table| && table[j].username == Name(x);
              assert table[1..][j - 1].username == Name(x);
            }
          }
        }
        Some(([u] + t, remaining))
  }

  /** `InitUsers` with the intended first phase. */
  function InitUsersFixed(stored: seq<User>, specs: seq<string>, draw: nat -> Draw): (r: Outcome)
    ensures r.Halted? ==> r.halt == Fatal
    ensures r.Halted? <==>
              || (exists i :: 0 <= i < |specs| && ':' !in specs[i])
              || (|stored| == 0 && |specs| == 0 && exists i :: 0 <= i < AdminPasswordLength && draw(i).DrawError?)
    ensures r.Bootstrapped? && |stored| > 0 ==>
              forall x :: x in r.remaining <==> x in specs && !NamedFrom(x, stored, 0)
  {
    match RefreshAllFixed(stored, specs)
    case None => Halted(Fatal)
    case Some((t, remaining)) =>
      match CreateUsers(remaining)
      case None =>
        assert exists i :: 0 <= i < |specs| && ':' !in specs[i] by {
          var i :| 0 <= i < |remaining| && ':' !in remaining[i];
          assert remaining[i] in specs;
        }
        Halted(Fatal)
      case Some(created) =>
        assert forall i :: 0 <= i < |specs| ==> ':' in specs[i] by {
          if |stored| == 0 {
            forall i | 0 <= i < |specs|
              ensures ':' in specs[i]
            {
              assert specs[i] in remaining;
            }
          }
        }
        assert |stored| == 0 && |remaining| == 0 ==> |specs| == 0 by {
          if |stored| == 0 && |specs| > 0 {
            assert specs[0] in remaining;
          }
        }
        if |stored| > 0 || |remaining| > 0 then Bootstrapped(t + created, remaining, None)
        else
          match GeneratePassword(AdminPasswordLength, draw)
          case None => Halted(Fatal)
          case Some(pw) => Bootstrapped([User(AdminName, HashOf(pw), DefaultRole)], [], Some(pw))
  }

  /** The intended bootstrap never panics on duplicate specs: the two specs
      that crash the loop as written are both taken by the stored user. */
  lemma DuplicateSpecFixed(u: User, first: string, second: string, draw: nat -> Draw)
    requires ':' in first && ':' in second
    requires Name(first) == u.username && Name(second) == u.username
    ensures var r := InitUsersFixed([u], [first, second], draw);
            r.Bootstrapped? && r.remaining == [] && |r.table| == 1 && r.table[0].username == u.username
  {
    assert [u][0].username == Name(first) == Name(second);
    assert NamedFrom(first, [u], 0) && NamedFrom(second, [u], 0);
  }
}

/** One-time tokens: password resets and invites, kept as hashes in the users table.

    Hashing is taken to be injective, a new token to be one never issued before, and the
    clock never to run backwards between calls. */
module Tokens {
  import opened Wrappers

  datatype Kind = Reset | Invite

  /** Seconds. */
  function Ttl(kind: Kind): int {
    if kind.Reset? then 3600 else 7 * 24 * 3600
  }

  /** bcrypt.CompareHashAndPassword succeeds on the hash of exactly one token. */
  datatype Hashed = Hashed(token: string)

  /** The hash and created_at columns of one kind of token. */
  datatype Cell = Cell(hash: Option<Hashed>, createdAt: Option<int>)

  const CLEAR := Cell(None, None)

  datatype User = User(email: string, enabled: bool, password: string, reset: Cell, invite: Cell)

  function CellOf(u: User, kind: Kind): Cell {
    if kind.Reset? then u.reset else u.invite
  }

  function WithCell(u: User, kind: Kind, c: Cell): User {
    if kind.Reset? then u.(reset := c) else u.(invite := c)
  }

  type Users = map<string, User>

  /** A row of the verification query that the token fits. Being exactly ttl old is in time. */
  predicate Verifies(users: Users, kind: Kind, token: string, now: int, name: string) {
    && token != ""
    && name in users && users[name].enabled
    && Fits(CellOf(users[name], kind), kind, token, now)
  }

  predicate Fits(c: Cell, kind: Kind, token: string, now: int) {
    c.hash == Some(Hashed(token)) && c.createdAt.Some? && c.createdAt.value >= now - Ttl(kind)
  }

  function AfterIssue(users: Users, kind: Kind, name: string, token: string, now: int): Users {
    if name in users then users[name := WithCell(users[name], kind, Cell(Some(Hashed(token)), Some(now)))] else users
  }

  function AfterConsume(users: Users, kind: Kind, name: string, password: string): Users
    requires name in users
  {
    users[name := WithCell(users[name], kind, CLEAR).(password := password)]
  }

  // ---------------------------------------------------------------------------
  // The store
  // ---------------------------------------------------------------------------

  datatype Failure = Invalid | BadPassword

  /** passwordHash; hashes says whether bcrypt takes the password. */
  predicate Acceptable(password: string, hashes: bool) {
    password != "" && hashes
  }

  class Store {
    var users: Users
    ghost var issued: set<string>

    constructor ()
      ensures users == map[] && issued == {}
    {
      users, issued := map[], {};
    }

    /** issueTimedToken: the UPDATE of an unknown user changes nothing, and still a token
        is returned. */
    method IssueTimedToken(kind: Kind, name: string, fresh_: string, now: int) returns (token: string)
      requires fresh_ != "" && fresh_ !in issued
      modifies this
      ensures token == fresh_ && issued == old(issued) + {token}
      ensures users == AfterIssue(old(users), kind, name, token, now)
    {
      token := fresh_;
      issued := issued + {token};
      if name in users {
        users := users[name := WithCell(users[name], kind, Cell(Some(Hashed(token)), Some(now)))];
      }
    }

    /** verifyTimedToken: the first row that fits, in whatever order the rows come. */
    method VerifyTimedToken(kind: Kind, token: string, now: int) returns (found: Option<string>)
      ensures found.Some? ==> Verifies(users, kind, token, now, found.value)
      ensures found.None? ==> forall name :: !Verifies(users, kind, token, now, name)
    {
      if token == "" {
        return None;
      }
      var cutoff := now - Ttl(kind);
      var rest := set name | name in users;
      while true
        invariant rest <= users.Keys
        invariant forall name | name in users && name !in rest :: !Verifies(users, kind, token, now, name)
        decreases rest
      {
        if name :| name in rest {
          rest := rest - {name};
          var c := CellOf(users[name], kind);
          if users[name].enabled && c.hash.Some? {
            if c.createdAt.None? || c.createdAt.value < cutoff {
              continue;
            }
            if c.hash.value == Hashed(token) {
              return Some(name);
            }
          }
        } else {
          break;
        }
      }
      return None;
    }

    /** consumeTimedToken, one transaction; a password that cannot be hashed rolls it back. */
    method ConsumeTimedToken(kind: Kind, token: string, password: string, hashes: bool, now: int)
      returns (failure: Option<Failure>, ghost name: string)
      modifies this
      ensures issued == old(issued)
      ensures failure == Some(Invalid) <==> forall x :: !Verifies(old(users), kind, token, now, x)
      ensures failure == Some(BadPassword) ==> !Acceptable(password, hashes)
      ensures failure.Some? ==> users == old(users)
      ensures failure.None? ==>
        && Acceptable(password, hashes)
        && Verifies(old(users), kind, token, now, name)
        && users == AfterConsume(old(users), kind, name, password)
    {
      name := "";
      var found := VerifyTimedToken(kind, token, now);
      if found.None? {
        return Some(Invalid), "";
      }
      if password == "" || !hashes {
        return Some(BadPassword), "";
      }
      users := users[found.value := WithCell(users[found.value], kind, CLEAR).(password := password)];
      return None, found.value;
    }

    /** A token is made only for the address of an enabled user. */
    method RequestPasswordReset(email: string, fresh_: string, now: int) returns (token: Option<string>, name: string)
      requires fresh_ != "" && fresh_ !in issued
      modifies this
      ensures token.None? <==>
        email == "" || forall x :: x in old(users) ==> !(old(users)[x].email == email && old(users)[x].enabled)
      ensures token.None? ==> users == old(users) && issued == old(issued)
      ensures token.Some? ==>
        && name in old(users) && old(users)[name].email == email && old(users)[name].enabled
        && token.value == fresh_ && issued == old(issued) + {fresh_}
        && users == AfterIssue(old(users), Reset, name, fresh_, now)
    {
      token, name := None, "";
      if email == "" {
        return;
      }
      if x :| x in users && users[x].email == email && users[x].enabled {
        var t := IssueTimedToken(Reset, x, fresh_, now);
        return Some(t), x;
      }
    }

    /** Only an invite that has not been accepted can be sent again. */
    method ResendInvite(name: string, fresh_: string, now: int) returns (token: Option<string>)
      requires fresh_ != "" && fresh_ !in issued
      modifies this
      ensures token.Some? <==> name in old(users) && old(users)[name].enabled && old(users)[name].invite.hash.Some?
      ensures token.Some? ==>
        token.value == fresh_ && issued == old(issued) + {fresh_}
        && users == AfterIssue(old(users), Invite, name, fresh_, now)
      ensures token.None? ==> users == old(users) && issued == old(issued)
    {
      if name !in users || !users[name].enabled || users[name].invite.hash.None? {
        return None;
      }
      var t := IssueTimedToken(Invite, name, fresh_, now);
      return Some(t);
    }
  }

  // ---------------------------------------------------------------------------
  // Runs
  // ---------------------------------------------------------------------------

  datatype Request =
    | Issue(kind: Kind, name: string, token: string)
    | Register(name: string, user: User, token: string)
    | Consume(kind: Kind, token: string, password: string, hashes: bool)
    | Create(name: string, user: User)
    | SetPassword(name: string, password: string)
    | SetEnabled(name: string, enabled: bool)
    | Delete(name: string)

  datatype State = State(users: Users, issued: set<string>, now: int)

  ghost predicate Step(s: State, r: Request, t: State) {
    && s.now <= t.now
    && match r
       case Issue(kind, name, token) =>
         && token != "" && token !in s.issued
         && t.issued == s.issued + {token} && t.users == AfterIssue(s.users, kind, name, token, t.now)
       case Register(name, user, token) =>
         && token != "" && token !in s.issued && name !in s.users
         && user.reset == CLEAR && user.invite == Cell(Some(Hashed(token)), Some(t.now))
         && t.issued == s.issued + {token} && t.users == s.users[name := user]
       case Consume(kind, token, password, hashes) =>
         && t.issued == s.issued
         && if Acceptable(password, hashes) && exists name :: Verifies(s.users, kind, token, t.now, name)
            then exists name ::
              Verifies(s.users, kind, token, t.now, name)
              && t.users == AfterConsume(s.users, kind, name, password)
            else t.users == s.users
       case Create(name, user) =>
         && name !in s.users && user.reset == CLEAR && user.invite == CLEAR
         && t.issued == s.issued && t.users == s.users[name := user]
       case SetPassword(name, password) =>
         && t.issued == s.issued
         && t.users == if name in s.users then s.users[name := s.users[name].(password := password)] else s.users
       case SetEnabled(name, enabled) =>
         && t.issued == s.issued
         && t.users == if name in s.users then s.users[name := s.users[name].(enabled := enabled)] else s.users
       case Delete(name) => t.issued == s.issued && t.users == s.users - {name}
  }

  ghost predicate IsRun(run: seq<State>, requests: seq<Request>) {
    && |run| == |requests| + 1
    && run[0].users == map[] && run[0].issued == {}
    && forall i | 0 <= i < |requests| :: Step(run[i], requests[i], run[i + 1])
  }

  /** The token's hash is stored for this user and kind since this instant. */
  predicate Held(users: Users, kind: Kind, token: string, name: string, at: int) {
    name in users && CellOf(users[name], kind) == Cell(Some(Hashed(token)), Some(at))
  }

  predicate Stored(users: Users, kind: Kind, name: string) {
    name in users && CellOf(users[name], kind) != CLEAR
  }

  predicate IssuedCell(c: Cell, issued: set<string>) {
    c.hash.Some? && c.createdAt.Some? && c.hash.value.token != "" && c.hash.value.token in issued
  }

  /** Only issued tokens are stored, and each in one place. */
  ghost predicate Valid(s: State) {
    && (forall kind, name | Stored(s.users, kind, name) :: IssuedCell(CellOf(s.users[name], kind), s.issued))
    && forall k1, k2, n1, n2 | Stored(s.users, k1, n1) && Stored(s.users, k2, n2)
         && CellOf(s.users[n1], k1).hash == CellOf(s.users[n2], k2).hash ::
         k1 == k2 && n1 == n2
  }

  /** The step stores the token for this user. */
  predicate Grants(s: State, r: Request, kind: Kind, token: string, name: string) {
    || (r == Issue(kind, name, token) && name in s.users)
    || (r.Register? && r.name == name && r.token == token && kind == Invite)
  }

  /** The step takes the token from this user: a newer one, its use, or the user's deletion. */
  ghost predicate Revokes(s: State, r: Request, t: State, kind: Kind, token: string, name: string) {
    || (r.Issue? && r.kind == kind && r.name == name)
    || (&& r.Consume? && r.kind == kind && r.token == token && Acceptable(r.password, r.hashes)
        && exists x :: Verifies(s.users, kind, token, t.now, x))
    || r == Delete(name)
  }

  lemma CellsApart(u: User, kind: Kind, c: Cell, other: Kind)
    ensures CellOf(WithCell(u, kind, c), other) == if other == kind then c else CellOf(u, other)
  {
  }

  lemma IssueKeepsValid(s: State, kind: Kind, name: string, token: string, t: State)
    requires Valid(s) && Step(s, Issue(kind, name, token), t)
    ensures Valid(t)
  {
    forall k, n | Stored(t.users, k, n) && !(k == kind && n == name)
      ensures Stored(s.users, k, n) && CellOf(t.users[n], k) == CellOf(s.users[n], k)
    {
      if n == name {
        CellsApart(s.users[name], kind, CellOf(t.users[name], kind), k);
      }
    }
  }

  lemma RegisterKeepsValid(s: State, name: string, user: User, token: string, t: State)
    requires Valid(s) && Step(s, Register(name, user, token), t)
    ensures Valid(t)
  {
  }

  lemma OthersKeepValid(s: State, r: Request, t: State)
    requires Valid(s) && Step(s, r, t) && !r.Issue? && !r.Register?
    ensures Valid(t)
  {
    forall k, n | Stored(t.users, k, n)
      ensures Stored(s.users, k, n) && CellOf(t.users[n], k) == CellOf(s.users[n], k)
    {
    }
  }

  lemma StepKeepsValid(s: State, r: Request, t: State)
    requires Valid(s) && Step(s, r, t)
    ensures Valid(t)
  {
    match r
    case Issue(kind, name, token) => IssueKeepsValid(s, kind, name, token, t);
    case Register(name, user, token) => RegisterKeepsValid(s, name, user, token, t);
    case _ => OthersKeepValid(s, r, t);
  }

  lemma {:induction false} ReachableIsValid(run: seq<State>, requests: seq<Request>, n: nat)
    requires IsRun(run, requests) && n < |run|
    ensures Valid(run[n])
  {
    if n > 0 {
      ReachableIsValid(run, requests, n - 1);
      StepKeepsValid(run[n - 1], requests[n - 1], run[n - 1 + 1]);
    }
  }

  /** At most one token of a kind verifies for a user, and a token verifies for at most one
      user, as a token of one kind. */
  lemma TokensAreUnique(run: seq<State>, requests: seq<Request>, n: nat, k1: Kind, k2: Kind, a: string,
                        b: string, n1: string, n2: string, now: int)
    requires IsRun(run, requests) && n < |run|
    requires Verifies(run[n].users, k1, a, now, n1) && Verifies(run[n].users, k2, b, now, n2)
    ensures a == b <==> k1 == k2 && n1 == n2
  {
    ReachableIsValid(run, requests, n);
    assert Stored(run[n].users, k1, n1) && Stored(run[n].users, k2, n2);
  }

  /** Where a token is held after a step: where the step put it, or where it was before and
      the step did not take it away. */
  lemma HeldAfterIff(s: State, r: Request, t: State, kind: Kind, token: string, name: string, at: int)
    requires Valid(s) && Step(s, r, t)
    ensures Held(t.users, kind, token, name, at) <==>
      || (Grants(s, r, kind, token, name) && at == t.now)
      || (Held(s.users, kind, token, name, at) && !Revokes(s, r, t, kind, token, name))
  {
    match r
    case Issue(k, x, new_) =>
      if x == name && name in s.users {
        CellsApart(s.users[name], k, Cell(Some(Hashed(new_)), Some(t.now)), kind);
      }
    case Register(x, user, new_) =>
    case Consume(k, used, password, hashes) => ConsumeHeldIff(s, k, used, password, hashes, t, kind, token, name, at);
    case _ =>
  }

  lemma ConsumeHeldIff(s: State, k: Kind, used: string, password: string, hashes: bool, t: State, kind: Kind,
                       token: string, name: string, at: int)
    requires Valid(s) && Step(s, Consume(k, used, password, hashes), t)
    ensures Held(t.users, kind, token, name, at) <==>
      Held(s.users, kind, token, name, at) && !Revokes(s, Consume(k, used, password, hashes), t, kind, token, name)
  {
  }

  /** Step i put the token here, and no step since took it away. */
  ghost predicate GrantedAt(run: seq<State>, requests: seq<Request>, i: nat, n: nat, kind: Kind, token: string,
                            name: string, at: int)
    requires |run| == |requests| + 1 && n <= |requests|
  {
    && i < n && at == run[i + 1].now
    && Grants(run[i], requests[i], kind, token, name)
    && forall j | i < j < n :: !Revokes(run[j], requests[j], run[j + 1], kind, token, name)
  }

  lemma {:induction false} HeldIff(run: seq<State>, requests: seq<Request>, n: nat, kind: Kind, token: string,
                                   name: string, at: int)
    requires IsRun(run, requests) && n <= |requests|
    ensures Held(run[n].users, kind, token, name, at)
      <==> exists i :: GrantedAt(run, requests, i, n, kind, token, name, at)
  {
    if n > 0 {
      var m := n - 1;
      HeldIff(run, requests, m, kind, token, name, at);
      ReachableIsValid(run, requests, m);
      assert Step(run[m], requests[m], run[m + 1]);
      HeldAfterIff(run[m], requests[m], run[m + 1], kind, token, name, at);
      GrantedNext(run, requests, m, n, kind, token, name, at);
    }
  }

  lemma GrantedNext(run: seq<State>, requests: seq<Request>, m: nat, n: nat, kind: Kind, token: string,
                    name: string, at: int)
    requires |run| == |requests| + 1 && n == m + 1 <= |requests|
    ensures (exists i :: GrantedAt(run, requests, i, n, kind, token, name, at)) <==>
      || (Grants(run[m], requests[m], kind, token, name) && at == run[n].now)
      || ((exists i :: GrantedAt(run, requests, i, m, kind, token, name, at))
           && !Revokes(run[m], requests[m], run[n], kind, token, name))
  {
    if i: nat :| GrantedAt(run, requests, i, n, kind, token, name, at) {
      assert i == m || GrantedAt(run, requests, i, m, kind, token, name, at);
    }
    if Grants(run[m], requests[m], kind, token, name) && at == run[n].now {
      assert GrantedAt(run, requests, m, n, kind, token, name, at);
    }
    if i: nat :|
      GrantedAt(run, requests, i, m, kind, token, name, at)
      && !Revokes(run[m], requests[m], run[n], kind, token, name) {
      assert GrantedAt(run, requests, i, n, kind, token, name, at);
    }
  }

  /** Seconds that a token may be old: an hour for a reset, seven days for an invite. */
  predicate InTime(kind: Kind, age: int) {
    match kind case Reset => age <= 3600 case Invite => age <= 604800
  }

  lemma InTimeIff(kind: Kind, age: int)
    ensures InTime(kind, age) <==> age <= Ttl(kind)
  {
  }

  /** A token verifies for a user exactly when the user is enabled and a step in time gave
      the user this token, with no newer token of the kind, no use of it and no deletion of
      the user since. */
  lemma VerifiesIff(run: seq<State>, requests: seq<Request>, n: nat, kind: Kind, token: string, name: string, now: int)
    requires IsRun(run, requests) && n <= |requests|
    ensures Verifies(run[n].users, kind, token, now, name) <==>
      && name in run[n].users && run[n].users[name].enabled
      && exists i: nat, at: int :: GrantedAt(run, requests, i, n, kind, token, name, at) && InTime(kind, now - at)
  {
    ReachableIsValid(run, requests, n);
    if Verifies(run[n].users, kind, token, now, name) {
      var at := CellOf(run[n].users[name], kind).createdAt.value;
      HeldIff(run, requests, n, kind, token, name, at);
      var i: nat :| GrantedAt(run, requests, i, n, kind, token, name, at);
      InTimeIff(kind, now - at);
    }
    if i: nat, at: int :| GrantedAt(run, requests, i, n, kind, token, name, at) && InTime(kind, now - at) {
      HeldIff(run, requests, n, kind, token, name, at);
      InTimeIff(kind, now - at);
      assert Step(run[i], requests[i], run[i + 1]);
    }
  }

  /** A reset token that was given more than an hour ago, or an invite more than seven days
      ago, sets no password and changes no user. */
  lemma OldTokenIsRefused(run: seq<State>, requests: seq<Request>, i: nat, n: nat, kind: Kind, token: string,
                          name: string, at: int)
    requires IsRun(run, requests) && n < |requests| && GrantedAt(run, requests, i, n, kind, token, name, at)
    requires requests[n].Consume? && requests[n].kind == kind && requests[n].token == token
    requires run[n + 1].now - at > match kind case Reset => 3600 case Invite => 604800
    ensures run[n + 1].users == run[n].users
  {
    HeldIff(run, requests, n, kind, token, name, at);
    ReachableIsValid(run, requests, n);
    assert Step(run[n], requests[n], run[n + 1]);
    var users, now := run[n].users, run[n + 1].now;
    forall x ensures !Verifies(users, kind, token, now, x) {
      if Verifies(users, kind, token, now, x) {
        assert Stored(users, kind, x) && Stored(users, kind, name);
      }
    }
  }

  // ---------------------------------------------------------------------------
  // Dead tokens
  // ---------------------------------------------------------------------------

  /** An issued token that is stored nowhere or only past its lifetime. */
  ghost predicate Dead(s: State, kind: Kind, token: string) {
    token in s.issued && forall name, at | Held(s.users, kind, token, name, at) :: at < s.now - Ttl(kind)
  }

  lemma StepStaysDead(s: State, r: Request, t: State, kind: Kind, token: string)
    requires Valid(s) && Step(s, r, t) && Dead(s, kind, token)
    ensures Dead(t, kind, token)
  {
    forall name, at | Held(t.users, kind, token, name, at) ensures at < t.now - Ttl(kind) {
      HeldAfterIff(s, r, t, kind, token, name, at);
    }
  }

  lemma {:induction false} StaysDead(run: seq<State>, requests: seq<Request>, i: nat, j: nat, kind: Kind, token: string)
    requires IsRun(run, requests) && i <= j < |run| && Dead(run[i], kind, token)
    ensures Dead(run[j], kind, token)
    decreases j
  {
    if i < j {
      StaysDead(run, requests, i, j - 1, kind, token);
      ReachableIsValid(run, requests, j - 1);
      StepStaysDead(run[j - 1], requests[j - 1], run[j - 1 + 1], kind, token);
    }
  }

  lemma DeadDoesNotVerify(s: State, kind: Kind, token: string, now: int)
    requires Dead(s, kind, token) && s.now <= now
    ensures forall name :: !Verifies(s.users, kind, token, now, name)
  {
    forall name ensures !Verifies(s.users, kind, token, now, name) {
      if name in s.users && CellOf(s.users[name], kind).createdAt.Some? {
        var at := CellOf(s.users[name], kind).createdAt.value;
        assert Held(s.users, kind, token, name, at) ==> at < s.now - Ttl(kind);
      }
    }
  }

  ghost predicate Succeeds(s: State, r: Request, t: State) {
    r.Consume? && Acceptable(r.password, r.hashes) && exists name :: Verifies(s.users, r.kind, r.token, t.now, name)
  }

  lemma UseKills(s: State, r: Request, t: State)
    requires Valid(s) && Step(s, r, t) && Succeeds(s, r, t)
    ensures Dead(t, r.kind, r.token)
  {
  }

  /** Nothing but the password and the used token of that one user. */
  ghost predicate OnlyPasswordSet(users: Users, after: Users, kind: Kind, name: string, password: string) {
    && name in users && after.Keys == users.Keys
    && (forall x | x in users && x != name :: after[x] == users[x])
    && after[name].password == password && after[name].email == users[name].email
    && after[name].enabled == users[name].enabled
    && match kind
       case Reset => after[name].reset == Cell(None, None) && after[name].invite == users[name].invite
       case Invite => after[name].invite == Cell(None, None) && after[name].reset == users[name].reset
  }

  /** Presenting a token either sets the password of the user it verifies for, and takes the
      token away, or changes nothing; an empty password, or one that cannot be hashed, is
      refused. */
  lemma PresentingSetsPassword(s: State, r: Request, t: State)
    requires Valid(s) && Step(s, r, t) && r.Consume?
    ensures if r.password != "" && r.hashes && exists name :: Verifies(s.users, r.kind, r.token, t.now, name)
      then exists name ::
        Verifies(s.users, r.kind, r.token, t.now, name)
        && OnlyPasswordSet(s.users, t.users, r.kind, name, r.password)
      else t.users == s.users
  {
    if Acceptable(r.password, r.hashes) && exists name :: Verifies(s.users, r.kind, r.token, t.now, name) {
      var name :| Verifies(s.users, r.kind, r.token, t.now, name)
        && t.users == AfterConsume(s.users, r.kind, name, r.password);
      assert OnlyPasswordSet(s.users, t.users, r.kind, name, r.password);
    }
  }

  lemma ReissueKills(s: State, r: Request, t: State, kind: Kind, old_: string, name: string, at: int)
    requires Valid(s) && Step(s, r, t) && r.Issue? && r.kind == kind && r.name == name
      && Held(s.users, kind, old_, name, at)
    ensures Dead(t, kind, old_)
  {
  }

  /** What brings a token to its end - use, a newer token, or age - ends it for good: it
      never verifies again, and presenting it changes no user. */
  lemma DeadForGood(run: seq<State>, requests: seq<Request>, i: nat, j: nat, kind: Kind, token: string)
    requires IsRun(run, requests) && i <= j < |requests|
    requires Dead(run[i], kind, token)
    ensures forall name :: !Verifies(run[j].users, kind, token, run[j].now, name)
    ensures requests[j].Consume? && requests[j].kind == kind && requests[j].token == token
      ==> run[j + 1].users == run[j].users
  {
    StaysDead(run, requests, i, j, kind, token);
    DeadDoesNotVerify(run[j], kind, token, run[j].now);
    assert Step(run[j], requests[j], run[j + 1]);
    DeadDoesNotVerify(run[j], kind, token, run[j + 1].now);
  }

  /** A token is used at most once. */
  lemma UsedOnce(run: seq<State>, requests: seq<Request>, i: nat, j: nat, kind: Kind, token: string)
    requires IsRun(run, requests) && i < j < |requests|
    requires requests[i].Consume? && requests[i].kind == kind && requests[i].token == token
    requires requests[j].Consume? && requests[j].kind == kind && requests[j].token == token
    requires Succeeds(run[i], requests[i], run[i + 1])
    ensures !Succeeds(run[j], requests[j], run[j + 1])
  {
    ReachableIsValid(run, requests, i);
    assert Step(run[i], requests[i], run[i + 1]) && Step(run[j], requests[j], run[j + 1]);
    UseKills(run[i], requests[i], run[i + 1]);
    StaysDead(run, requests, i + 1, j, kind, token);
    DeadDoesNotVerify(run[j], kind, token, run[j + 1].now);
  }

  /** Short of an administrator setting it, no password changes without a token that
      verifies for its user at that moment. */
  lemma PasswordNeedsToken(s: State, r: Request, t: State, name: string)
    requires Valid(s) && Step(s, r, t) && !r.SetPassword? && name in s.users && name in t.users
    requires t.users[name].password != s.users[name].password
    ensures Succeeds(s, r, t) && Verifies(s.users, r.kind, r.token, t.now, name)
  {
  }
}

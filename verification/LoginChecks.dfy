/** What the checks and setters of src/Helpers/AdminAuth.cpp mean to a user: the secret that was set is the one that
    logs in, a lockout ends, and the channels do not disturb each other. */
module LoginChecks {
  import opened Lockouts
  import opened LoginSteps
  import opened LoginRuns
  import opened BucketRuns

  function Judged(ok: bool): Verdict { if ok then Hit else Miss }

  lemma NobodyLocked(key: string, now: nat, s: State)
    requires s.attempts == EmptyTable()
    ensures !Engaged(Bucketed(s, key, now).lockoutUntilMs, now)
  {
    EmptyHasOnePerKey();
    BucketedIs(s, key, now);
  }

  // ---------------------------------------------------------------- the setters

  /** One to 32 characters, none of them a control character, a space or DEL. */
  predicate Printable(u: string) {
    1 <= |u| <= 32 && forall c :: c in u ==> c > ' ' && c != '\U{7F}'
  }

  lemma PrintableIsValid(u: string)
    ensures UsernameValid(u) <==> Printable(u)
  {
    if Printable(u) {
      assert forall i :: 0 <= i < |u| ==> u[i] in u;
    }
  }

  /** When setLoginCredential succeeds; if it does not, it changes nothing, and if it does, all buckets and the shared
      backstop start afresh and nothing else changes but the credential. */
  lemma SetLoginDone(h: Hasher, s: State, username: string, password: string, salt: string, allowed: bool, persisted: bool)
    ensures var (s', done) := SetLogin(h, s, username, password, salt, allowed, persisted);
            && (done <==> (Printable(username) && 8 <= |password| <= 128 && salt != "" && allowed && persisted
                           && !(s.owner.provisioned && username == s.owner.username)))
            && (!done ==> s' == s)
            && (done ==> (s'.attempts == EmptyTable() && s'.shared == Backstop(0, 0, 0) && s'.owner == s.owner && s'.pin == s.pin
                          && s'.sysopBackstop == s.sysopBackstop && s'.ownerBackstop == s.ownerBackstop))
  {
    PrintableIsValid(username);
  }

  /** After it the password that was set logs in under the name that was set, at once and from any client; any other
      password or name is a miss. */
  lemma SetLoginLogsIn(h: Hasher, s: State, username: string, password: string, salt: string, allowed: bool, persisted: bool,
                       name: string, q: string, client: string, now: nat)
    requires SetLogin(h, s, username, password, salt, allowed, persisted).1
    ensures var s' := SetLogin(h, s, username, password, salt, allowed, persisted).0;
            && AtomicVerify(h, s', name, q, client, now).1 == Judged(name == username && h(salt, q) == h(salt, password))
            && (!IsOwner(s', name) && !Engaged(s.sysopBackstop.lockoutUntilMs, now) ==>
                  AtomicAuthenticate(h, s', name, q, client, now).1 == Judged(name == username && h(salt, q) == h(salt, password)))
            && !IsOwner(s', username)
  {
    hide EmptyTable, UsernameValid, PasswordValid, RecordShared, RecordAuth, AuthKey, Bucketed;
    var s' := SetLogin(h, s, username, password, salt, allowed, persisted).0;
    NobodyLocked(client, now, s');
    NobodyLocked(AuthKey(client, false), now, s');
  }

  lemma SetOwnerDone(h: Hasher, s: State, username: string, password: string, salt: string, allowed: bool, persisted: bool)
    ensures var (s', done) := SetOwner(h, s, username, password, salt, allowed, persisted);
            && (done <==> (Printable(username) && 8 <= |password| <= 128 && salt != "" && allowed && persisted
                           && username != s.sysop.username))
            && (!done ==> s' == s)
            && (done ==> (s'.attempts == EmptyTable() && s'.shared == Backstop(0, 0, 0) && s'.sysop == s.sysop && s'.pin == s.pin
                          && s'.sysopBackstop == Backstop(0, 0, 0) && s'.ownerBackstop == Backstop(0, 0, 0)))
  {
    PrintableIsValid(username);
  }

  /** The same for the owner, who logs in with the owner's role. */
  lemma SetOwnerLogsIn(h: Hasher, s: State, username: string, password: string, salt: string, allowed: bool, persisted: bool,
                       q: string, client: string, now: nat)
    requires SetOwner(h, s, username, password, salt, allowed, persisted).1
    ensures var s' := SetOwner(h, s, username, password, salt, allowed, persisted).0;
            && IsOwner(s', username) && (forall name: string :: IsOwner(s', name) ==> name == username)
            && AtomicAuthenticate(h, s', username, q, client, now).1 == Judged(h(salt, q) == h(salt, password))
  {
    hide EmptyTable, UsernameValid, PasswordValid, RecordAuth, AuthKey, Bucketed;
    var s' := SetOwner(h, s, username, password, salt, allowed, persisted).0;
    NobodyLocked(AuthKey(client, true), now, s');
  }

  lemma SetPinDone(h: Hasher, s: State, digits: string, claimed: bool, salt: string, allowed: bool, persisted: bool)
    ensures var (s', done) := SetPin(h, s, digits, claimed, salt, allowed, persisted);
            && (done <==> (4 <= |digits| <= 16 && (forall i :: 0 <= i < |digits| ==> '0' <= digits[i] <= '9') && !claimed
                           && salt != "" && allowed && persisted))
            && (!done ==> s' == s)
            && (done ==> (s'.attempts == EmptyTable() && s'.shared == Backstop(0, 0, 0) && s'.sysop == s.sysop && s'.owner == s.owner
                          && s'.sysopBackstop == s.sysopBackstop && s'.ownerBackstop == s.ownerBackstop))
  {}

  /** The same for the PIN, if salt and hash are the hex strings the tickets have room for. */
  lemma SetPinLogsIn(h: Hasher, s: State, digits: string, claimed: bool, salt: string, allowed: bool, persisted: bool,
                     q: string, now: nat)
    requires SetPin(h, s, digits, claimed, salt, allowed, persisted).1
    ensures var s' := SetPin(h, s, digits, claimed, salt, allowed, persisted).0;
            AtomicDtmf(h, s', q, now).1 ==
            if |salt| <= 64 && |h(salt, digits)| <= 64 then Judged(h(salt, q) == h(salt, digits)) else Refused
  {
    hide EmptyTable, PinValid, RecordShared, Bucketed;
    NobodyLocked("", now, SetPin(h, s, digits, claimed, salt, allowed, persisted).0);
  }

  /** After a clear, as at first boot, only the default pair logs in, as sysop, and no PIN does. */
  lemma ClearedLogsIn(h: Hasher, name: string, q: string, client: string, now: nat)
    ensures AtomicVerify(h, Cleared(), name, q, client, now).1 == Judged(name == "admin" && q == "admin")
    ensures AtomicAuthenticate(h, Cleared(), name, q, client, now).1 == Judged(name == "admin" && q == "admin")
    ensures !IsOwner(Cleared(), name) && AtomicDtmf(h, Cleared(), q, now).1 == Refused
  {
    hide EmptyTable, RecordShared, RecordAuth, AuthKey, Bucketed;
    NobodyLocked(client, now, Cleared());
    NobodyLocked(AuthKey(client, false), now, Cleared());
  }

  // ---------------------------------------------------------------- a lockout ends

  /** From the end of the client's lockout on, with no aggregate lockout engaged, the right secret is a hit, and forgives
      the bucket and the backstop it was charged to; a wrong one is a miss. */
  lemma VerifyOpens(h: Hasher, s: State, username: string, password: string, client: string, now: nat)
    requires OnePerKey(s.attempts) && s.sysop.provisioned
    requires forall i: nat :: i < MAX_ATTEMPT_BUCKETS && Holds(s.attempts, i, client) ==> now >= s.attempts[i].lockoutUntilMs
    requires now >= s.shared.lockoutUntilMs
    ensures var (s', v) := AtomicVerify(h, s, username, password, client, now);
            && v == Judged(username == s.sysop.username && h(s.sysop.salt, password) == s.sysop.hash)
            && (v.Hit? ==> s'.shared == Backstop(0, 0, 0) && CleanAfter(s', client))
  {
    hide Charged, OnePerKey, CleanAfter, Bucketed;
    BucketedIs(s, client, now);
    var (r, v) := AtomicVerify(h, s, username, password, client, now);
    if v.Hit? { HitCleans(s, client, now, r); }
  }

  /** The key's bucket has nothing against it. */
  ghost predicate CleanAfter(s: State, key: string) {
    exists i: nat :: i < MAX_ATTEMPT_BUCKETS && Holds(s.attempts, i, key) && Meter(s.attempts[i]) == Backstop(0, 0, 0)
  }

  lemma HitCleans(s: State, key: string, now: nat, r: State)
    requires OnePerKey(s.attempts) && r.attempts == Charged(s, key, true, now)
    ensures CleanAfter(r, key)
  {
    hide SlotFor;
    AcquireKeeps(s.attempts, key, now);
    assert Holds(r.attempts, SlotFor(s.attempts, key), key);
  }

  lemma AuthenticateOpens(h: Hasher, s: State, username: string, password: string, client: string, now: nat)
    requires OnePerKey(s.attempts)
    requires var owner := IsOwner(s, username);
             && Secret(s, owner).provisioned && now >= BackstopOf(s, owner).lockoutUntilMs
             && forall i: nat :: i < MAX_ATTEMPT_BUCKETS && Holds(s.attempts, i, AuthKey(client, owner)) ==>
                  now >= s.attempts[i].lockoutUntilMs
    ensures var owner := IsOwner(s, username);
            var (s', v) := AtomicAuthenticate(h, s, username, password, client, now);
            && v == Judged(username == Secret(s, owner).username && h(Secret(s, owner).salt, password) == Secret(s, owner).hash)
            && (v.Hit? ==> BackstopOf(s', owner) == Backstop(0, 0, 0) && CleanAfter(s', AuthKey(client, owner)))
  {
    hide Charged, OnePerKey, AuthKey, CleanAfter, Bucketed;
    var key := AuthKey(client, IsOwner(s, username));
    BucketedIs(s, key, now);
    var (r, v) := AtomicAuthenticate(h, s, username, password, client, now);
    if v.Hit? { HitCleans(s, key, now, r); }
  }

  lemma DtmfOpens(h: Hasher, s: State, digits: string, now: nat)
    requires OnePerKey(s.attempts) && s.pin.provisioned && |s.pin.salt| <= 64 && |s.pin.hash| <= 64
    requires forall i: nat :: i < MAX_ATTEMPT_BUCKETS && Holds(s.attempts, i, "") ==> now >= s.attempts[i].lockoutUntilMs
    requires now >= s.shared.lockoutUntilMs
    ensures var (s', v) := AtomicDtmf(h, s, digits, now);
            && v == Judged(h(s.pin.salt, digits) == s.pin.hash)
            && (v.Hit? ==> s'.shared == Backstop(0, 0, 0) && CleanAfter(s', ""))
  {
    hide Charged, OnePerKey, CleanAfter, Bucketed;
    BucketedIs(s, "", now);
    var (r, v) := AtomicDtmf(h, s, digits, now);
    if v.Hit? { HitCleans(s, "", now, r); }
  }

  // ---------------------------------------------------------------- channels apart

  /** The keys of the two principals and of different clients never meet, nor a key of authenticate the unkeyed bucket
      of the DTMF menu. */
  lemma KeysApart(c: string, owner: bool, c': string, owner': bool)
    ensures AuthKey(c, owner) == AuthKey(c', owner') ==> c == c' && owner == owner'
    ensures AuthKey(c, owner) != "" && AuthKey(c, owner) != c
  {
    var a, b := AuthKey(c, owner), AuthKey(c', owner');
    if a == b {
      assert a[|c| + 1] == b[|c'| + 1];
      assert |a| == |c| + 6 && |b| == |c'| + 6;
      assert c == a[..|c|] && c' == b[..|c'|];
    }
  }

  /** A login spray touches only the table and the backstop of the principal it names: not the one the PIN and
      verifyCredential share, not the other principal's, and no credential. */
  lemma AuthenticateKeepsApart(s: State, username: string, password: string, client: string, t: LoginTicket, candidate: string,
                               now: nat)
    ensures var (b, f) := (BeginAuthenticate(s, username, password, client, now).0, FinishAuthenticate(s, t, candidate, now).0);
            && b.shared == s.shared && f.shared == s.shared
            && BackstopOf(b, !IsOwner(s, username)) == BackstopOf(s, !IsOwner(s, username))
            && BackstopOf(f, !t.owner) == BackstopOf(s, !t.owner)
            && (b.sysop, b.owner, b.pin) == (s.sysop, s.owner, s.pin) == (f.sysop, f.owner, f.pin)
  {
    hide Acquire, SlotFor, Charged, Backstopped, LockedOut, AuthKey;
  }

  /** The same credentials, and the same backstops of the principals. */
  predicate SameLogins(s: State, r: State) {
    && r.sysop == s.sysop && r.owner == s.owner && r.pin == s.pin
    && r.sysopBackstop == s.sysopBackstop && r.ownerBackstop == s.ownerBackstop
  }

  /** And the checks that share a backstop leave the principals' alone. */
  lemma SharedKeepsApart(s: State, username: string, password: string, client: string, t: LoginTicket, p: PinTicket,
                         candidate: string, matched: bool, now: nat)
    ensures SameLogins(s, BeginVerify(s, username, password, client, now).0)
    ensures SameLogins(s, FinishVerify(s, t, candidate, now).0)
    ensures SameLogins(s, BeginDtmf(s, now).0) && SameLogins(s, FinishDtmf(s, p, matched, now).0)
  {
    hide Acquire, SlotFor, Charged, Backstopped, LockedOut;
  }
}

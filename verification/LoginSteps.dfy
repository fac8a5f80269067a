/** The locked sections of src/Helpers/AdminAuth.cpp: what each one does to the shared state.  The hash
    runs between a begin and its finish with the mutex released; `Hasher` stands for it. */
module LoginSteps {
  import opened Lockouts

  type Hasher = (string, string) -> string   // salt, secret

  datatype Credential = Credential(provisioned: bool, username: string, salt: string, hash: string)

  datatype Pin = Pin(provisioned: bool, salt: string, hash: string)

  const NO_CREDENTIAL := Credential(false, "", "", "")
  const NO_PIN := Pin(false, "", "")

  const DEFAULT_USERNAME := "admin"
  const DEFAULT_PASSWORD := "admin"

  /** AuthState, without its sessions. */
  datatype State = State(
    sysop: Credential, owner: Credential, pin: Pin,
    attempts: Table, shared: Backstop, sysopBackstop: Backstop, ownerBackstop: Backstop)

  /** How a check ends: refused with nothing counted, or counted. */
  datatype Verdict = Refused | Miss | Hit

  /** LoginSnapshot with what the caller keeps on its stack. */
  datatype LoginTicket = LoginTicket(owner: bool, key: string, salt: string, hash: string, userOk: bool)

  /** DtmfPinTicket. */
  datatype PinTicket = PinTicket(salt: string, hash: string)

  datatype Begun<T> = Done(verdict: Verdict) | Hashing(ticket: T)

  // ---------------------------------------------------------------- buckets and gates

  /** The bucket an attempt under the key is charged to, once acquired. */
  function Bucketed(s: State, key: string, now: nat): Bucket {
    Acquire(s.attempts, key, now)[SlotFor(s.attempts, key)]
  }

  function Touched(s: State, key: string, now: nat): State {
    s.(attempts := Acquire(s.attempts, key, now))
  }

  /** The client's bucket and the aggregate backstop: dtmfLockedOutLocked, authLockedOutLocked. */
  predicate LockedOut(s: State, key: string, g: Backstop, now: nat) {
    Engaged(Bucketed(s, key, now).lockoutUntilMs, now) || Engaged(g.lockoutUntilMs, now)
  }

  /** The table with the attempt charged. */
  function Charged(s: State, key: string, ok: bool, now: nat): Table {
    Acquire(s.attempts, key, now)[SlotFor(s.attempts, key) := Charge(Bucketed(s, key, now), ok, now)]
  }

  function VerdictOf(ok: bool): Verdict { if ok then Hit else Miss }

  // ---------------------------------------------------------------- authenticate

  predicate IsOwner(s: State, username: string) { s.owner.provisioned && username == s.owner.username }

  function Secret(s: State, owner: bool): Credential { if owner then s.owner else s.sysop }

  function BackstopOf(s: State, owner: bool): Backstop { if owner then s.ownerBackstop else s.sysopBackstop }

  /** clientKey + "\x1f" + principalName(principal). */
  function AuthKey(client: string, owner: bool): string {
    client + "\U{1F}" + (if owner then "owner" else "sysop")
  }

  /** recordBucketAttemptLocked and the principal's own backstop. */
  function RecordAuth(s: State, key: string, owner: bool, ok: bool, now: nat): State {
    var charged := s.(attempts := Charged(s, key, ok, now));
    if owner then charged.(ownerBackstop := Backstopped(s.ownerBackstop, ok, now))
    else charged.(sysopBackstop := Backstopped(s.sysopBackstop, ok, now))
  }

  function BeginAuthenticate(s: State, username: string, password: string, client: string, now: nat)
    : (State, Begun<LoginTicket>)
  {
    var owner := IsOwner(s, username);
    var key := AuthKey(client, owner);
    if LockedOut(s, key, BackstopOf(s, owner), now) then (Touched(s, key, now), Done(Refused))
    else if !owner && !s.sysop.provisioned then
      var ok := username == DEFAULT_USERNAME && password == DEFAULT_PASSWORD;
      (RecordAuth(s, key, owner, ok, now), Done(VerdictOf(ok)))
    else
      var c := Secret(s, owner);
      (Touched(s, key, now), Hashing(LoginTicket(owner, key, c.salt, c.hash, username == c.username)))
  }

  /** loginSnapshotCurrentLocked. */
  predicate Current(s: State, t: LoginTicket) {
    var c := Secret(s, t.owner);
    c.provisioned && c.salt == t.salt && c.hash == t.hash
  }

  function FinishAuthenticate(s: State, t: LoginTicket, candidate: string, now: nat): (State, Verdict) {
    if !Current(s, t) then (s, Refused)
    else if LockedOut(s, t.key, BackstopOf(s, t.owner), now) then (Touched(s, t.key, now), Refused)
    else
      var ok := t.userOk && candidate == t.hash;
      (RecordAuth(s, t.key, t.owner, ok, now), VerdictOf(ok))
  }

  /** The same check in one locked step. */
  function AtomicAuthenticate(h: Hasher, s: State, username: string, password: string, client: string, now: nat)
    : (State, Verdict)
  {
    var owner := IsOwner(s, username);
    var key, c := AuthKey(client, owner), Secret(s, owner);
    if LockedOut(s, key, BackstopOf(s, owner), now) then (Touched(s, key, now), Refused)
    else
      var ok := if !owner && !s.sysop.provisioned then username == DEFAULT_USERNAME && password == DEFAULT_PASSWORD
                else username == c.username && h(c.salt, password) == c.hash;
      (RecordAuth(s, key, owner, ok, now), VerdictOf(ok))
  }

  // ---------------------------------------------------------------- verifyCredential

  /** recordAttemptLocked. */
  function RecordShared(s: State, key: string, ok: bool, now: nat): State {
    s.(attempts := Charged(s, key, ok, now), shared := Backstopped(s.shared, ok, now))
  }

  function BeginVerify(s: State, username: string, password: string, client: string, now: nat)
    : (State, Begun<LoginTicket>)
  {
    if LockedOut(s, client, s.shared, now) then (Touched(s, client, now), Done(Refused))
    else if !s.sysop.provisioned then
      var ok := username == DEFAULT_USERNAME && password == DEFAULT_PASSWORD;
      (RecordShared(s, client, ok, now), Done(VerdictOf(ok)))
    else
      (Touched(s, client, now),
       Hashing(LoginTicket(false, client, s.sysop.salt, s.sysop.hash, username == s.sysop.username)))
  }

  function FinishVerify(s: State, t: LoginTicket, candidate: string, now: nat): (State, Verdict) {
    if !Current(s, t.(owner := false)) then (s, Refused)
    else if LockedOut(s, t.key, s.shared, now) then (Touched(s, t.key, now), Refused)
    else
      var ok := t.userOk && candidate == t.hash;
      (RecordShared(s, t.key, ok, now), VerdictOf(ok))
  }

  function AtomicVerify(h: Hasher, s: State, username: string, password: string, client: string, now: nat)
    : (State, Verdict)
  {
    if LockedOut(s, client, s.shared, now) then (Touched(s, client, now), Refused)
    else
      var ok := if !s.sysop.provisioned then username == DEFAULT_USERNAME && password == DEFAULT_PASSWORD
                else username == s.sysop.username && h(s.sysop.salt, password) == s.sysop.hash;
      (RecordShared(s, client, ok, now), VerdictOf(ok))
  }

  // ---------------------------------------------------------------- the DTMF PIN

  const TICKET_SIZE := 65

  function BeginDtmf(s: State, now: nat): (State, Begun<PinTicket>) {
    if !s.pin.provisioned then (s, Done(Refused))
    else if LockedOut(s, "", s.shared, now) then (Touched(s, "", now), Done(Refused))
    else if |s.pin.salt| >= TICKET_SIZE || |s.pin.hash| >= TICKET_SIZE then (Touched(s, "", now), Done(Refused))
    else (Touched(s, "", now), Hashing(PinTicket(s.pin.salt, s.pin.hash)))
  }

  predicate PinCurrent(s: State, t: PinTicket) {
    s.pin.provisioned && s.pin.salt == t.salt && s.pin.hash == t.hash
  }

  function FinishDtmf(s: State, t: PinTicket, matched: bool, now: nat): (State, Verdict) {
    if !PinCurrent(s, t) then (s, Refused)
    else if LockedOut(s, "", s.shared, now) then (Touched(s, "", now), Refused)
    else (RecordShared(s, "", matched, now), VerdictOf(matched))
  }

  function AtomicDtmf(h: Hasher, s: State, digits: string, now: nat): (State, Verdict) {
    if !s.pin.provisioned then (s, Refused)
    else if LockedOut(s, "", s.shared, now) || |s.pin.salt| >= TICKET_SIZE || |s.pin.hash| >= TICKET_SIZE then
      (Touched(s, "", now), Refused)
    else
      var ok := h(s.pin.salt, digits) == s.pin.hash;
      (RecordShared(s, "", ok, now), VerdictOf(ok))
  }

  // ---------------------------------------------------------------- setters

  predicate UsernameValid(u: string) {
    1 <= |u| <= 32 && forall i :: 0 <= i < |u| ==> '!' <= u[i] != '\U{7F}'
  }

  predicate PasswordValid(p: string) { 8 <= |p| <= 128 }

  /** `claimed` says whether a star code begins the PIN. */
  predicate PinValid(p: string, claimed: bool) {
    4 <= |p| <= 16 && !claimed && forall i :: 0 <= i < |p| ==> '0' <= p[i] <= '9'
  }

  /** Fresh accounting for every client of the shared table. */
  function Forgiven(s: State): State {
    s.(attempts := EmptyTable(), shared := NO_BACKSTOP)
  }

  /** setLoginCredential, given the salt it drew, whether the factory reset guard allows the write, and
      whether the store takes it. */
  function SetLogin(h: Hasher, s: State, username: string, password: string, salt: string, allowed: bool, persisted: bool)
    : (State, bool)
  {
    if !UsernameValid(username) || !PasswordValid(password) || salt == "" then (s, false)
    else if !allowed || (s.owner.provisioned && username == s.owner.username) || !persisted then (s, false)
    else (Forgiven(s).(sysop := Credential(true, username, salt, h(salt, password))), true)
  }

  /** setOwnerCredential. */
  function SetOwner(h: Hasher, s: State, username: string, password: string, salt: string, allowed: bool, persisted: bool)
    : (State, bool)
  {
    if !UsernameValid(username) || !PasswordValid(password) || salt == "" then (s, false)
    else if !allowed || username == s.sysop.username || !persisted then (s, false)
    else
      (Forgiven(s).(owner := Credential(true, username, salt, h(salt, password)),
                    sysopBackstop := NO_BACKSTOP, ownerBackstop := NO_BACKSTOP), true)
  }

  /** setDtmfPin. */
  function SetPin(h: Hasher, s: State, digits: string, claimed: bool, salt: string, allowed: bool, persisted: bool)
    : (State, bool)
  {
    if !PinValid(digits, claimed) || salt == "" || !allowed || !persisted then (s, false)
    else (Forgiven(s).(pin := Pin(true, salt, h(salt, digits))), true)
  }

  /** clearCredential: also the state at first boot. */
  function Cleared(): State {
    State(NO_CREDENTIAL, NO_CREDENTIAL, NO_PIN, EmptyTable(), NO_BACKSTOP, NO_BACKSTOP, NO_BACKSTOP)
  }
}

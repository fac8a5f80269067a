/** AuthState of src/Helpers/AdminAuth.cpp and the functions that run under its mutex.  Each method does to
    the object what the step of the same name in LoginSteps says. */
module AuthStore {
  import opened Lockouts
  import opened LoginSteps

  class AuthState {
    var sysop: Credential
    var owner: Credential
    var pin: Pin
    const attempts: array<Bucket>
    var shared: Backstop                         // globalFailures, globalTrips, globalLockoutUntilMs
    const principalBackstop: array<Backstop>     // 0 = sysop, 1 = owner

    ghost predicate Valid() {
      attempts.Length == MAX_ATTEMPT_BUCKETS && principalBackstop.Length == 2
    }

    ghost function Abs(): State
      requires Valid()
      reads this, attempts, principalBackstop
    {
      State(sysop, owner, pin, attempts[..], shared, principalBackstop[0], principalBackstop[1])
    }

    constructor ()
      ensures Valid() && Abs() == Cleared() && fresh(attempts) && fresh(principalBackstop)
    {
      sysop, owner, pin, shared := NO_CREDENTIAL, NO_CREDENTIAL, NO_PIN, NO_BACKSTOP;
      attempts := new Bucket[MAX_ATTEMPT_BUCKETS](i => NO_BUCKET);
      principalBackstop := new Backstop[2](i => NO_BACKSTOP);
    }

    // -------------------------------------------------------------- the bucket table

    /** findBucketLocked; attempts.Length stands for nullptr. */
    method FindBucket(key: string) returns (i: nat)
      requires Valid()
      ensures i == Find(attempts[..], key, 0)
    {
      i := 0;
      while i < attempts.Length
        invariant i <= attempts.Length
        invariant Find(attempts[..], key, 0) == Find(attempts[..], key, i)
      {
        if attempts[i].used && attempts[i].key == key { return; }
        i := i + 1;
      }
    }

    /** The slot to recycle; attempts.Length stands for nullptr. */
    method PickVictim() returns (victim: nat)
      requires Valid()
      ensures victim == Victim(attempts[..], 0, attempts.Length)
    {
      victim := attempts.Length;
      var i := 0;
      while i < attempts.Length
        invariant i <= attempts.Length && victim <= attempts.Length
        invariant Victim(attempts[..], 0, attempts.Length) == Victim(attempts[..], i, victim)
      {
        if !attempts[i].used {
          victim := i;
          return;
        }
        if attempts[i].key != "" && (victim == attempts.Length || attempts[i].lastSeenMs < attempts[victim].lastSeenMs) {
          victim := i;
        }
        i := i + 1;
      }
    }

    /** acquireBucketLocked. */
    method AcquireBucket(key: string, now: nat) returns (i: nat)
      requires Valid()
      modifies attempts
      ensures i == SlotFor(old(attempts[..]), key)
      ensures attempts[..] == Acquire(old(attempts[..]), key, now)
    {
      i := FindBucket(key);
      if i < attempts.Length {
        attempts[i] := attempts[i].(lastSeenMs := now);
      } else {
        i := PickVictim();
        if i == attempts.Length { i := 0; }
        Recycled(attempts[..], i, key);
        attempts[i] := Bucket(key, true, 0, 0, 0, now);
      }
    }

    /** recordBucketAttemptLocked. */
    method RecordBucketAttempt(i: nat, ok: bool, now: nat)
      requires Valid() && i < attempts.Length
      modifies attempts
      ensures attempts[..] == old(attempts[..])[i := Charge(old(attempts[i]), ok, now)]
    {
      var b := attempts[i];
      if ok {
        b := b.(failures := 0, trips := 0, lockoutUntilMs := 0);
      } else {
        b := b.(failures := b.failures + 1);
        if b.failures >= MAX_FAILED_ATTEMPTS {
          b := b.(trips := b.trips + 1);
          b := b.(lockoutUntilMs := now + Cooldown(b.trips), failures := 0);
        }
      }
      attempts[i] := b;
    }

    /** recordAttemptLocked. */
    method RecordAttempt(i: nat, ok: bool, now: nat)
      requires Valid() && i < attempts.Length
      modifies this`shared, attempts
      ensures attempts[..] == old(attempts[..])[i := Charge(old(attempts[i]), ok, now)]
      ensures shared == Backstopped(old(shared), ok, now)
    {
      if ok {
        shared := NO_BACKSTOP;
      } else {
        shared := shared.(failures := shared.failures + 1);
        if shared.failures >= MAX_FAILED_ATTEMPTS_GLOBAL {
          shared := shared.(trips := shared.trips + 1);
          shared := shared.(lockoutUntilMs := now + Cooldown(shared.trips), failures := 0);
        }
      }
      RecordBucketAttempt(i, ok, now);
    }

    /** A principal's own aggregate backstop. */
    method RecordPrincipal(index: nat, ok: bool, now: nat)
      requires Valid() && index < 2
      modifies principalBackstop
      ensures principalBackstop[index] == Backstopped(old(principalBackstop[index]), ok, now)
      ensures principalBackstop[1 - index] == old(principalBackstop[1 - index])
    {
      var gb := principalBackstop[index];
      if ok {
        gb := NO_BACKSTOP;
      } else {
        gb := gb.(failures := gb.failures + 1);
        if gb.failures >= MAX_FAILED_ATTEMPTS_GLOBAL {
          gb := gb.(trips := gb.trips + 1);
          gb := gb.(lockoutUntilMs := now + Cooldown(gb.trips), failures := 0);
        }
      }
      principalBackstop[index] := gb;
    }

    // -------------------------------------------------------------- authenticate

    /** authenticate up to the hash. */
    method StartAuthenticate(username: string, password: string, client: string, now: nat)
      returns (begun: Begun<LoginTicket>)
      requires Valid()
      modifies this, attempts, principalBackstop
      ensures (Abs(), begun) == BeginAuthenticate(old(Abs()), username, password, client, now)
    {
      hide Acquire, SlotFor, Charge, Backstopped, Engaged;
      var ownerAttempt := owner.provisioned && username == owner.username;
      var index := if ownerAttempt then 1 else 0;
      var i := AcquireBucket(AuthKey(client, ownerAttempt), now);
      if Engaged(attempts[i].lockoutUntilMs, now) || Engaged(principalBackstop[index].lockoutUntilMs, now) {
        return Done(Refused);
      }
      if !ownerAttempt && !sysop.provisioned {
        var ok := username == DEFAULT_USERNAME && password == DEFAULT_PASSWORD;
        RecordBucketAttempt(i, ok, now);
        RecordPrincipal(index, ok, now);
        return Done(VerdictOf(ok));
      }
      var c := if ownerAttempt then owner else sysop;
      return Hashing(LoginTicket(ownerAttempt, AuthKey(client, ownerAttempt), c.salt, c.hash, username == c.username));
    }

    /** authenticate after the hash. */
    method EndAuthenticate(t: LoginTicket, candidate: string, now: nat) returns (v: Verdict)
      requires Valid()
      modifies this, attempts, principalBackstop
      ensures (Abs(), v) == FinishAuthenticate(old(Abs()), t, candidate, now)
    {
      hide Acquire, SlotFor, Charge, Backstopped, Engaged;
      var c := if t.owner then owner else sysop;
      if !(c.provisioned && c.salt == t.salt && c.hash == t.hash) { return Refused; }
      var index := if t.owner then 1 else 0;
      var i := AcquireBucket(t.key, now);
      if Engaged(attempts[i].lockoutUntilMs, now) || Engaged(principalBackstop[index].lockoutUntilMs, now) {
        return Refused;
      }
      var ok := t.userOk && candidate == t.hash;
      RecordBucketAttempt(i, ok, now);
      RecordPrincipal(index, ok, now);
      v := VerdictOf(ok);
    }

    // -------------------------------------------------------------- verifyCredential

    method StartVerify(username: string, password: string, client: string, now: nat) returns (begun: Begun<LoginTicket>)
      requires Valid()
      modifies this, attempts
      ensures (Abs(), begun) == BeginVerify(old(Abs()), username, password, client, now)
    {
      hide Acquire, SlotFor, Charge, Backstopped, Engaged;
      var i := AcquireBucket(client, now);
      if Engaged(attempts[i].lockoutUntilMs, now) || Engaged(shared.lockoutUntilMs, now) { return Done(Refused); }
      if !sysop.provisioned {
        var ok := username == DEFAULT_USERNAME && password == DEFAULT_PASSWORD;
        RecordAttempt(i, ok, now);
        return Done(VerdictOf(ok));
      }
      return Hashing(LoginTicket(false, client, sysop.salt, sysop.hash, username == sysop.username));
    }

    method EndVerify(t: LoginTicket, candidate: string, now: nat) returns (v: Verdict)
      requires Valid()
      modifies this, attempts
      ensures (Abs(), v) == FinishVerify(old(Abs()), t, candidate, now)
    {
      hide Acquire, SlotFor, Charge, Backstopped, Engaged;
      if !(sysop.provisioned && sysop.salt == t.salt && sysop.hash == t.hash) { return Refused; }
      var i := AcquireBucket(t.key, now);
      if Engaged(attempts[i].lockoutUntilMs, now) || Engaged(shared.lockoutUntilMs, now) { return Refused; }
      var ok := t.userOk && candidate == t.hash;
      RecordAttempt(i, ok, now);
      v := VerdictOf(ok);
    }

    // -------------------------------------------------------------- the DTMF PIN

    /** beginDtmfPinVerify. */
    method BeginDtmfPinVerify(now: nat) returns (begun: Begun<PinTicket>)
      requires Valid()
      modifies this, attempts
      ensures (Abs(), begun) == BeginDtmf(old(Abs()), now)
    {
      hide Acquire, SlotFor, Charge, Backstopped, Engaged;
      if !pin.provisioned { return Done(Refused); }
      var i := AcquireBucket("", now);
      if Engaged(attempts[i].lockoutUntilMs, now) || Engaged(shared.lockoutUntilMs, now) { return Done(Refused); }
      if |pin.salt| >= TICKET_SIZE || |pin.hash| >= TICKET_SIZE { return Done(Refused); }
      return Hashing(PinTicket(pin.salt, pin.hash));
    }

    /** finishDtmfPinVerify. */
    method FinishDtmfPinVerify(t: PinTicket, matched: bool, now: nat) returns (v: Verdict)
      requires Valid()
      modifies this, attempts
      ensures (Abs(), v) == FinishDtmf(old(Abs()), t, matched, now)
    {
      hide Acquire, SlotFor, Charge, Backstopped, Engaged;
      if !pin.provisioned || pin.salt != t.salt || pin.hash != t.hash { return Refused; }
      var i := AcquireBucket("", now);
      if Engaged(attempts[i].lockoutUntilMs, now) || Engaged(shared.lockoutUntilMs, now) { return Refused; }
      RecordAttempt(i, matched, now);
      v := VerdictOf(matched);
    }

    // -------------------------------------------------------------- setters

    /** s.attempts = {} and the aggregate triplet. */
    method Forgive()
      requires Valid()
      modifies this`shared, attempts
      ensures attempts[..] == EmptyTable() && shared == NO_BACKSTOP
    {
      for i := 0 to attempts.Length
        invariant forall j :: 0 <= j < i ==> attempts[j] == NO_BUCKET
      {
        attempts[i] := NO_BUCKET;
      }
      shared := NO_BACKSTOP;
    }

    method SetLoginCredential(h: Hasher, username: string, password: string, salt: string, allowed: bool, persisted: bool)
      returns (done: bool)
      requires Valid()
      modifies this, attempts
      ensures (Abs(), done) == SetLogin(h, old(Abs()), username, password, salt, allowed, persisted)
    {
      hide EmptyTable;
      if !UsernameValid(username) || !PasswordValid(password) { return false; }
      if salt == "" { return false; }
      var hash := h(salt, password);
      if !allowed { return false; }
      if owner.provisioned && username == owner.username { return false; }
      var prev := sysop;
      sysop := Credential(true, username, salt, hash);
      if !persisted {
        sysop := prev;
        return false;
      }
      Forgive();
      return true;
    }

    method SetOwnerCredential(h: Hasher, username: string, password: string, salt: string, allowed: bool, persisted: bool)
      returns (done: bool)
      requires Valid()
      modifies this, attempts, principalBackstop
      ensures (Abs(), done) == SetOwner(h, old(Abs()), username, password, salt, allowed, persisted)
    {
      hide EmptyTable;
      if !UsernameValid(username) || !PasswordValid(password) { return false; }
      if salt == "" { return false; }
      var hash := h(salt, password);
      if !allowed { return false; }
      if username == sysop.username { return false; }
      var prev := owner;
      owner := Credential(true, username, salt, hash);
      if !persisted {
        owner := prev;
        return false;
      }
      principalBackstop[0] := NO_BACKSTOP;
      principalBackstop[1] := NO_BACKSTOP;
      Forgive();
      return true;
    }

    method SetDtmfPin(h: Hasher, digits: string, claimed: bool, salt: string, allowed: bool, persisted: bool)
      returns (done: bool)
      requires Valid()
      modifies this, attempts
      ensures (Abs(), done) == SetPin(h, old(Abs()), digits, claimed, salt, allowed, persisted)
    {
      hide EmptyTable;
      if !PinValid(digits, claimed) { return false; }
      if salt == "" { return false; }
      var hash := h(salt, digits);
      if !allowed { return false; }
      var prev := pin;
      pin := Pin(true, salt, hash);
      if !persisted {
        pin := prev;
        return false;
      }
      Forgive();
      return true;
    }

    method ClearCredential()
      requires Valid()
      modifies this, attempts, principalBackstop
      ensures Abs() == Cleared()
    {
      hide EmptyTable;
      sysop, owner, pin := NO_CREDENTIAL, NO_CREDENTIAL, NO_PIN;
      principalBackstop[0] := NO_BACKSTOP;
      principalBackstop[1] := NO_BACKSTOP;
      Forgive();
    }
  }

  /** A slot that is recycled did not hold the key. */
  lemma Recycled(t: Table, i: nat, key: string)
    requires i < |t| && Find(t, key, 0) == |t|
    ensures !Holds(t, i, key)
  {}
}

/** Password entries and the window in which one-time passwords are accepted (passdb.c). */
module PassDb {
  import opened Options
  import opened CStrings
  import opened Numerals
  import opened Totp

  datatype Kdf = KdfNone | KdfPbkdf2Sha256 | KdfScrypt

  datatype KdfParams =
    | NoParams
    | Pbkdf2Params(iterations: nat)
    | ScryptParams(n: nat, r: nat, p: nat, maxmemMib: nat)

  function DefaultParams(kdf: Kdf): KdfParams {
    match kdf
    case KdfNone => NoParams
    case KdfPbkdf2Sha256 => Pbkdf2Params(140845)
    case KdfScrypt => ScryptParams(32768, 8, 1, 33)
  }

  /** The key derivation functions of the crypto library; None on failure. */
  type Derivation = (Kdf, KdfParams, seq<nat>, string) -> Option<seq<nat>>

  /** What an entry stores about its passphrase. */
  datatype Credential = Credential(kdf: Kdf, params: KdfParams, salt: seq<nat>, hash: seq<nat>) {
    /** Without a KDF every passphrase matches, otherwise those that derive to the stored hash. */
    predicate Matches(derive: Derivation, passphrase: string) {
      kdf == KdfNone || derive(kdf, params, salt, passphrase) == Some(hash)
    }
  }

  //
  // The window
  //

  /** What is left of a passphrase when the one-time password is cut off its end. */
  function PasswordPart(passphrase: string, digits: nat): string {
    if |passphrase| >= digits then passphrase[..|passphrase| - digits] else passphrase
  }

  function CodePart(passphrase: string, digits: nat): string {
    if |passphrase| >= digits then passphrase[|passphrase| - digits..] else ""
  }

  predicate IsCodeOf(config: Config, hmac: Hmac, code: string, timecode: nat) {
    Code(config, hmac, timecode) == Some(code)
  }

  /** The time step `offset` slices away from a timestamp. */
  function ShiftedStep(config: Config, timestamp: int, offset: int): nat
    requires config.sliceTime > 0
  {
    TimecodeAt(config.sliceTime, timestamp + offset * config.sliceTime)
  }

  /** The code is right for the timestamp shifted by `offset` slices. */
  predicate RightAt(config: Config, hmac: Hmac, code: string, timestamp: int, offset: int)
    requires config.sliceTime > 0
  {
    IsCodeOf(config, hmac, code, ShiftedStep(config, timestamp, offset))
  }

  predicate Within(offset: int, window: nat) {
    -(window as int) <= offset <= window
  }

  /** The code is right for some shift of at most `window` slices either way. */
  ghost predicate RightWithin(config: Config, hmac: Hmac, code: string, timestamp: int, window: nat)
    requires config.sliceTime > 0
  {
    exists offset | Within(offset, window) :: RightAt(config, hmac, code, timestamp, offset)
  }

  /** Who is let in: with TOTP, a matching password followed by a code that is right within the window. */
  ghost predicate Accepts(credential: Credential, totp: Option<Config>, window: nat, derive: Derivation, hmac: Hmac,
                          passphrase: string, timestamp: int)
    requires totp.Some? ==> totp.value.sliceTime > 0
  {
    match totp
    case None => credential.Matches(derive, passphrase)
    case Some(config) =>
      && credential.Matches(derive, PasswordPart(passphrase, config.digits))
      && RightWithin(config, hmac, CodePart(passphrase, config.digits), timestamp, window)
  }

  /** `(int)x` for an unsigned 32-bit `x`. */
  function CastInt32(x: nat): int
    requires x < 0x1_0000_0000
  {
    if x < 0x8000_0000 then x else x - 0x1_0000_0000
  }

  /** No 32-bit product and no 64-bit timestamp in the validation of offsets up to `window` overflows. */
  predicate NoOverflow(config: Config, timestamp: int, window: nat) {
    && config.Valid() && config.sliceTime > 0
    && (window > 0 ==> window * config.sliceTime < 0x8000_0000)
    && -0x8000_0000_0000_0000 <= timestamp - window * config.sliceTime
    && timestamp + window * config.sliceTime < 0x8000_0000_0000_0000
  }

  lemma TimestampFits(config: Config, timestamp: int, window: nat)
    requires NoOverflow(config, timestamp, window)
    ensures -0x8000_0000_0000_0000 <= timestamp < 0x8000_0000_0000_0000
  {
    MulMono(0, window, config.sliceTime);
  }

  lemma OffsetFits(config: Config, timestamp: int, window: nat, offset: int)
    requires NoOverflow(config, timestamp, window) && Within(offset, window)
    ensures offset * CastInt32(config.sliceTime) == offset * config.sliceTime
    ensures -0x8000_0000 < offset * config.sliceTime < 0x8000_0000
    ensures -0x8000_0000_0000_0000 <= timestamp + offset * config.sliceTime < 0x8000_0000_0000_0000
  {
    ProductWithin(offset, window, config.sliceTime);
    if window > 0 {
      MulMono(1, window, config.sliceTime);
    }
  }

  /** The timestamp that is asked for, computed as the program does. */
  function EffectiveTimestamp(config: Config, timestamp: int, offset: int): int
    requires config.Valid()
  {
    timestamp + offset * CastInt32(config.sliceTime)
  }

  lemma EffectiveStep(config: Config, timestamp: int, window: nat, offset: int)
    requires NoOverflow(config, timestamp, window) && Within(offset, window)
    ensures TimecodeAt(config.sliceTime, EffectiveTimestamp(config, timestamp, offset))
         == ShiftedStep(config, timestamp, offset)
  {
    OffsetFits(config, timestamp, window, offset);
  }

  lemma ProductWithin(offset: int, window: nat, slice: nat)
    requires Within(offset, window)
    ensures -(window * slice) <= offset * slice <= window * slice
  {
    MulMono(if offset < 0 then -offset else offset, window, slice);
    assert -offset * slice == -(offset * slice);
  }

  /** Seconds rounded up to whole slices. */
  function CeilDiv(seconds: nat, slice: nat): nat
    requires slice > 0
  {
    (seconds + slice - 1) / slice
  }

  /** The slices a window of so many seconds takes; where their 32-bit sum wraps around, none are left. */
  function WindowOf(config: Config, seconds: nat): nat
    requires config.sliceTime > 0
  {
    if seconds + config.sliceTime <= 0x1_0000_0000 then CeilDiv(seconds, config.sliceTime) else 0
  }

  lemma WindowWraps(config: Config, seconds: nat)
    requires 0 < config.sliceTime < 0x1_0000_0000 && seconds < 0x1_0000_0000
    ensures (seconds + config.sliceTime - 1) % 0x1_0000_0000 / config.sliceTime == WindowOf(config, seconds)
  {
    var sum := seconds + config.sliceTime - 1;
    if sum < 0x1_0000_0000 {
      assert sum % 0x1_0000_0000 == sum;
    } else {
      var rest := sum - 0x1_0000_0000;
      assert sum % 0x1_0000_0000 == rest < config.sliceTime;
      MulDivMod(0, rest, config.sliceTime);
    }
  }

  //
  // The entry
  //

  /** `struct passdb_entry_t` */
  class PassdbEntry {
    var kdf: Kdf
    var params: KdfParams
    var salt: seq<nat>
    var hash: seq<nat>
    var totp: Option<Config>
    var totpWindowSize: nat

    constructor ()
      ensures kdf == KdfNone && totp == None && totpWindowSize == 0
    {
      kdf, params, salt, hash, totp, totpWindowSize := KdfNone, NoParams, [], [], None, 0;
    }

    function Stored(): Credential
      reads this
    {
      Credential(kdf, params, salt, hash)
    }

    /** `passdb_derive`: without a KDF nothing is derived, and that never fails. */
    method Derive(derive: Derivation, passphrase: string) returns (ok: bool, digest: Option<seq<nat>>)
      ensures ok <==> kdf == KdfNone || derive(kdf, params, salt, passphrase).Some?
      ensures digest == if kdf == KdfNone then None else derive(kdf, params, salt, passphrase)
    {
      if kdf == KdfNone {
        return true, None;
      }
      digest := derive(kdf, params, salt, passphrase);
      ok := digest.Some?;
    }

    /** `passdb_create_entry`: on success the passphrase meets the entry; `randomSalt` is None if randomness fails. */
    method Create(kdf: Kdf, params: Option<KdfParams>, randomSalt: Option<seq<nat>>, derive: Derivation,
                  passphrase: CString)
      returns (ok: bool)
      modifies this`kdf, this`params, this`salt, this`hash
      ensures this.kdf == kdf && this.params == if params.Some? then params.value else DefaultParams(kdf)
      ensures ok <==> && randomSalt.Some?
                      && (kdf == KdfNone || derive(kdf, this.params, randomSalt.value, passphrase).Some?)
      ensures ok ==> salt == randomSalt.value && Stored().Matches(derive, passphrase)
      ensures ok && kdf != KdfNone ==> derive(kdf, this.params, salt, passphrase) == Some(hash)
      ensures params == None && kdf == KdfPbkdf2Sha256 ==> this.params == Pbkdf2Params(140845)
      ensures params == None && kdf == KdfScrypt ==> this.params == ScryptParams(32768, 8, 1, 33)
    {
      this.kdf := kdf;
      if params.Some? {
        this.params := params.value;
      } else {
        this.params := DefaultParams(kdf);
      }
      if randomSalt == None {
        return false;
      }
      salt := randomSalt.value;
      var digest;
      ok, digest := Derive(derive, passphrase);
      if digest.Some? {
        hash := digest.value;
      }
    }

    /**
     `passdb_attach_totp`: the window in seconds becomes a number of slices. The sum is
     unsigned 32-bit; where it wraps around, the window collapses to the present slice.
     */
    method AttachTotp(config: Config, windowSizeSeconds: nat)
      requires config.Valid() && config.sliceTime > 0 && windowSizeSeconds < 0x1_0000_0000
      modifies this`totp, this`totpWindowSize
      ensures totp == Some(config)
      ensures totpWindowSize == WindowOf(config, windowSizeSeconds)
      ensures windowSizeSeconds + config.sliceTime <= 0x1_0000_0000 ==>
                windowSizeSeconds <= totpWindowSize * config.sliceTime < windowSizeSeconds + config.sliceTime
      ensures windowSizeSeconds + config.sliceTime > 0x1_0000_0000 ==> totpWindowSize == 0
    {
      WindowWraps(config, windowSizeSeconds);
      CeilCovers(windowSizeSeconds, config.sliceTime);
      totp := Some(config);
      totpWindowSize := (windowSizeSeconds + config.sliceTime - 1) % 0x1_0000_0000 / config.sliceTime;
    }

    /** `passdb_validate_totp` */
    method ValidateTotp(hmac: Hmac, totpProvided: CString, timestamp: int, offset: int, ghost window: nat)
      returns (ok: bool)
      requires HmacOk(hmac)
      requires totp.Some? ==> NoOverflow(totp.value, timestamp, window) && Within(offset, window)
      ensures ok <==> totp.Some? ==> RightAt(totp.value, hmac, totpProvided, timestamp, offset)
    {
      if totp == None {
        return true;
      }
      EffectiveStep(totp.value, timestamp, window, offset);
      var effectiveTimestamp := EffectiveTimestamp(totp.value, timestamp, offset);
      var totpExpected := new char[12];
      ok := GenerateAt(totp.value, hmac, totpExpected, effectiveTimestamp);
      if !ok {
        return;
      }
      var expected := Text(totpExpected[..]);
      ok := StrCmp(totpProvided, expected) == 0;
      StrCmpAntisymmetric(totpProvided, expected);
    }

    /**
     The search of `passdb_validate_around`: first the present slice, then ever further back
     and ahead.
     */
    method SearchWindow(hmac: Hmac, totpProvided: CString, timestamp: int) returns (ok: bool)
      requires HmacOk(hmac)
      requires totp.Some? ==> NoOverflow(totp.value, timestamp, totpWindowSize)
      ensures ok <==> totp.Some? ==> RightWithin(totp.value, hmac, totpProvided, timestamp, totpWindowSize)
    {
      var window := totpWindowSize;
      ok := ValidateTotp(hmac, totpProvided, timestamp, 0, window);
      if ok {
        assert Within(0, window);
        return;
      }
      var offset: int := 1;
      while offset <= window
        invariant 1 <= offset <= window + 1 && totp.Some?
        invariant forall o | -offset < o < offset :: !RightAt(totp.value, hmac, totpProvided, timestamp, o)
      {
        assert Within(offset, window) && Within(-offset, window);
        ok := ValidateTotp(hmac, totpProvided, timestamp, -offset, window);
        if ok {
          return;
        }
        ok := ValidateTotp(hmac, totpProvided, timestamp, offset, window);
        if ok {
          return;
        }
        offset := offset + 1;
      }
      return false;
    }

    /** `passdb_validate_around` */
    method ValidateAround(hmac: Hmac, derive: Derivation, passphrase: CString, timestamp: int) returns (ok: bool)
      requires HmacOk(hmac)
      requires totp.Some? ==> NoOverflow(totp.value, timestamp, totpWindowSize)
      ensures ok <==> Accepts(Stored(), totp, totpWindowSize, derive, hmac, passphrase, timestamp)
      // A password that derives to anything but the stored hash is refused, whatever code follows it.
      ensures totp == None ==> (ok <==> kdf == KdfNone || derive(kdf, params, salt, passphrase) == Some(hash))
      ensures totp.Some? ==>
                var n := totp.value.digits;
                var password := if |passphrase| >= n then passphrase[..|passphrase| - n] else passphrase;
                kdf != KdfNone && derive(kdf, params, salt, password) != Some(hash) ==> !ok
    {
      var passlen := |passphrase|;
      var totpProvided: CString := "";
      if totp.Some? {
        if passlen >= totp.value.digits {
          totpProvided := passphrase[passlen - totp.value.digits..];
          passlen := passlen - totp.value.digits;
        }
      }
      assert passphrase[..|passphrase|] == passphrase;
      var derived, digest := Derive(derive, passphrase[..passlen]);
      if !derived {
        return false;
      }
      var digestCorrect := kdf == KdfNone || digest == Some(hash);
      var totpCorrect := SearchWindow(hmac, totpProvided, timestamp);
      return totpCorrect && digestCorrect;
    }
  }

  /** An entry just created, without TOTP, accepts exactly the passphrases that derive like its own. */
  method CreateAndValidate(entry: PassdbEntry, kdf: Kdf, params: Option<KdfParams>, randomSalt: Option<seq<nat>>,
                           derive: Derivation, hmac: Hmac, passphrase: CString, other: CString, timestamp: int)
    returns (created: bool, ok: bool)
    requires entry.totp == None && HmacOk(hmac)
    modifies entry`kdf, entry`params, entry`salt, entry`hash
    ensures created && kdf != KdfNone ==>
              var p, salt := entry.params, entry.salt;
              ok <==> derive(kdf, p, salt, other) == derive(kdf, p, salt, passphrase)
    ensures created && kdf == KdfNone ==> ok
  {
    created := entry.Create(kdf, params, randomSalt, derive, passphrase);
    ok := entry.ValidateAround(hmac, derive, other, timestamp);
  }

  //
  // What the window means
  //

  /** Shifting a timestamp by whole slices shifts its time step, as long as it stays at or above zero. */
  lemma ShiftedTimecode(slice: nat, t: nat, offset: int)
    requires slice > 0 && t < 0x8000_0000_0000_0000 && 0 <= t / slice + offset < 0x1_0000_0000_0000_0000
    ensures TimecodeAt(slice, t + offset * slice) == t / slice + offset
  {
    var q, r := t / slice, t % slice;
    var k: nat := q + offset;
    assert t + offset * slice == k * slice + r by {
      assert t == q * slice + r;
      assert (q + offset) * slice == q * slice + offset * slice;
    }
    MulDivMod(k, r, slice);
  }

  /** Timestamps no further apart than the window lie at most the window's slices apart. */
  lemma SlicesApart(slice: nat, t0: nat, t: nat, seconds: nat)
    requires slice > 0 && Within(t - t0, seconds)
    ensures Within(t0 / slice - t / slice, CeilDiv(seconds, slice))
  {
    OneSided(slice, t0, t, seconds);
    OneSided(slice, t, t0, seconds);
  }

  lemma OneSided(slice: nat, a: nat, b: nat, seconds: nat)
    requires slice > 0 && a - b <= seconds
    ensures a / slice - b / slice <= CeilDiv(seconds, slice)
  {
    CeilCovers(seconds, slice);
    var w, qb := CeilDiv(seconds, slice), b / slice;
    NextMultiple(b, slice);
    assert (qb + 1 + w) * slice == (qb + 1) * slice + w * slice by {
      Distribute(qb + 1, w, slice);
    }
    DivBelow(a, slice, qb + 1 + w);
  }

  lemma NextMultiple(t: nat, slice: nat)
    requires slice > 0
    ensures t < (t / slice + 1) * slice
  {
    var q := t / slice;
    assert t == q * slice + t % slice;
    Distribute(q, 1, slice);
  }

  lemma Distribute(a: int, b: int, c: int)
    ensures (a + b) * c == a * c + b * c
  {
  }

  lemma CeilCovers(seconds: nat, slice: nat)
    requires slice > 0
    ensures seconds <= CeilDiv(seconds, slice) * slice < seconds + slice
  {
    DivMod(seconds + slice - 1, slice);
  }

  /**
   The promise of the window: a code minted at `t0` is accepted after the right password at
   every time `t` no more than the window's seconds away, in either direction.
   */
  lemma MintedCodeAccepted(credential: Credential, config: Config, derive: Derivation, hmac: Hmac,
                           password: string, seconds: nat, t0: nat, t: nat, code: CString)
    requires config.Valid() && config.sliceTime > 0
    requires t0 < 0x8000_0000_0000_0000 && t < 0x8000_0000_0000_0000 && t - t0 <= seconds && t0 - t <= seconds
    requires IsCodeOf(config, hmac, code, TimecodeAt(config.sliceTime, t0))
    requires credential.Matches(derive, password)
    ensures Accepts(credential, Some(config), CeilDiv(seconds, config.sliceTime), derive, hmac, password + code, t)
  {
    MintedCodeRight(config, hmac, seconds, t0, t, code);
    CodeCutOff(config, hmac, password, TimecodeAt(config.sliceTime, t0), code);
  }

  /** The same for the window that is in fact attached. */
  lemma MintedCodeOutcome(credential: Credential, config: Config, derive: Derivation, hmac: Hmac,
                          password: string, seconds: nat, t0: nat, t: nat, code: CString)
    requires config.Valid() && config.sliceTime > 0
    requires t0 < 0x8000_0000_0000_0000 && t < 0x8000_0000_0000_0000 && t - t0 <= seconds && t0 - t <= seconds
    requires IsCodeOf(config, hmac, code, TimecodeAt(config.sliceTime, t0))
    requires credential.Matches(derive, password)
    ensures Accepts(credential, Some(config), WindowOf(config, seconds), derive, hmac, password + code, t) <==>
              seconds + config.sliceTime <= 0x1_0000_0000
              || IsCodeOf(config, hmac, code, TimecodeAt(config.sliceTime, t))
  {
    if seconds + config.sliceTime <= 0x1_0000_0000 {
      MintedCodeAccepted(credential, config, derive, hmac, password, seconds, t0, t, code);
    } else {
      CodeCutOff(config, hmac, password, TimecodeAt(config.sliceTime, t0), code);
      NoWindow(config, hmac, code, t);
    }
  }

  /**
   The promise kept by the program: attach a window of `seconds`, then present password and
   code. Where the 32-bit sum wraps around, the promise is lost: only the code of the very
   time step of `t` is accepted.
   */
  method AttachAndValidate(entry: PassdbEntry, config: Config, seconds: nat, derive: Derivation, hmac: Hmac,
                           password: CString, t0: nat, t: nat, code: CString)
    returns (ok: bool)
    requires config.Valid() && config.sliceTime > 0 && seconds < 0x1_0000_0000 && HmacOk(hmac)
    requires NoOverflow(config, t, WindowOf(config, seconds)) && t0 < 0x8000_0000_0000_0000
    requires t - t0 <= seconds && t0 - t <= seconds && IsCodeOf(config, hmac, code, TimecodeAt(config.sliceTime, t0))
    requires entry.Stored().Matches(derive, password)
    modifies entry`totp, entry`totpWindowSize
    ensures seconds + config.sliceTime <= 0x1_0000_0000 ==> ok
    ensures seconds + config.sliceTime > 0x1_0000_0000 ==>
              (ok <==> IsCodeOf(config, hmac, code, TimecodeAt(config.sliceTime, t)))
  {
    TimestampFits(config, t, WindowOf(config, seconds));
    entry.AttachTotp(config, seconds);
    MintedCodeOutcome(entry.Stored(), config, derive, hmac, password, seconds, t0, t, code);
    ok := entry.ValidateAround(hmac, derive, password + code, t);
  }

  lemma CodeCutOff(config: Config, hmac: Hmac, password: string, timecode: nat, code: CString)
    requires IsCodeOf(config, hmac, code, timecode)
    ensures PasswordPart(password + code, config.digits) == password
    ensures CodePart(password + code, config.digits) == code
  {
    assert |code| == config.digits;
  }

  lemma NoWindow(config: Config, hmac: Hmac, code: string, t: nat)
    requires config.sliceTime > 0
    ensures RightWithin(config, hmac, code, t, 0) <==> IsCodeOf(config, hmac, code, TimecodeAt(config.sliceTime, t))
  {
    assert ShiftedStep(config, t, 0) == TimecodeAt(config.sliceTime, t);
    assert RightWithin(config, hmac, code, t, 0) <==> RightAt(config, hmac, code, t, 0) by {
      assert Within(0, 0);
    }
  }

  lemma MintedCodeRight(config: Config, hmac: Hmac, seconds: nat, t0: nat, t: nat, code: CString)
    requires config.sliceTime > 0
    requires t0 < 0x8000_0000_0000_0000 && t < 0x8000_0000_0000_0000 && Within(t - t0, seconds)
    requires IsCodeOf(config, hmac, code, TimecodeAt(config.sliceTime, t0))
    ensures RightWithin(config, hmac, code, t, CeilDiv(seconds, config.sliceTime))
  {
    var offset := MintedStep(config, seconds, t0, t);
    assert RightAt(config, hmac, code, t, offset);
  }

  lemma MintedStep(config: Config, seconds: nat, t0: nat, t: nat) returns (offset: int)
    requires config.sliceTime > 0
    requires t0 < 0x8000_0000_0000_0000 && t < 0x8000_0000_0000_0000 && Within(t - t0, seconds)
    ensures Within(offset, CeilDiv(seconds, config.sliceTime))
    ensures ShiftedStep(config, t, offset) == TimecodeAt(config.sliceTime, t0)
  {
    var slice := config.sliceTime;
    offset := t0 / slice - t / slice;
    SlicesApart(slice, t0, t, seconds);
    QuotientBounded(t0, slice);
    ShiftedTimecode(slice, t, offset);
    ShiftedTimecode(slice, t0, 0);
  }

  /** The time step of a timestamp after the epoch. */
  function StepOf(config: Config, t: nat): nat
    requires config.sliceTime > 0
  {
    t / config.sliceTime
  }

  /** The search comes across this time step. */
  ghost predicate Searched(config: Config, t: nat, window: nat, step: nat)
    requires config.sliceTime > 0
  {
    exists offset | Within(offset, window) :: ShiftedStep(config, t, offset) == step
  }

  predicate IsNear(config: Config, t: nat, window: nat, step: nat)
    requires config.sliceTime > 0
  {
    Within(step - StepOf(config, t), window)
  }

  /** At most one slice of the window lies before the epoch, and not all of it. */
  predicate AwayFromEpoch(config: Config, t: nat, window: nat) {
    window == 0 || t > (window - 1) * config.sliceTime
  }

  lemma AwayInSteps(config: Config, t: nat, window: nat)
    requires config.sliceTime > 0 && window > 0
    ensures AwayFromEpoch(config, t, window) <==>
            StepOf(config, t) >= window || (StepOf(config, t) == window - 1 && t % config.sliceTime > 0)
  {
    var slice, q := config.sliceTime, StepOf(config, t);
    NextMultiple(t, slice);
    assert t == q * slice + t % slice;
    if q >= window {
      MulMono(window, q, slice);
      Distribute(window, -1, slice);
    } else {
      MulMono(q + 1, window, slice);
      if q + 1 < window {
        MulMono(q + 1, window - 1, slice);
      }
    }
  }

  lemma StepShifted(config: Config, t: nat, offset: int)
    requires config.sliceTime > 0 && t < 0x8000_0000_0000_0000
    requires 0 <= StepOf(config, t) + offset < 0x1_0000_0000_0000_0000
    ensures ShiftedStep(config, t, offset) == StepOf(config, t) + offset
  {
    ShiftedTimecode(config.sliceTime, t, offset);
  }

  lemma StepBelowEpoch(config: Config, t: nat, offset: int)
    requires config.sliceTime > 0 && t < 0x8000_0000_0000_0000
    requires -0x4000_0000_0000_0000 < StepOf(config, t) + offset < 0
    ensures ShiftedStep(config, t, offset) ==
              (StepOf(config, t) + offset + if t % config.sliceTime > 0 then 1 else 0) % 0x1_0000_0000_0000_0000
  {
    TimecodeBelowEpoch(config.sliceTime, t, offset);
  }

  lemma StepBounded(config: Config, t: nat)
    requires config.sliceTime > 0
    ensures StepOf(config, t) <= t
  {
    QuotientBounded(t, config.sliceTime);
  }

  lemma NearIsSearched(config: Config, t: nat, window: nat, step: nat)
    requires config.sliceTime > 0 && t < 0x8000_0000_0000_0000 && window < 0x8000_0000
    requires IsNear(config, t, window, step)
    ensures Searched(config, t, window, step)
  {
    StepBounded(config, t);
    StepShifted(config, t, step - StepOf(config, t));
  }

  lemma SearchedIsNear(config: Config, t: nat, window: nat, offset: int)
    requires config.sliceTime > 0 && t < 0x8000_0000_0000_0000 && window < 0x8000_0000
    requires AwayFromEpoch(config, t, window) && Within(offset, window)
    ensures IsNear(config, t, window, ShiftedStep(config, t, offset))
  {
    StepBounded(config, t);
    if StepOf(config, t) + offset >= 0 {
      StepShifted(config, t, offset);
    } else {
      AwayInSteps(config, t, window);
      StepBelowEpoch(config, t, offset);
    }
  }

  /** Too close to the epoch, the earliest offset yields a step in the far future. */
  lemma EarliestIsFar(config: Config, t: nat, window: nat)
    requires config.sliceTime > 0 && t < 0x8000_0000_0000_0000 && window < 0x8000_0000
    requires !AwayFromEpoch(config, t, window)
    ensures !IsNear(config, t, window, ShiftedStep(config, t, -(window as int)))
  {
    AwayInSteps(config, t, window);
    StepBelowEpoch(config, t, -(window as int));
  }

  lemma WindowBounded(config: Config, timestamp: int, window: nat)
    requires NoOverflow(config, timestamp, window)
    ensures window < 0x8000_0000
  {
    if window > 0 {
      MulMono(1, config.sliceTime, window);
    }
  }

  /**
   The search covers exactly the time steps at most `window` away from the present one
   if, and only if, the timestamp lies behind all but the first slice of the window.
   */
  lemma WindowExactIff(config: Config, t: nat, window: nat)
    requires NoOverflow(config, t, window)
    ensures AwayFromEpoch(config, t, window) <==>
            forall step: nat :: Searched(config, t, window, step) <==> IsNear(config, t, window, step)
  {
    WindowBounded(config, t, window);
    if AwayFromEpoch(config, t, window) {
      forall step: nat ensures Searched(config, t, window, step) <==> IsNear(config, t, window, step) {
        ExactAt(config, t, window, step);
      }
    } else {
      EarliestIsFar(config, t, window);
      assert Searched(config, t, window, ShiftedStep(config, t, -(window as int)));
    }
  }

  lemma ExactAt(config: Config, t: nat, window: nat, step: nat)
    requires config.sliceTime > 0 && t < 0x8000_0000_0000_0000 && window < 0x8000_0000
    requires AwayFromEpoch(config, t, window)
    ensures Searched(config, t, window, step) <==> IsNear(config, t, window, step)
  {
    if Searched(config, t, window, step) {
      var offset :| Within(offset, window) && ShiftedStep(config, t, offset) == step;
      SearchedIsNear(config, t, window, offset);
    }
    if IsNear(config, t, window, step) {
      NearIsSearched(config, t, window, step);
    }
  }

  /** The code belongs to a time step at most `window` steps away from the timestamp's. */
  ghost predicate CodeNear(config: Config, hmac: Hmac, code: string, t: nat, window: nat)
    requires config.sliceTime > 0
  {
    exists step: nat :: IsNear(config, t, window, step) && IsCodeOf(config, hmac, code, step)
  }

  /**
   Away from the epoch, a passphrase is accepted exactly if it is a matching password
   followed by the code of a time step at most `window` away.
   */
  lemma AcceptedExactly(credential: Credential, config: Config, derive: Derivation, hmac: Hmac,
                        passphrase: string, t: nat, window: nat)
    requires NoOverflow(config, t, window) && AwayFromEpoch(config, t, window)
    ensures Accepts(credential, Some(config), window, derive, hmac, passphrase, t) <==>
            && credential.Matches(derive, PasswordPart(passphrase, config.digits))
            && CodeNear(config, hmac, CodePart(passphrase, config.digits), t, window)
  {
    WindowExactIff(config, t, window);
    RightIsNear(config, hmac, CodePart(passphrase, config.digits), t, window);
  }

  /** The same with the password check, the window and the code's time step written out. */
  lemma AcceptedSteps(credential: Credential, config: Config, derive: Derivation, hmac: Hmac,
                      passphrase: string, t: nat, window: nat)
    requires NoOverflow(config, t, window) && (window == 0 || t > (window - 1) * config.sliceTime)
    ensures var n := config.digits;
            var password := if |passphrase| >= n then passphrase[..|passphrase| - n] else passphrase;
            var code := if |passphrase| >= n then passphrase[|passphrase| - n..] else "";
            Accepts(credential, Some(config), window, derive, hmac, passphrase, t) <==>
            && (credential.kdf == KdfNone
                || derive(credential.kdf, credential.params, credential.salt, password) == Some(credential.hash))
            && CodeWithinSteps(config, hmac, code, t, window)
  {
    var n := config.digits;
    var password := if |passphrase| >= n then passphrase[..|passphrase| - n] else passphrase;
    var code := if |passphrase| >= n then passphrase[|passphrase| - n..] else "";
    assert Accepts(credential, Some(config), window, derive, hmac, passphrase, t)
      <==> credential.Matches(derive, password) && CodeNear(config, hmac, code, t, window) by {
      AcceptedExactly(credential, config, derive, hmac, passphrase, t, window);
    }
    assert CodeNear(config, hmac, code, t, window) <==> CodeWithinSteps(config, hmac, code, t, window) by {
      NearMeans(config, hmac, code, t, window);
    }
  }

  ghost predicate CodeWithinSteps(config: Config, hmac: Hmac, code: string, t: nat, window: nat)
    requires config.sliceTime > 0
  {
    exists step: nat :: -(window as int) <= step - t / config.sliceTime <= window
                        && Code(config, hmac, step) == Some(code)
  }

  lemma NearMeans(config: Config, hmac: Hmac, code: string, t: nat, window: nat)
    requires config.sliceTime > 0
    ensures CodeNear(config, hmac, code, t, window) <==> CodeWithinSteps(config, hmac, code, t, window)
  {
    if CodeNear(config, hmac, code, t, window) {
      var step: nat :| IsNear(config, t, window, step) && IsCodeOf(config, hmac, code, step);
      assert Code(config, hmac, step) == Some(code);
    }
    if CodeWithinSteps(config, hmac, code, t, window) {
      var step: nat :| -(window as int) <= step - t / config.sliceTime <= window
        && Code(config, hmac, step) == Some(code);
      assert IsNear(config, t, window, step) && IsCodeOf(config, hmac, code, step);
    }
  }

  lemma RightIsNear(config: Config, hmac: Hmac, code: string, t: nat, window: nat)
    requires config.sliceTime > 0
    requires forall step: nat :: Searched(config, t, window, step) <==> IsNear(config, t, window, step)
    ensures RightWithin(config, hmac, code, t, window) <==> CodeNear(config, hmac, code, t, window)
  {
    if RightWithin(config, hmac, code, t, window) {
      var offset :| Within(offset, window) && RightAt(config, hmac, code, t, offset);
      assert Searched(config, t, window, ShiftedStep(config, t, offset));
    }
    if step: nat :| IsNear(config, t, window, step) && IsCodeOf(config, hmac, code, step) {
      assert Searched(config, t, window, step);
      var offset :| Within(offset, window) && ShiftedStep(config, t, offset) == step;
      assert RightAt(config, hmac, code, t, offset);
    }
  }

  /** In particular with a whole window behind the timestamp. */
  lemma WholeWindowBehind(config: Config, t: nat, window: nat)
    requires config.sliceTime > 0 && t >= window * config.sliceTime
    ensures AwayFromEpoch(config, t, window)
  {
    Distribute(window, -1, config.sliceTime);
  }

  /**
   Close to the epoch the offset reaches negative timestamps. Division truncates toward
   zero, so a step that starts within the first negative slice counts as step 0 once more,
   and earlier ones become huge unsigned numbers.
   */
  lemma TimecodeBelowEpoch(slice: nat, t: nat, offset: int)
    requires slice > 0 && t < 0x8000_0000_0000_0000
    requires -0x4000_0000_0000_0000 < t / slice + offset < 0
    ensures TimecodeAt(slice, t + offset * slice) ==
              (t / slice + offset + if t % slice > 0 then 1 else 0) % 0x1_0000_0000_0000_0000
  {
    var q, r := t / slice, t % slice;
    var k: nat := -(q + offset);
    assert t + offset * slice == r - k * slice by {
      assert t == q * slice + r;
      Distribute(q, offset, slice);
      assert (q + offset) * slice == -(k * slice);
    }
    TruncatedQuotient(k, r, slice);
  }

  lemma TruncatedQuotient(k: nat, r: nat, slice: nat)
    requires k > 0 && r < slice
    ensures CDiv(r - k * slice, slice) == (if r > 0 then 1 else 0) - k
  {
    MulMono(1, k, slice);
    if r == 0 {
      MulDivMod(k, 0, slice);
    } else {
      assert k * slice - r == (k - 1) * slice + (slice - r);
      MulDivMod(k - 1, slice - r, slice);
    }
  }
}

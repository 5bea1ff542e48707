/** The PIN lock of Services/SecurityService.cs: one secure-storage slot
    that may hold the Base64 text of the PIN's SHA-256 digest, and the
    session's authenticated flag. */
module Security {
  import opened Wrappers
  import opened Text

  newtype byte = x: int | 0 <= x < 256

  /** A SHA-256 digest: 32 bytes.  The hash itself is a parameter of the
      model; only its output length is used. */
  type Digest = d: seq<byte> | |d| == 32 witness seq(32, i => 0 as byte)

  // ---------------------------------------------------------------------
  // ComputeHash

  /** Encoding.UTF8.GetBytes on one code point. */
  function Utf8Char(c: char): (r: seq<byte>)
    ensures 1 <= |r| <= 4
  {
    var n := c as int;
    if n < 0x80 then [n as byte]
    else if n < 0x800 then [(0xC0 + n / 0x40) as byte, (0x80 + n % 0x40) as byte]
    else if n < 0x1_0000 then
      [(0xE0 + n / 0x1000) as byte, (0x80 + n / 0x40 % 0x40) as byte, (0x80 + n % 0x40) as byte]
    else
      [(0xF0 + n / 0x4_0000) as byte, (0x80 + n / 0x1000 % 0x40) as byte,
       (0x80 + n / 0x40 % 0x40) as byte, (0x80 + n % 0x40) as byte]
  }

  /** Encoding.UTF8.GetBytes on a string. */
  function Utf8Encode(s: string): (r: seq<byte>)
    ensures |s| <= |r| <= 4 * |s|
  {
    if s == [] then [] else Utf8Char(s[0]) + Utf8Encode(s[1..])
  }

  const Base64Alphabet: string := "ABCDEFGHIJKLMNOPQRSTUVWXYZabcdefghijklmnopqrstuvwxyz0123456789+/"

  function Base64Char(v: int): char
    requires 0 <= v < 64
  {
    Base64Alphabet[v]
  }

  /** The four characters of a three-byte group: its 24 bits, six at a
      time. */
  function Base64Group(b0: byte, b1: byte, b2: byte): (r: string)
    ensures |r| == 4
  {
    var x0, x1, x2 := b0 as int, b1 as int, b2 as int;
    assert x0 % 4 * 16 + x1 / 16 < 64 by { assert x0 % 4 <= 3 && x1 / 16 <= 15; }
    assert x1 % 16 * 4 + x2 / 64 < 64 by { assert x1 % 16 <= 15 && x2 / 64 <= 3; }
    [Base64Char(x0 / 4), Base64Char(x0 % 4 * 16 + x1 / 16), Base64Char(x1 % 16 * 4 + x2 / 64), Base64Char(x2 % 64)]
  }

  /** Convert.ToBase64String: each group of three bytes becomes four
      characters; a final group of one or two bytes is filled up with zero
      bits, and '=' stands for each missing byte. */
  function Base64Encode(b: seq<byte>): (r: string)
    ensures |r| == Base64Length(|b|)
    decreases |b|
  {
    if |b| == 0 then []
    else if |b| == 1 then Base64Group(b[0], 0, 0)[..2] + "=="
    else if |b| == 2 then Base64Group(b[0], b[1], 0)[..3] + "="
    else Base64Group(b[0], b[1], b[2]) + Base64Encode(b[3..])
  }

  /** Four characters per started group of three bytes. */
  function Base64Length(n: nat): nat {
    if n == 0 then 0 else if n <= 3 then 4 else 4 + Base64Length(n - 3)
  }

  lemma {:induction false} Base64LengthFormula(n: nat)
    ensures Base64Length(n) == 4 * ((n + 2) / 3)
  {
    if n > 3 {
      Base64LengthFormula(n - 3);
      assert (n + 2) / 3 == (n - 1) / 3 + 1;
    }
  }

  /** `ComputeHash`: the Base64 text of the SHA-256 digest of the PIN's
      UTF-8 bytes.  A null PIN throws in GetBytes.  The text is 44
      characters, so never empty. */
  function ComputeHash(sha256: seq<byte> -> Digest, pin: NullableString): (r: Result<string>)
    ensures pin.Null? <==> r == Failure(ArgumentNullException)
    ensures r.Success? ==> |r.value| == 44
  {
    if pin.Null? then Failure(ArgumentNullException)
    else
      assert Base64Length(32) == 44 by { Base64LengthFormula(32); }
      Success(Base64Encode(sha256(Utf8Encode(pin.value))))
  }

  // ---------------------------------------------------------------------
  // The state and its transitions

  /** The storage slot "journal_pin_hash" (None once removed) and the flag. */
  datatype SecurityState = SecurityState(slot: Option<string>, authenticated: bool)

  /** `IsPinSetAsync`. */
  predicate PinIsSet(s: SecurityState) {
    s.slot.Some? && s.slot.value != []
  }

  /** `SetPinAsync`: a null or empty PIN removes the hash and locks; any
      other PIN stores its hash and unlocks. */
  function SetPinStep(sha256: seq<byte> -> Digest, s: SecurityState, pin: NullableString): (r: SecurityState)
    ensures IsNullOrEmpty(pin) ==> r == SecurityState(None, false)
    ensures !IsNullOrEmpty(pin) ==> r == SecurityState(Some(ComputeHash(sha256, pin).value), true)
  {
    if IsNullOrEmpty(pin) then SecurityState(None, false)
    else SecurityState(Some(ComputeHash(sha256, pin).value), true)
  }

  /** What `VerifyPinAsync` answers and the state it leaves. */
  datatype Verified = Verified(answer: Result<bool>, next: SecurityState)

  /** `VerifyPinAsync`: with no hash stored every PIN passes and the flag
      stays; otherwise a matching hash unlocks. */
  function VerifyPinStep(sha256: seq<byte> -> Digest, s: SecurityState, pin: NullableString): (r: Verified)
    ensures !PinIsSet(s) ==> r == Verified(Success(true), s)
  {
    if !PinIsSet(s) then Verified(Success(true), s)
    else
      match ComputeHash(sha256, pin)
      case Failure(e) => Verified(Failure(e), s)
      case Success(h) =>
        if s.slot.value == h then Verified(Success(true), s.(authenticated := true))
        else Verified(Success(false), s)
  }

  /** `Lock`. */
  function LockStep(s: SecurityState): (r: SecurityState)
    ensures r.slot == s.slot && !r.authenticated
  {
    s.(authenticated := false)
  }

  // ---------------------------------------------------------------------
  // Properties

  /** After SetPin the slot holds a hash exactly when the PIN was not empty. */
  lemma SetPinSetsPin(sha256: seq<byte> -> Digest, s: SecurityState, pin: NullableString)
    ensures PinIsSet(SetPinStep(sha256, s, pin)) <==> !IsNullOrEmpty(pin)
    ensures SetPinStep(sha256, s, pin).authenticated <==> !IsNullOrEmpty(pin)
  {
  }

  /** With a hash stored, the answer is true, and the flag rises, exactly
      when the PIN's hash equals it; otherwise nothing changes.  A null PIN
      throws. */
  lemma VerifyWithPinSet(sha256: seq<byte> -> Digest, s: SecurityState, pin: NullableString)
    requires PinIsSet(s)
    ensures var r := VerifyPinStep(sha256, s, pin);
            && (pin.Null? ==> r == Verified(Failure(ArgumentNullException), s))
            && (pin.Str? ==> r.answer.Success?)
            && (r.answer == Success(true) <==> ComputeHash(sha256, pin) == Success(s.slot.value))
            && (r.answer == Success(true) ==> r.next == s.(authenticated := true))
            && (r.answer != Success(true) ==> r.next == s)
  {
  }

  /** The PIN just set verifies: the hash is a function of the PIN. */
  lemma SetThenVerify(sha256: seq<byte> -> Digest, s: SecurityState, pin: NullableString)
    requires !IsNullOrEmpty(pin)
    ensures VerifyPinStep(sha256, SetPinStep(sha256, s, pin), pin) ==
            Verified(Success(true), SetPinStep(sha256, s, pin))
  {
    var h := ComputeHash(sha256, pin).value;
    assert h != [];
  }

  /** Locking and verifying again round trips through the stored hash. */
  lemma LockThenVerify(sha256: seq<byte> -> Digest, s: SecurityState, pin: NullableString)
    requires PinIsSet(s) && ComputeHash(sha256, pin) == Success(s.slot.value)
    ensures VerifyPinStep(sha256, LockStep(s), pin) == Verified(Success(true), s.(authenticated := true))
  {
  }

  /** One call on the service. */
  datatype Call = SetPin(pin: NullableString) | VerifyPin(pin: NullableString) | Lock | IsPinSet

  function Apply(sha256: seq<byte> -> Digest, s: SecurityState, c: Call): SecurityState {
    match c
    case SetPin(pin) => SetPinStep(sha256, s, pin)
    case VerifyPin(pin) => VerifyPinStep(sha256, s, pin).next
    case Lock => LockStep(s)
    case IsPinSet => s
  }

  /** The calls that can unlock: a non-empty SetPin, or a VerifyPin whose
      hash matches a stored one. */
  predicate Unlocks(sha256: seq<byte> -> Digest, s: SecurityState, c: Call) {
    || (c.SetPin? && !IsNullOrEmpty(c.pin))
    || (c.VerifyPin? && PinIsSet(s) && ComputeHash(sha256, c.pin) == Success(s.slot.value))
  }

  function Run(sha256: seq<byte> -> Digest, s: SecurityState, calls: seq<Call>): SecurityState
    decreases |calls|
  {
    if calls == [] then s else Run(sha256, Apply(sha256, s, calls[0]), calls[1..])
  }

  /** Only an unlocking call takes a locked service to unlocked. */
  lemma FlagRisesOnlyByUnlock(sha256: seq<byte> -> Digest, s: SecurityState, c: Call)
    requires !s.authenticated && Apply(sha256, s, c).authenticated
    ensures Unlocks(sha256, s, c)
  {
  }

  /** Over any run that ends unlocked from a locked start, some call
      unlocked it. */
  lemma {:induction false} RunUnlockedOnlyByUnlock(sha256: seq<byte> -> Digest, s: SecurityState, calls: seq<Call>)
    requires !s.authenticated && Run(sha256, s, calls).authenticated
    ensures exists i | 0 <= i < |calls| :: Unlocks(sha256, Run(sha256, s, calls[..i]), calls[i])
    decreases |calls|
  {
    assert calls != [];
    var t := Apply(sha256, s, calls[0]);
    assert calls[..0] == [];
    if t.authenticated {
      FlagRisesOnlyByUnlock(sha256, s, calls[0]);
      assert Unlocks(sha256, Run(sha256, s, calls[..0]), calls[0]);
    } else {
      RunUnlockedOnlyByUnlock(sha256, t, calls[1..]);
      var i :| 0 <= i < |calls[1..]| && Unlocks(sha256, Run(sha256, t, calls[1..][..i]), calls[1..][i]);
      RunPrefix(sha256, s, calls, i + 1);
      assert calls[1..][..i] == calls[..i + 1][1..];
    }
  }

  lemma RunPrefix(sha256: seq<byte> -> Digest, s: SecurityState, calls: seq<Call>, n: nat)
    requires 0 < n <= |calls|
    ensures Run(sha256, s, calls[..n]) == Run(sha256, Apply(sha256, s, calls[0]), calls[..n][1..])
  {
  }

  // ---------------------------------------------------------------------
  // The service

  class SecurityService {
    /** SecureStorage's value under "journal_pin_hash". */
    var slot: Option<string>
    var isAuthenticated: bool
    const sha256: seq<byte> -> Digest

    function State(): SecurityState
      reads this
    {
      SecurityState(slot, isAuthenticated)
    }

    /** A new service over whatever the secure storage holds starts locked. */
    constructor(stored: Option<string>, sha256: seq<byte> -> Digest)
      ensures State() == SecurityState(stored, false) && this.sha256 == sha256
    {
      slot := stored;
      isAuthenticated := false;
      this.sha256 := sha256;
    }

    /** The `IsAuthenticated` property. */
    function IsAuthenticated(): (r: bool)
      reads this
      ensures r == State().authenticated
    {
      isAuthenticated
    }

    method IsPinSet() returns (r: bool)
      ensures r == PinIsSet(State())
    {
      r := slot.Some? && slot.value != [];
    }

    method SetPin(pin: NullableString)
      modifies this
      ensures State() == SetPinStep(sha256, old(State()), pin)
    {
      if pin.Null? || pin.value == [] {
        slot := None;
        isAuthenticated := false;
        return;
      }
      var hash := ComputeHash(sha256, pin).value;
      slot := Some(hash);
      isAuthenticated := true;
    }

    method VerifyPin(pin: NullableString) returns (r: Result<bool>)
      modifies this
      ensures Verified(r, State()) == VerifyPinStep(sha256, old(State()), pin)
    {
      if slot.None? || slot.value == [] {
        return Success(true);
      }
      var inputHash := ComputeHash(sha256, pin);
      if inputHash.Failure? {
        return Failure(inputHash.error);
      }
      if slot.value == inputHash.value {
        isAuthenticated := true;
        return Success(true);
      }
      return Success(false);
    }

    method Lock()
      modifies this
      ensures State() == LockStep(old(State()))
    {
      isAuthenticated := false;
    }
  }
}

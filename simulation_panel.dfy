/**
 * The submit handler of the simulation panel. It validates the typed input, then runs
 * the selected demo. Most demos hand the validated text to code outside this model;
 * what is modelled in full is:
 *
 * - the validation gate that runs before every demo;
 * - the two-step Password Storage flow, which hashes a first entry under a fresh salt
 *   and checks a second entry against that hash;
 * - the key gate of the AES demo;
 * - the Data Anonymization demo.
 *
 * The panel's state is the component's state fields. The salt's random nibbles
 * (`Math.floor(Math.random() * 16)`, one per salt character) and the SHA-256 digest
 * are inputs of the model.
 */
module SimulationPanel {

  import opened Wrappers
  import opened InputValidation
  import opened HexEncoding
  import opened Anonymization
  import opened PasswordHashing

  /** The names the panel's `switch` has a case for. */
  const ListedNames: set<string> := {
    "Caesar Cipher", "Vigen\U{E8}re Cipher", "Entropy Calculation", "Break Caesar Cipher",
    "Entropy Comparison", "Information Leakage", "Password Storage", "Data Anonymization",
    "Differential Privacy", "TLS Handshake", "Vulnerability Examples", "AES Encryption" }

  /** A demo name the `switch` has no case for. */
  type UnlistedName = name: string | name !in ListedNames witness ""

  /** The demos of the sidebar, by the names the panel switches on; any other name selects nothing. */
  datatype Demo =
    | CaesarCipher | VigenereCipher | EntropyCalculation | BreakCaesarCipher
    | EntropyComparison | InformationLeakage | PasswordStorage | DataAnonymization
    | DifferentialPrivacy | TlsHandshake | VulnerabilityExamples | AesEncryption
    | Unlisted(name: UnlistedName)

  /** What the results card shows. */
  datatype Output =
    | NoOutput                                                       // null: no card
    | Notice(text: string)                                           // a message string
    | SaltedHash(salt: string, hashedPassword: string, message: string)
    | Verdict(message: string)                                       // `{ message }`
    | AnonymizedData(data: Anonymized)
    | DemoRun(demo: Demo, validatedInput: string)                    // a result computed outside the model

  /** The component state the handler reads and writes. */
  datatype PanelState = PanelState(
    input: string,
    key: string,
    output: Output,
    firstHash: Option<string>,
    salt: Option<string>)

  const InvalidInput: string := "Invalid input: Max 20 characters, only letters, numbers, and spaces allowed."
  const InvalidPassword: string := "Invalid password: Max 20 characters, only letters, numbers, and spaces allowed."
  const EnterAgain: string := "Please enter the password again to verify."
  const Verified: string := "Password verified successfully!"
  const VerificationFailed: string := "Password verification failed."
  const MissingKey: string := "Please provide an encryption key."
  const BadKeyLength: string := "AES key must be 16, 24, or 32 characters long."

  /** The address `test@example.com` and the number the anonymization demo uses with the typed name. */
  const SampleLocal: string := "test"
  const SampleDomain: string := "example.com"
  const SampleEmail: string := SampleLocal + "@" + SampleDomain
  const SamplePhone: string := "1234567890"

  /** The component's state on first render. */
  const Initial: PanelState := PanelState("", "", NoOutput, None, None)

  /** JavaScript truthiness of a `string | null`: neither `null` nor the empty string. */
  predicate Truthy(s: Option<string>) {
    s.Some? && s.value != ""
  }

  /** `salt!` as text: a `null` salt would be written `null` in `salt + password`. */
  function SaltText(salt: Option<string>): string {
    if salt.Some? then salt.value else "null"
  }

  /** One random nibble per salt character, each `Math.floor(Math.random() * 16)`. */
  predicate ValidNibbles(nibbles: seq<nat>) {
    |nibbles| == 16 && forall i :: 0 <= i < |nibbles| ==> nibbles[i] < 16
  }

  /** The salt's characters: every nibble written with `toString(16)`, joined. */
  function SaltFromNibbles(nibbles: seq<nat>): (r: string)
    ensures forall i :: 0 <= i < |r| ==> IsLowerHexDigit(r[i])
  {
    if nibbles == [] then "" else SaltFromNibbles(nibbles[..|nibbles| - 1]) + ToHexString(nibbles[|nibbles| - 1])
  }

  /** A salt is 16 lower-case hexadecimal digits. */
  predicate IsSalt(s: string) {
    |s| == 16 && forall i :: 0 <= i < |s| ==> IsLowerHexDigit(s[i])
  }

  /** Every nibble below 16 is written as one digit, so the salt has one digit per nibble. */
  lemma {:induction false} SaltShape(nibbles: seq<nat>)
    requires forall i :: 0 <= i < |nibbles| ==> nibbles[i] < 16
    ensures |SaltFromNibbles(nibbles)| == |nibbles|
    ensures forall i :: 0 <= i < |nibbles| ==> SaltFromNibbles(nibbles)[i] == HexDigit(nibbles[i])
  {
    if nibbles != [] {
      var init := nibbles[..|nibbles| - 1];
      SaltShape(init);
      forall i | 0 <= i < |init| ensures SaltFromNibbles(nibbles)[i] == HexDigit(nibbles[i]) {
        assert nibbles[i] == init[i];
      }
    }
  }

  /** The salt of the Password Storage demo has the shape of a 64-bit value in hexadecimal. */
  lemma NewSaltIsSalt(nibbles: seq<nat>)
    requires ValidNibbles(nibbles)
    ensures IsSalt(SaltFromNibbles(nibbles))
  {
    SaltShape(nibbles);
  }

  /** Whether a key length is one the AES demo accepts. */
  predicate IsAesKeyLength(n: nat) {
    n == 16 || n == 24 || n == 32
  }

  /** The Password Storage branch: state `p` already has its output cleared. */
  function PasswordStep(p: PanelState, sha256: string -> string, nibbles: seq<nat>): PanelState
  {
    var validatedPassword := SecureInput(p.input);
    if !Truthy(validatedPassword) then
      p.(output := Notice(InvalidPassword))
    else if !Truthy(p.firstHash) then
      var newSalt := SaltFromNibbles(nibbles);
      var hashed := HashPassword(sha256, validatedPassword.value, newSalt);
      p.(salt := Some(newSalt), firstHash := Some(hashed),
         output := SaltedHash(newSalt, hashed, EnterAgain), input := "")
    else
      var validatedSecondPassword := SecureInput(p.input);
      if !Truthy(validatedSecondPassword) then
        p.(output := Notice(InvalidPassword))
      else
        var hashedSecond := HashPassword(sha256, validatedSecondPassword.value, SaltText(p.salt));
        p.(output := Verdict(if hashedSecond == p.firstHash.value then Verified else VerificationFailed),
           firstHash := None, salt := None, input := "")
  }

  /** The AES branch up to the encryption call: the key must be present and 16, 24 or 32 characters long. */
  function AesStep(p: PanelState, validatedInput: string): PanelState
  {
    if p.key == "" then p.(output := Notice(MissingKey))
    else if !IsAesKeyLength(|p.key|) then p.(output := Notice(BadKeyLength))
    else p.(output := DemoRun(AesEncryption, validatedInput))
  }

  /** The state after one click of the submit button, as a specification. */
  function Submit(p: PanelState, demo: Demo, sha256: string -> string, nibbles: seq<nat>): PanelState
  {
    var cleared := p.(output := NoOutput);
    var validatedInput := SecureInput(p.input);
    if !Truthy(validatedInput) && demo != PasswordStorage then
      cleared.(output := Notice(InvalidInput))
    else
      match demo
      case PasswordStorage => PasswordStep(cleared, sha256, nibbles)
      case AesEncryption => AesStep(cleared, validatedInput.value)
      case DataAnonymization => cleared.(output := AnonymizedData(AnonymizeData(validatedInput.value, SampleEmail, SamplePhone)))
      case Unlisted(_) => cleared
      case _ => cleared.(output := DemoRun(demo, validatedInput.value))
  }

  /** The panel: the state fields of the component, and the digest it hashes with. */
  class Panel {
    var input: string
    var key: string
    var output: Output
    var firstHash: Option<string>
    var salt: Option<string>
    const sha256: string -> string

    function State(): PanelState
      reads this
    {
      PanelState(input, key, output, firstHash, salt)
    }

    /** First render: empty fields, no output, no stored hash or salt. */
    constructor(sha256: string -> string)
      ensures State() == Initial
      ensures this.sha256 == sha256
    {
      input := "";
      key := "";
      output := NoOutput;
      firstHash := None;
      salt := None;
      this.sha256 := sha256;
    }

    /** The input field's change handler. */
    method SetInput(text: string)
      modifies this
      ensures State() == old(State()).(input := text)
    {
      input := text;
    }

    /** The key field's change handler. */
    method SetKey(text: string)
      modifies this
      ensures State() == old(State()).(key := text)
    {
      key := text;
    }

    /**
     * The submit handler: clears the output, applies the validation gate, then runs the
     * selected demo, returning early on every error.
     */
    method HandleSubmit(selectedDemo: Demo, nibbles: seq<nat>)
      requires ValidNibbles(nibbles)
      modifies this
      ensures State() == Submit(old(State()), selectedDemo, sha256, nibbles)
    {
      output := NoOutput;
      var validatedInput := SecureInput(input);
      if !Truthy(validatedInput) && selectedDemo != PasswordStorage {
        output := Notice(InvalidInput);
        return;
      }
      match selectedDemo {
        case PasswordStorage =>
          SubmitPassword(nibbles);
        case AesEncryption =>
          if key == "" {
            output := Notice(MissingKey);
            return;
          }
          if !IsAesKeyLength(|key|) {
            output := Notice(BadKeyLength);
            return;
          }
          output := DemoRun(AesEncryption, validatedInput.value);
        case DataAnonymization =>
          output := AnonymizedData(AnonymizeData(validatedInput.value, SampleEmail, SamplePhone));
        case Unlisted(_) =>
        case _ =>
          output := DemoRun(selectedDemo, validatedInput.value);
      }
    }

    /**
     * The Password Storage branch, entered with the output cleared: a first valid entry
     * stores a fresh salt and the salted hash and clears the input; a second one is
     * compared with the stored hash, after which hash, salt and input are cleared.
     */
    method SubmitPassword(nibbles: seq<nat>)
      requires ValidNibbles(nibbles)
      modifies this
      ensures State() == PasswordStep(old(State()), sha256, nibbles)
    {
      var validatedPassword := SecureInput(input);
      if !Truthy(validatedPassword) {
        output := Notice(InvalidPassword);
        return;
      }
      if !Truthy(firstHash) {
        var newSalt := SaltFromNibbles(nibbles);
        var hashed := HashPassword(sha256, validatedPassword.value, newSalt);
        salt := Some(newSalt);
        firstHash := Some(hashed);
        output := SaltedHash(newSalt, hashed, EnterAgain);
        input := "";
      } else {
        // The input is unchanged since the first check, so the repeated check passes.
        var validatedSecondPassword := SecureInput(input);
        if !Truthy(validatedSecondPassword) {
          assert false;
        }
        var hashedSecond := HashPassword(sha256, validatedSecondPassword.value, SaltText(salt));
        if hashedSecond == firstHash.value {
          output := Verdict(Verified);
        } else {
          output := Verdict(VerificationFailed);
        }
        firstHash := None;
        salt := None;
        input := "";
      }
    }
  }

  /**
   * Outside Password Storage, the invalid-input message appears exactly when the
   * validator returns `null` or the empty string, and then nothing else changes.
   */
  lemma ValidationGate(p: PanelState, demo: Demo, sha256: string -> string, nibbles: seq<nat>)
    requires demo != PasswordStorage
    ensures Submit(p, demo, sha256, nibbles).output == Notice(InvalidInput) <==> !Truthy(SecureInput(p.input))
    ensures !Truthy(SecureInput(p.input)) ==> Submit(p, demo, sha256, nibbles) == p.(output := Notice(InvalidInput))
  {
  }

  /**
   * The empty input passes the validator but not the gate: the handler treats the empty
   * string as missing, so every demo but Password Storage refuses it, including the
   * demos that take no input.
   */
  lemma EmptyInputRejected(p: PanelState, demo: Demo, sha256: string -> string, nibbles: seq<nat>)
    requires p.input == ""
    requires demo != PasswordStorage
    ensures SecureInput(p.input) == Some("")
    ensures Submit(p, demo, sha256, nibbles).output == Notice(InvalidInput)
  {
  }

  /** An invalid or empty password shows the error and leaves the stored hash, the salt and the input alone. */
  lemma InvalidPasswordKeepsState(p: PanelState, sha256: string -> string, nibbles: seq<nat>)
    requires !Truthy(SecureInput(p.input))
    ensures Submit(p, PasswordStorage, sha256, nibbles) == p.(output := Notice(InvalidPassword))
  {
  }

  /**
   * With no stored hash, a valid password stores a fresh 16-digit salt and the digest of
   * that salt followed by the password, shows both, and clears the input.
   */
  lemma FirstEntryStoresHash(p: PanelState, sha256: string -> string, nibbles: seq<nat>)
    requires ValidNibbles(nibbles)
    requires Truthy(SecureInput(p.input))
    requires !Truthy(p.firstHash)
    ensures var r := Submit(p, PasswordStorage, sha256, nibbles);
      && r.salt.Some? && IsSalt(r.salt.value)
      && r.firstHash == Some(sha256(r.salt.value + p.input))
      && r.output == SaltedHash(r.salt.value, r.firstHash.value, EnterAgain)
      && r.input == ""
      && r.key == p.key
  {
    NewSaltIsSalt(nibbles);
  }

  /**
   * With a stored hash, a valid password is verified exactly when its digest under the
   * stored salt equals the stored hash; either way the hash and the salt are dropped and
   * the input is cleared.
   */
  lemma SecondEntryVerifies(p: PanelState, sha256: string -> string, nibbles: seq<nat>)
    requires Truthy(SecureInput(p.input))
    requires Truthy(p.firstHash)
    ensures var r := Submit(p, PasswordStorage, sha256, nibbles);
      && (r.output == Verdict(Verified) <==> HashPassword(sha256, p.input, SaltText(p.salt)) == p.firstHash.value)
      && (r.output != Verdict(Verified) ==> r.output == Verdict(VerificationFailed))
      && r.firstHash == None && r.salt == None && r.input == ""
  {
  }

  /**
   * Two entries from the initial state: the second is verified when it repeats the first,
   * and, with a collision-free digest, only then. The flow ends where it started.
   */
  lemma TwoEntries(p: PanelState, sha256: string -> string, n1: seq<nat>, n2: seq<nat>, second: string)
    requires ValidNibbles(n1)
    requires p.firstHash == None && p.salt == None
    requires Truthy(SecureInput(p.input)) && Truthy(SecureInput(second))
    requires forall x :: sha256(x) != ""
    ensures var r := Submit(Submit(p, PasswordStorage, sha256, n1).(input := second), PasswordStorage, sha256, n2);
      && (second == p.input ==> r.output == Verdict(Verified))
      && (CollisionFree(sha256) ==> (r.output == Verdict(Verified) <==> second == p.input))
      && r.firstHash == None && r.salt == None
  {
    var q := Submit(p, PasswordStorage, sha256, n1);
    var salt := SaltFromNibbles(n1);
    assert q.salt == Some(salt) && q.firstHash == Some(HashPassword(sha256, p.input, salt));
    HashPasswordMatches(sha256, salt, second, p.input);
  }

  /**
   * The AES demo (given valid input) encrypts only with a key of 16, 24 or 32
   * characters; an empty key and any other length each get their message.
   */
  lemma AesKeyGate(p: PanelState, sha256: string -> string, nibbles: seq<nat>)
    requires Truthy(SecureInput(p.input))
    ensures var r := Submit(p, AesEncryption, sha256, nibbles);
      && (r.output == DemoRun(AesEncryption, p.input) <==> IsAesKeyLength(|p.key|))
      && (p.key == "" ==> r.output == Notice(MissingKey))
      && (p.key != "" && !IsAesKeyLength(|p.key|) ==> r.output == Notice(BadKeyLength))
      && r == p.(output := r.output)
  {
  }

  /** A stored hash always comes with a well-formed salt, and the two are set and cleared together. */
  ghost predicate Consistent(p: PanelState) {
    && (p.firstHash.Some? <==> p.salt.Some?)
    && (p.salt.Some? ==> IsSalt(p.salt.value))
  }

  /** Every submit keeps the stored hash and the salt consistent. */
  lemma SubmitKeepsConsistent(p: PanelState, demo: Demo, sha256: string -> string, nibbles: seq<nat>)
    requires ValidNibbles(nibbles)
    requires Consistent(p)
    ensures Consistent(Submit(p, demo, sha256, nibbles))
  {
    NewSaltIsSalt(nibbles);
  }

  /** Only Password Storage touches the stored hash, the salt and the input; every other demo changes only the output. */
  lemma OtherDemosKeepPasswordState(p: PanelState, demo: Demo, sha256: string -> string, nibbles: seq<nat>)
    requires demo != PasswordStorage
    ensures Submit(p, demo, sha256, nibbles) == p.(output := Submit(p, demo, sha256, nibbles).output)
  {
  }

  /** The anonymization demo masks the typed name, with the fixed address and number. */
  lemma AnonymizationDemo(p: PanelState, sha256: string -> string, nibbles: seq<nat>)
    requires Truthy(SecureInput(p.input))
    ensures Submit(p, DataAnonymization, sha256, nibbles).output
      == AnonymizedData(Anonymized("***" + p.input[|p.input| - Min(3, |p.input|)..], "t***@example.com", "XXX-XXX-7890"))
  {
    SampleAnonymized(p.input);
  }

  /** With the fixed address and number, only the name varies. */
  lemma SampleAnonymized(name: string)
    ensures AnonymizeData(name, SampleEmail, SamplePhone)
      == Anonymized("***" + name[|name| - Min(3, |name|)..], "t***@example.com", "XXX-XXX-7890")
  {
    assert '@' !in SampleLocal && '@' !in SampleDomain;
    assert SampleEmail == SampleLocal + "@" + SampleDomain + "";
    DomainOfAddress(SampleLocal, SampleDomain, "");
    assert SamplePhone[6..] == "7890";
  }

}

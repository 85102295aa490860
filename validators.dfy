/** The pure security utilities of the portal: the password-complexity rule
    used at registration, the maintenance-window rule used at login, and the
    salted password hash, whose digest algorithm is left abstract. */
module Validators {

  import opened Wrappers

  /** The three one-character regular-expression classes the complexity rule searches for. */
  datatype CharClass = Upper | Digit | Symbol

  /** The symbols accepted by the class `[!@#$%^&*]`. */
  const Symbols: string := "!@#$%^&*"

  const MinPasswordLength: nat := 8

  predicate InClass(c: char, k: CharClass) {
    match k
    case Upper => 'A' <= c <= 'Z'
    case Digit => '0' <= c <= '9'
    case Symbol => c in Symbols
  }

  /** `re.search` with a single character class: some character of `s` is in `k`. */
  function Search(s: string, k: CharClass): (found: bool)
    ensures found <==> exists i :: 0 <= i < |s| && InClass(s[i], k)
  {
    if s == [] then false
    else if InClass(s[0], k) then true
    else
      var rest := Search(s[1..], k);
      assert forall i :: 1 <= i < |s| ==> s[i] == s[1..][i - 1];
      rest
  }

  /** `is_password_complex`: at least eight characters, an upper-case letter
      A-Z, a digit 0-9 and one of the symbols `!@#$%^&*`. */
  function IsPasswordComplex(password: string): (ok: bool)
    ensures ok <==>
      && |password| >= 8
      && (exists i :: 0 <= i < |password| && 'A' <= password[i] <= 'Z')
      && (exists i :: 0 <= i < |password| && '0' <= password[i] <= '9')
      && (exists i :: 0 <= i < |password| && password[i] in Symbols)
  {
    if |password| < MinPasswordLength then false
    else if !Search(password, Upper) then false
    else if !Search(password, Digit) then false
    else if !Search(password, Symbol) then false
    else true
  }

  /** A seven-character password is refused even though it has a digit and a symbol. */
  lemma ShortPasswordRejected()
    ensures !IsPasswordComplex("short1!")
  {
  }

  /** A password meeting all four rules is accepted. */
  lemma StrongPasswordAccepted()
    ensures IsPasswordComplex("LongPass1!")
  {
  }

  /** The local clock hour, as `datetime.now().hour` gives it. */
  type Hour = h: int | 0 <= h < 24

  /** `is_login_allowed`: logins are closed from 03:00 to 04:59. */
  function IsLoginAllowed(hour: Hour): (allowed: bool)
    ensures !allowed <==> hour == 3 || hour == 4
  {
    if 3 <= hour < 5 then false else true
  }

  /** `hash_password`: `digest` stands for SHA-256 rendered in hex, `freshSalt`
      for `os.urandom(16).hex()`. A salt that is missing or empty is falsy in
      Python and is replaced by the fresh one. Returns (hash, salt). */
  function HashPassword(digest: string -> string, password: string, salt: Option<string>,
                        freshSalt: string): (r: (string, string))
    ensures salt.Some? && salt.value != "" ==> r.1 == salt.value
    ensures !(salt.Some? && salt.value != "") ==> r.1 == freshSalt
    ensures r.0 == digest(password + r.1)
  {
    var s := if salt == None || salt.value == "" then freshSalt else salt.value;
    (digest(password + s), s)
  }

  /** A pair produced at registration (no salt given) is reproduced at login
      from the stored salt, whatever fresh salt the login call draws, as long
      as the registration salt was not empty. */
  lemma HashRoundTrip(digest: string -> string, password: string, freshSalt: string, laterSalt: string)
    requires freshSalt != ""
    ensures var (h, s) := HashPassword(digest, password, None, freshSalt);
            HashPassword(digest, password, Some(s), laterSalt) == (h, s)
  {
  }

  /** The outcome of the two checks `register` makes before it calls the store. */
  datatype RegisterStep = NeedConsent | TooWeak | Proceed

  /** `register`'s gates: the consent field must be present and non-empty,
      then the password must be complex. */
  function RegisterGate(consent: Option<string>, password: string): (step: RegisterStep)
    ensures step == NeedConsent <==> consent == None || consent == Some("")
    ensures step == Proceed <==> consent.Some? && consent.value != "" && IsPasswordComplex(password)
    ensures step == TooWeak ==> !IsPasswordComplex(password)
  {
    if consent == None || consent.value == "" then NeedConsent
    else if !IsPasswordComplex(password) then TooWeak
    else Proceed
  }
}

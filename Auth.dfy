/** Credential policy applied before an account is created: a university
    email domain and a strong password, each with a fixed test-account
    exception. */
module Auth {
  import opened Strings

  /** The test account accepted by both checks. */
  const TestEmail: string := "testuser@test.com"

  /** The test account's password, matched exactly. */
  const TestPassword: string := "123456"

  const MinPasswordLength: nat := 8

  /** The accepted university email suffixes, in the order they are tried. */
  const UniDomains: seq<string> := [
    "@u.nus.edu",
    "@e.ntu.edu.sg",
    "@smu.edu.sg",
    "@sutd.edu.sg",
    "@u.duke.nus.edu",
    "@yale-nus.edu.sg",
    "@u.nus.edu.sg",
    "@e.ntu.edu",
    "@students.suss.edu.sg",
    "@sim.edu.sg"
  ]

  /** `domains.some(domain => s.endsWith(domain))` */
  function EndsWithAny(s: string, domains: seq<string>): (r: bool)
    ensures r <==> exists i :: 0 <= i < |domains| && IsSuffix(domains[i], s)
    decreases |domains|
  {
    if domains == [] then false
    else if IsSuffix(domains[0], s) then true
    else
      var rest := EndsWithAny(s, domains[1..]);
      assert forall i :: 1 <= i < |domains| ==> domains[i] == domains[1..][i - 1];
      rest
  }

  /** `isUniversityEmail(email)`: accepted exactly when, lower-cased, the
      email is the test account or ends with one of the listed domains. */
  function IsUniversityEmail(email: string): (r: bool)
    ensures r <==>
      Lower(email) == TestEmail || exists i :: 0 <= i < |UniDomains| && IsSuffix(UniDomains[i], Lower(email))
  {
    if Lower(email) == TestEmail then true
    else EndsWithAny(Lower(email), UniDomains)
  }

  /** The check does not depend on letter case. */
  lemma UniversityEmailCaseInsensitive(email: string)
    ensures IsUniversityEmail(Lower(email)) == IsUniversityEmail(email)
  {
    LowerIdempotent(email);
  }

  /** The password contains a character in `lo..hi` (a `/[lo-hi]/` test). */
  predicate HasCharIn(s: string, lo: char, hi: char) {
    exists i :: 0 <= i < |s| && lo <= s[i] <= hi
  }

  /** The test-account exception of the password check. An absent or
      empty email (falsy in the source) never lower-cases to the test
      address, so it needs no case of its own. */
  predicate IsTestAccount(password: string, email: Option<string>) {
    email.Some? && Lower(email.value) == TestEmail && password == TestPassword
  }

  /** `isStrongPassword(password, email)`; `email` is optional. The test
      account may use exactly `123456`; any other password needs at least
      eight characters with an upper-case letter, a lower-case letter and a
      digit. */
  function IsStrongPassword(password: string, email: Option<string>): (r: bool)
    ensures IsTestAccount(password, email) ==> r
    ensures !IsTestAccount(password, email) ==> (r <==>
      && |password| >= MinPasswordLength
      && (exists i :: 0 <= i < |password| && 'A' <= password[i] <= 'Z')
      && (exists i :: 0 <= i < |password| && 'a' <= password[i] <= 'z')
      && (exists i :: 0 <= i < |password| && '0' <= password[i] <= '9'))
  {
    if IsTestAccount(password, email) then true
    else
      && |password| >= MinPasswordLength
      && HasCharIn(password, 'A', 'Z')
      && HasCharIn(password, 'a', 'z')
      && HasCharIn(password, '0', '9')
  }

  /** The exception is an exact match on the password: `123456` with one
      more character is judged by the general rule, and refused. */
  lemma TestPasswordIsExact()
    ensures !IsStrongPassword("123456A", Some(TestEmail))
  {
    assert !HasCharIn("123456A", 'a', 'z');
  }

  /** The exception matches the email case-insensitively. */
  lemma TestEmailIgnoresCase()
    ensures IsStrongPassword(TestPassword, Some("TestUser@Test.COM"))
  {
    assert Lower("TestUser@Test.COM") == TestEmail;
  }

  /** A short password is refused unless it is the test account's. */
  lemma ShortPasswordRejected(password: string, email: Option<string>)
    requires |password| < MinPasswordLength && !IsTestAccount(password, email)
    ensures !IsStrongPassword(password, email)
  {
  }

  /** Where `registerUser` stops. */
  datatype RegisterOutcome = NotUniversityEmail | WeakPassword | CreateAccount

  /** The guard prefix of `registerUser(email, password)`: the email is
      checked first, the password second, and only an account passing both
      reaches creation. */
  function RegisterGuards(email: string, password: string): (r: RegisterOutcome)
    ensures r == NotUniversityEmail <==> !IsUniversityEmail(email)
    ensures r == WeakPassword <==> IsUniversityEmail(email) && !IsStrongPassword(password, Some(email))
    ensures r == CreateAccount <==> IsUniversityEmail(email) && IsStrongPassword(password, Some(email))
  {
    if !IsUniversityEmail(email) then NotUniversityEmail
    else if !IsStrongPassword(password, Some(email)) then WeakPassword
    else CreateAccount
  }

  /** A refused email decides the outcome whatever the password. */
  lemma EmailCheckedFirst(email: string, password: string, other: string)
    requires !IsUniversityEmail(email)
    ensures RegisterGuards(email, other) == RegisterGuards(email, password) == NotUniversityEmail
  {
  }

  /** Examples: a listed domain in capitals is accepted, another domain is not. */
  lemma UniversityEmailExamples()
    ensures IsUniversityEmail("Alice@U.NUS.EDU")
    ensures !IsUniversityEmail("bob@gmail.com")
  {
    assert Lower("Alice@U.NUS.EDU") == "alice@u.nus.edu";
    assert IsSuffix(UniDomains[0], "alice@u.nus.edu");
    var bob := "bob@gmail.com";
    assert Lower(bob) == bob;
    forall i | 0 <= i < |UniDomains| ensures !IsSuffix(UniDomains[i], bob) {
      var d := UniDomains[i];
      assert d[|d| - 1] == 'u' || d[|d| - 1] == 'g';
      assert bob[|bob| - 1] == 'm';
    }
  }
}

/** The pure parts of the test fixtures: how `createUser` turns a random raw
    user name into a username, name and e-mail, and how `img` chooses a
    content type. The random generators and the uniqueness enforcer are not
    modelled: the raw name is an input. */
module Fixtures {
  import opened Wrappers
  import opened Strings

  const MaxUsernameLength: nat := 20

  /** `[a-z0-9_]`. */
  predicate UsernameChar(c: char) {
    'a' <= c <= 'z' || '0' <= c <= '9' || c == '_'
  }

  predicate ValidUsername(u: string) {
    |u| <= MaxUsernameLength && forall c | c in u :: UsernameChar(c)
  }

  /** One character after `toLowerCase()` and `replace(/[^a-z0-9_]/g, '_')`. */
  function NormalizeChar(c: char): (r: char)
    ensures UsernameChar(r)
    ensures UsernameChar(c) ==> r == c
    ensures 'A' <= c <= 'Z' ==> r == AsciiLower(c)
    ensures !UsernameChar(c) && !('A' <= c <= 'Z') ==> r == '_'
  {
    var l := AsciiLower(c);
    if UsernameChar(l) then l else '_'
  }

  /** `raw.slice(0, 20).toLowerCase().replace(/[^a-z0-9_]/g, '_')`. */
  function Username(raw: string): (u: string)
    ensures ValidUsername(u)
    ensures |u| == if |raw| < MaxUsernameLength then |raw| else MaxUsernameLength
    ensures forall i | 0 <= i < |u| :: u[i] == NormalizeChar(raw[i])
  {
    var n := if |raw| < MaxUsernameLength then |raw| else MaxUsernameLength;
    seq(n, i requires 0 <= i < n => NormalizeChar(raw[i]))
  }

  /** A raw name is kept unchanged exactly when it already is a valid username. */
  lemma UsernameFixedIff(raw: string)
    ensures Username(raw) == raw <==> ValidUsername(raw)
  {
    if ValidUsername(raw) {
      assert forall i | 0 <= i < |raw| :: UsernameChar(raw[i]) by {
        forall i | 0 <= i < |raw| ensures UsernameChar(raw[i]) { assert raw[i] in raw; }
      }
    }
  }

  /** Normalising twice is normalising once. */
  lemma UsernameIdempotent(raw: string)
    ensures Username(Username(raw)) == Username(raw)
  {
    UsernameFixedIff(Username(raw));
  }

  /** Different raw names can give the same username: case and the characters
      past the twentieth are lost, so uniqueness of the raw names (enforced
      before the cut) does not make the usernames unique. */
  lemma UsernameNotInjective()
    ensures Username("ab_Jane") == Username("ab_jane")
    ensures Username("ab_abcdefghijklmnopq1") == Username("ab_abcdefghijklmnopq2")
  {
  }

  /** `${firstName} ${lastName}`. */
  function FullName(first: string, last: string): string {
    first + " " + last
  }

  /** A first name without spaces and the last name can be read back from the
      full name. */
  lemma FullNameRecoverable(f1: string, l1: string, f2: string, l2: string)
    requires ' ' !in f1 && ' ' !in f2
    requires FullName(f1, l1) == FullName(f2, l2)
    ensures f1 == f2 && l1 == l2
  {
    var n := FullName(f1, l1);
    assert n == f1 + (" " + l1) && n == f2 + (" " + l2);
    FirstOccurrenceAfter(f1, " " + l1, ' ');
    FirstOccurrenceAfter(f2, " " + l2, ' ');
    assert n[..|f1|] == f1 && n[..|f2|] == f2;
    assert n[|f1| + 1..] == l1 && n[|f2| + 1..] == l2;
  }

  lemma FirstSpaceEndsFirstName(first: string, last: string)
    ensures ' ' !in first ==> FindFrom(FullName(first, last), " ", 0) == Some(|first|)
  {
    if ' ' !in first {
      assert FullName(first, last) == first + (" " + last);
      FirstOccurrenceAfter(first, " " + last, ' ');
    }
  }

  const EmailDomain: string := "@example.com"

  /** `${username}@example.com`. */
  function Email(username: string): string {
    username + EmailDomain
  }

  /** The local part of the e-mail, up to the first `@`, is the username. */
  lemma EmailLocalPart(raw: string)
    ensures FindFrom(Email(Username(raw)), "@", 0) == Some(|Username(raw)|)
    ensures Email(Username(raw))[..|Username(raw)|] == Username(raw)
  {
    var u := Username(raw);
    assert '@' !in u;
    FirstOccurrenceAfter(u, EmailDomain, '@');
    assert Email(u)[..|u|] == u;
  }

  datatype User = User(username: string, name: string, email: string)

  /** createUser, given the raw name the generators produced. */
  function CreateUser(raw: string, first: string, last: string): (user: User)
    ensures user.username == Username(raw) && ValidUsername(user.username)
    ensures user.email == user.username + EmailDomain
    ensures |user.name| == |first| + 1 + |last|
    ensures user.name[..|first|] == first && user.name[|first| + 1..] == last
    ensures FindFrom(user.email, "@", 0) == Some(|user.username|)
    ensures user.email[..|user.username|] == user.username
    ensures ' ' !in first ==> FindFrom(user.name, " ", 0) == Some(|first|)
  {
    var u := Username(raw);
    EmailLocalPart(raw);
    FirstSpaceEndsFirstName(first, last);
    User(u, FullName(first, last), Email(u))
  }

  /** img: a `.png` path is PNG, any other path is taken to be JPEG. */
  function ContentType(path: string): (t: string)
    ensures t == "image/png" <==> EndsWith(path, ".png")
    ensures t == "image/jpeg" <==> !EndsWith(path, ".png")
  {
    if EndsWith(path, ".png") then "image/png" else "image/jpeg"
  }

  /** A path is typed PNG exactly when it is some name followed by `.png`. */
  lemma PngExactlyForPngNames(path: string)
    ensures ContentType(path) == "image/png" <==> exists stem :: path == stem + ".png"
  {
    forall stem | path == stem + ".png"
      ensures EndsWith(path, ".png")
    {
      assert path[|path| - 4..] == ".png";
    }
    if EndsWith(path, ".png") {
      var stem := path[..|path| - 4];
      assert path == stem + ".png";
    }
  }

  /** The suffix test is case-sensitive: the fixture story images are PNG, the
      user images JPEG, and an upper-case `.PNG` counts as JPEG. */
  lemma FixtureContentTypes()
    ensures ContentType("./tests/fixtures/images/stories/0.png") == "image/png"
    ensures ContentType("./tests/fixtures/images/user/0.jpg") == "image/jpeg"
    ensures ContentType("photo.PNG") == "image/jpeg"
  {
    assert "./tests/fixtures/images/stories/0.png"[33..] == ".png";
    assert "./tests/fixtures/images/user/0.jpg"[30..] != ".png";
    assert "photo.PNG"[5..] != ".png";
  }
}

/** The "Basic" HTTP authentication scheme of section 2 of RFC 7617: the
    credentials are the user-id, a colon and the password, encoded as UTF-8
    and then as Base 64, after the scheme name `Basic` and one space
    (py_modules/sunshine.py:111-113). */
module BasicAuth {
  import opened Basics
  import Utf8
  import Base64

  const Scheme: string := "Basic "

  /** The user-pass of RFC 7617: user-id, colon, password. */
  function UserPass(username: string, password: string): string {
    username + ":" + password
  }

  /** The `Authorization` header value for a user-id and password. */
  function Credentials(username: string, password: string): (h: string)
    ensures |h| > |Scheme| && h[..|Scheme|] == Scheme
    ensures Base64.Decode(h[|Scheme|..]) == Some(Utf8.Encode(UserPass(username, password)))
  {
    var octets := Utf8.Encode(UserPass(username, password));
    Base64.DecodeEncode(octets);
    Base64.EncodeShape(octets);
    var h := Scheme + Base64.Encode(octets);
    assert h[|Scheme|..] == Base64.Encode(octets);
    h
  }

  /** Splits a user-pass at its first colon; a user-id cannot contain one. */
  function SplitUserPass(text: string): (r: Option<(string, string)>)
    ensures r.Some? ==> ':' !in r.value.0 && text == UserPass(r.value.0, r.value.1)
    ensures r.None? <==> ':' !in text
  {
    if ':' in text then
      var k := Find(text, ':');
      assert text == text[..k] + ":" + text[k + 1..];
      Some((text[..k], text[k + 1..]))
    else None
  }

  /** How a server reads the header back: strip the scheme, decode Base 64,
      decode UTF-8, split at the first colon. */
  function Parse(header: string): (r: Option<(string, string)>)
  {
    if |header| >= |Scheme| && header[..|Scheme|] == Scheme then
      match Base64.Decode(header[|Scheme|..])
      case None => None
      case Some(octets) =>
        match Utf8.Decode(octets)
        case None => None
        case Some(text) => SplitUserPass(text)
    else None
  }

  lemma SplitUserPassOf(username: string, password: string)
    requires ':' !in username
    ensures SplitUserPass(UserPass(username, password)) == Some((username, password))
  {
    var text := UserPass(username, password);
    assert text[|username|] == ':';
    var k := Find(text, ':');
    assert forall j :: 0 <= j < |username| ==> text[j] == username[j];
    assert k == |username|;
    assert text[..k] == username;
    assert text[k + 1..] == password;
  }

  /** A user-id without a colon and any password read back from the header
      exactly as they went in. */
  lemma ParseCredentials(username: string, password: string)
    requires ':' !in username
    ensures Parse(Credentials(username, password)) == Some((username, password))
  {
    var h := Credentials(username, password);
    Utf8.DecodeEncode(UserPass(username, password));
    SplitUserPassOf(username, password);
  }

  /** `ParseCredentials` for any user-id: the read-back holds whenever the
      user-id has no colon. */
  lemma ReadsBack(username: string, password: string)
    ensures ':' !in username ==> Parse(Credentials(username, password)) == Some((username, password))
  {
    if ':' !in username {
      ParseCredentials(username, password);
    }
  }

  /** Conversely, a header that parses is exactly the credentials of what it
      parses to. */
  lemma CredentialsOfParse(header: string, username: string, password: string)
    requires Parse(header) == Some((username, password))
    ensures header == Credentials(username, password)
  {
    var octets := Base64.Decode(header[|Scheme|..]).value;
    var text := Utf8.Decode(octets).value;
    Base64.EncodeDecode(header[|Scheme|..], octets);
    Utf8.EncodeDecode(octets, text);
    assert text == UserPass(username, password);
    assert header == header[..|Scheme|] + header[|Scheme|..];
  }

  /** For colon-free user-ids the header determines the user-id and password. */
  lemma CredentialsInjective(u1: string, p1: string, u2: string, p2: string)
    requires ':' !in u1 && ':' !in u2
    requires Credentials(u1, p1) == Credentials(u2, p2)
    ensures u1 == u2 && p1 == p2
  {
    ParseCredentials(u1, p1);
    ParseCredentials(u2, p2);
  }

  /** A colon in the user-id is not rejected, and then two different pairs
      produce the same header (section 2 of RFC 7617 forbids such user-ids). */
  lemma ColonInUserIdIsAmbiguous()
    ensures Credentials("a:b", "c") == Credentials("a", "b:c")
  {
    SameUserPass("a:b", "c", "a", "b:c");
  }

  /** The header depends on the user-pass only. */
  lemma SameUserPass(u1: string, p1: string, u2: string, p2: string)
    requires UserPass(u1, p1) == UserPass(u2, p2)
    ensures Credentials(u1, p1) == Credentials(u2, p2)
  {
  }
}

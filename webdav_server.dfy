/** The test WebDAV server's request decision: HTTP Basic credential
    checking (RFC 7617 section 2) and the answer to a HEAD request. */
module WebDavServer {

  import opened Wrappers
  import opened Text
  import Base64

  const Username: string := "testuser"
  const Password: string := "testpassword"
  const Realm: string := "WebDAV Test Realm"

  /** The decoded credentials the server accepts, as bytes. */
  const ExpectedCredentials: seq<Byte> := Latin1(Username + ":" + Password)

  const ColonByte: Byte := 0x3A

  /** The header value that accompanies a 401 answer (RFC 7235 section 3.1). */
  const Challenge: string := "Basic realm=\"" + Realm + "\""

  /** Why a present Authorization header is rejected; every case leaves the
      handler the same way, the distinction only documents the path taken. */
  datatype AuthFailure =
    | NoSpace                              // split(" ", 1) gives one part
    | NotBasic                             // scheme is not "basic" in any case
    | Undecodable(Base64.DecodeError)      // b64decode raised
    | NoColon                              // split(":", 1) gives one part
    | WrongCredentials                     // user name or password differs

  /** The body of the try block in authenticate: the accepted user name, or
      the reason for rejection. The UTF-8 decoding of the credentials is
      replaced by comparing bytes with the ASCII constants (see README). */
  function CheckAuthorization(header: string): (r: Result<string, AuthFailure>)
    ensures r.Ok? ==> r.value == Username
    ensures ' ' !in header ==> r == Err(NoSpace)
  {
    match SplitOnce(header, ' ')
    case None => Err(NoSpace)
    case Some((scheme, encoded)) =>
      if Lower(scheme) != "basic" then Err(NotBasic)
      else match Base64.Decode(encoded)
        case Err(e) => Err(Undecodable(e))
        case Ok(credentials) =>
          match SplitOnce(credentials, ColonByte)
          case None => Err(NoColon)
          case Some((user, password)) =>
            if user == Latin1(Username) && password == Latin1(Password) then Ok(Username)
            else Err(WrongCredentials)
  }

  lemma ConstantsAscii()
    ensures IsLatin1(Username) && IsLatin1(Password) && IsLatin1(":")
    ensures ExpectedCredentials == Latin1(Username) + [ColonByte] + Latin1(Password)
    ensures ColonByte !in Latin1(Username)
  {
    Latin1Append(Username, ":");
    Latin1Append(Username + ":", Password);
    assert Latin1(":") == [ColonByte];
    var u := Latin1(Username);
    assert forall i :: 0 <= i < |u| ==> u[i] != ColonByte;
  }

  /** Splitting decoded credentials at the first colon yields the expected
      user name and password exactly when the credentials are
      "testuser:testpassword"; a further colon stays in the password. */
  lemma {:induction false} CredentialsMatchIff(credentials: seq<Byte>)
    ensures SplitOnce(credentials, ColonByte) == Some((Latin1(Username), Latin1(Password)))
        <==> credentials == ExpectedCredentials
  {
    ConstantsAscii();
    if credentials == ExpectedCredentials {
      SplitOnceJoin(Latin1(Username), ColonByte, Latin1(Password));
    }
  }

  /** authenticate accepts a header exactly when it is a scheme without
      spaces, one space, and base64 text that decodes to the expected
      credentials, the scheme being "basic" compared case-insensitively. */
  lemma AcceptsExactly(scheme: string, encoded: string)
    requires ' ' !in scheme
    ensures CheckAuthorization(scheme + " " + encoded).Ok?
        <==> Lower(scheme) == "basic" && Base64.Decode(encoded) == Ok(ExpectedCredentials)
  {
    SplitOnceJoin(scheme, ' ', encoded);
    match Base64.Decode(encoded)
    case Err(_) =>
    case Ok(credentials) => CredentialsMatchIff(credentials);
  }

  /** The scheme comparison is case-insensitive, letter by letter
      (section 2.1 of RFC 7235): "basic" matches exactly the five-letter
      words whose every letter is the lower- or the upper-case one. */
  lemma SchemeMatchIff(scheme: string)
    ensures Lower(scheme) == "basic"
        <==> |scheme| == 5 && forall i :: 0 <= i < 5 ==> scheme[i] == "basic"[i] || scheme[i] == "BASIC"[i]
  {
    if Lower(scheme) == "basic" {
      forall i | 0 <= i < 5 ensures scheme[i] == "basic"[i] || scheme[i] == "BASIC"[i] {
        assert LowerChar(scheme[i]) == "basic"[i];
      }
    }
    if |scheme| == 5 && forall i :: 0 <= i < 5 ==> scheme[i] == "basic"[i] || scheme[i] == "BASIC"[i] {
      assert forall i :: 0 <= i < 5 ==> Lower(scheme)[i] == "basic"[i];
    }
  }

  /** Everything after the first space is the credentials part, spaces
      included; a header whose first word is not "basic" is never accepted. */
  lemma SchemeDecides(scheme: string, encoded: string)
    requires ' ' !in scheme && Lower(scheme) != "basic"
    ensures CheckAuthorization(scheme + " " + encoded) == Err(NotBasic)
  {
    SplitOnceJoin(scheme, ' ', encoded);
  }

  /** What authenticate leaves in username_for_log. */
  function LogName(authHeader: Option<string>): (r: string)
    ensures authHeader.None? ==> r == "-"
    ensures authHeader.Some? ==> (r == Username <==> CheckAuthorization(authHeader.value).Ok?)
    ensures authHeader.Some? && CheckAuthorization(authHeader.value).Err? ==> r == "invalid_user"
  {
    match authHeader
    case None => "-"
    case Some(h) => if CheckAuthorization(h).Ok? then Username else "invalid_user"
  }

  /** One call of send_response, send_header or end_headers. */
  datatype Emission =
    | Status(code: int, message: Option<string>)
    | Header(name: string, value: string)
    | EndHeaders

  /** What do_HEAD emits once authentication has been decided. */
  function HeadReply(authorized: bool, path: string): (r: seq<Emission>)
    ensures |r| > 0 && r[0].Status? && r[|r| - 1] == EndHeaders
    ensures forall i :: 0 < i < |r| ==> !r[i].Status?
  {
    if !authorized then
      [Status(401, Some("Unauthorized")), Header("WWW-Authenticate", Challenge), EndHeaders]
    else if StartsWith(path, "/evidence/") then [Status(200, None), EndHeaders]
    else [Status(404, None), EndHeaders]
  }

  /** The three answers: 401 with the challenge whenever authentication
      fails, whatever the path; otherwise 200 exactly for paths under
      /evidence/ and 404 for the rest. */
  lemma HeadDecision(authorized: bool, path: string)
    ensures HeadReply(authorized, path)[0].code == 401 <==> !authorized
    ensures HeadReply(authorized, path)[0].code == 200 <==> authorized && StartsWith(path, "/evidence/")
    ensures HeadReply(authorized, path)[0].code == 404 <==> authorized && !StartsWith(path, "/evidence/")
    ensures Header("WWW-Authenticate", Challenge) in HeadReply(authorized, path) <==> !authorized
  {
  }

  /** The request handler; http.server makes one per connection and calls
      do_HEAD for every HEAD request on it. */
  class Handler {
    var usernameForLog: string
    /** The status lines and headers written so far, in order. */
    var sent: seq<Emission>

    constructor ()
      ensures usernameForLog == "-" && sent == []
    {
      usernameForLog := "-";
      sent := [];
    }

    method Authenticate(authHeader: Option<string>) returns (ok: bool)
      modifies this`usernameForLog
      ensures ok <==> authHeader.Some? && CheckAuthorization(authHeader.value).Ok?
      ensures usernameForLog == LogName(authHeader)
    {
      if authHeader.None? {
        usernameForLog := "-";
        return false;
      }
      match CheckAuthorization(authHeader.value)
      case Ok(user) =>
        usernameForLog := user;
        return true;
      case Err(_) =>
        usernameForLog := "invalid_user";
        return false;
    }

    method DoHead(authHeader: Option<string>, path: string)
      modifies this
      ensures usernameForLog == LogName(authHeader)
      ensures sent == old(sent)
        + HeadReply(authHeader.Some? && CheckAuthorization(authHeader.value).Ok?, path)
    {
      usernameForLog := "-";
      var ok := Authenticate(authHeader);
      if !ok {
        sent := sent + [Status(401, Some("Unauthorized"))];
        sent := sent + [Header("WWW-Authenticate", Challenge)];
        sent := sent + [EndHeaders];
        return;
      }
      if StartsWith(path, "/evidence/") {
        sent := sent + [Status(200, None)];
        sent := sent + [EndHeaders];
      } else {
        sent := sent + [Status(404, None)];
        sent := sent + [EndHeaders];
      }
    }
  }
}

/** The stress test against the test server: the header the client sends
    and the paths it asks for, as the server judges them. */
module EndToEnd {

  import opened Wrappers
  import opened Text
  import Base64
  import StressClient
  import StressStats
  import WebDavServer

  /** The server accepts the client's Authorization header exactly when the
      client was configured with the server's user name and password. */
  lemma ClientHeaderAccepted(login: string, password: string)
    requires StressClient.BasicAuthorization(login, password).Ok?
    ensures WebDavServer.CheckAuthorization(StressClient.BasicAuthorization(login, password).value).Ok?
        <==> login == WebDavServer.Username && password == WebDavServer.Password
  {
    var creds := login + ":" + password;
    var expected := WebDavServer.Username + ":" + WebDavServer.Password;
    var encoded := Base64.Encode(Latin1(creds));
    assert StressClient.BasicAuthorization(login, password).value == "Basic" + " " + encoded;
    assert Lower("Basic") == "basic";
    WebDavServer.AcceptsExactly("Basic", encoded);
    Base64.RoundTrip(Latin1(creds));
    WebDavServer.ConstantsAscii();
    Latin1Append(WebDavServer.Username, ":");
    Latin1Append(WebDavServer.Username + ":", WebDavServer.Password);
    if Latin1(creds) == WebDavServer.ExpectedCredentials {
      Latin1Injective(creds, expected);
      SplitOnceJoin(login, ':', password);
      assert ':' !in WebDavServer.Username;
      SplitOnceJoin(WebDavServer.Username, ':', WebDavServer.Password);
    }
  }

  /** When the base URL is a bare origin such as http://localhost:8000, the
      server sees the generated path "/evidence/XX" itself: an authorized
      request for it is answered 200, an unauthorized one 401. A base with a
      path of its own (http://host:8000/dav) would put the request outside
      /evidence/ and get 404 instead. */
  lemma TargetsServed(n: nat, authorized: bool)
    requires n < 256
    ensures WebDavServer.HeadReply(authorized, StressClient.TargetPath(n))[0].code
         == if authorized then 200 else 401
  {
  }

  /** Given the server's own credentials, "testuser" and "testpassword",
      the stress test builds a header that the server accepts. */
  lemma ServerCredentialsAccepted()
    ensures StressClient.BasicAuthorization(WebDavServer.Username, WebDavServer.Password).Ok?
    ensures WebDavServer.CheckAuthorization(
      StressClient.BasicAuthorization(WebDavServer.Username, WebDavServer.Password).value).Ok?
  {
    WebDavServer.ConstantsAscii();
    Latin1Append(WebDavServer.Username, ":");
    Latin1Append(WebDavServer.Username + ":", WebDavServer.Password);
    assert ':' !in WebDavServer.Username;
    ClientHeaderAccepted(WebDavServer.Username, WebDavServer.Password);
  }

  lemma DecimalOf200()
    ensures StressStats.Decimal(200) == "200"
  {
    assert StressStats.Decimal(2) == "2";
    assert StressStats.Decimal(20) == "20";
  }

  /** The outcome the server gives the client's request for draw n, when
      authorization was decided as given and the base URL is a bare origin,
      so that the server's path is TargetPath(n). */
  function ServerOutcome(authorized: bool, n: nat): StressStats.Outcome
    requires n < 256
  {
    StressStats.Response(WebDavServer.HeadReply(authorized, StressClient.TargetPath(n))[0].code)
  }

  /** Against the test server, with the stress test given the server's
      credentials and a bare-origin base URL, a run of count requests ends
      with count successes, no failure and the single label "200" counted
      count times. */
  lemma AuthorizedRunStatistics(draws: seq<nat>)
    requires |draws| > 0 && forall i :: 0 <= i < |draws| ==> draws[i] < 256
    ensures var header := StressClient.BasicAuthorization(WebDavServer.Username, WebDavServer.Password);
      header.Ok? &&
      var authorized := WebDavServer.CheckAuthorization(header.value).Ok?;
      var outcomes := seq(|draws|, i requires 0 <= i < |draws| => ServerOutcome(authorized, draws[i]));
      StressStats.Successes(outcomes) == |draws| && StressStats.Failures(outcomes) == 0
      && StressStats.Tally(outcomes) == map["200" := |draws|]
  {
    ServerCredentialsAccepted();
    var outcomes := seq(|draws|, i requires 0 <= i < |draws| => ServerOutcome(true, draws[i]));
    var ok := StressStats.Response(200);
    assert outcomes == seq(|draws|, _ => ok);
    StressStats.UniformRun(ok, |draws|);
    DecimalOf200();
  }
}

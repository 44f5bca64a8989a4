/**
 * The low-level HTTP client: how it builds request URLs and query
 * parameters, and how its session id moves between logged out ("0") and
 * logged in. The transport itself is a parameter: a request's result is
 * passed in as a `Reply`, and `urlencode` as a function.
 */
module Client {
  import opened Wrappers
  import opened Text

  /** The server a client talks to unless told otherwise. */
  const DefaultServer := "events.raceresult.com"
  /** The session id of a client that is not logged in. */
  const LoggedOutSession := "0"

  /** A parameter value: `None`, a bool, an int or a text (the floats some endpoints pass are not modelled). */
  datatype Scalar = SNone | SBool(b: bool) | SInt(i: int) | SText(s: string)

  /** A parameter: one value, or a list or tuple of them. */
  datatype Param = One(value: Scalar) | Many(items: seq<Scalar>)

  /** Python's `str()` of a value. */
  function PyStr(v: Scalar): (s: string)
    ensures v.SBool? ==> s == (if v.b then "True" else "False")
    ensures v.SText? ==> s == v.s
    ensures v.SInt? && v.i >= 0 ==> AllDigits(s) && DigitsValue(s) == v.i
  {
    match v
    case SNone => "None"
    case SBool(b) => if b then "True" else "False"
    case SInt(i) => NatToStringValue(if i < 0 then -i else i); IntToString(i)
    case SText(s) => s
  }

  /** `str(v)` of every element, in order. */
  function PyStrs(items: seq<Scalar>): (r: seq<string>)
    ensures |r| == |items|
    ensures forall i :: 0 <= i < |items| ==> r[i] == PyStr(items[i])
  {
    if |items| == 0 then [] else [PyStr(items[0])] + PyStrs(items[1..])
  }

  /** `RaceResultClient._serialize_param`. */
  function SerializeParam(p: Param): (r: string)
    ensures p == One(SBool(true)) ==> r == "true"
    ensures p == One(SBool(false)) ==> r == "false"
    ensures p.One? && !p.value.SBool? ==> r == PyStr(p.value)
    ensures p.Many? && |p.items| == 0 ==> r == ""
  {
    match p
    case One(SBool(b)) => if b then "true" else "false"
    case One(v) => PyStr(v)
    case Many(items) => Join(PyStrs(items), ",")
  }

  /** Only a bool on its own is lower-cased: inside a list it keeps Python's spelling. */
  lemma BoolInListKeepsPythonSpelling(b: bool)
    ensures SerializeParam(Many([SBool(b)])) == (if b then "True" else "False")
    ensures SerializeParam(One(SBool(b))) == (if b then "true" else "false")
  {
    assert PyStrs([SBool(b)]) == [PyStr(SBool(b))];
  }

  /** A list whose elements' texts hold no comma can be read back element by element. */
  lemma ListParamSplits(items: seq<Scalar>)
    requires |items| > 0
    requires forall i :: 0 <= i < |items| ==> ',' !in PyStr(items[i])
    ensures Split(SerializeParam(Many(items)), ",") == PyStrs(items)
  {
    SplitJoin(PyStrs(items), ",");
  }

  /** The keys of a parameter list, which comes from a dict, are distinct. */
  predicate DistinctKeys(params: seq<(string, Param)>)
  {
    forall i, j :: 0 <= i < j < |params| ==> params[i].0 != params[j].0
  }

  /** The query of a parameter list by its definition: each pair whose value is not `None`, serialized, in order. */
  function Query(params: seq<(string, Param)>): (q: seq<(string, string)>)
    ensures |q| <= |params|
  {
    if |params| == 0 then []
    else
      var (k, v) := params[|params| - 1];
      Query(params[..|params| - 1]) + (if v == One(SNone) then [] else [(k, SerializeParam(v))])
  }

  /** The query is empty exactly when every parameter is `None`. */
  lemma {:induction false} QueryEmpty(params: seq<(string, Param)>)
    ensures Query(params) == [] <==> forall i :: 0 <= i < |params| ==> params[i].1 == One(SNone)
    decreases |params|
  {
    if |params| > 0 {
      var front := params[..|params| - 1];
      QueryEmpty(front);
      assert forall i :: 0 <= i < |front| ==> front[i] == params[i];
    }
  }

  /** A pair is in the query exactly when some parameter with that key has a value other than `None` serializing to it. */
  lemma {:induction false} QueryMembership(params: seq<(string, Param)>, k: string, s: string)
    ensures (k, s) in Query(params)
        <==> exists i :: 0 <= i < |params| && params[i].0 == k && params[i].1 != One(SNone) && SerializeParam(params[i].1) == s
    decreases |params|
  {
    if |params| > 0 {
      var front := params[..|params| - 1];
      QueryMembership(front, k, s);
      assert forall i :: 0 <= i < |front| ==> front[i] == params[i];
      if (k, s) in Query(params) && (k, s) !in Query(front) {
        var last := |params| - 1;
        assert params[last].0 == k && params[last].1 != One(SNone) && SerializeParam(params[last].1) == s;
      }
    }
  }

  /** What the transport gives back for a request: a 200 response's body, or the error `_handle_response` raises. */
  datatype Reply = Body(text: string) | Failure(message: string)

  /** How a client operation ends: normally, or by raising `RaceResultError` with a message. */
  datatype Outcome = Done | Raised(message: string)

  /** The optional credentials of a login call. */
  datatype Credentials = Credentials(
    apiKey: Option<string>,
    user: Option<string>,
    password: Option<string>,
    signInAs: Option<string>,
    totp: Option<string>,
    rrUserToken: Option<string>)

  /** Whether an optional text is truthy in Python: present and non-empty. */
  predicate Given(s: Option<string>)
  {
    s.Some? && s.value != ""
  }

  function Field(key: string, value: Option<string>): seq<(string, string)>
  {
    if Given(value) then [(key, value.value)] else []
  }

  /** The form `login` posts: each credential given, the password (possibly empty) exactly when a user is given. */
  function LoginForm(c: Credentials): (form: seq<(string, string)>)
    ensures |form| == 0 <==> !Given(c.apiKey) && !Given(c.user) && !Given(c.signInAs) && !Given(c.totp) && !Given(c.rrUserToken)
  {
    var pw := if Given(c.user) then [("pw", if Given(c.password) then c.password.value else "")] else [];
    Field("apikey", c.apiKey) + Field("user", c.user) + pw
      + Field("signinas", c.signInAs) + Field("totp", c.totp) + Field("rruser_token", c.rrUserToken)
  }

  /** The field names of a form, in order. */
  function FormKeys(form: seq<(string, string)>): (keys: seq<string>)
    ensures |keys| == |form|
    ensures forall i :: 0 <= i < |form| ==> keys[i] == form[i].0
  {
    if |form| == 0 then [] else [form[0].0] + FormKeys(form[1..])
  }

  /** `[key]` when the field is present, nothing otherwise. */
  function KeyIf(key: string, present: bool): seq<string>
  {
    if present then [key] else []
  }

  /** The field names of the login form: each credential given, in the order `login` adds them, "pw" right after "user". */
  lemma LoginFormFields(c: Credentials)
    ensures FormKeys(LoginForm(c))
         == KeyIf("apikey", Given(c.apiKey)) + KeyIf("user", Given(c.user)) + KeyIf("pw", Given(c.user))
          + KeyIf("signinas", Given(c.signInAs)) + KeyIf("totp", Given(c.totp)) + KeyIf("rruser_token", Given(c.rrUserToken))
  {
    var a, u := Field("apikey", c.apiKey), Field("user", c.user);
    var pw := if Given(c.user) then [("pw", if Given(c.password) then c.password.value else "")] else [];
    var si, t, rr := Field("signinas", c.signInAs), Field("totp", c.totp), Field("rruser_token", c.rrUserToken);
    assert LoginForm(c) == a + u + pw + si + t + rr;
    FormKeysConcat(a, u);
    FormKeysConcat(a + u, pw);
    FormKeysConcat(a + u + pw, si);
    FormKeysConcat(a + u + pw + si, t);
    FormKeysConcat(a + u + pw + si + t, rr);
    FieldKeys("apikey", c.apiKey);
    FieldKeys("user", c.user);
    FieldKeys("signinas", c.signInAs);
    FieldKeys("totp", c.totp);
    FieldKeys("rruser_token", c.rrUserToken);
    assert FormKeys(pw) == KeyIf("pw", Given(c.user));
  }

  lemma FieldKeys(key: string, value: Option<string>)
    ensures FormKeys(Field(key, value)) == KeyIf(key, Given(value))
  {
  }

  lemma {:induction false} FormKeysConcat(a: seq<(string, string)>, b: seq<(string, string)>)
    ensures FormKeys(a + b) == FormKeys(a) + FormKeys(b)
    decreases |a|
  {
    if |a| == 0 {
      assert a + b == b;
    } else {
      assert (a + b)[0] == a[0] && (a + b)[1..] == a[1..] + b;
      FormKeysConcat(a[1..], b);
    }
  }

  /** A field holds exactly the pair of its key and the given value. */
  lemma FieldHolds(key: string, value: Option<string>, k: string, v: string)
    ensures (k, v) in Field(key, value) <==> k == key && Given(value) && v == value.value
  {
  }

  /** The pairs of the login form: each given credential under its own name, and "pw" exactly when a user is given. */
  lemma LoginFormHolds(c: Credentials, k: string, v: string)
    ensures (k, v) in LoginForm(c)
        <==> || (k == "apikey" && Given(c.apiKey) && v == c.apiKey.value)
             || (k == "user" && Given(c.user) && v == c.user.value)
             || (k == "pw" && Given(c.user) && v == (if Given(c.password) then c.password.value else ""))
             || (k == "signinas" && Given(c.signInAs) && v == c.signInAs.value)
             || (k == "totp" && Given(c.totp) && v == c.totp.value)
             || (k == "rruser_token" && Given(c.rrUserToken) && v == c.rrUserToken.value)
  {
    FieldHolds("apikey", c.apiKey, k, v);
    FieldHolds("user", c.user, k, v);
    FieldHolds("signinas", c.signInAs, k, v);
    FieldHolds("totp", c.totp, k, v);
    FieldHolds("rruser_token", c.rrUserToken, k, v);
  }

  /**
   * The value under each name of the login form: each given credential under
   * its own name, and under "pw" the password, or "" when none is given,
   * exactly when a user is given.
   */
  lemma LoginFormValues(c: Credentials, v: string)
    ensures ("apikey", v) in LoginForm(c) <==> Given(c.apiKey) && v == c.apiKey.value
    ensures ("user", v) in LoginForm(c) <==> Given(c.user) && v == c.user.value
    ensures ("pw", v) in LoginForm(c) <==> Given(c.user) && v == (if Given(c.password) then c.password.value else "")
    ensures ("signinas", v) in LoginForm(c) <==> Given(c.signInAs) && v == c.signInAs.value
    ensures ("totp", v) in LoginForm(c) <==> Given(c.totp) && v == c.totp.value
    ensures ("rruser_token", v) in LoginForm(c) <==> Given(c.rrUserToken) && v == c.rrUserToken.value
  {
    LoginFormHolds(c, "apikey", v);
    LoginFormHolds(c, "user", v);
    LoginFormHolds(c, "pw", v);
    LoginFormHolds(c, "signinas", v);
    LoginFormHolds(c, "totp", v);
    LoginFormHolds(c, "rruser_token", v);
  }

  /** `RaceResultClient`: the server it talks to, whether over HTTPS, and the current session id. */
  class RaceResultClient {
    var server: string
    var https: bool
    var sessionId: string

    /** A new client, not logged in. */
    constructor(server: string, https: bool)
      ensures this.server == server && this.https == https
      ensures sessionId == LoggedOutSession
      ensures !IsLoggedIn()
    {
      this.server := server;
      this.https := https;
      sessionId := LoggedOutSession;
    }

    /** A new client with the defaults: the public server over HTTPS, not logged in. */
    constructor Default()
      ensures server == DefaultServer && https
      ensures sessionId == LoggedOutSession
      ensures !IsLoggedIn()
    {
      server := DefaultServer;
      https := true;
      sessionId := LoggedOutSession;
    }

    /** `base_url`: the scheme, "://" and the server. */
    function BaseUrl(): (url: string)
      reads this
      ensures https ==> url == "https://" + server
      ensures !https ==> url == "http://" + server
      ensures url[|url| - |server|..] == server
    {
      (if https then "https" else "http") + "://" + server
    }

    /** `is_logged_in`: the session id is a real one, neither the logged-out "0" nor empty. */
    predicate IsLoggedIn()
      reads this
      ensures IsLoggedIn() ==> |sessionId| > 0 && sessionId != LoggedOutSession
      ensures !IsLoggedIn() ==> sessionId in {LoggedOutSession, ""}
    {
      sessionId != LoggedOutSession && sessionId != ""
    }

    /** The URL without its query: base, "/_" and the event id when there is a non-empty one, then "/api/" and the command. */
    function Endpoint(eventId: Option<string>, cmd: string): string
      reads this
    {
      BaseUrl() + (if Given(eventId) then "/_" + eventId.value else "") + "/api/" + cmd
    }

    /** `_build_url`: the endpoint, and "?" with the encoded query exactly when some parameter is not `None`. */
    method BuildUrl(eventId: Option<string>, cmd: string, params: Option<seq<(string, Param)>>,
                    urlencode: seq<(string, string)> -> string) returns (url: string)
      requires params.Some? ==> DistinctKeys(params.value)
      ensures params.None? || Query(params.value) == [] ==> url == Endpoint(eventId, cmd)
      ensures params.Some? && Query(params.value) != [] ==> url == Endpoint(eventId, cmd) + "?" + urlencode(Query(params.value))
    {
      var parts := [BaseUrl()];
      if Given(eventId) {
        parts := parts + ["/_" + eventId.value];
      }
      parts := parts + ["/api/" + cmd];
      url := Join(parts, "");
      assert url == Endpoint(eventId, cmd) by {
        assert Join(parts[|parts| - 1..], "") == parts[|parts| - 1];
        if |parts| == 3 {
          assert Join(parts[1..], "") == parts[1] + "" + Join(parts[2..], "");
        }
      }
      if params.Some? && |params.value| > 0 {
        var ps := params.value;
        var filtered: seq<(string, string)> := [];
        for i := 0 to |ps|
          invariant filtered == Query(ps[..i])
        {
          assert ps[..i + 1][..i] == ps[..i];
          if ps[i].1 != One(SNone) {
            filtered := filtered + [(ps[i].0, SerializeParam(ps[i].1))];
          }
        }
        assert ps[..|ps|] == ps;
        if |filtered| > 0 {
          url := url + "?" + urlencode(filtered);
        }
      }
    }

    /** The session update of `login`: the response body becomes the session id; a failed request raises and changes nothing. */
    method Login(reply: Reply) returns (outcome: Outcome)
      modifies this
      ensures server == old(server) && https == old(https)
      ensures reply.Body? ==> outcome == Done && sessionId == reply.text
      ensures reply.Failure? ==> outcome == Raised(reply.message) && sessionId == old(sessionId)
      ensures reply.Body? ==> (IsLoggedIn() <==> reply.text != LoggedOutSession && reply.text != "")
    {
      match reply
      case Body(text) =>
        sessionId := text;
        outcome := Done;
      case Failure(message) =>
        outcome := Raised(message);
    }

    /**
     * `logout`: raises "not logged in" when not logged in; otherwise sends
     * the logout request and, once it succeeds, returns to session "0".
     */
    method Logout(reply: Reply) returns (outcome: Outcome)
      modifies this
      ensures server == old(server) && https == old(https)
      ensures !old(IsLoggedIn()) ==> outcome == Raised("not logged in") && sessionId == old(sessionId)
      ensures old(IsLoggedIn()) && reply.Failure? ==> outcome == Raised(reply.message) && sessionId == old(sessionId)
      ensures old(IsLoggedIn()) && reply.Body? ==> outcome == Done && sessionId == LoggedOutSession
      ensures outcome == Done ==> !IsLoggedIn()
    {
      if !IsLoggedIn() {
        outcome := Raised("not logged in");
      } else if reply.Failure? {
        outcome := Raised(reply.message);
      } else {
        sessionId := LoggedOutSession;
        outcome := Done;
      }
    }
  }
}

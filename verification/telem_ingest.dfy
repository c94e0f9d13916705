/**
 * The validation chain of the `POST /telem` route: the URL token, an
 * empty body, the parser, the shared secret and the required fields are
 * checked in that order, and the first check that fails decides the HTTP
 * status and detail of the rejection.
 */
module TelemIngest {
  import opened Wrappers
  import opened PyStr
  import opened TelemParse

  /** The receiver's configuration, read from the environment at start-up. */
  datatype Config = Config(urlToken: string, secret: string)

  /** The fields every accepted message must carry, in the order in which
      missing ones are reported. */
  const Required: seq<string> :=
    ["v", "sym", "tf", "t", "sq", "reg", "m", "sc", "d", "al", "atrx", "sig"]

  /** Why a message is rejected; each reason is one `HTTPException`. */
  datatype Reason =
    | BadToken
    | EmptyBody
    | ParseFailed(cause: ParseError)
    | BadSecret
    | MissingFields(keys: seq<string>)
  {
    /** The HTTP status of the rejection: 401 for the two credential checks,
        400 for the three checks on the body. */
    function Status(): (code: int)
      ensures code == 401 <==> BadToken? || BadSecret?
      ensures code == 400 <==> EmptyBody? || ParseFailed? || MissingFields?
    {
      match this
      case BadToken => 401
      case BadSecret => 401
      case _ => 400
    }

    /** The `detail` text of the rejection: a fixed text per check, the
        parse error and the missing fields after their own tag. */
    function Detail(): (d: string)
      ensures ParseFailed? ==> StartsWith(d, "parse error: ")
      ensures MissingFields? ==> StartsWith(d, "missing fields: ")
      ensures d == "bad token" <==> BadToken?
      ensures d == "bad secret" <==> BadSecret?
      ensures d == "empty body" <==> EmptyBody?
    {
      match this
      case BadToken => "bad token"
      case EmptyBody => "empty body"
      case ParseFailed(e) =>
        var d := "parse error: " + e.Message();
        assert d[0] == 'p';
        d
      case BadSecret => "bad secret"
      case MissingFields(keys) =>
        var d := "missing fields: " + Join(keys, ',');
        assert d[0] == 'm';
        d
    }
  }

  /** An accepted message: its fields and the stripped body stored beside them. */
  datatype Accepted = Accepted(fields: Fields, raw: string)

  /** `a` is `b` with some elements left out, the rest kept in order. */
  ghost predicate Subsequence(a: seq<string>, b: seq<string>)
    decreases |b|
  {
    a == [] || (b != [] && ((a[0] == b[0] && Subsequence(a[1..], b[1..])) || Subsequence(a, b[1..])))
  }

  /** `[k for k in required if k not in d]`: exactly the required keys the
      message lacks, in the order of `required`; it is empty exactly when
      every required key is present. */
  function Missing(required: seq<string>, d: Fields): (r: seq<string>)
    ensures forall k :: k in r <==> k in required && k !in d
    ensures Subsequence(r, required)
    ensures r == [] <==> forall k | k in required :: k in d
  {
    if required == [] then []
    else
      var rest := Missing(required[1..], d);
      assert forall k | k in required[1..] :: k in required;
      assert forall k | k in required :: k == required[0] || k in required[1..];
      if required[0] in d then rest
      else
        var r := [required[0]] + rest;
        assert r[1..] == rest;
        r
  }

  /** A missing key is listed as often as `required` lists it. */
  lemma {:induction false} MissingMultiplicity(required: seq<string>, d: Fields, k: string)
    ensures multiset(Missing(required, d))[k] == if k in d then 0 else multiset(required)[k]
  {
    if required != [] {
      MissingMultiplicity(required[1..], d, k);
      assert required == [required[0]] + required[1..];
      assert multiset(required) == multiset{required[0]} + multiset(required[1..]);
      if required[0] !in d {
        var rest := Missing(required[1..], d);
        assert Missing(required, d) == [required[0]] + rest;
        assert multiset([required[0]] + rest) == multiset{required[0]} + multiset(rest);
      }
    }
  }

  /** `telem_ingest` up to the database write: the route's token query
      parameter and the decoded request body in, the stored message or the
      first failing check out. */
  function Ingest(cfg: Config, token: string, body: string): (r: Result<Accepted, Reason>)
    ensures token != cfg.urlToken ==> r == Failure(BadToken)
    ensures r.Success? ==>
      && token == cfg.urlToken
      && r.value.raw == Strip(body) && r.value.raw != []
      && Parse(r.value.raw) == Success(r.value.fields)
      && "sec" in r.value.fields && r.value.fields["sec"] == cfg.secret
      && forall k | k in Required :: k in r.value.fields
  {
    if token != cfg.urlToken then Failure(BadToken)
    else
      var raw := Strip(body);
      if raw == [] then Failure(EmptyBody)
      else match Parse(raw)
        case Failure(e) => Failure(ParseFailed(e))
        case Success(d) =>
          if "sec" !in d || d["sec"] != cfg.secret then Failure(BadSecret)
          else
            var missing := Missing(Required, d);
            if missing != [] then Failure(MissingFields(missing))
            else Success(Accepted(d, raw))
  }

  /** A blank body is reported as empty, not as a parse error, although
      the parser would reject it too. */
  lemma EmptyBodyBeforeParse(cfg: Config, body: string)
    requires Strip(body) == []
    ensures Parse(Strip(body)).Failure?
    ensures Ingest(cfg, cfg.urlToken, body) == Failure(EmptyBody)
    ensures Ingest(cfg, cfg.urlToken, body).error.Status() == 400
  {
  }

  /** A non-blank body without the `TELEM|` prefix is a parse error. */
  lemma BadPrefixIsParseError(cfg: Config, body: string)
    requires Strip(body) != [] && !StartsWith(Strip(body), Prefix)
    ensures Ingest(cfg, cfg.urlToken, body) == Failure(ParseFailed(BadPrefix))
    ensures Ingest(cfg, cfg.urlToken, body).error.Detail() == "parse error: bad prefix"
  {
    assert Parse(Strip(body)) == Failure(BadPrefix);
    assert Ingest(cfg, cfg.urlToken, body) == Failure(ParseFailed(BadPrefix));
    ParseErrorDetail();
  }

  /** The detail of a parse failure quotes the parser's message. */
  lemma ParseErrorDetail()
    ensures ParseFailed(BadPrefix).Detail() == "parse error: bad prefix"
  {
  }

  /** A wrong or missing `sec` is reported before any missing field. */
  lemma SecretBeforeFields(cfg: Config, body: string)
    requires Strip(body) != [] && StartsWith(Strip(body), Prefix)
    requires var d := Parse(Strip(body)).value; "sec" !in d || d["sec"] != cfg.secret
    ensures Ingest(cfg, cfg.urlToken, body) == Failure(BadSecret)
    ensures Ingest(cfg, cfg.urlToken, body).error.Status() == 401
  {
  }

  /** Once the credentials and the parse pass, the message is rejected
      exactly when a required field is missing, and the rejection lists
      precisely the missing fields in the order of `Required`. */
  lemma MissingFieldsDecide(cfg: Config, body: string)
    requires Strip(body) != [] && StartsWith(Strip(body), Prefix)
    requires var d := Parse(Strip(body)).value; "sec" in d && d["sec"] == cfg.secret
    ensures var d := Parse(Strip(body)).value; var r := Ingest(cfg, cfg.urlToken, body);
      && (r.Success? <==> forall k | k in Required :: k in d)
      && (r.Failure? ==> r == Failure(MissingFields(Missing(Required, d))))
      && (r.Failure? ==> r.error.Detail() == "missing fields: " + Join(Missing(Required, d), ','))
  {
  }

  /** A message is accepted exactly when every check passes. */
  lemma AcceptedIff(cfg: Config, token: string, body: string)
    ensures Ingest(cfg, token, body).Success? <==>
      && token == cfg.urlToken
      && Strip(body) != []
      && StartsWith(Strip(body), Prefix)
      && var d := Parse(Strip(body)).value;
         "sec" in d && d["sec"] == cfg.secret && forall k | k in Required :: k in d
  {
  }

  /** End to end: a serialised list of representable pairs whose dictionary
      carries the right secret and every required field is accepted, with
      exactly that dictionary and the body as sent. */
  lemma SerializedAccepted(cfg: Config, pairs: seq<(string, string)>)
    requires Representable(pairs)
    requires var d := ToMap(pairs);
      "sec" in d && d["sec"] == cfg.secret && forall k | k in Required :: k in d
    ensures Ingest(cfg, cfg.urlToken, Serialize(pairs))
      == Success(Accepted(ToMap(pairs), Serialize(pairs)))
  {
    SerializeStripped(pairs);
    RoundTrip(pairs);
    assert Serialize(pairs) != [];
  }
}

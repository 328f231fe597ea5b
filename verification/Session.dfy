/** The signed session cookie: base64url(json) "." base64url(mac). The JSON
    codec and the MAC are parameters. */
module Session {
  import opened Prelude
  import opened Base64Url

  datatype Codec<!P> = Codec(
    marshal: P -> seq<Byte>,
    unmarshal: seq<Byte> -> Option<P>,
    mac: string -> seq<Byte>)

  datatype Result<+P> = Ok(payload: P) | Malformed | BadSignature

  function Cookie<P>(c: Codec<P>, p: P): string
  {
    var b64 := Encode(c.marshal(p));
    b64 + "." + Encode(c.mac(b64))
  }

  /** `strings.SplitN(v, ".", 2)`: cut at the first dot. */
  function FirstDot(v: string): (n: nat)
    ensures n <= |v| && (n < |v| ==> v[n] == '.') && forall i | 0 <= i < n :: v[i] != '.'
  {
    if v == [] || v[0] == '.' then 0 else 1 + FirstDot(v[1..])
  }

  lemma SplitsAtDot(v: string, body: string, sig: string)
    requires v == body + "." + sig && forall ch | ch in body :: ch != '.'
    ensures FirstDot(v) == |body| && v[..|body|] == body && v[|body| + 1..] == sig
  {
    hide FirstDot;
    assert v[|body|] == '.';
    assert forall i | 0 <= i < |body| :: v[i] == body[i] && body[i] in body;
  }

  function Open<P>(c: Codec<P>, v: string): Result<P>
  {
    var n := FirstDot(v);
    if n == |v| then Malformed else
      var body, sig := v[..n], v[n + 1..];
      match (Decode(sig), Decode(Encode(c.mac(body))))
      case (Some(got), Some(want)) =>
        if got != want then BadSignature
        else (
          match Decode(body)
          case None => Malformed
          case Some(raw) =>
            match c.unmarshal(raw)
            case None => Malformed
            case Some(p) => Ok(p))
      case _ => Malformed
  }

  /** Cookie round trip: the base64url alphabet has no dot, so the cookie splits
      where it was joined and opens to what was sealed. */
  lemma OpenCookie<P>(c: Codec<P>, p: P)
    requires c.unmarshal(c.marshal(p)) == Some(p)
    ensures Open(c, Cookie(c, p)) == Ok(p)
  {
    hide Encode, Decode;
    var b64 := Encode(c.marshal(p));
    var sig := Encode(c.mac(b64));
    var v := Cookie(c, p);
    var n := FirstDot(v);
    assert v[|b64|] == '.';
    assert forall i | 0 <= i < |b64| :: v[i] == b64[i] && b64[i] in b64;
    assert n == |b64|;
    assert v[..n] == b64 && v[n + 1..] == sig;
    DecodeEncode(c.marshal(p));
    DecodeEncode(c.mac(b64));
  }

  /** A cookie opens exactly when it is some text, a dot and a signature that
      decodes to that text's MAC, and the text decodes to a payload: nothing
      is accepted whose body the MAC does not cover. */
  lemma OpensIffSigned<P>(c: Codec<P>, v: string, p: P)
    ensures Open(c, v) == Ok(p) <==>
            exists body: string, sig: string ::
              && v == body + "." + sig && (forall ch | ch in body :: ch != '.')
              && Decode(sig) == Some(c.mac(body))
              && Decode(body).Some? && c.unmarshal(Decode(body).value) == Some(p)
  {
    hide Encode, Decode, FirstDot;
    var n := FirstDot(v);
    if Open(c, v) == Ok(p) {
      DecodeEncode(c.mac(v[..n]));
      assert v == v[..n] + "." + v[n + 1..];
    }
    if body: string, sig: string :|
      && v == body + "." + sig && (forall ch | ch in body :: ch != '.')
      && Decode(sig) == Some(c.mac(body))
      && Decode(body).Some? && c.unmarshal(Decode(body).value) == Some(p)
    {
      SplitsAtDot(v, body, sig);
      DecodeEncode(c.mac(body));
    }
  }

  /** What a refused cookie is told: bad signature exactly when there is a dot and
      a signature that decodes to something else than the MAC; malformed in all
      other cases. */
  lemma RefusedBecause<P>(c: Codec<P>, v: string)
    ensures Open(c, v) == BadSignature <==>
            exists body: string, sig: string ::
              && v == body + "." + sig && (forall ch | ch in body :: ch != '.')
              && Decode(sig).Some? && Decode(sig).value != c.mac(body)
  {
    hide Encode, Decode, FirstDot;
    var n := FirstDot(v);
    if n < |v| {
      DecodeEncode(c.mac(v[..n]));
      assert v == v[..n] + "." + v[n + 1..];
    }
    if body: string, sig: string :|
      && v == body + "." + sig && (forall ch | ch in body :: ch != '.')
      && Decode(sig).Some? && Decode(sig).value != c.mac(body)
    {
      SplitsAtDot(v, body, sig);
    }
  }

  /** The cookie is the encoded payload, a dot, and the encoded MAC of the text
      before the dot. */
  lemma CookieMeans<P>(c: Codec<P>, p: P)
    ensures exists body: string, sig: string ::
              && Cookie(c, p) == body + "." + sig && (forall ch | ch in body :: ch != '.')
              && Decode(body) == Some(c.marshal(p)) && Decode(sig) == Some(c.mac(body))
  {
    hide Encode, Decode;
    var body := Encode(c.marshal(p));
    DecodeEncode(c.marshal(p));
    DecodeEncode(c.mac(body));
    assert Cookie(c, p) == body + "." + Encode(c.mac(body));
  }
}

/** The HTTP Basic authentication guarding `GET /ota`: the expected credential
    built by `http_auth_basic`, the `strncmp` the handler compares with, and
    the handler's two responses. */
module BasicAuth {
  import opened Common
  import Base64

  const Username := "admin"
  const Password := "admin"

  /** `user_info[128]`, `digest[512]` and `auth_buffer[512]`. */
  const UserInfoSize := 128
  const DigestSize := 512
  const AuthBufferSize := 512

  const BasicPrefix := "Basic "
  const Challenge := "Basic realm=\"Hello\""

  /** The octets a C `char` string holds. */
  function Octets(s: string): (r: seq<byte>)
    requires IsByteString(s)
    ensures |r| == |s|
    ensures forall i :: 0 <= i < |s| ==> r[i] == s[i] as int
  {
    if |s| == 0 then [] else [s[0] as int] + Octets(s[1..])
  }

  /** `sprintf(user_info, "%s:%s", username, password)`. */
  function UserInfo(user: string, pass: string): string {
    user + ":" + pass
  }

  /** What `esp_crypto_base64_encode` reports as the size it needs for `len`
      octets: the encoded text plus its terminator. */
  function RequiredSize(len: nat): nat {
    Base64.EncodedLength(len) + 1
  }

  /** `http_auth_basic`: "Basic " followed by the Base 64 text of
      `user:pass` (section 2 of RFC 7617). The digest buffer is written only
      when the text fits; with `user_info` bounded by its 128-byte buffer it
      always does, so the result decodes back to the user-pass pair. */
  function HttpAuthBasic(user: string, pass: string): (digest: string)
    requires NoNul(user) && NoNul(pass)
    requires IsByteString(user) && IsByteString(pass)
    requires |UserInfo(user, pass)| < UserInfoSize
    ensures |digest| >= |BasicPrefix| && digest[..|BasicPrefix|] == BasicPrefix
    ensures NoNul(digest)
    ensures Base64.Decode(digest[|BasicPrefix|..]) == Some(Octets(UserInfo(user, pass)))
  {
    var info := UserInfo(user, pass);
    var n := RequiredSize(|info|);
    if DigestSize > |BasicPrefix| + n + 1 then
      var digest := BasicPrefix + Base64.Encode(Octets(info));
      NoNulAppend(BasicPrefix, Base64.Encode(Octets(info)));
      assert digest[|BasicPrefix|..] == Base64.Encode(Octets(info));
      Base64.DecodeEncode(Octets(info));
      digest
    else
      // the static digest buffer is never written and stays all zeros
      []
  }

  /** The credential the handler accepts. */
  function ExpectedCredential(): string {
    HttpAuthBasic(Username, Password)
  }

  /** The size check in `http_auth_basic` always passes. */
  lemma DigestIsEncoding(user: string, pass: string)
    requires NoNul(user) && NoNul(pass)
    requires IsByteString(user) && IsByteString(pass)
    requires |UserInfo(user, pass)| < UserInfoSize
    ensures HttpAuthBasic(user, pass) == BasicPrefix + Base64.Encode(Octets(UserInfo(user, pass)))
  {
  }

  /** The octets of "admin:admin". */
  lemma AdminOctets()
    ensures Octets(UserInfo(Username, Password)) == [97, 100, 109, 105, 110, 58, 97, 100, 109, 105, 110]
  {
  }

  /** `s[k]` of a C buffer, reading the terminator past the end. */
  function CharAt(s: string, k: nat): char {
    if k < |s| then s[k] else Nul
  }

  /** `strncmp(a, b, n) == 0`, scanning from position `k`: equal up to the
      first terminator or the first `n` characters, whichever comes first. */
  predicate StrNEqualFrom(a: string, b: string, n: nat, k: nat)
    decreases n - k
  {
    k >= n || (CharAt(a, k) == CharAt(b, k) && (CharAt(a, k) == Nul || StrNEqualFrom(a, b, n, k + 1)))
  }

  predicate StrNEqual(a: string, b: string, n: nat) {
    StrNEqualFrom(a, b, n, 0)
  }

  /** Comparing a C string with a buffer over the buffer's length plus its
      terminator is equality with the string the buffer holds. */
  lemma {:induction false} StrNEqualFromIsSuffixEquality(a: string, b: string, k: nat)
    requires NoNul(a)
    requires k <= |CString(b)| && k <= |a|
    ensures StrNEqualFrom(a, b, |b| + 1, k) <==> a[k..] == CString(b)[k..]
    decreases |CString(b)| - k
  {
    var c := CString(b);
    if k < |c| && k < |a| && a[k] == c[k] {
      StrNEqualFromIsSuffixEquality(a, b, k + 1);
      assert a[k..] == [a[k]] + a[k + 1..];
      assert c[k..] == [c[k]] + c[k + 1..];
    } else if k < |c| && k < |a| {
      assert a[k..][0] != c[k..][0];
    } else if k < |c| {
      assert c[k..] != [];
    } else if k < |a| {
      assert a[k..] != [];
    }
  }

  lemma StrNEqualIsCStringEquality(a: string, b: string)
    requires NoNul(a)
    ensures StrNEqual(a, b, |b| + 1) <==> a == CString(b)
  {
    StrNEqualFromIsSuffixEquality(a, b, 0);
  }

  datatype Body = NoBody | OtaPage

  /** What the handler sends back: status line, the challenge header (on a
      refusal), the body, and the handler's own return code. */
  datatype AuthResponse = AuthResponse(status: int, keepAlive: bool, challenge: Option<string>, body: Body, result: EspErr)

  /** `basic_auth_get_handler` for the `Authorization` header, `None` when the
      request carries none. */
  function BasicAuthGet(header: Option<string>): (r: AuthResponse)
    ensures r.status == Http200 <==>
              header.Some? && 1 <= |header.value| < AuthBufferSize && CString(header.value) == ExpectedCredential()
    ensures r.status == Http200 ==> r.body == OtaPage && r.challenge == None
    ensures r.status != Http200 ==> r.status == Http401 && r.challenge == Some(Challenge) && r.body == NoBody
    ensures header.Some? && NoNul(header.value) ==>
              (r.status == Http200 <==> 1 <= |header.value| < AuthBufferSize && header.value == ExpectedCredential())
    ensures r.keepAlive && r.result == EspOk
  {
    var value := if header.Some? then header.value else "";
    var bufLen := |value| + 1;
    var expected := ExpectedCredential();
    StrNEqualIsCStringEquality(expected, value);
    CStringOfNoNul(value);
    if bufLen > 1 && bufLen <= AuthBufferSize && StrNEqual(expected, value, bufLen) then
      AuthResponse(Http200, true, None, OtaPage, EspOk)
    else
      AuthResponse(Http401, true, Some(Challenge), NoBody, EspOk)
  }
}

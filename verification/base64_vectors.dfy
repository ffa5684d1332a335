/** Known answers for the Base 64 encoder: the test vectors of section 10 of
    RFC 4648 and the credential the firmware accepts. */
module Base64Vectors {
  import opened Common
  import opened Base64
  import BasicAuth

  /** An encoding that is one full group followed by the rest. */
  lemma EncodeSplit(s: seq<byte>, group: string, rest: string)
    requires |s| >= 3 && EncodeGroup(s[0], s[1], s[2]) == group && Encode(s[3..]) == rest
    ensures Encode(s) == group + rest
  {
    EncodeFirstGroup(s);
  }

  lemma GroupFoo()
    ensures EncodeGroup(102, 111, 111) == "Zm9v"
  {
    assert 102 / 4 == 25 && (102 % 4) * 16 + 111 / 16 == 38;
    assert (111 % 16) * 4 + 111 / 64 == 61 && 111 % 64 == 47;
    assert ValueToChar(25) == 'Z';
    assert ValueToChar(38) == 'm';
    assert ValueToChar(61) == '9';
    assert ValueToChar(47) == 'v';
  }

  lemma GroupBar()
    ensures EncodeGroup(98, 97, 114) == "YmFy"
  {
    assert 98 / 4 == 24 && (98 % 4) * 16 + 97 / 16 == 38;
    assert (97 % 16) * 4 + 114 / 64 == 5 && 114 % 64 == 50;
    assert ValueToChar(24) == 'Y';
    assert ValueToChar(38) == 'm';
    assert ValueToChar(5) == 'F';
    assert ValueToChar(50) == 'y';
  }

  lemma GroupAdm()
    ensures EncodeGroup(97, 100, 109) == "YWRt"
  {
    assert 97 / 4 == 24 && (97 % 4) * 16 + 100 / 16 == 22;
    assert (100 % 16) * 4 + 109 / 64 == 17 && 109 % 64 == 45;
    assert ValueToChar(24) == 'Y';
    assert ValueToChar(22) == 'W';
    assert ValueToChar(17) == 'R';
    assert ValueToChar(45) == 't';
  }

  lemma GroupIn()
    ensures EncodeGroup(105, 110, 58) == "aW46"
  {
    assert 105 / 4 == 26 && (105 % 4) * 16 + 110 / 16 == 22;
    assert (110 % 16) * 4 + 58 / 64 == 56 && 58 % 64 == 58;
    assert ValueToChar(26) == 'a';
    assert ValueToChar(22) == 'W';
    assert ValueToChar(56) == '4';
    assert ValueToChar(58) == '6';
  }

  /** A final quantum of one octet. */
  lemma EncodeOne(b: byte, c0: char, c1: char)
    requires ValueToChar(b / 4) == c0 && ValueToChar((b % 4) * 16) == c1
    ensures Encode([b]) == [c0, c1, Pad, Pad]
  {
  }

  /** A final quantum of two octets. */
  lemma EncodeTwo(b0: byte, b1: byte, c0: char, c1: char, c2: char)
    requires ValueToChar(b0 / 4) == c0 && ValueToChar((b0 % 4) * 16 + b1 / 16) == c1
    requires ValueToChar((b1 % 16) * 4) == c2
    ensures Encode([b0, b1]) == [c0, c1, c2, Pad]
  {
  }

  /** "", "f", "fo" (section 10 of RFC 4648). */
  lemma PaddedVectors()
    ensures Encode([]) == ""
    ensures Encode([102]) == "Zg=="
    ensures Encode([102, 111]) == "Zm8="
  {
    assert ValueToChar(25) == 'Z' && ValueToChar(32) == 'g';
    EncodeOne(102, 'Z', 'g');
    assert ValueToChar(38) == 'm' && ValueToChar(60) == '8';
    EncodeTwo(102, 111, 'Z', 'm', '8');
  }

  lemma TailVectors()
    ensures Encode([98]) == "Yg=="
    ensures Encode([98, 97]) == "YmE="
    ensures Encode([105, 110]) == "aW4="
  {
    assert ValueToChar(24) == 'Y' && ValueToChar(32) == 'g';
    EncodeOne(98, 'Y', 'g');
    assert ValueToChar(38) == 'm' && ValueToChar(4) == 'E';
    EncodeTwo(98, 97, 'Y', 'm', 'E');
    assert ValueToChar(26) == 'a' && ValueToChar(22) == 'W' && ValueToChar(56) == '4';
    EncodeTwo(105, 110, 'a', 'W', '4');
  }

  /** "foo" (section 10 of RFC 4648). */
  lemma FooVector()
    ensures Encode([102, 111, 111]) == "Zm9v"
  {
    GroupFoo();
    var foo: seq<byte> := [102, 111, 111];
    assert foo[3..] == [];
    EncodeSplit(foo, "Zm9v", "");
  }

  /** "foob" (section 10 of RFC 4648). */
  lemma FoobVector()
    ensures Encode([102, 111, 111, 98]) == "Zm9vYg=="
  {
    GroupFoo();
    assert ValueToChar(24) == 'Y' && ValueToChar(32) == 'g';
    EncodeOne(98, 'Y', 'g');
    var foob: seq<byte> := [102, 111, 111, 98];
    assert foob[3..] == [98];
    EncodeSplit(foob, "Zm9v", "Yg==");
  }

  /** "fooba" (section 10 of RFC 4648). */
  lemma FoobaVector()
    ensures Encode([102, 111, 111, 98, 97]) == "Zm9vYmE="
  {
    GroupFoo();
    assert ValueToChar(24) == 'Y' && ValueToChar(38) == 'm' && ValueToChar(4) == 'E';
    EncodeTwo(98, 97, 'Y', 'm', 'E');
    var fooba: seq<byte> := [102, 111, 111, 98, 97];
    assert fooba[3..] == [98, 97];
    EncodeSplit(fooba, "Zm9v", "YmE=");
  }

  /** "foobar" (section 10 of RFC 4648). */
  lemma FoobarVector()
    ensures Encode([102, 111, 111, 98, 97, 114]) == "Zm9vYmFy"
  {
    GroupFoo();
    GroupBar();
    var bar: seq<byte> := [98, 97, 114];
    assert bar[3..] == [];
    EncodeSplit(bar, "YmFy", "");
    var foobar: seq<byte> := [102, 111, 111, 98, 97, 114];
    assert foobar[3..] == bar;
    EncodeSplit(foobar, "Zm9v", "YmFy");
  }

  lemma EncodeAdmin()
    ensures Encode([97, 100, 109, 105, 110, 58, 97, 100, 109, 105, 110]) == "YWRtaW46YWRtaW4="
  {
    GroupAdm();
    GroupIn();
    TailVectors();
    var octets: seq<byte> := [97, 100, 109, 105, 110, 58, 97, 100, 109, 105, 110];
    var tail := octets[6..];
    assert tail[3..] == [105, 110];
    EncodeSplit(tail, "YWRt", "aW4=");
    assert octets[3..][3..] == tail;
    EncodeSplit(octets[3..], "aW46", "YWRtaW4=");
    EncodeSplit(octets, "YWRt", "aW46YWRtaW4=");
  }

  /** The credential `basic_auth_get_handler` accepts: "admin:admin" in
      Base 64 after the "Basic " scheme name. */
  lemma ExpectedCredentialValue()
    ensures BasicAuth.ExpectedCredential() == "Basic YWRtaW46YWRtaW4="
  {
    AdminDigest();
    AdminEncoding();
    PrefixAdmin();
  }

  /** The admin credential is the scheme name before the encoded user info. */
  lemma AdminDigest()
    ensures BasicAuth.ExpectedCredential()
         == BasicAuth.BasicPrefix + Encode(BasicAuth.Octets(BasicAuth.UserInfo(BasicAuth.Username, BasicAuth.Password)))
  {
    BasicAuth.DigestIsEncoding(BasicAuth.Username, BasicAuth.Password);
  }

  /** "admin:admin" encodes to "YWRtaW46YWRtaW4=". */
  lemma AdminEncoding()
    ensures Encode(BasicAuth.Octets(BasicAuth.UserInfo(BasicAuth.Username, BasicAuth.Password))) == "YWRtaW46YWRtaW4="
  {
    BasicAuth.AdminOctets();
    EncodeAdmin();
  }

  lemma PrefixAdmin()
    ensures BasicAuth.BasicPrefix + "YWRtaW46YWRtaW4=" == "Basic YWRtaW46YWRtaW4="
  {
  }

  /** The handler lets the admin credential through to the OTA page. */
  lemma AdminHeaderAccepted()
    ensures BasicAuth.BasicAuthGet(Some("Basic YWRtaW46YWRtaW4=")).status == Http200
  {
    ExpectedCredentialValue();
    var good := "Basic YWRtaW46YWRtaW4=";
    assert NoNul(good);
  }
}

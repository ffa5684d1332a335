/** The configuration endpoint `POST /` (`led_handler`): one receive of at most
    200 bytes, then a hand-written scan of the received bytes that recognises
    three request shapes: a leading `H` (both channels full on), a leading `L`
    (both off) and `{"ssid": "...", "psk": "..."}` (new station credentials).

    The receive buffer is not terminated, so a scan that reaches past the
    bytes actually received reads stale memory; the model reports that as
    `ReadsPastReceived` instead of guessing those bytes. */
module ConfigRequest {
  import opened Common

  /** `char content[200]`. */
  const ContentBufferSize := 200

  const SsidPrefix := "{\"ssid\": \""
  const PskInfix := "\", \"psk\": \""
  const Quote: char := '"'

  /** `new_ssid[33]` and `new_pass[64]`: room for the longest SSID (32 bytes)
      and passphrase (63 bytes) the log messages promise, plus a terminator. */
  const SsidBufferSize := 33
  const PassBufferSize := 64
  const MaxSsidLength := 32
  const MaxPassLength := 63

  /** `httpd_req_recv` reported a receive timeout. */
  const SockErrTimeout := -3

  const FullLevel := 255
  const OffLevel := 0

  datatype Comparison = Matches | Differs | Overrun

  /** `strncmp(content + pos, pat, |pat|) == 0` over the received bytes:
      `Overrun` when the comparison would need a byte past them. */
  function MatchAt(content: string, pos: nat, pat: string): (r: Comparison)
    requires pos <= |content|
    ensures r == Matches <==> pos + |pat| <= |content| && content[pos..pos + |pat|] == pat
    ensures r == Overrun <==> |content| < pos + |pat| && content[pos..] == pat[..|content| - pos]
    decreases |pat|
  {
    if |pat| == 0 then Matches
    else if pos == |content| then Overrun
    else if content[pos] != pat[0] then Differs
    else
      var r := MatchAt(content, pos + 1, pat[1..]);
      assert content[pos..] == [content[pos]] + content[pos + 1..];
      assert pos + |pat| <= |content| ==> content[pos..pos + |pat|] == [content[pos]] + content[pos + 1..pos + |pat|];
      r
  }

  datatype Scan = Stopped(length: nat, quoted: bool) | ScanOverrun

  /** The copy loop `while (*ptr != '"' && i < limit)` starting at `start`
      with counter `i`, together with the `*ptr != '"'` test after it: the
      loop reads the byte at the stop position in both cases. */
  function ScanFrom(content: string, start: nat, limit: nat, i: nat): (r: Scan)
    requires i <= limit
    ensures r.Stopped? ==>
              && i <= r.length <= limit
              && start + r.length < |content|
              && (r.quoted <==> content[start + r.length] == Quote)
              && (!r.quoted ==> r.length == limit)
              && forall k :: start + i <= k < start + r.length ==> content[k] != Quote
    ensures r.ScanOverrun? ==>
              && |content| <= start + limit
              && forall k :: start + i <= k < |content| ==> content[k] != Quote
    decreases limit - i
  {
    if start + i >= |content| then ScanOverrun
    else if content[start + i] == Quote || i == limit then Stopped(i, content[start + i] == Quote)
    else ScanFrom(content, start, limit, i + 1)
  }

  /** What one request body asks for. */
  datatype Request =
    | AllHigh
    | AllLow
    | NewCredentials(ssid: string, psk: string)
    | SsidTooLong
    | PskMissing
    | PskTooLong
    | Unrecognized
    | ReadsPastReceived

  /** The dispatch of `led_handler` with the copy loops bounded by
      `ssidLimit` and `passLimit`. */
  function ParseWith(content: string, ssidLimit: nat, passLimit: nat): (r: Request)
    requires |content| >= 1
    ensures r.NewCredentials? ==> |r.ssid| <= ssidLimit && |r.psk| <= passLimit
    ensures r.NewCredentials? ==> NoNul(r.ssid) && NoNul(r.psk)
    ensures r.NewCredentials? || r.SsidTooLong? || r.PskMissing? || r.PskTooLong? ==>
              |SsidPrefix| <= |content| && content[..|SsidPrefix|] == SsidPrefix
  {
    if content[0] == 'H' then AllHigh
    else if content[0] == 'L' then AllLow
    else
      match MatchAt(content, 0, SsidPrefix)
      case Overrun => ReadsPastReceived
      case Differs => Unrecognized
      case Matches => ParseSsid(content, ssidLimit, passLimit)
  }

  /** After the SSID prefix: copy the SSID field, then expect the passphrase
      key. */
  function ParseSsid(content: string, ssidLimit: nat, passLimit: nat): (r: Request)
    requires |SsidPrefix| <= |content|
    ensures r.NewCredentials? ==> |r.ssid| <= ssidLimit && |r.psk| <= passLimit
    ensures r.NewCredentials? ==> NoNul(r.ssid) && NoNul(r.psk)
    ensures r.NewCredentials? || r.SsidTooLong? || r.PskMissing? || r.PskTooLong? || r.ReadsPastReceived?
  {
    var start := |SsidPrefix|;
    match ScanFrom(content, start, ssidLimit, 0)
    case ScanOverrun => ReadsPastReceived
    case Stopped(n, quoted) =>
      if !quoted then SsidTooLong
      else
        match MatchAt(content, start + n, PskInfix)
        case Overrun => ReadsPastReceived
        case Differs => PskMissing
        case Matches => ParsePsk(content, CString(content[start..start + n]), start + n + |PskInfix|, passLimit)
  }

  /** After the passphrase key: copy the passphrase field. The copied fields
      are handed to `strcpy`, which stops at the first terminator. */
  function ParsePsk(content: string, ssid: string, pstart: nat, passLimit: nat): (r: Request)
    requires pstart <= |content|
    ensures r.NewCredentials? ==> r.ssid == ssid && |r.psk| <= passLimit && NoNul(r.psk)
    ensures r.NewCredentials? || r.PskTooLong? || r.ReadsPastReceived?
  {
    match ScanFrom(content, pstart, passLimit, 0)
    case ScanOverrun => ReadsPastReceived
    case Stopped(m, quoted) =>
      if !quoted then PskTooLong
      else NewCredentials(ssid, CString(content[pstart..pstart + m]))
  }

  /** The parser as the source writes it: the loops run while `i < 33` and
      `i < 64`, the sizes of the buffers rather than the longest contents. */
  function ParseAsWritten(content: string): (r: Request)
    requires |content| >= 1
    ensures r.NewCredentials? ==> |r.ssid| <= SsidBufferSize && |r.psk| <= PassBufferSize
  {
    ParseWith(content, SsidBufferSize, PassBufferSize)
  }

  /** Index at which the as-written SSID loop stores the terminator
      (`new_ssid[i] = '\0'`), when the loop stops inside the received bytes. */
  function SsidTerminatorIndex(content: string): (r: Option<nat>)
    requires |SsidPrefix| <= |content|
    ensures r.Some? ==> r.value <= SsidBufferSize
  {
    match ScanFrom(content, |SsidPrefix|, SsidBufferSize, 0)
    case Stopped(n, _) => Some(n)
    case ScanOverrun => None
  }

  /** Index at which the as-written passphrase loop stores the terminator
      (`new_pass[i] = '\0'`), when the SSID was accepted, the passphrase key
      follows it and the loop stops inside the received bytes. */
  function PskTerminatorIndex(content: string): (r: Option<nat>)
    requires |SsidPrefix| <= |content|
    ensures r.Some? ==> r.value <= PassBufferSize
  {
    var start := |SsidPrefix|;
    match ScanFrom(content, start, SsidBufferSize, 0)
    case ScanOverrun => None
    case Stopped(n, quoted) =>
      var pstart := start + n + |PskInfix|;
      if !quoted || pstart > |content| || content[start + n..pstart] != PskInfix then None
      else
        match ScanFrom(content, pstart, PassBufferSize, 0)
        case Stopped(m, _) => Some(m)
        case ScanOverrun => None
  }

  /** The parser with the loop bounds the log messages promise: at most
      32 SSID bytes and 63 passphrase bytes. */
  function Parse(content: string): (r: Request)
    requires |content| >= 1
    ensures r.NewCredentials? ==> |r.ssid| <= MaxSsidLength && |r.psk| <= MaxPassLength
    ensures r.NewCredentials? ==> NoNul(r.ssid) && NoNul(r.psk)
  {
    ParseWith(content, MaxSsidLength, MaxPassLength)
  }

  /** A credential field the scan can carry: no quote, no terminator. */
  predicate PlainField(s: string) {
    forall i :: 0 <= i < |s| ==> s[i] != Quote && s[i] != Nul
  }

  /** The request body a client sends to set new credentials. */
  function Render(ssid: string, psk: string): string {
    SsidPrefix + ssid + PskInfix + psk + [Quote]
  }

  /** A field of `n <= limit` plain bytes closed by a quote stops the loop
      on that quote. */
  lemma {:induction false} ScanStopsAtQuote(content: string, start: nat, limit: nat, i: nat, n: nat)
    requires i <= n <= limit
    requires start + n < |content| && content[start + n] == Quote
    requires forall k :: start + i <= k < start + n ==> content[k] != Quote
    ensures ScanFrom(content, start, limit, i) == Stopped(n, true)
    decreases n - i
  {
    if i < n {
      ScanStopsAtQuote(content, start, limit, i + 1, n);
    }
  }

  /** A field with no quote in its first `limit + 1` bytes stops the loop on
      its bound, unquoted. */
  lemma {:induction false} ScanStopsAtLimit(content: string, start: nat, limit: nat, i: nat)
    requires i <= limit
    requires start + limit < |content|
    requires forall k :: start + i <= k <= start + limit ==> content[k] != Quote
    ensures ScanFrom(content, start, limit, i) == Stopped(limit, false)
    decreases limit - i
  {
    if i < limit {
      ScanStopsAtLimit(content, start, limit, i + 1);
    }
  }

  /** Where the pieces of a body `{"ssid": "<ssid>", "psk": "<psk>` + tail
      sit. */
  lemma BodyLayout(ssid: string, psk: string, tail: string)
    ensures var c := SsidPrefix + ssid + PskInfix + psk + tail;
            var start := |SsidPrefix|;
            var pstart := start + |ssid| + |PskInfix|;
            && |c| == pstart + |psk| + |tail|
            && c[..start] == SsidPrefix
            && c[start..start + |ssid|] == ssid
            && c[start + |ssid|..pstart] == PskInfix
            && c[pstart..pstart + |psk|] == psk
            && c[pstart + |psk|..] == tail
  {
    var c := SsidPrefix + ssid + PskInfix + psk + tail;
    var afterSsid := PskInfix + (psk + tail);
    var afterPrefix := ssid + afterSsid;
    assert c == SsidPrefix + afterPrefix;
    assert c[|SsidPrefix|..] == afterPrefix;
    assert afterPrefix[|ssid|..] == afterSsid;
    assert afterSsid[|PskInfix|..] == psk + tail;
  }

  /** Where the pieces of a rendered body sit. */
  lemma RenderLayout(ssid: string, psk: string, rest: string)
    ensures var c := Render(ssid, psk) + rest;
            var start := |SsidPrefix|;
            var pstart := start + |ssid| + |PskInfix|;
            && |c| > pstart + |psk|
            && c[..start] == SsidPrefix
            && c[start..start + |ssid|] == ssid
            && c[start + |ssid|..pstart] == PskInfix
            && c[pstart..pstart + |psk|] == psk
            && c[pstart + |psk|] == Quote
  {
    BodyLayout(ssid, psk, [Quote] + rest);
    assert Render(ssid, psk) + rest == SsidPrefix + ssid + PskInfix + psk + ([Quote] + rest);
  }

  /** A plain field in place holds no quote. */
  lemma PlainFieldAt(c: string, start: nat, field: string)
    requires start + |field| <= |c| && c[start..start + |field|] == field && PlainField(field)
    ensures forall k :: start <= k < start + |field| ==> c[k] != Quote
  {
    forall k | start <= k < start + |field|
      ensures c[k] != Quote
    {
      assert c[k] == field[k - start];
    }
  }

  /** A plain field closed by a quote is copied whole by a loop bounded at
      least by its length. */
  lemma FieldAccepted(content: string, start: nat, limit: nat, field: string)
    requires start + |field| < |content| && content[start..start + |field|] == field
    requires content[start + |field|] == Quote
    requires PlainField(field) && |field| <= limit
    ensures ScanFrom(content, start, limit, 0) == Stopped(|field|, true)
    ensures CString(content[start..start + |field|]) == field
  {
    PlainFieldAt(content, start, field);
    ScanStopsAtQuote(content, start, limit, 0, |field|);
    assert NoNul(field);
    CStringOfNoNul(field);
  }

  /** A body opening with the SSID prefix goes on to the SSID field. */
  lemma PrefixStage(content: string, ssidLimit: nat, passLimit: nat)
    requires |SsidPrefix| <= |content| && content[..|SsidPrefix|] == SsidPrefix
    ensures ParseWith(content, ssidLimit, passLimit) == ParseSsid(content, ssidLimit, passLimit)
  {
    assert content[0] == SsidPrefix[0];
    assert content[0..|SsidPrefix|] == SsidPrefix;
  }

  /** A quoted SSID followed by the passphrase key goes on to the
      passphrase field. */
  lemma SsidStage(content: string, ssid: string, ssidLimit: nat, passLimit: nat)
    requires |SsidPrefix| + |ssid| + |PskInfix| <= |content|
    requires ScanFrom(content, |SsidPrefix|, ssidLimit, 0) == Stopped(|ssid|, true)
    requires CString(content[|SsidPrefix|..|SsidPrefix| + |ssid|]) == ssid
    requires content[|SsidPrefix| + |ssid|..|SsidPrefix| + |ssid| + |PskInfix|] == PskInfix
    ensures ParseSsid(content, ssidLimit, passLimit) ==
            ParsePsk(content, ssid, |SsidPrefix| + |ssid| + |PskInfix|, passLimit)
  {
    assert MatchAt(content, |SsidPrefix| + |ssid|, PskInfix) == Matches;
  }

  /** Parsing with any bounds at least as large as the fields recovers them
      from a rendered body, whatever follows it. */
  lemma ParseWithRender(ssid: string, psk: string, rest: string, ssidLimit: nat, passLimit: nat)
    requires PlainField(ssid) && PlainField(psk)
    requires |ssid| <= ssidLimit && |psk| <= passLimit
    ensures ParseWith(Render(ssid, psk) + rest, ssidLimit, passLimit) == NewCredentials(ssid, psk)
  {
    assert NoNul(ssid) && NoNul(psk);
    CStringOfNoNul(ssid);
    CStringOfNoNul(psk);
    ShapeParses(Render(ssid, psk) + rest, ssid, psk, rest, ssidLimit, passLimit);
  }

  /** Every SSID of at most 32 plain bytes and passphrase of at most 63
      round-trips through the request body. */
  lemma ParseRender(ssid: string, psk: string, rest: string)
    requires PlainField(ssid) && PlainField(psk)
    requires |ssid| <= MaxSsidLength && |psk| <= MaxPassLength
    ensures Parse(Render(ssid, psk) + rest) == NewCredentials(ssid, psk)
  {
    ParseWithRender(ssid, psk, rest, MaxSsidLength, MaxPassLength);
  }

  /** A field the copy loop runs over without meeting its closing quote. */
  predicate QuoteFree(s: string) {
    forall i :: 0 <= i < |s| ==> s[i] != Quote
  }

  /** `content` is a full credential body: the SSID prefix, a quote-free
      SSID field of at most `ssidLimit` bytes, the passphrase key, a
      quote-free passphrase field of at most `passLimit` bytes and its
      closing quote, followed by anything. */
  predicate CredentialShape(content: string, fs: string, fp: string, rest: string, ssidLimit: nat, passLimit: nat) {
    && QuoteFree(fs) && |fs| <= ssidLimit
    && QuoteFree(fp) && |fp| <= passLimit
    && content == Render(fs, fp) + rest
  }

  /** The copy loop runs over a quote-free field in place and stops on the
      quote that closes it. */
  lemma FieldScan(c: string, start: nat, field: string, limit: nat)
    requires |field| <= limit && QuoteFree(field)
    requires start + |field| < |c| && c[start..start + |field|] == field && c[start + |field|] == Quote
    ensures ScanFrom(c, start, limit, 0) == Stopped(|field|, true)
  {
    forall k | start <= k < start + |field|
      ensures c[k] != Quote
    {
      assert c[k] == field[k - start];
    }
    ScanStopsAtQuote(c, start, limit, 0, |field|);
  }

  /** Every full credential body is accepted, with the fields as `strcpy`
      copies them: up to their first terminator. */
  lemma ShapeParses(content: string, fs: string, fp: string, rest: string, ssidLimit: nat, passLimit: nat)
    requires CredentialShape(content, fs, fp, rest, ssidLimit, passLimit)
    ensures ParseWith(content, ssidLimit, passLimit) == NewCredentials(CString(fs), CString(fp))
  {
    RenderLayout(fs, fp, rest);
    FieldsParse(content, fs, |SsidPrefix| + |fs| + |PskInfix|, fp, ssidLimit, passLimit);
  }

  /** The same, from the layout of the body: the prefix, the quote-free
      SSID field, the passphrase key, the quote-free passphrase field and
      its closing quote at their offsets. */
  lemma FieldsParse(c: string, fs: string, pstart: nat, fp: string, ssidLimit: nat, passLimit: nat)
    requires QuoteFree(fs) && |fs| <= ssidLimit && QuoteFree(fp) && |fp| <= passLimit
    requires pstart == |SsidPrefix| + |fs| + |PskInfix| && |c| > pstart + |fp|
    requires c[..|SsidPrefix|] == SsidPrefix
    requires c[|SsidPrefix|..|SsidPrefix| + |fs|] == fs
    requires c[|SsidPrefix| + |fs|..pstart] == PskInfix
    requires c[pstart..pstart + |fp|] == fp && c[pstart + |fp|] == Quote
    ensures ParseWith(c, ssidLimit, passLimit) == NewCredentials(CString(fs), CString(fp))
  {
    assert c[|SsidPrefix| + |fs|] == PskInfix[0] == Quote;
    FieldScan(c, |SsidPrefix|, fs, ssidLimit);
    FieldScan(c, pstart, fp, passLimit);
    PrefixStage(c, ssidLimit, passLimit);
    SsidFieldStage(c, fs, pstart, ssidLimit, passLimit);
    PskFieldStage(c, CString(fs), pstart, fp, passLimit);
  }

  /** A quoted SSID field `fs` followed by the passphrase key goes on to the
      passphrase field at `pstart` with the copied SSID. */
  lemma SsidFieldStage(content: string, fs: string, pstart: nat, ssidLimit: nat, passLimit: nat)
    requires pstart == |SsidPrefix| + |fs| + |PskInfix| && pstart <= |content|
    requires content[|SsidPrefix|..|SsidPrefix| + |fs|] == fs
    requires ScanFrom(content, |SsidPrefix|, ssidLimit, 0) == Stopped(|fs|, true)
    requires MatchAt(content, |SsidPrefix| + |fs|, PskInfix) == Matches
    ensures ParseSsid(content, ssidLimit, passLimit) == ParsePsk(content, CString(fs), pstart, passLimit)
  {
    var n := ScanFrom(content, |SsidPrefix|, ssidLimit, 0).length;
    assert content[|SsidPrefix|..|SsidPrefix| + n] == fs;
    assert |SsidPrefix| + n + |PskInfix| == pstart;
  }

  /** A quoted passphrase field `fp` at `pstart` completes the request. */
  lemma PskFieldStage(content: string, ssid: string, pstart: nat, fp: string, passLimit: nat)
    requires pstart + |fp| <= |content| && content[pstart..pstart + |fp|] == fp
    requires ScanFrom(content, pstart, passLimit, 0) == Stopped(|fp|, true)
    ensures ParsePsk(content, ssid, pstart, passLimit) == NewCredentials(ssid, CString(fp))
  {
  }

  /** Only a full credential body is accepted: accepted credentials come
      from the two fields of such a body. */
  lemma ParseWithAccepted(content: string, ssidLimit: nat, passLimit: nat)
    requires |content| >= 1
    ensures ParseWith(content, ssidLimit, passLimit).NewCredentials? ==>
              exists fs, fp, rest ::
                && CredentialShape(content, fs, fp, rest, ssidLimit, passLimit)
                && ParseWith(content, ssidLimit, passLimit) == NewCredentials(CString(fs), CString(fp))
  {
    if ParseWith(content, ssidLimit, passLimit).NewCredentials? {
      var fs, fp, rest := AcceptedShape(content, ssidLimit, passLimit);
    }
  }

  /** The fields of an accepted body. */
  lemma AcceptedShape(content: string, ssidLimit: nat, passLimit: nat) returns (fs: string, fp: string, rest: string)
    requires |content| >= 1 && ParseWith(content, ssidLimit, passLimit).NewCredentials?
    ensures CredentialShape(content, fs, fp, rest, ssidLimit, passLimit)
    ensures ParseWith(content, ssidLimit, passLimit) == NewCredentials(CString(fs), CString(fp))
  {
    PrefixStage(content, ssidLimit, passLimit);
    fs := AcceptedSsid(content, ssidLimit, passLimit);
    var pstart := SsidFieldOf(content, fs, ssidLimit, passLimit);
    fp := AcceptedPsk(content, CString(fs), pstart, passLimit);
    rest := Reassemble(content, fs, pstart, fp);
  }

  /** An accepted body has a quoted SSID field `fs` followed by the
      passphrase key. */
  lemma AcceptedSsid(content: string, ssidLimit: nat, passLimit: nat) returns (fs: string)
    requires |SsidPrefix| <= |content| && ParseSsid(content, ssidLimit, passLimit).NewCredentials?
    ensures |SsidPrefix| + |fs| <= |content| && content[|SsidPrefix|..|SsidPrefix| + |fs|] == fs
    ensures ScanFrom(content, |SsidPrefix|, ssidLimit, 0) == Stopped(|fs|, true)
    ensures MatchAt(content, |SsidPrefix| + |fs|, PskInfix) == Matches
  {
    var n := ScanFrom(content, |SsidPrefix|, ssidLimit, 0).length;
    fs := content[|SsidPrefix|..|SsidPrefix| + n];
  }

  /** After a quoted SSID field `fs` and the passphrase key, the parse goes
      on at `pstart` with the field's C string. */
  lemma SsidFieldOf(content: string, fs: string, ssidLimit: nat, passLimit: nat) returns (pstart: nat)
    requires |SsidPrefix| + |fs| <= |content| && content[|SsidPrefix|..|SsidPrefix| + |fs|] == fs
    requires ScanFrom(content, |SsidPrefix|, ssidLimit, 0) == Stopped(|fs|, true)
    requires MatchAt(content, |SsidPrefix| + |fs|, PskInfix) == Matches
    ensures |fs| <= ssidLimit && QuoteFree(fs)
    ensures pstart == |SsidPrefix| + |fs| + |PskInfix| <= |content|
    ensures content[|SsidPrefix| + |fs|..pstart] == PskInfix
    ensures ParseSsid(content, ssidLimit, passLimit) == ParsePsk(content, CString(fs), pstart, passLimit)
  {
    pstart := |SsidPrefix| + |fs| + |PskInfix|;
    QuoteFreeSlice(content, |SsidPrefix|, |SsidPrefix| + |fs|);
    SsidFieldStage(content, fs, pstart, ssidLimit, passLimit);
  }

  /** An accepted passphrase field `fp` is quote-free and closed by a quote,
      and the credentials carry its C string. */
  lemma AcceptedPsk(content: string, ssid: string, pstart: nat, passLimit: nat) returns (fp: string)
    requires pstart <= |content| && ParsePsk(content, ssid, pstart, passLimit).NewCredentials?
    ensures |fp| <= passLimit && QuoteFree(fp) && pstart + |fp| < |content|
    ensures content[pstart..pstart + |fp|] == fp && content[pstart + |fp|] == Quote
    ensures ParsePsk(content, ssid, pstart, passLimit) == NewCredentials(ssid, CString(fp))
  {
    var m := ScanFrom(content, pstart, passLimit, 0).length;
    fp := content[pstart..pstart + m];
    QuoteFreeSlice(content, pstart, pstart + m);
  }

  /** A stretch with no quote is a quote-free field. */
  lemma QuoteFreeSlice(c: string, a: nat, b: nat)
    requires a <= b <= |c|
    requires forall k :: a <= k < b ==> c[k] != Quote
    ensures QuoteFree(c[a..b])
  {
    forall i | 0 <= i < b - a
      ensures c[a..b][i] != Quote
    {
      assert c[a..b][i] == c[a + i];
    }
  }

  /** A body with the prefix, the two fields around the passphrase key and
      a closing quote is a rendered body followed by the rest. */
  lemma Reassemble(c: string, fs: string, pstart: nat, fp: string) returns (rest: string)
    requires pstart == |SsidPrefix| + |fs| + |PskInfix| && pstart + |fp| < |c|
    requires c[..|SsidPrefix|] == SsidPrefix
    requires c[|SsidPrefix|..|SsidPrefix| + |fs|] == fs
    requires c[|SsidPrefix| + |fs|..|SsidPrefix| + |fs| + |PskInfix|] == PskInfix
    requires c[pstart..pstart + |fp|] == fp && c[pstart + |fp|] == Quote
    ensures c == Render(fs, fp) + rest
  {
    var b := |SsidPrefix| + |fs|;
    var e := pstart + |fp|;
    rest := c[e + 1..];
    assert c == c[..|SsidPrefix|] + c[|SsidPrefix|..b] + c[b..pstart] + c[pstart..e] + [c[e]] + rest;
  }

  /** With any bounds, the parse yields credentials exactly for the full
      credential bodies within those bounds, and the credentials are the C
      strings of their two fields. */
  lemma ParseWithAccepts(content: string, ssidLimit: nat, passLimit: nat, ssid: string, psk: string)
    requires |content| >= 1
    ensures ParseWith(content, ssidLimit, passLimit) == NewCredentials(ssid, psk) <==>
            exists fs, fp, rest ::
              && CredentialShape(content, fs, fp, rest, ssidLimit, passLimit)
              && ssid == CString(fs) && psk == CString(fp)
  {
    if ParseWith(content, ssidLimit, passLimit) == NewCredentials(ssid, psk) {
      ParseWithAccepted(content, ssidLimit, passLimit);
    }
    if exists fs, fp, rest :: CredentialShape(content, fs, fp, rest, ssidLimit, passLimit) && ssid == CString(fs) && psk == CString(fp) {
      var fs, fp, rest :| CredentialShape(content, fs, fp, rest, ssidLimit, passLimit) && ssid == CString(fs) && psk == CString(fp);
      ShapeParses(content, fs, fp, rest, ssidLimit, passLimit);
    }
  }

  /** The corrected parser accepts exactly the full credential bodies with
      fields of at most 32 and 63 bytes, and returns their fields. */
  lemma ParseAccepts(content: string, ssid: string, psk: string)
    requires |content| >= 1
    ensures Parse(content) == NewCredentials(ssid, psk) <==>
            exists fs, fp, rest ::
              && CredentialShape(content, fs, fp, rest, MaxSsidLength, MaxPassLength)
              && ssid == CString(fs) && psk == CString(fp)
  {
    ParseWithAccepts(content, MaxSsidLength, MaxPassLength, ssid, psk);
  }

  /** The parser as written accepts exactly the full credential bodies with
      fields of at most 33 and 64 bytes, and returns their fields. */
  lemma ParseAsWrittenAccepts(content: string, ssid: string, psk: string)
    requires |content| >= 1
    ensures ParseAsWritten(content) == NewCredentials(ssid, psk) <==>
            exists fs, fp, rest ::
              && CredentialShape(content, fs, fp, rest, SsidBufferSize, PassBufferSize)
              && ssid == CString(fs) && psk == CString(fp)
  {
    ParseWithAccepts(content, SsidBufferSize, PassBufferSize, ssid, psk);
  }

  /** An SSID field longer than 32 bytes is refused, whatever follows. */
  lemma ParseRefusesLongSsid(field: string, rest: string)
    requires |field| > MaxSsidLength && PlainField(field)
    ensures Parse(SsidPrefix + field + rest) == SsidTooLong
  {
    var content := SsidPrefix + field + rest;
    assert content[..|SsidPrefix|] == SsidPrefix;
    assert forall k :: |SsidPrefix| <= k < |SsidPrefix| + |field| ==> content[k] == field[k - |SsidPrefix|];
    ScanStopsAtLimit(content, |SsidPrefix|, MaxSsidLength, 0);
  }

  /** A passphrase field longer than 63 bytes is refused, whatever follows. */
  lemma ParseRefusesLongPsk(ssid: string, field: string, rest: string)
    requires PlainField(ssid) && |ssid| <= MaxSsidLength
    requires |field| > MaxPassLength && PlainField(field)
    ensures Parse(SsidPrefix + ssid + PskInfix + field + rest) == PskTooLong
  {
    var content := SsidPrefix + ssid + PskInfix + field + rest;
    var start := |SsidPrefix|;
    var pstart := start + |ssid| + |PskInfix|;
    BodyLayout(ssid, field, rest);
    assert content[start + |ssid|] == PskInfix[0] == Quote;
    FieldAccepted(content, start, MaxSsidLength, ssid);
    PrefixStage(content, MaxSsidLength, MaxPassLength);
    SsidStage(content, ssid, MaxSsidLength, MaxPassLength);
    PlainFieldAt(content, pstart, field);
    ScanStopsAtLimit(content, pstart, MaxPassLength, 0);
  }

  /** Finding: the as-written loop accepts a 33-byte SSID, one more than the
      32 its log message allows, and stores the terminator at `new_ssid[33]`,
      one past the end of the 33-byte buffer. The corrected parser refuses it. */
  lemma AsWrittenAcceptsLongSsid(ssid: string, psk: string)
    requires PlainField(ssid) && |ssid| == SsidBufferSize
    requires PlainField(psk) && |psk| <= MaxPassLength
    ensures ParseAsWritten(Render(ssid, psk)) == NewCredentials(ssid, psk)
    ensures |ssid| > MaxSsidLength
    ensures SsidTerminatorIndex(Render(ssid, psk)) == Some(SsidBufferSize)
    ensures Parse(Render(ssid, psk)) == SsidTooLong
  {
    ParseWithRender(ssid, psk, [], SsidBufferSize, PassBufferSize);
    assert Render(ssid, psk) + [] == Render(ssid, psk);
    SsidTerminatorOfRender(ssid, psk);
    RenderAfterSsid(ssid, psk);
    ParseRefusesLongSsid(ssid, PskInfix + psk + [Quote]);
  }

  lemma RenderAfterSsid(ssid: string, psk: string)
    ensures Render(ssid, psk) == SsidPrefix + ssid + (PskInfix + psk + [Quote])
  {
  }

  lemma SsidTerminatorOfRender(ssid: string, psk: string)
    requires PlainField(ssid) && |ssid| <= SsidBufferSize
    ensures SsidTerminatorIndex(Render(ssid, psk)) == Some(|ssid|)
  {
    var content := Render(ssid, psk);
    RenderLayout(ssid, psk, []);
    assert content + [] == content;
    PlainFieldAt(content, |SsidPrefix|, ssid);
    ScanStopsAtQuote(content, |SsidPrefix|, SsidBufferSize, 0, |ssid|);
  }

  /** Finding: likewise a 64-byte passphrase passes the as-written loop
      (limit 63 promised) with its terminator at `new_pass[64]`. */
  lemma AsWrittenAcceptsLongPsk(ssid: string, psk: string)
    requires PlainField(ssid) && |ssid| <= MaxSsidLength
    requires PlainField(psk) && |psk| == PassBufferSize
    ensures ParseAsWritten(Render(ssid, psk)) == NewCredentials(ssid, psk)
    ensures |psk| > MaxPassLength
    ensures PskTerminatorIndex(Render(ssid, psk)) == Some(PassBufferSize)
    ensures Parse(Render(ssid, psk)) == PskTooLong
  {
    ParseWithRender(ssid, psk, [], SsidBufferSize, PassBufferSize);
    assert Render(ssid, psk) + [] == Render(ssid, psk);
    assert Render(ssid, psk) == SsidPrefix + ssid + PskInfix + psk + [Quote];
    PskTerminatorOfRender(ssid, psk);
    ParseRefusesLongPsk(ssid, psk, [Quote]);
  }

  lemma PskTerminatorOfRender(ssid: string, psk: string)
    requires PlainField(ssid) && |ssid| <= SsidBufferSize
    requires PlainField(psk) && |psk| <= PassBufferSize
    ensures PskTerminatorIndex(Render(ssid, psk)) == Some(|psk|)
  {
    var content := Render(ssid, psk);
    var start := |SsidPrefix|;
    var pstart := start + |ssid| + |PskInfix|;
    BodyLayout(ssid, psk, [Quote]);
    assert content[start + |ssid|] == PskInfix[0] == Quote;
    FieldAccepted(content, start, SsidBufferSize, ssid);
    FieldAccepted(content, pstart, PassBufferSize, psk);
    PskTerminatorAt(content, |ssid|, |psk|);
  }

  /** The terminator index once both scans of the as-written loops are
      known. */
  lemma PskTerminatorAt(content: string, n: nat, m: nat)
    requires |SsidPrefix| + n + |PskInfix| <= |content|
    requires ScanFrom(content, |SsidPrefix|, SsidBufferSize, 0) == Stopped(n, true)
    requires content[|SsidPrefix| + n..|SsidPrefix| + n + |PskInfix|] == PskInfix
    requires ScanFrom(content, |SsidPrefix| + n + |PskInfix|, PassBufferSize, 0).Stopped?
    requires ScanFrom(content, |SsidPrefix| + n + |PskInfix|, PassBufferSize, 0).length == m
    ensures PskTerminatorIndex(content) == Some(m)
  {
  }

  /** One brightness command for one LEDC channel. */
  datatype LightCommand = SetBrightness(level: int, channel: int)

  datatype Credentials = Credentials(ssid: string, psk: string)

  /** What one call of the handler does: its return code, the status it
      sends (if any; the body is always empty), the light commands it issues,
      the credentials it stores (raising `new_wifi_info`), and whether the
      scan went past the received bytes. */
  datatype LedOutcome = LedOutcome(
    result: EspErr,
    response: Option<int>,
    lights: seq<LightCommand>,
    credentials: Option<Credentials>,
    readsStale: bool)

  /** The answer of `led_handler` once `ret > 0` bytes arrived and were
      classified as `request`: 200 with an empty body in every case. */
  function Answer(request: Request): (r: LedOutcome)
    ensures r.result == EspOk && r.response == Some(Http200)
    ensures r.lights == (if request == AllHigh then [SetBrightness(FullLevel, 0), SetBrightness(FullLevel, 1)]
                         else if request == AllLow then [SetBrightness(OffLevel, 0), SetBrightness(OffLevel, 1)]
                         else [])
    ensures r.credentials.Some? <==> request.NewCredentials?
    ensures r.credentials.Some? ==> r.credentials.value == Credentials(request.ssid, request.psk)
    ensures r.readsStale <==> request == ReadsPastReceived
  {
    match request
    case AllHigh => LedOutcome(EspOk, Some(Http200), [SetBrightness(FullLevel, 0), SetBrightness(FullLevel, 1)], None, false)
    case AllLow => LedOutcome(EspOk, Some(Http200), [SetBrightness(OffLevel, 0), SetBrightness(OffLevel, 1)], None, false)
    case NewCredentials(ssid, psk) => LedOutcome(EspOk, Some(Http200), [], Some(Credentials(ssid, psk)), false)
    case ReadsPastReceived => LedOutcome(EspOk, Some(Http200), [], None, true)
    case _ => LedOutcome(EspOk, Some(Http200), [], None, false)
  }

  /** The answer to a failed receive: 408 on a timeout, nothing otherwise. */
  function ReceiveFailed(ret: int): LedOutcome {
    LedOutcome(EspFail, if ret == SockErrTimeout then Some(Http408) else None, [], None, false)
  }

  /** `led_handler` for a request announcing `contentLen` bytes whose one
      receive returned `ret` and, when positive, the bytes `content`, with
      the copy loops bounded as the log messages promise. */
  function LedHandler(contentLen: SizeT, ret: int, content: string): (r: LedOutcome)
    requires ret <= Min(contentLen, ContentBufferSize)
    requires ret > 0 ==> |content| == ret
    ensures r.response == Some(Http200) <==> ret > 0
    ensures r.result == EspOk <==> ret > 0
    ensures ret <= 0 ==> r.result == EspFail && r.response == (if ret == SockErrTimeout then Some(Http408) else None)
    ensures ret <= 0 ==> r.lights == [] && r.credentials == None && !r.readsStale
    ensures ret > 0 && content[0] == 'H' ==> r.lights == [SetBrightness(FullLevel, 0), SetBrightness(FullLevel, 1)]
    ensures ret > 0 && content[0] == 'L' ==> r.lights == [SetBrightness(OffLevel, 0), SetBrightness(OffLevel, 1)]
    ensures r.lights != [] ==> ret > 0 && (content[0] == 'H' || content[0] == 'L')
    ensures r.credentials.Some? <==> ret > 0 && Parse(content).NewCredentials?
    ensures r.credentials.Some? ==>
              && |content| >= |SsidPrefix| && content[..|SsidPrefix|] == SsidPrefix
              && |r.credentials.value.ssid| <= MaxSsidLength
              && |r.credentials.value.psk| <= MaxPassLength
    ensures r.credentials.Some? ==> r.credentials.value == Credentials(Parse(content).ssid, Parse(content).psk)
    ensures r.readsStale <==> ret > 0 && Parse(content) == ReadsPastReceived
  {
    if ret <= 0 then ReceiveFailed(ret)
    else
      LeadByteDecides(content, MaxSsidLength, MaxPassLength);
      Answer(Parse(content))
  }

  /** `led_handler` with the copy loops as the source writes them
      (`i < 33`, `i < 64`). It answers and drives the lights exactly as
      `LedHandler` does and differs only in the credentials it accepts. */
  function LedHandlerAsWritten(contentLen: SizeT, ret: int, content: string): (r: LedOutcome)
    requires ret <= Min(contentLen, ContentBufferSize)
    requires ret > 0 ==> |content| == ret
    ensures r.response == LedHandler(contentLen, ret, content).response
    ensures r.result == LedHandler(contentLen, ret, content).result
    ensures r.lights == LedHandler(contentLen, ret, content).lights
    ensures r.credentials.Some? <==> ret > 0 && ParseAsWritten(content).NewCredentials?
    ensures r.credentials.Some? ==>
              && |r.credentials.value.ssid| <= SsidBufferSize
              && |r.credentials.value.psk| <= PassBufferSize
    ensures r.credentials.Some? ==>
              r.credentials.value == Credentials(ParseAsWritten(content).ssid, ParseAsWritten(content).psk)
    ensures r.readsStale <==> ret > 0 && ParseAsWritten(content) == ReadsPastReceived
  {
    if ret <= 0 then ReceiveFailed(ret)
    else
      LeadByteDecides(content, SsidBufferSize, PassBufferSize);
      LeadByteDecides(content, MaxSsidLength, MaxPassLength);
      Answer(ParseAsWritten(content))
  }

  /** Whatever the loop bounds, the first byte alone decides whether the
      body is a light command. */
  lemma LeadByteDecides(content: string, ssidLimit: nat, passLimit: nat)
    requires |content| >= 1
    ensures ParseWith(content, ssidLimit, passLimit) == AllHigh <==> content[0] == 'H'
    ensures ParseWith(content, ssidLimit, passLimit) == AllLow <==> content[0] == 'L'
  {
  }

  /** The handler delivers credentials exactly when it received a full
      credential body with fields of at most 32 and 63 bytes, and it
      delivers the C strings of those fields. */
  lemma LedHandlerAccepts(contentLen: SizeT, ret: int, content: string, ssid: string, psk: string)
    requires ret <= Min(contentLen, ContentBufferSize)
    requires ret > 0 ==> |content| == ret
    ensures LedHandler(contentLen, ret, content).credentials == Some(Credentials(ssid, psk)) <==>
            && ret > 0
            && exists fs, fp, rest ::
                 && CredentialShape(content, fs, fp, rest, MaxSsidLength, MaxPassLength)
                 && ssid == CString(fs) && psk == CString(fp)
  {
    if ret > 0 {
      ParseAccepts(content, ssid, psk);
    }
  }

  /** A credential body that fits the 200-byte buffer, received whole,
      hands its SSID and passphrase to the supervisor and touches no light. */
  lemma LedHandlerStoresRendered(ssid: string, psk: string, rest: string)
    requires PlainField(ssid) && |ssid| <= MaxSsidLength
    requires PlainField(psk) && |psk| <= MaxPassLength
    requires |Render(ssid, psk) + rest| <= ContentBufferSize
    ensures var c := Render(ssid, psk) + rest;
            && LedHandler(|c|, |c|, c).credentials == Some(Credentials(ssid, psk))
            && LedHandler(|c|, |c|, c).lights == []
            && !LedHandler(|c|, |c|, c).readsStale
  {
    ParseRender(ssid, psk, rest);
  }

  /** The same for the handler as written, with its one-byte-longer
      bounds. */
  lemma LedHandlerAsWrittenStoresRendered(ssid: string, psk: string, rest: string)
    requires PlainField(ssid) && |ssid| <= SsidBufferSize
    requires PlainField(psk) && |psk| <= PassBufferSize
    requires |Render(ssid, psk) + rest| <= ContentBufferSize
    ensures var c := Render(ssid, psk) + rest;
            && LedHandlerAsWritten(|c|, |c|, c).credentials == Some(Credentials(ssid, psk))
            && LedHandlerAsWritten(|c|, |c|, c).lights == []
            && !LedHandlerAsWritten(|c|, |c|, c).readsStale
  {
    ParseWithRender(ssid, psk, rest, SsidBufferSize, PassBufferSize);
  }

  /** The handler as written stores a 33-byte SSID (raising
      `new_wifi_info`), which the corrected handler refuses. */
  lemma AsWrittenHandlerStoresLongSsid(ssid: string, psk: string)
    requires PlainField(ssid) && |ssid| == SsidBufferSize
    requires PlainField(psk) && |psk| <= MaxPassLength
    ensures var c := Render(ssid, psk);
            && LedHandlerAsWritten(|c|, |c|, c).credentials == Some(Credentials(ssid, psk))
            && LedHandler(|c|, |c|, c).credentials == None
  {
    AsWrittenAcceptsLongSsid(ssid, psk);
  }

  /** A body that stops inside the SSID prefix (such as `{"ssid`) makes
      the 10-byte comparison read bytes that were never received. */
  lemma ShortPrefixReadsStale(content: string)
    requires 1 <= |content| < |SsidPrefix| && content == SsidPrefix[..|content|]
    ensures LedHandler(|content|, |content|, content).readsStale
    ensures LedHandler(|content|, |content|, content).credentials == None
  {
    assert content[0] == '{';
    assert content[0..] == content;
    assert MatchAt(content, 0, SsidPrefix) == Overrun;
  }
}

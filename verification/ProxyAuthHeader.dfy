/** The same round trip through the `Proxy-Authorization: Basic` header. */
module ProxyAuthHeader {
  import opened Prelude
  import opened Text
  import opened ProxyUsername

  /** Base64 (section 4 of RFC 4648) with the text encoding, as the two directions in use. */
  datatype Codec = Codec(encode: string -> string, decode: string -> string)

  predicate Base64Text(s: string) {
    forall i :: 0 <= i < |s| ==> 'a' <= s[i] <= 'z' || 'A' <= s[i] <= 'Z' || '0' <= s[i] <= '9' || s[i] in "+/="
  }

  ghost predicate Faithful(c: Codec) {
    forall s :: c.decode(c.encode(s)) == s && Base64Text(c.encode(s)) && (s != "" ==> c.encode(s) != "")
  }

  /** Section 2 of RFC 7617. */
  function BasicHeader(c: Codec, user: string, password: string): string {
    "Basic " + c.encode(user + ":" + password)
  }

  predicate IsBasic(s: string) {
    |s| == 5 && s[0] in "bB" && s[1] in "aA" && s[2] in "sS" && s[3] in "iI" && s[4] in "cC"
  }

  /** The capture of `Basic`, white space, then anything on one line. */
  function Credentials(header: string): Option<string> {
    var h := TrimEnd(TrimStart(header));
    if |h| < 5 || !IsBasic(h[..5]) then None
    else
      var body := TrimStart(h[5..]);
      if body == h[5..] || body == "" || exists i :: 0 <= i < |body| && IsLineBreak(body[i]) then None
      else Some(body)
  }

  /** The user is what stands before the first colon. */
  function BeforeColon(s: string): string {
    var i := IndexOf(s, ":");
    if i == -1 then s else s[..i]
  }

  function DecodeBasicUser(c: Codec, header: Option<string>): string {
    if header.None? || header.value == "" then ""
    else
      var credentials := Credentials(header.value);
      if credentials.None? then "" else BeforeColon(c.decode(credentials.value))
  }

  function ParseSessionIdFromProxyAuth(c: Codec, header: Option<string>): Option<string> {
    ParseSegment(DecodeBasicUser(c, header), "session")
  }

  function ParseBrowserIdFromProxyAuth(c: Codec, header: Option<string>): Option<string> {
    ParseSegment(DecodeBasicUser(c, header), "browser")
  }

  predicate ColonFree(s: string) {
    ':' !in s
  }

  lemma BeforeFirstColon(user: string, password: string)
    requires ColonFree(user)
    ensures BeforeColon(user + ":" + password) == user
  {
    var s := user + ":" + password;
    assert s[|user|..|user| + 1] == ":";
    assert OccursAt(s, ":", |user|);
    var i := IndexOf(s, ":");
    assert s[i..i + 1][0] == s[i];
  }

  lemma Base64IsNotSpace(c: char)
    requires Base64Text([c])
    ensures !IsSpace(c) && !IsLineBreak(c)
  {
    assert c == [c][0];
  }

  predicate Spaces(s: string) {
    forall i :: 0 <= i < |s| ==> IsSpace(s[i])
  }

  /** The scheme's name, in capital or small letters. */
  predicate SaysBasic(s: string) {
    |s| == 5 && forall i :: 0 <= i < 5 ==> s[i] == "basic"[i] || s[i] == "BASIC"[i]
  }

  lemma {:induction false} TrimStartDrops(lead: string, s: string)
    requires Spaces(lead) && s != "" && !IsSpace(s[0])
    ensures TrimStart(lead + s) == s
  {
    if lead == "" {
      assert lead + s == s;
    } else {
      assert (lead + s)[1..] == lead[1..] + s;
      TrimStartDrops(lead[1..], s);
    }
  }

  lemma {:induction false} TrimEndDrops(s: string, tail: string)
    requires Spaces(tail) && s != "" && !IsSpace(s[|s| - 1])
    ensures TrimEnd(s + tail) == s
  {
    if tail == "" {
      assert s + tail == s;
    } else {
      assert (s + tail)[..|s + tail| - 1] == s + tail[..|tail| - 1];
      TrimEndDrops(s, tail[..|tail| - 1]);
    }
  }

  lemma BasicHasNoSpace(scheme: string)
    requires SaysBasic(scheme)
    ensures IsBasic(scheme) && !IsSpace(scheme[0])
  {
    assert "basic" == ['b', 'a', 's', 'i', 'c'] && "BASIC" == ['B', 'A', 'S', 'I', 'C'];
    assert scheme[0] in "bB" && scheme[1] in "aA" && scheme[2] in "sS" && scheme[3] in "iI" && scheme[4] in "cC";
  }

  lemma CredentialsOf(lead: string, scheme: string, gap: string, text: string, tail: string)
    requires Spaces(lead) && SaysBasic(scheme) && Spaces(gap) && gap != "" && Spaces(tail)
    requires text != "" && Base64Text(text)
    ensures Credentials(lead + scheme + gap + text + tail) == Some(text)
  {
    BasicHasNoSpace(scheme);
    forall i | 0 <= i < |text| ensures !IsSpace(text[i]) && !IsLineBreak(text[i]) {
      Base64IsNotSpace(text[i]);
    }
    var h := scheme + gap + text;
    assert h[|h| - 1] == text[|text| - 1];
    hide IsSpace, IsBasic, IsLineBreak, SaysBasic, Base64Text;
    assert lead + scheme + gap + text + tail == lead + (h + tail);
    TrimStartDrops(lead, h + tail);
    TrimEndDrops(h, tail);
    assert h[..5] == scheme && h[5..] == gap + text;
    TrimStartDrops(gap, text);
  }

  /** However the header is spaced and the scheme is spelled, the user is decoded. */
  lemma DecodesAnySpelling(
    c: Codec, lead: string, scheme: string, gap: string, tail: string, user: string, password: string)
    requires Faithful(c) && ColonFree(user)
    requires Spaces(lead) && SaysBasic(scheme) && Spaces(gap) && gap != "" && Spaces(tail)
    ensures DecodeBasicUser(c, Some(lead + scheme + gap + c.encode(user + ":" + password) + tail)) == user
  {
    var plain := user + ":" + password;
    assert plain != "" && Base64Text(c.encode(plain));
    CredentialsOf(lead, scheme, gap, c.encode(plain), tail);
    BeforeFirstColon(user, password);
  }

  lemma BasicIsBasic()
    ensures SaysBasic("Basic") && Spaces(" ")
  {
  }

  /** Decoding undoes encoding, for a user without a colon. */
  lemma DecodesUser(c: Codec, user: string, password: string)
    requires Faithful(c) && ColonFree(user)
    ensures DecodeBasicUser(c, Some(BasicHeader(c, user, password))) == user
  {
    var text := c.encode(user + ":" + password);
    BasicIsBasic();
    DecodesAnySpelling(c, "", "Basic", " ", "", user, password);
    assert "" + "Basic" + " " + text + "" == BasicHeader(c, user, password);
  }

  /** Without a header, or under another scheme, neither parser finds anything. */
  lemma NothingWithoutBasic(c: Codec, header: Option<string>)
    requires header.Some? ==> var h := TrimEnd(TrimStart(header.value)); |h| < 5 || !SaysBasic(h[..5])
    ensures ParseSessionIdFromProxyAuth(c, header) == None && ParseBrowserIdFromProxyAuth(c, header) == None
  {
    assert DecodeBasicUser(c, header) == "" by {
      if header.Some? {
        var h := TrimEnd(TrimStart(header.value));
        if |h| >= 5 && IsBasic(h[..5]) {
          OnlyBasicIsBasic(h[..5]);
        }
      }
    }
    assert !OccursAt("", Marker("session"), 0) && !OccursAt("", Marker("browser"), 0);
  }

  lemma OnlyBasicIsBasic(s: string)
    requires IsBasic(s)
    ensures SaysBasic(s)
  {
    assert "basic" == ['b', 'a', 's', 'i', 'c'] && "BASIC" == ['B', 'A', 'S', 'I', 'C'];
  }

  lemma UsernameColonFree(baseUser: string, session: string, browser: string, trace: string, span: string)
    requires ColonFree(baseUser) && ColonFree(session) && ColonFree(browser) && ColonFree(trace) && ColonFree(span)
    ensures ColonFree(Username(baseUser, session, browser, trace, span))
  {
    assert ':' !in "session" && ':' !in "browser" && ':' !in "trace" && ':' !in "pspan";
  }

  /**
   What Chrome sends for the printed username is read back as the values it was
   printed from, whatever hyphen-free values these are, in exactly the cases in
   which the parsers can tell.
   */
  lemma HeaderRoundTrip(
    c: Codec, baseUser: string, password: string, session: string, browser: string, trace: string, span: string)
    requires Faithful(c) && baseUser != ""
    requires MarkerFree(baseUser, "session") && MarkerFree(baseUser, "browser")
    requires SegmentValues(session, browser, trace, span)
    requires ColonFree(baseUser) && ColonFree(session) && ColonFree(browser) && ColonFree(trace) && ColonFree(span)
    ensures var user := AuthUsernameWithSession(baseUser, session, browser, trace, span);
            && user.Some?
            && var header := Some(BasicHeader(c, user.value, password));
            && (ParseSessionIdFromProxyAuth(c, header) == Some(session) <==> SessionComesBack(browser, trace, span))
            && (browser != "" ==> (ParseBrowserIdFromProxyAuth(c, header) == Some(browser)
                                   <==> BrowserComesBack(session, browser, trace, span)))
            && (browser == "" ==> (ParseBrowserIdFromProxyAuth(c, header) == None
                                   <==> NoBrowserSeen(session, trace, span)))
  {
    UsernameColonFree(baseUser, session, browser, trace, span);
    DecodesUser(c, Username(baseUser, session, browser, trace, span), password);
    SessionRoundTrip(baseUser, session, browser, trace, span);
    if browser == "" {
      NoBrowserRoundTrip(baseUser, session, trace, span);
    } else {
      BrowserRoundTrip(baseUser, session, browser, trace, span);
    }
  }

  /** The ids in use always come back through the header, browser or not. */
  lemma IdsComeBack(
    c: Codec, baseUser: string, password: string, session: string, browser: string, trace: string, span: string)
    requires Faithful(c) && baseUser != "" && ColonFree(baseUser)
    requires MarkerFree(baseUser, "session") && MarkerFree(baseUser, "browser")
    requires RealValues(session, browser, trace, span)
    ensures var user := AuthUsernameWithSession(baseUser, session, browser, trace, span);
            && user.Some?
            && var header := Some(BasicHeader(c, user.value, password));
            && ParseSessionIdFromProxyAuth(c, header) == Some(session)
            && ParseBrowserIdFromProxyAuth(c, header) == (if browser == "" then None else Some(browser))
  {
    RealValuesAreSegmentValues(session, browser, trace, span);
    HeaderRoundTrip(c, baseUser, password, session, browser, trace, span);
  }
}

/**
 The `user-session-<id>-browser-<id>-trace-<id>-pspan-<id>` username: the
 printer in the proxy configuration and the parsers in the egress shim.
 */
module ProxyUsername {
  import opened Prelude
  import opened Text

  // -- Printing -------------------------------------------------------

  /** An absent segment value and an empty one are the same falsy value. */
  function Segment(key: string, value: string): string {
    if value == "" then "" else Marker(key) + value
  }

  /** The last segment: a span is only sent along with a trace. */
  function SpanSegment(trace: string, span: string): string {
    if trace == "" then "" else Segment("pspan", span)
  }

  function Username(baseUser: string, session: string, browser: string, trace: string, span: string): string {
    baseUser + Marker("session") + session
    + Segment("browser", browser)
    + Segment("trace", trace)
    + SpanSegment(trace, span)
  }

  /** No credentials at all when the proxy URL has no user. */
  function AuthUsernameWithSession(baseUser: string, session: string, browser: string, trace: string, span: string)
    : Option<string>
  {
    if baseUser == "" then None else Some(Username(baseUser, session, browser, trace, span))
  }

  // -- Parsing --------------------------------------------------------

  function Marker(key: string): string {
    "-" + key + "-"
  }

  function CutAt(rest: string, key: string): string {
    var cut := IndexOf(rest, Marker(key));
    if cut != -1 then rest[..cut] else rest
  }

  /** `segmentValue` cuts at the three markers one after the other. */
  method SegmentValueLoop(value: string) returns (rest: string)
    ensures rest == SegmentValue(value)
  {
    rest := value;
    var tails := ["browser", "trace", "pspan"];
    for i := 0 to |tails|
      invariant i == 0 ==> rest == value
      invariant i == 1 ==> rest == CutAt(value, "browser")
      invariant i == 2 ==> rest == CutAt(CutAt(value, "browser"), "trace")
      invariant i == 3 ==> rest == SegmentValue(value)
    {
      var cut := IndexOf(rest, Marker(tails[i]));
      if cut != -1 {
        rest := rest[..cut];
      }
    }
  }

  function SegmentValue(rest: string): string {
    CutAt(CutAt(CutAt(rest, "browser"), "trace"), "pspan")
  }

  /** The common body of the two `parse...FromProxyAuth`, on a decoded user. */
  function ParseSegment(user: string, key: string): Option<string> {
    var start := IndexOf(user, Marker(key));
    if start == -1 then None
    else
      var rest := SegmentValue(user[start + |Marker(key)|..]);
      if rest != "" then Some(rest) else None
  }

  // -- Markers in hyphenated text -------------------------------------

  predicate HyphenFree(s: string) {
    '-' !in s
  }

  /** `a`, followed by a hyphen, does not contain the marker of `key`. */
  ghost predicate MarkerFree(a: string, key: string) {
    !Contains(a + "-", Marker(key))
  }

  /** The only hyphens of a marker are its two ends. */
  lemma MarkerChars(s: string, key: string, i: int)
    requires HyphenFree(key) && OccursAt(s, Marker(key), i)
    ensures s[i] == '-' && s[i + |key| + 1] == '-'
    ensures forall k :: i < k <= i + |key| ==> s[k] != '-'
    ensures s[i + 1..i + 1 + |key|] == key
  {
    var m := s[i..i + |Marker(key)|];
    assert m[0] == s[i] && m[|key| + 1] == s[i + |key| + 1];
    forall k | i < k <= i + |key| ensures s[k] == key[k - i - 1] {
      assert s[k] == m[k - i];
    }
  }

  /** An occurrence that starts before the hyphen after `a` ends there at the latest. */
  lemma OccursWithin(a: string, post: string, key: string, i: int)
    requires HyphenFree(key) && OccursAt(a + "-" + post, Marker(key), i) && i < |a|
    ensures OccursAt(a + "-", Marker(key), i)
  {
    var s := a + "-" + post;
    MarkerChars(s, key, i);
    assert s[|a|] == '-';
    assert (a + "-")[i..i + |Marker(key)|] == s[i..i + |Marker(key)|];
  }

  lemma OccursInLonger(a: string, post: string, key: string, i: int)
    requires OccursAt(a + "-", Marker(key), i)
    ensures OccursAt(a + "-" + post, Marker(key), i) && i < |a|
  {
    assert (a + "-" + post)[i..i + |Marker(key)|] == (a + "-")[i..i + |Marker(key)|];
  }

  lemma TokenIsMarkerFree(x: string, key: string)
    requires HyphenFree(x)
    ensures MarkerFree(x, key)
  {
    assert forall i :: 0 <= i < |x| ==> (x + "-")[i] == x[i];
    if i :| OccursAt(x + "-", Marker(key), i) {
      HeadChar(x + "-", Marker(key), i);
    }
  }

  lemma HeadChar(s: string, p: string, i: int)
    requires p != "" && OccursAt(s, p, i)
    ensures s[i] == p[0]
  {
    assert s[i] == s[i..i + |p|][0];
  }

  /** Appending one more token introduces the marker exactly when the token is the key. */
  lemma AppendToken(a: string, x: string, key: string)
    requires HyphenFree(x) && HyphenFree(key)
    ensures MarkerFree(a + "-" + x, key) <==> MarkerFree(a, key) && x != key
  {
    var s := a + "-" + (x + "-");
    assert s == a + "-" + x + "-";
    if i :| OccursAt(a + "-", Marker(key), i) {
      OccursInLonger(a, x + "-", key, i);
    }
    if x == key {
      assert s[|a|..|a| + |Marker(key)|] == Marker(key);
      assert OccursAt(s, Marker(key), |a|);
    }
    if i :| OccursAt(s, Marker(key), i) {
      if i < |a| {
        OccursWithin(a, x + "-", key, i);
      } else {
        TokenAt(a, x, key, i);
      }
    }
  }

  lemma TokenAt(a: string, x: string, key: string, i: int)
    requires HyphenFree(x) && HyphenFree(key)
    requires OccursAt(a + "-" + (x + "-"), Marker(key), i) && i >= |a|
    ensures x == key
  {
    var s := a + "-" + (x + "-");
    MarkerChars(s, key, i);
    assert forall k :: |a| < k <= |a| + |x| ==> s[k] == x[k - |a| - 1];
    assert s[|a| + 1 + |x|] == '-';
    assert i == |a| && |key| == |x|;
    assert x == s[|a| + 1..|a| + 1 + |x|];
  }

  lemma FoundAt(a: string, s: string, key: string)
    requires HyphenFree(key) && MarkerFree(a, key) && a + Marker(key) <= s
    ensures IndexOf(s, Marker(key)) == |a|
  {
    var post := s[|a| + 1..];
    assert s == a + "-" + post;
    assert s[|a|..|a| + |Marker(key)|] == Marker(key);
    assert OccursAt(s, Marker(key), |a|);
    var i := IndexOf(s, Marker(key));
    if i < |a| {
      OccursWithin(a, post, key, i);
    }
  }

  /** The last token cannot complete a marker, since no hyphen follows it. */
  lemma NotFound(a: string, x: string, key: string)
    requires HyphenFree(key) && HyphenFree(x) && MarkerFree(a, key)
    ensures IndexOf(a + "-" + x, Marker(key)) == -1
  {
    assert forall k :: |a| < k < |a + "-" + x| ==> (a + "-" + x)[k] == x[k - |a| - 1];
    if i :| OccursAt(a + "-" + x, Marker(key), i) {
      MarkerChars(a + "-" + x, key, i);
      assert i < |a|;
      OccursWithin(a, x, key, i);
    }
  }

  // -- The round trip -------------------------------------------------

  lemma Keys()
    ensures HyphenFree("session") && HyphenFree("browser") && HyphenFree("trace") && HyphenFree("pspan")
    ensures "session" != "browser" && "trace" != "browser" && "pspan" != "browser"
    ensures "pspan" != "trace" && "trace" != "pspan"
  {
    assert "pspan"[0] != "trace"[0];
  }

  /** A segment is two more tokens. */
  lemma SegmentTokens(a: string, key: string, value: string)
    requires value != ""
    ensures a + Segment(key, value) == a + "-" + key + "-" + value
    ensures a + Marker(key) + value == a + "-" + key + "-" + value
    ensures a + Marker(key) <= a + "-" + key + "-" + value
  {
  }

  /** Two more tokens introduce the marker of `key` exactly when one of them is `key`. */
  lemma AppendSegment(a: string, name: string, value: string, key: string)
    requires HyphenFree(name) && HyphenFree(value) && HyphenFree(key) && value != ""
    ensures MarkerFree(a + Segment(name, value), key) <==> MarkerFree(a, key) && name != key && value != key
  {
    SegmentTokens(a, name, value);
    AppendToken(a, name, key);
    AppendToken(a + "-" + name, value, key);
  }

  /** When the name is not the key, the value is the last token and cannot complete a marker. */
  lemma SegmentNotFound(a: string, name: string, value: string, key: string)
    requires HyphenFree(name) && HyphenFree(value) && HyphenFree(key) && value != ""
    requires MarkerFree(a, key) && name != key
    ensures IndexOf(a + Segment(name, value), Marker(key)) == -1
  {
    SegmentTokens(a, name, value);
    AppendToken(a, name, key);
    NotFound(a + "-" + name, value, key);
  }

  lemma CutFound(a: string, s: string, key: string)
    requires HyphenFree(key) && MarkerFree(a, key) && a + Marker(key) <= s
    ensures CutAt(s, key) == a
  {
    FoundAt(a, s, key);
  }

  lemma CutToken(x: string, key: string)
    requires HyphenFree(x) && HyphenFree(key)
    ensures CutAt(x, key) == x
  {
    if i :| OccursAt(x, Marker(key), i) {
      MarkerChars(x, key, i);
    }
  }

  /** A trace id equal to a key, followed by a span id, is taken for a segment of its own. */
  predicate TraceMisread(trace: string, span: string) {
    trace == "browser" && span != ""
  }

  /** The browser marker after a marker-free text, a trace and a span: only a misread trace produces one. */
  lemma BrowserInTail(a: string, trace: string, span: string)
    requires MarkerFree(a, "browser") && HyphenFree(trace) && HyphenFree(span) && trace != ""
    ensures var i := IndexOf(a + Segment("trace", trace) + SpanSegment(trace, span), Marker("browser"));
            i == if TraceMisread(trace, span) then |a| + 6 else -1
  {
    Keys();
    var s := a + Segment("trace", trace);
    AppendSegment(a, "trace", trace, "browser");
    if span == "" {
      SegmentNotFound(a, "trace", trace, "browser");
      assert s + SpanSegment(trace, span) == s;
    } else if trace == "browser" {
      SegmentTokens(a, "trace", trace);
      SegmentTokens(s, "pspan", span);
      AppendToken(a, "trace", "browser");
      FoundAt(a + "-" + "trace", s + Segment("pspan", span), "browser");
    } else {
      SegmentNotFound(s, "pspan", span, "browser");
    }
  }

  /** The value in front of a trace and a span is recovered exactly when the trace is not misread. */
  lemma ValueBeforeTail(x: string, trace: string, span: string)
    requires HyphenFree(x) && HyphenFree(trace) && HyphenFree(span)
    ensures SegmentValue(x + Segment("trace", trace) + SpanSegment(trace, span))
            == (if TraceMisread(trace, span) then x + "-" + "trace" else x)
  {
    Keys();
    var s := x + Segment("trace", trace) + SpanSegment(trace, span);
    TokenCuts(x);
    if trace == "" {
      assert s == x;
    } else {
      TokenIsMarkerFree(x, "browser");
      BrowserInTail(x, trace, span);
      TokenIsMarkerFree(x, "trace");
      TokenIsMarkerFree(x, "pspan");
      SegmentTokens(x, "trace", trace);
      if TraceMisread(trace, span) {
        assert s[..|x| + 6] == x + "-" + "trace";
        NotFound(x, "trace", "trace");
        NotFound(x, "trace", "pspan");
      } else {
        assert x + Marker("trace") <= s;
        CutFound(x, s, "trace");
      }
    }
  }

  lemma TokenCuts(x: string)
    requires HyphenFree(x)
    ensures CutAt(x, "browser") == x && CutAt(x, "trace") == x && CutAt(x, "pspan") == x
  {
    Keys();
    CutToken(x, "browser");
    CutToken(x, "trace");
    CutToken(x, "pspan");
  }

  /** What the printer is given: hyphen-free values, and always a session. */
  predicate SegmentValues(session: string, browser: string, trace: string, span: string) {
    && HyphenFree(session) && HyphenFree(browser) && HyphenFree(trace) && HyphenFree(span)
    && session != ""
  }

  lemma Regroup(p: string, a: string, b: string, c: string, d: string)
    ensures p + a + b + c + d == p + (a + b + c + d)
  {
  }

  lemma SegmentSplit(a: string, key: string, value: string, t: string, p: string)
    requires value != ""
    ensures a + Segment(key, value) + t + p == a + Marker(key) + (value + t + p)
  {
    Regroup(a, Marker(key), value, t, p);
    Regroup(a + Marker(key), "", value, t, p);
  }

  /** What the parser makes of a user in which the text before the first marker is known. */
  lemma ParseFound(a: string, rest: string, key: string)
    requires HyphenFree(key) && MarkerFree(a, key)
    ensures var value := SegmentValue(rest);
            ParseSegment(a + Marker(key) + rest, key) == if value != "" then Some(value) else None
  {
    var user := a + Marker(key) + rest;
    FoundAt(a, user, key);
    assert user[|a| + |Marker(key)|..] == rest;
  }

  predicate SessionComesBack(browser: string, trace: string, span: string) {
    !(browser == "" && TraceMisread(trace, span))
  }

  /** The session id comes back from a base user without a session marker, in exactly these cases. */
  lemma SessionRoundTrip(baseUser: string, session: string, browser: string, trace: string, span: string)
    requires SegmentValues(session, browser, trace, span) && MarkerFree(baseUser, "session")
    ensures ParseSegment(Username(baseUser, session, browser, trace, span), "session") == Some(session)
            <==> SessionComesBack(browser, trace, span)
  {
    Keys();
    var b, t, p := Segment("browser", browser), Segment("trace", trace), SpanSegment(trace, span);
    var rest := session + b + t + p;
    Regroup(baseUser + Marker("session"), session, b, t, p);
    ParseFound(baseUser, rest, "session");
    if browser == "" {
      assert session + b == session;
      ValueBeforeTail(session, trace, span);
    } else {
      SegmentTokens(session, "browser", browser);
      TokenIsMarkerFree(session, "browser");
      assert session + Marker("browser") <= rest;
      CutFound(session, rest, "browser");
      TokenCuts(session);
    }
  }

  /** A session id equal to the browser key leaves only one browser id that can come back. */
  predicate BrowserComesBack(session: string, browser: string, trace: string, span: string) {
    if session != "browser" then !TraceMisread(trace, span)
    else browser == "browser" && trace != ""
  }

  /** The browser id comes back from a base user without a browser marker, in exactly these cases. */
  lemma BrowserRoundTrip(baseUser: string, session: string, browser: string, trace: string, span: string)
    requires SegmentValues(session, browser, trace, span) && browser != "" && MarkerFree(baseUser, "browser")
    ensures ParseSegment(Username(baseUser, session, browser, trace, span), "browser") == Some(browser)
            <==> BrowserComesBack(session, browser, trace, span)
  {
    if session != "browser" {
      BrowserFound(baseUser, session, browser, trace, span);
      assert |browser + "-" + "trace"| > |browser|;
    } else {
      BrowserAfterItsKey(baseUser, browser, trace, span);
    }
  }

  lemma BrowserAfterItsKey(baseUser: string, browser: string, trace: string, span: string)
    requires SegmentValues("browser", browser, trace, span) && browser != "" && MarkerFree(baseUser, "browser")
    ensures ParseSegment(Username(baseUser, "browser", browser, trace, span), "browser") == Some(browser)
            <==> browser == "browser" && trace != ""
  {
    SessionMisread(baseUser, browser, trace, span);
    ValueAfterItsKey(browser, trace, Segment("trace", trace), SpanSegment(trace, span));
  }

  lemma ValueAfterItsKey(browser: string, trace: string, t: string, p: string)
    requires HyphenFree(browser) && t == Segment("trace", trace) && (trace == "" ==> p == "")
    ensures SegmentValue("browser" + "-" + browser + t + p) == browser <==> browser == "browser" && trace != ""
  {
    if browser == "browser" {
      KeyTwice(trace, t, p);
    } else {
      Keys();
      FirstToken("browser", browser + t + p);
      assert "browser" + "-" + browser + t + p == "browser" + "-" + (browser + t + p);
    }
  }

  lemma KeyTwice(trace: string, t: string, p: string)
    requires t == Segment("trace", trace) && (trace == "" ==> p == "")
    ensures SegmentValue("browser" + "-" + "browser" + t + p) == "browser" <==> trace != ""
  {
    Keys();
    var s := "browser" + "-" + "browser" + t + p;
    TokenIsMarkerFree("browser", "browser");
    TokenIsMarkerFree("browser", "trace");
    TokenIsMarkerFree("browser", "pspan");
    if trace == "" {
      assert s == "browser" + "-" + "browser";
      NotFound("browser", "browser", "browser");
      NotFound("browser", "browser", "trace");
      NotFound("browser", "browser", "pspan");
    } else {
      assert "browser" + Marker("browser") <= s;
      CutFound("browser", s, "browser");
      TokenCuts("browser");
    }
  }

  /** Of hyphenated text, a hyphen-free value can only be the first token. */
  lemma FirstToken(x: string, rest: string)
    requires HyphenFree(x)
    ensures HyphenFree(SegmentValue(x + "-" + rest)) ==> SegmentValue(x + "-" + rest) == x
  {
    var s := x + "-" + rest;
    SegmentValueEnds(s);
    assert s[|x|] == '-' && forall k :: 0 <= k < |x| ==> s[k] == x[k];
    assert s[..|x|] == x;
  }

  lemma SegmentValueEnds(s: string)
    ensures var v := SegmentValue(s); v == s || (v < s && s[|v|] == '-')
  {
    CutEnds(s, "browser");
    CutEnds(CutAt(s, "browser"), "trace");
    CutEnds(CutAt(CutAt(s, "browser"), "trace"), "pspan");
  }

  lemma CutEnds(s: string, key: string)
    ensures var v := CutAt(s, key); v == s || (v < s && s[|v|] == '-')
  {
    var i := IndexOf(s, Marker(key));
    if i != -1 {
      HeadChar(s, Marker(key), i);
    }
  }

  lemma BrowserFound(baseUser: string, session: string, browser: string, trace: string, span: string)
    requires SegmentValues(session, browser, trace, span) && browser != "" && MarkerFree(baseUser, "browser")
    requires session != "browser"
    ensures ParseSegment(Username(baseUser, session, browser, trace, span), "browser")
            == Some(if TraceMisread(trace, span) then browser + "-" + "trace" else browser)
  {
    Keys();
    var before := baseUser + Marker("session") + session;
    AppendSegment(baseUser, "session", session, "browser");
    SegmentTokens(baseUser, "session", session);
    var t, p := Segment("trace", trace), SpanSegment(trace, span);
    SegmentSplit(before, "browser", browser, t, p);
    ParseFound(before, browser + t + p, "browser");
    ValueBeforeTail(browser, trace, span);
  }

  /** A session id equal to the browser key is itself taken for the start of the browser segment. */
  lemma SessionMisread(baseUser: string, browser: string, trace: string, span: string)
    requires MarkerFree(baseUser, "browser") && browser + trace != ""
    ensures var rest := SecondSegment("browser", browser, Segment("trace", trace), SpanSegment(trace, span));
            && rest != "" && rest[0] in "bt"
            && SegmentValue(rest) != "" && SegmentValue(rest)[0] == rest[0]
            && ParseSegment(Username(baseUser, "browser", browser, trace, span), "browser") == Some(SegmentValue(rest))
  {
    Keys();
    var a, t, p := baseUser + "-" + "session", Segment("trace", trace), SpanSegment(trace, span);
    AppendToken(baseUser, "session", "browser");
    assert baseUser + Marker("session") + "browser" == a + "-" + "browser";
    MisreadShape(a, "browser", browser, trace, t, p);
    ParseFound(a, SecondSegment("browser", browser, t, p), "browser");
    ValueStarts(SecondSegment("browser", browser, t, p));
  }

  /** The segments that follow, without their first hyphen. */
  function SecondSegment(key: string, value: string, t: string, p: string): string {
    if value != "" then key + "-" + value + t + p
    else if t != "" then t[1..] + p
    else p
  }

  lemma MisreadShape(a: string, key: string, value: string, trace: string, t: string, p: string)
    requires value + trace != "" && key != "" && t == Segment("trace", trace)
    ensures a + "-" + key + Segment(key, value) + t + p == a + Marker(key) + SecondSegment(key, value, t, p)
    ensures SecondSegment(key, value, t, p) != ""
    ensures SecondSegment(key, value, t, p)[0] == if value != "" then key[0] else 't'
  {
    if value != "" {
      ShapeWithValue(a, key, value, t, p);
    } else {
      TraceStarts(trace);
      ShapeWithoutValue(a, key, t, p);
    }
  }

  lemma ShapeWithValue(a: string, key: string, value: string, t: string, p: string)
    ensures a + "-" + key + (Marker(key) + value) + t + p == a + Marker(key) + (key + "-" + value + t + p)
  {
    var b := a + "-" + key;
    assert Marker(key) + value == "-" + (key + "-" + value);
    Hyphenate(b, key + "-" + value, t, p);
    assert b + "-" == a + Marker(key);
  }

  lemma ShapeWithoutValue(a: string, key: string, t: string, p: string)
    requires t != "" && t == "-" + t[1..]
    ensures a + "-" + key + "" + t + p == a + Marker(key) + (t[1..] + p)
  {
    var b := a + "-" + key;
    Hyphenate(b, t[1..], "", p);
    assert b + "" + t + p == b + t + "" + p;
    assert t[1..] + "" + p == t[1..] + p;
    assert b + "-" == a + Marker(key);
  }

  lemma TraceStarts(trace: string)
    requires trace != ""
    ensures var t := Segment("trace", trace); |t| > 1 && t == "-" + t[1..] && t[1] == 't'
  {
  }

  lemma Hyphenate(a: string, b: string, t: string, p: string)
    ensures a + ("-" + b) + t + p == a + "-" + (b + t + p)
  {
  }

  /** Cutting never removes a first character that is not a hyphen. */
  lemma ValueStarts(s: string)
    requires s != "" && s[0] != '-'
    ensures SegmentValue(s) != "" && SegmentValue(s)[0] == s[0]
  {
    CutStarts(s, "browser");
    CutStarts(CutAt(s, "browser"), "trace");
    CutStarts(CutAt(CutAt(s, "browser"), "trace"), "pspan");
  }

  lemma CutStarts(s: string, key: string)
    requires s != "" && s[0] != '-'
    ensures CutAt(s, key) != "" && CutAt(s, key)[0] == s[0]
  {
    var i := IndexOf(s, Marker(key));
    if i != -1 {
      assert s[i..i + |Marker(key)|][0] == s[i];
    }
  }

  predicate NoBrowserSeen(session: string, trace: string, span: string) {
    !(session == "browser" && trace != "") && !TraceMisread(trace, span)
  }

  /** Without a browser segment the browser parser finds none, in exactly these cases. */
  lemma NoBrowserRoundTrip(baseUser: string, session: string, trace: string, span: string)
    requires SegmentValues(session, "", trace, span) && MarkerFree(baseUser, "browser")
    ensures ParseSegment(Username(baseUser, session, "", trace, span), "browser") == None
            <==> NoBrowserSeen(session, trace, span)
  {
    Keys();
    var user := Username(baseUser, session, "", trace, span);
    var before := baseUser + Marker("session") + session;
    assert user == before + Segment("trace", trace) + SpanSegment(trace, span);
    SegmentTokens(baseUser, "session", session);
    if trace == "" {
      SegmentNotFound(baseUser, "session", session, "browser");
      assert user == baseUser + Segment("session", session);
    } else if session == "browser" {
      SessionMisread(baseUser, "", trace, span);
    } else {
      AppendSegment(baseUser, "session", session, "browser");
      MisreadParses(before, trace, span);
    }
  }

  lemma MisreadParses(a: string, trace: string, span: string)
    requires MarkerFree(a, "browser") && HyphenFree(trace) && HyphenFree(span) && trace != ""
    ensures ParseSegment(a + Segment("trace", trace) + SpanSegment(trace, span), "browser").Some?
            <==> TraceMisread(trace, span)
  {
    if TraceMisread(trace, span) {
      Keys();
      AppendToken(a, "trace", "browser");
      SegmentsJoin(a, "trace", trace, "pspan", span);
      ParseFound(a + "-" + "trace", "pspan" + "-" + span, "browser");
      ValueStarts("pspan" + "-" + span);
    } else {
      BrowserInTail(a, trace, span);
    }
  }

  lemma SegmentsJoin(a: string, k1: string, v1: string, k2: string, v2: string)
    requires v1 != "" && v2 != ""
    ensures a + Segment(k1, v1) + Segment(k2, v2) == a + "-" + k1 + Marker(v1) + (k2 + "-" + v2)
  {
  }

  // -- Trace and span -------------------------------------------------

  function BeforeTrace(baseUser: string, session: string, browser: string): string {
    baseUser + Marker("session") + session + Segment("browser", browser)
  }

  lemma TraceShape(a: string, trace: string, p: string)
    requires trace != ""
    ensures a + Segment("trace", trace) + p == a + Marker("trace") + (trace + p)
  {
    assert a + (Marker("trace") + trace) == a + Marker("trace") + trace;
  }

  /** The trace id is what follows its marker, if no token before is the key. */
  lemma TraceRoundTrip(baseUser: string, session: string, browser: string, trace: string, span: string)
    requires SegmentValues(session, browser, trace, span) && MarkerFree(baseUser, "trace")
    requires session != "trace" && browser != "trace"
    ensures ParseSegment(Username(baseUser, session, browser, trace, span), "trace")
            == if trace == "" then None else Some(trace)
  {
    Keys();
    var before, p := BeforeTrace(baseUser, session, browser), SpanSegment(trace, span);
    BeforeTail(baseUser, session, browser, "trace");
    assert Username(baseUser, session, browser, trace, span) == before + Segment("trace", trace) + p;
    if trace == "" {
      NoTail(baseUser, session, browser, "trace");
      assert before + "" + "" == before;
    } else {
      hide BeforeTrace, Username, Segment, SpanSegment, MarkerFree, ParseSegment, Marker, SegmentValue;
      TraceShape(before, trace, p);
      ParseFound(before, trace + p, "trace");
      ValueBeforeSpan(trace, span);
    }
  }

  /** The same for the span id, which is sent only along with a trace id. */
  lemma SpanRoundTrip(baseUser: string, session: string, browser: string, trace: string, span: string)
    requires SegmentValues(session, browser, trace, span) && MarkerFree(baseUser, "pspan")
    requires session != "pspan" && browser != "pspan" && trace != "pspan"
    ensures ParseSegment(Username(baseUser, session, browser, trace, span), "pspan")
            == if trace == "" || span == "" then None else Some(span)
  {
    Keys();
    var before := BeforeTrace(baseUser, session, browser);
    BeforeTail(baseUser, session, browser, "pspan");
    assert Username(baseUser, session, browser, trace, span)
        == before + Segment("trace", trace) + SpanSegment(trace, span);
    if trace == "" {
      NoTail(baseUser, session, browser, "pspan");
      assert before + "" + "" == before;
    } else {
      SpanAfterTrace(before, trace, span);
    }
  }

  lemma SpanAfterTrace(a: string, trace: string, span: string)
    requires HyphenFree(trace) && HyphenFree(span) && trace != "" && trace != "pspan" && MarkerFree(a, "pspan")
    ensures ParseSegment(a + Segment("trace", trace) + SpanSegment(trace, span), "pspan")
            == if span == "" then None else Some(span)
  {
    Keys();
    var all := a + Segment("trace", trace);
    if span == "" {
      SegmentNotFound(a, "trace", trace, "pspan");
      assert all + "" == all;
    } else {
      AppendSegment(a, "trace", trace, "pspan");
      TokenCuts(span);
      assert SpanSegment(trace, span) == Marker("pspan") + span;
      hide Segment, SpanSegment, MarkerFree, ParseSegment, Marker;
      assert all + (Marker("pspan") + span) == all + Marker("pspan") + span;
      ParseFound(all, span, "pspan");
    }
  }

  lemma BeforeTail(baseUser: string, session: string, browser: string, key: string)
    requires HyphenFree(session) && HyphenFree(browser) && HyphenFree(key) && session != ""
    requires key != "session" && key != "browser" && session != key && browser != key && MarkerFree(baseUser, key)
    ensures MarkerFree(BeforeTrace(baseUser, session, browser), key)
  {
    Keys();
    AppendSegment(baseUser, "session", session, key);
    assert baseUser + Segment("session", session) == baseUser + Marker("session") + session;
    if browser == "" {
      assert baseUser + Marker("session") + session + "" == baseUser + Marker("session") + session;
    } else {
      AppendSegment(baseUser + Marker("session") + session, "browser", browser, key);
    }
  }

  lemma NoTail(baseUser: string, session: string, browser: string, key: string)
    requires HyphenFree(session) && HyphenFree(browser) && HyphenFree(key) && session != ""
    requires key != "session" && key != "browser" && session != key && MarkerFree(baseUser, key)
    ensures IndexOf(BeforeTrace(baseUser, session, browser), Marker(key)) == -1
  {
    Keys();
    var before := baseUser + Marker("session") + session;
    assert baseUser + Segment("session", session) == before;
    if browser == "" {
      SegmentNotFound(baseUser, "session", session, key);
      assert before + "" == before;
    } else {
      AppendSegment(baseUser, "session", session, key);
      SegmentNotFound(before, "browser", browser, key);
    }
  }

  lemma ValueBeforeSpan(trace: string, span: string)
    requires HyphenFree(trace) && HyphenFree(span)
    ensures SegmentValue(trace + SpanSegment(trace, span)) == trace
  {
    Keys();
    TokenCuts(trace);
    var s := trace + SpanSegment(trace, span);
    if trace == "" || span == "" {
      assert s == trace;
    } else {
      SegmentTokens(trace, "pspan", span);
      TokenIsMarkerFree(trace, "browser");
      TokenIsMarkerFree(trace, "trace");
      TokenIsMarkerFree(trace, "pspan");
      SegmentNotFound(trace, "pspan", span, "browser");
      SegmentNotFound(trace, "pspan", span, "trace");
      assert trace + Marker("pspan") <= s;
      CutFound(trace, s, "pspan");
    }
  }

  // -- The grammar, written out ----------------------------------------

  /** The order of the segments, and which are left out. */
  lemma UsernameIs(baseUser: string, session: string, browser: string, trace: string, span: string)
    ensures browser != "" && trace != "" && span != "" ==>
              Username(baseUser, session, browser, trace, span)
              == baseUser + "-session-" + session + "-browser-" + browser + "-trace-" + trace + "-pspan-" + span
    ensures browser == "" && trace != "" && span != "" ==>
              Username(baseUser, session, browser, trace, span)
              == baseUser + "-session-" + session + "-trace-" + trace + "-pspan-" + span
    ensures browser != "" && trace != "" && span == "" ==>
              Username(baseUser, session, browser, trace, span)
              == baseUser + "-session-" + session + "-browser-" + browser + "-trace-" + trace
    ensures browser == "" && trace != "" && span == "" ==>
              Username(baseUser, session, browser, trace, span) == baseUser + "-session-" + session + "-trace-" + trace
    ensures browser != "" && trace == "" ==>
              Username(baseUser, session, browser, trace, span)
              == baseUser + "-session-" + session + "-browser-" + browser
    ensures browser == "" && trace == "" ==>
              Username(baseUser, session, browser, trace, span) == baseUser + "-session-" + session
    ensures AuthUsernameWithSession(baseUser, session, browser, trace, span)
            == if baseUser == "" then None else Some(Username(baseUser, session, browser, trace, span))
  {
    assert Marker("session") == "-session-" && Marker("browser") == "-browser-";
    assert Marker("trace") == "-trace-" && Marker("pspan") == "-pspan-";
    var a := baseUser + "-session-" + session;
    var b := a + Segment("browser", browser);
    var t := b + Segment("trace", trace);
    SegmentIs(a, "browser", browser);
    SegmentIs(b, "trace", trace);
    SegmentIs(t, "pspan", span);
    SegmentIs(t, "pspan", "");
    assert SpanSegment(trace, span) == Segment("pspan", if trace == "" then "" else span);
    hide Marker, Segment, SpanSegment;
  }

  lemma SegmentIs(a: string, key: string, value: string)
    ensures a + Segment(key, value) == if value == "" then a else a + Marker(key) + value
  {
    if value == "" {
      assert a + "" == a;
    } else {
      assert a + (Marker(key) + value) == a + Marker(key) + value;
    }
  }

  predicate EndsValue(s: string, i: int) {
    OccursAt(s, "-browser-", i) || OccursAt(s, "-trace-", i) || OccursAt(s, "-pspan-", i)
  }

  /** A value holds none of the three markers, and ends where one of them begins or where the text ends. */
  lemma SegmentValueIs(s: string)
    ensures SegmentValue(s) <= s
    ensures forall i :: !EndsValue(SegmentValue(s), i)
    ensures SegmentValue(s) == s || EndsValue(s, |SegmentValue(s)|)
  {
    assert Marker("browser") == "-browser-" && Marker("trace") == "-trace-" && Marker("pspan") == "-pspan-";
    var x := CutAt(s, "browser");
    var y := CutAt(x, "trace");
    CutRemoves(s, "browser");
    CutRemoves(x, "trace");
    CutRemoves(y, "pspan");
    hide CutAt, Marker;
    var v := SegmentValue(s);
    forall i ensures !EndsValue(v, i) {
      if OccursAt(v, "-browser-", i) {
        OccursLonger(v, x, "-browser-", i);
      }
      if OccursAt(v, "-trace-", i) {
        OccursLonger(v, y, "-trace-", i);
      }
    }
    if v != y {
      OccursLonger(y, s, "-pspan-", |v|);
    } else if y != x {
      OccursLonger(x, s, "-trace-", |v|);
    }
  }

  lemma CutRemoves(s: string, key: string)
    requires key != ""
    ensures var v := CutAt(s, key);
            && v <= s && (v == s || OccursAt(s, Marker(key), |v|)) && forall i :: !OccursAt(v, Marker(key), i)
  {
    var v := CutAt(s, key);
    forall i ensures !OccursAt(v, Marker(key), i) {
      if OccursAt(v, Marker(key), i) {
        OccursLonger(v, s, Marker(key), i);
      }
    }
  }

  lemma OccursLonger(v: string, s: string, p: string, i: int)
    requires v <= s && OccursAt(v, p, i)
    ensures OccursAt(s, p, i)
  {
    assert s[i..i + |p|] == v[i..i + |p|];
  }

  // -- Which base users are safe --------------------------------------

  predicate Hex(s: string) {
    forall i :: 0 <= i < |s| ==> '0' <= s[i] <= '9' || 'a' <= s[i] <= 'f'
  }

  /** A browser id is an integer. */
  predicate Digits(s: string) {
    s != "" && forall i :: 0 <= i < |s| ==> '0' <= s[i] <= '9'
  }

  predicate HexId(s: string, n: nat) {
    |s| == n && Hex(s)
  }

  /** The values in use: a 32-digit session id, and possibly an integer browser id, a trace id and a span id. */
  predicate RealValues(session: string, browser: string, trace: string, span: string) {
    && HexId(session, 32)
    && (browser == "" || Digits(browser))
    && (trace == "" || HexId(trace, 32))
    && (span == "" || HexId(span, 16))
  }

  lemma RealValuesAreSegmentValues(session: string, browser: string, trace: string, span: string)
    requires RealValues(session, browser, trace, span)
    ensures SegmentValues(session, browser, trace, span)
    ensures session != "browser" && trace != "browser"
  {
    assert "browser"[1] == 'r';
  }

  /** The text from a marker inside the base user up to the first hyphen of what follows it. */
  ghost function EarlyText(a: string, head: string, key: string): string
    requires !MarkerFree(a, key)
  {
    (a + "-" + head)[IndexOf(a + "-", Marker(key)) + |Marker(key)|..]
  }

  /** A value read from a marker inside the base user ends before anything that tells one id from another. */
  lemma EarlyMarker(a: string, post: string, key: string, j: nat)
    requires !MarkerFree(a, key) && j < |post| && post[j] == '-'
    ensures var r := ParseSegment(a + "-" + post, key);
            r.Some? && HyphenFree(r.value) ==> r.value <= EarlyText(a, post[..j], key)
  {
    hide SegmentValue, Contains, IndexOf;
    var user := a + "-" + post;
    var k := IndexOf(a + "-", Marker(key)) + |Marker(key)|;
    IndexOfInPrefix(a + "-", post, Marker(key));
    SegmentValueEnds(user[k..]);
    var n := |a| + 1 + j - k;
    assert user[k..][n] == '-';
    assert user[k..][..n] == EarlyText(a, post[..j], key);
    HyphenFreePrefix(SegmentValue(user[k..]), user[k..], n);
  }

  lemma HyphenFreePrefix(value: string, rest: string, n: nat)
    requires value <= rest && n < |rest| && rest[n] == '-'
    ensures HyphenFree(value) ==> value <= rest[..n]
  {
    assert |value| > n ==> value[n] == rest[n];
  }

  function Repeat(c: char, n: nat): string {
    seq(n, _ => c)
  }

  /** Of two session ids that differ at once, one is misread. */
  lemma UnsafeForSession(baseUser: string)
    requires !MarkerFree(baseUser, "session")
    ensures var (a, b) := (Repeat('a', 32), Repeat('b', 32));
            && RealValues(a, "", "", "") && RealValues(b, "", "", "")
            && (ParseSegment(Username(baseUser, a, "", "", ""), "session") != Some(a)
                || ParseSegment(Username(baseUser, b, "", "", ""), "session") != Some(b))
  {
    forall c | c in "ab"
      ensures var id := Repeat(c, 32);
              ParseSegment(Username(baseUser, id, "", "", ""), "session") == Some(id) ==>
                id <= EarlyText(baseUser, "session", "session")
    {
      var post := "session-" + Repeat(c, 32);
      assert post[..7] == "session" && post[7] == '-';
      assert Username(baseUser, Repeat(c, 32), "", "", "") == baseUser + "-" + post;
      EarlyMarker(baseUser, post, "session", 7);
    }
    assert 'a' in "ab" && 'b' in "ab";
    assert Repeat('a', 32)[0] != Repeat('b', 32)[0];
  }

  /** And of two browser ids. */
  lemma UnsafeForBrowser(baseUser: string, session: string)
    requires !MarkerFree(baseUser, "browser") && HexId(session, 32)
    ensures RealValues(session, "1", "", "") && RealValues(session, "2", "", "")
    ensures ParseSegment(Username(baseUser, session, "1", "", ""), "browser") != Some("1")
            || ParseSegment(Username(baseUser, session, "2", "", ""), "browser") != Some("2")
  {
    forall id | id in {"1", "2"}
      ensures ParseSegment(Username(baseUser, session, id, "", ""), "browser") == Some(id) ==>
                id <= EarlyText(baseUser, "session", "browser")
    {
      var post := "session-" + session + Marker("browser") + id;
      assert post[..7] == "session" && post[7] == '-';
      assert Username(baseUser, session, id, "", "") == baseUser + "-" + post;
      EarlyMarker(baseUser, post, "browser", 7);
    }
    assert "1"[0] != "2"[0];
  }

  // -- A browser segment that was never sent --------------------------

  /** Cutting a text at a key, and cutting what a hyphenated continuation makes of it. */
  predicate CutAlike(e: string, x: string, y: string) {
    y == x || (x == e && e + "-" <= y)
  }

  /** No marker of `key` ends in the hyphen after `e`. */
  ghost predicate NoneAcross(e: string, key: string) {
    forall i :: OccursAt(e + "-", Marker(key), i) ==> OccursAt(e, Marker(key), i)
  }

  lemma CutsAlike(e: string, x: string, y: string, key: string)
    requires CutAlike(e, x, y) && HyphenFree(key) && NoneAcross(e, key)
    ensures CutAlike(e, CutAt(x, key), CutAt(y, key))
  {
    if y != x {
      var post := y[|e| + 1..];
      assert y == e + "-" + post;
      if Contains(e, Marker(key)) {
        assert y == e + ("-" + post);
        IndexOfInPrefix(e, "-" + post, Marker(key));
      } else {
        CutBeyond(e, post, key);
      }
    }
  }

  lemma CutBeyond(e: string, post: string, key: string)
    requires HyphenFree(key) && NoneAcross(e, key) && !Contains(e, Marker(key))
    ensures var cut := CutAt(e + "-" + post, key); cut == e || e + "-" <= cut
  {
    var i := IndexOf(e + "-" + post, Marker(key));
    if i != -1 && i < |e| {
      OccursWithin(e, post, key, i);
    }
  }

  lemma SessionIsNotAcross(a: string, key: string)
    requires HyphenFree(key) && key != "session"
    ensures NoneAcross(a + "-" + "session", key) && NoneAcross("session", key)
  {
    Keys();
    TokenIsMarkerFree("session", key);
    var e := a + "-" + "session";
    forall i | OccursAt(e + "-", Marker(key), i) ensures OccursAt(e, Marker(key), i) {
      assert e + "-" == a + "-" + ("session" + "-");
      if i >= |a| {
        TokenAt(a, "session", key, i);
      } else {
        OccursWithin(a, "session" + "-", key, i);
        assert e[i..i + |Marker(key)|] == (a + "-")[i..i + |Marker(key)|];
      }
    }
  }

  lemma ValuesAlike(e: string, tail: string)
    requires NoneAcross(e, "browser") && NoneAcross(e, "trace") && NoneAcross(e, "pspan") && e != ""
    ensures SegmentValue(e + "-" + tail) == "" <==> SegmentValue(e) == ""
  {
    Keys();
    var y := e + "-" + tail;
    CutsAlike(e, e, y, "browser");
    CutsAlike(e, CutAt(e, "browser"), CutAt(y, "browser"), "trace");
    CutsAlike(e, CutAt(CutAt(e, "browser"), "trace"), CutAt(CutAt(y, "browser"), "trace"), "pspan");
  }

  lemma EarlyTextTokens(a: string)
    requires !MarkerFree(a, "browser")
    ensures var e := EarlyText(a, "session", "browser");
            e != "" && NoneAcross(e, "browser") && NoneAcross(e, "trace") && NoneAcross(e, "pspan")
  {
    Keys();
    hide MarkerFree, NoneAcross;
    assert |"session"| != |"trace"| && |"session"| != |"pspan"|;
    var rest := EarlyRest(a);
    SessionIsNotAcross(rest, "browser");
    SessionIsNotAcross(rest, "trace");
    SessionIsNotAcross(rest, "pspan");
  }

  lemma EarlyRest(a: string) returns (rest: string)
    requires !MarkerFree(a, "browser")
    ensures EarlyText(a, "session", "browser") in {"session", rest + "-" + "session"}
  {
    hide IndexOf;
    var k := IndexOf(a + "-", Marker("browser")) + |Marker("browser")|;
    rest := a[if k <= |a| then k else |a|..];
    assert (a + "-" + "session")[k..] == if k == |a| + 1 then "session" else rest + "-" + "session";
  }

  /**
   After a base user with a browser marker, a browser segment is found whatever
   is sent, unless right after that marker another one cuts the value to nothing.
   */
  lemma BrowserInBaseUser(baseUser: string, session: string, browser: string, trace: string, span: string)
    requires !MarkerFree(baseUser, "browser")
    ensures ParseSegment(Username(baseUser, session, browser, trace, span), "browser") == None
            <==> SegmentValue(EarlyText(baseUser, "session", "browser")) == ""
  {
    hide SegmentValue, Contains, IndexOf, Username, Values;
    var tail := Values(session, browser, trace, span);
    var user := Username(baseUser, session, browser, trace, span);
    UsernameAfterBase(baseUser, session, browser, trace, span);
    var k := IndexOf(baseUser + "-", Marker("browser")) + |Marker("browser")|;
    IndexOfInPrefix(baseUser + "-", "session-" + tail, Marker("browser"));
    var e := EarlyText(baseUser, "session", "browser");
    AfterMarker(baseUser, tail, k);
    EarlyTextTokens(baseUser);
    ValuesAlike(e, tail);
  }

  lemma AfterMarker(baseUser: string, tail: string, k: nat)
    requires k <= |baseUser| + 1
    ensures (baseUser + "-" + ("session-" + tail))[k..] == (baseUser + "-" + "session")[k..] + "-" + tail
  {
    assert baseUser + "-" + ("session-" + tail) == baseUser + "-" + "session" + ("-" + tail);
  }

  /** What the username holds after the session key. */
  function Values(session: string, browser: string, trace: string, span: string): string {
    session + Segment("browser", browser) + Segment("trace", trace) + SpanSegment(trace, span)
  }

  lemma UsernameAfterBase(baseUser: string, session: string, browser: string, trace: string, span: string)
    ensures Username(baseUser, session, browser, trace, span)
            == baseUser + "-" + ("session-" + Values(session, browser, trace, span))
  {
    Regroup(baseUser + Marker("session"), session, Segment("browser", browser), Segment("trace", trace),
            SpanSegment(trace, span));
    assert baseUser + Marker("session") == baseUser + "-" + "session-";
  }

  lemma NothingSentNothingFound(baseUser: string)
    ensures MarkerFree(baseUser, "browser") || SegmentValue(EarlyText(baseUser, "session", "browser")) == "" <==>
            forall session, trace, span :: RealValues(session, "", trace, span) ==>
              ParseSegment(Username(baseUser, session, "", trace, span), "browser") == None
  {
    hide ParseSegment, Username, MarkerFree, SegmentValue, EarlyText;
    forall session, trace, span | RealValues(session, "", trace, span)
      ensures ParseSegment(Username(baseUser, session, "", trace, span), "browser") == None <==>
              MarkerFree(baseUser, "browser") || SegmentValue(EarlyText(baseUser, "session", "browser")) == ""
    {
      if MarkerFree(baseUser, "browser") {
        RealValuesAreSegmentValues(session, "", trace, span);
        NoBrowserRoundTrip(baseUser, session, trace, span);
      } else {
        BrowserInBaseUser(baseUser, session, "", trace, span);
      }
    }
    assert RealValues(Repeat('a', 32), "", "", "");
  }

  /**
   The round trip as promised, and exactly where it holds: every session id,
   and every browser id, comes back if and only if the base user followed by a
   hyphen does not contain the marker; and if none was sent, none is found, also
   if the value after a marker in it is always empty.
   */
  lemma SafeBaseUsers(baseUser: string)
    ensures MarkerFree(baseUser, "session") <==>
            forall session, browser, trace, span :: RealValues(session, browser, trace, span) ==>
              ParseSegment(Username(baseUser, session, browser, trace, span), "session") == Some(session)
    ensures MarkerFree(baseUser, "browser") <==>
            forall session, browser, trace, span :: RealValues(session, browser, trace, span) && browser != "" ==>
              ParseSegment(Username(baseUser, session, browser, trace, span), "browser") == Some(browser)
    ensures MarkerFree(baseUser, "browser") || SegmentValue(EarlyText(baseUser, "session", "browser")) == "" <==>
            forall session, trace, span :: RealValues(session, "", trace, span) ==>
              ParseSegment(Username(baseUser, session, "", trace, span), "browser") == None
  {
    NothingSentNothingFound(baseUser);
    if MarkerFree(baseUser, "session") {
      forall session, browser, trace, span | RealValues(session, browser, trace, span)
        ensures ParseSegment(Username(baseUser, session, browser, trace, span), "session") == Some(session)
      {
        RealValuesAreSegmentValues(session, browser, trace, span);
        SessionRoundTrip(baseUser, session, browser, trace, span);
      }
    } else {
      UnsafeForSession(baseUser);
    }
    if MarkerFree(baseUser, "browser") {
      forall session, browser, trace, span | RealValues(session, browser, trace, span) && browser != ""
        ensures ParseSegment(Username(baseUser, session, browser, trace, span), "browser") == Some(browser)
      {
        RealValuesAreSegmentValues(session, browser, trace, span);
        BrowserRoundTrip(baseUser, session, browser, trace, span);
      }
    } else {
      UnsafeForBrowser(baseUser, Repeat('a', 32));
    }
  }

  /** After a base user that ends in the key, the parser reads on from the session segment's own key. */
  lemma BaseUserMisread(x: string, key: string, session: string, browser: string, trace: string, span: string)
    requires MarkerFree(x, key) && HyphenFree(key)
    ensures var r := ParseSegment(Username(x + "-" + key, session, browser, trace, span), key);
            r.Some? && r.value != "" && r.value[0] == 's'
  {
    hide MarkerFree, SegmentValue, ParseSegment;
    var b, t, p := Segment("browser", browser), Segment("trace", trace), SpanSegment(trace, span);
    KeyThenSession(x, key, session);
    Regroup(x + Marker(key), "session-" + session, b, t, p);
    ParseFound(x, "session-" + session + b + t + p, key);
    ValueStarts("session-" + session + b + t + p);
  }

  lemma KeyThenSession(x: string, key: string, session: string)
    ensures x + "-" + key + Marker("session") + session == x + Marker(key) + ("session-" + session)
  {
    assert x + Marker(key) == x + "-" + key + "-";
  }

  /** The trace and span ids in use come back after a base user without their markers. */
  lemma TraceIdsComeBack(baseUser: string, session: string, browser: string, trace: string, span: string)
    requires RealValues(session, browser, trace, span)
    requires MarkerFree(baseUser, "trace") && MarkerFree(baseUser, "pspan")
    ensures var user := Username(baseUser, session, browser, trace, span);
            && ParseSegment(user, "trace") == (if trace == "" then None else Some(trace))
            && ParseSegment(user, "pspan") == (if trace == "" || span == "" then None else Some(span))
  {
    RealValuesAreSegmentValues(session, browser, trace, span);
    assert "trace"[0] == 't' && "pspan"[0] == 'p';
    assert session != "trace" && browser != "trace" && session != "pspan" && browser != "pspan" && trace != "pspan";
    TraceRoundTrip(baseUser, session, browser, trace, span);
    SpanRoundTrip(baseUser, session, browser, trace, span);
  }

  /** Hyphen-free values are not enough: a base user, a session id and a trace id can each be taken for a marker. */
  lemma Misreadings()
    ensures ParseSegment(Username("x-session", "5e5", "", "", ""), "session") != Some("5e5")
    ensures ParseSegment(Username("x-browser", "5e5", "7", "", ""), "browser") != Some("7")
    ensures ParseSegment(Username("x-browser", "5e5", "", "", ""), "browser") != None
    ensures ParseSegment(Username("x", "browser", "7", "", ""), "browser") != Some("7")
    ensures ParseSegment(Username("x", "5e5", "7", "browser", "e5"), "browser") != Some("7")
    ensures ParseSegment(Username("x", "5e5", "", "browser", "e5"), "session") != Some("5e5")
  {
    Keys();
    TokenIsMarkerFree("x", "session");
    TokenIsMarkerFree("x", "browser");
    hide ParseSegment, Username, MarkerFree, TraceMisread;
    assert "x-session" == "x" + "-" + "session" && "x-browser" == "x" + "-" + "browser";
    BaseUserMisread("x", "session", "5e5", "", "", "");
    BaseUserMisread("x", "browser", "5e5", "7", "", "");
    BaseUserMisread("x", "browser", "5e5", "", "", "");
    MisreadIds("x");
  }

  lemma MisreadIds(baseUser: string)
    requires MarkerFree(baseUser, "session") && MarkerFree(baseUser, "browser")
    ensures ParseSegment(Username(baseUser, "browser", "7", "", ""), "browser") != Some("7")
    ensures ParseSegment(Username(baseUser, "5e5", "7", "browser", "e5"), "browser") != Some("7")
    ensures ParseSegment(Username(baseUser, "5e5", "", "browser", "e5"), "session") != Some("5e5")
  {
    Keys();
    hide ParseSegment, Username, MarkerFree;
    BrowserRoundTrip(baseUser, "browser", "7", "", "");
    BrowserRoundTrip(baseUser, "5e5", "7", "browser", "e5");
    SessionRoundTrip(baseUser, "5e5", "", "browser", "e5");
  }
}

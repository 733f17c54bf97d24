/**
 * The device-side WiFi command application: it routes messages on
 * `<base>/wifi/<client_id>/<cmd>` to four handlers and reports back on
 * `<uplink>/wifi/<client_id>/<sub>`. Calls into ESP-IDF, the WiFi module and
 * storage are not interpreted: the handlers return the calls they make, in
 * order, as a list of effects, and what storage returns is a parameter.
 */
module WifiConfigApp {
  import opened Base

  /** The characters of a NUL-terminated C string. */
  type CString = s: string | NoNul(s)

  /** wifi_config_t.sta.ssid: 32 raw bytes, NUL-terminated only when the name is shorter. */
  type SsidField = s: string | |s| == 32
    witness "\0\0\0\0\0\0\0\0\0\0\0\0\0\0\0\0\0\0\0\0\0\0\0\0\0\0\0\0\0\0\0\0"

  /** What web_mqtt_manager reports (base topic, client id; either may be NULL) and the uplink prefix. */
  datatype AppContext = AppContext(baseTopic: Option<CString>, clientId: Option<CString>, uplinkBase: CString)

  /** The calls the application makes outside itself. */
  datatype Effect =
    | WifiConnect(ssid: string, password: Option<string>)   // wifi_module_connect
    | LoadSaved                                              // wifi_storage_load_all
    | PromoteSaved(entry: SsidField)                         // wifi_storage_on_connected
    | WifiDisconnect                                         // esp_wifi_disconnect
    | ReportStatus                                           // wifi_cfg_handle_get_status
    | MqttPublish(topic: string, json: string)               // mqtt_module_publish, QoS 1, no retain

  const EspOk: int := 0

  // ---------------------------------------------------------------- routing

  datatype Command = Set | GetStatus | GetSaved | ConnectSaved

  function CommandName(c: Command): string
  {
    match c
    case Set => "set"
    case GetStatus => "get_status"
    case GetSaved => "get_saved"
    case ConnectSaved => "connect_saved"
  }

  /** Size of the topic buffers (prefix[128], topic[128]), terminator included. */
  const TopicCapacity: nat := 128

  /**
   * The checks of wifi_config_app_on_message: the topic must start with
   * `<base>/wifi/` (which must fit the prefix buffer), continue with the
   * client id and '/', and end with one of the four command names in full.
   */
  function Route(base: Option<CString>, clientId: Option<CString>, topic: Option<string>): Option<Command>
  {
    if base.None? || base.value == [] || clientId.None? || clientId.value == [] || topic.None? || topic.value == [] then None
    else
      var prefix := base.value + "/wifi/";
      var n := |prefix|;
      var t := topic.value;
      if n >= TopicCapacity || |t| <= n || t[..n] != prefix then None
      else
        var rest := t[n..];
        var id := clientId.value;
        if |rest| <= |id| || rest[..|id|] != id then None
        else if |rest| <= |id| + 1 || rest[|id|] != '/' then None
        else
          var cmd := rest[|id| + 1..];
          if cmd == "set" then Some(Set)
          else if cmd == "get_status" then Some(GetStatus)
          else if cmd == "get_saved" then Some(GetSaved)
          else if cmd == "connect_saved" then Some(ConnectSaved)
          else None
  }

  /**
   * A message is dispatched to command c exactly when base topic and client id
   * are set and non-empty, `<base>/wifi/` fits the 128-byte prefix buffer, and
   * the topic is exactly `<base>/wifi/<client_id>/<name of c>`.
   */
  lemma RouteExact(base: Option<CString>, clientId: Option<CString>, topic: Option<string>, c: Command)
    ensures Route(base, clientId, topic) == Some(c) <==>
      && base.Some? && base.value != [] && clientId.Some? && clientId.value != []
      && |base.value| + 6 < TopicCapacity
      && topic == Some(base.value + "/wifi/" + clientId.value + "/" + CommandName(c))
  {
    if base.Some? && clientId.Some? && topic.Some? {
      if topic.value == base.value + "/wifi/" + clientId.value + "/" + CommandName(c) {
        RouteReaches(base.value, clientId.value, c);
      }
      if Route(base, clientId, topic) == Some(c) {
        RouteOnlyExact(base.value, clientId.value, topic.value, c);
      }
    }
  }

  lemma RouteReaches(base: CString, id: CString, c: Command)
    ensures var t := base + "/wifi/" + id + "/" + CommandName(c);
      base != [] && id != [] && |base| + 6 < TopicCapacity ==> Route(Some(base), Some(id), Some(t)) == Some(c)
  {
    var prefix := base + "/wifi/";
    var cmd := CommandName(c);
    var t := prefix + id + "/" + cmd;
    var n := |prefix|;
    assert t[..n] == prefix;
    assert t[n..] == id + "/" + cmd;
    assert (id + "/" + cmd)[..|id|] == id;
    assert (id + "/" + cmd)[|id| + 1..] == cmd;
  }

  lemma RouteOnlyExact(base: CString, id: CString, t: string, c: Command)
    requires Route(Some(base), Some(id), Some(t)) == Some(c)
    ensures base != [] && id != [] && |base| + 6 < TopicCapacity
    ensures t == base + "/wifi/" + id + "/" + CommandName(c)
  {
    var prefix := base + "/wifi/";
    var n := |prefix|;
    assert |t| > n && t[..n] == prefix;
    var rest := t[n..];
    assert |rest| > |id| + 1 && rest[..|id|] == id && rest[|id|] == '/';
    assert rest[|id| + 1..] == CommandName(c);
    TopicParts(t, prefix, id, CommandName(c));
  }

  /** A topic that starts with prefix, then id and '/', and ends in name is their concatenation. */
  lemma TopicParts(t: string, prefix: string, id: string, name: string)
    requires |t| > |prefix| + |id| && t[..|prefix|] == prefix
    requires t[|prefix|..][..|id|] == id && t[|prefix|..][|id|] == '/' && t[|prefix|..][|id| + 1..] == name
    ensures t == prefix + id + "/" + name
  {
    var rest := t[|prefix|..];
    assert rest == id + "/" + name;
    assert t == t[..|prefix|] + rest;
  }

  /** A topic for another device, or without '/' after the id, reaches no handler. */
  lemma OtherDeviceIgnored(base: CString, clientId: CString, other: string, tail: string)
    requires base != [] && clientId != [] && |other| == |clientId| && other != clientId
    ensures Route(Some(base), Some(clientId), Some(base + "/wifi/" + other + tail)) == None
  {
    var prefix := base + "/wifi/";
    var t := prefix + other + tail;
    if |prefix| < TopicCapacity && |t| > |prefix| {
      assert t[..|prefix|] == prefix;
      assert t[|prefix|..] == other + tail;
      if |other + tail| > |clientId| {
        assert (other + tail)[..|clientId|] == other;
      }
    }
  }

  // ---------------------------------------------------------------- publishing

  /**
   * wifi_cfg_publish_json: one publish of json on `<uplink>/wifi/<client_id>/<sub>`,
   * or nothing when client id, sub or json is missing or the topic does not
   * fit the 128-byte buffer.
   */
  function PublishJson(ctx: AppContext, sub: Option<CString>, json: Option<CString>): (r: seq<Effect>)
    ensures |r| <= 1
    ensures r != [] <==>
      && ctx.clientId.Some? && ctx.clientId.value != [] && sub.Some? && json.Some?
      && |ctx.uplinkBase| + |ctx.clientId.value| + |sub.value| + 7 < TopicCapacity
    ensures r != [] ==>
      r == [MqttPublish(ctx.uplinkBase + "/wifi/" + ctx.clientId.value + "/" + sub.value, json.value)]
  {
    if ctx.clientId.None? || ctx.clientId.value == [] || sub.None? || json.None? then []
    else
      var topic := ctx.uplinkBase + "/wifi/" + ctx.clientId.value + "/" + sub.value;
      if |topic| >= TopicCapacity then []
      else [MqttPublish(topic, json.value)]
  }

  // ---------------------------------------------------------------- set

  /** Size of handle_set's buffer; the payload keeps at most one byte less. */
  const SetBufferSize: nat := 256

  /** The C string handle_set parses: at most 255 payload bytes, up to the first NUL. */
  function SetText(p: string): CString
  {
    CText(p[..Min(|p|, SetBufferSize - 1)])
  }

  /** No newline in t[i..e]. */
  predicate NoNewline(t: string, i: nat, e: nat)
    requires i <= e <= |t|
  {
    forall k :: i <= k < e ==> t[k] != '\n'
  }

  /** strchr(line, '\n') on the text: where the line starting at i ends. */
  function LineEnd(t: string, i: nat): (e: nat)
    requires i <= |t|
    ensures i <= e <= |t|
    ensures NoNewline(t, i, e)
    ensures e < |t| ==> t[e] == '\n'
    decreases |t| - i
  {
    if i == |t| || t[i] == '\n' then i else LineEnd(t, i + 1)
  }

  predicate Padding(c: char)
  {
    c == '\r' || c == ' '
  }

  /** Only '\r' and ' ' from index n of l on. */
  predicate PaddedFrom(l: string, n: nat)
    requires n <= |l|
  {
    forall k :: n <= k < |l| ==> Padding(l[k])
  }

  /** A line with its trailing '\r' and ' ' removed. */
  function StripTrailing(l: string): (s: string)
    ensures s <= l && PaddedFrom(l, |s|)
    ensures |s| > 0 ==> !Padding(s[|s| - 1])
  {
    if |l| > 0 && Padding(l[|l| - 1]) then StripTrailing(l[..|l| - 1]) else l
  }

  /** One stripped line updates ssid (`ssid=`) or password (`password=`); any other line is ignored. */
  function ApplyLine(line: string, ssid: Option<string>, password: Option<string>): (Option<string>, Option<string>)
  {
    var s := AfterKey(line, "ssid=");
    if s.Some? then (s, password)
    else
      var p := AfterKey(line, "password=");
      if p.Some? then (ssid, p) else (ssid, password)
  }

  /** strncmp(line, key, |key|) == 0: the rest of the line after key, when line starts with key. */
  function AfterKey(line: string, key: string): Option<string>
  {
    if key == [] then Some(line)
    else if line == [] || line[0] != key[0] then None
    else AfterKey(line[1..], key[1..])
  }

  /** AfterKey finds key exactly when the line starts with it, and returns the rest. */
  lemma {:induction false} AfterKeyPrefix(line: string, key: string)
    ensures AfterKey(line, key).Some? <==> |line| >= |key| && line[..|key|] == key
    ensures AfterKey(line, key).Some? ==> AfterKey(line, key).value == line[|key|..]
  {
    if key != [] && line != [] && line[0] == key[0] {
      AfterKeyPrefix(line[1..], key[1..]);
      assert |line| >= |key| ==> line[..|key|] == [line[0]] + line[1..][..|key| - 1];
    }
  }

  /** The lines of s, applied in order to the values found so far. */
  function ParseText(s: string, ssid: Option<string>, password: Option<string>): (Option<string>, Option<string>)
    decreases |s|
  {
    if s == [] then (ssid, password)
    else
      var e := LineEnd(s, 0);
      var next := ApplyLine(StripTrailing(s[..e]), ssid, password);
      if e == |s| then next else ParseText(s[e + 1..], next.0, next.1)
  }

  /** The lines of t from index i on, applied in order to the values found so far. */
  function ParseLines(t: string, i: nat, ssid: Option<string>, password: Option<string>): (Option<string>, Option<string>)
    requires i <= |t|
  {
    ParseText(t[i..], ssid, password)
  }

  /** The values a whole text sets. */
  function ParseSet(t: string): (Option<string>, Option<string>)
  {
    ParseLines(t, 0, None, None)
  }

  function Or(x: Option<string>, fallback: Option<string>): Option<string>
  {
    if x.Some? then x else fallback
  }

  /**
   * Values found before line i matter only when no later line sets one:
   * the last `ssid=` line and the last `password=` line win.
   */
  lemma {:induction false} LaterLinesWin(t: string, i: nat, ssid: Option<string>, password: Option<string>)
    requires i <= |t|
    ensures ParseLines(t, i, ssid, password)
      == (Or(ParseLines(t, i, None, None).0, ssid), Or(ParseLines(t, i, None, None).1, password))
    decreases |t| - i
  {
    if i < |t| {
      var e := LineEnd(t, i);
      var line := StripTrailing(t[i..e]);
      var a := ApplyLine(line, ssid, password);
      var b := ApplyLine(line, None, None);
      ApplyLineOr(line, ssid, password);
      ParseLinesAt(t, i, e, line, ssid, password, a);
      ParseLinesAt(t, i, e, line, None, None, b);
      if e < |t| {
        LaterLinesWin(t, e + 1, a.0, a.1);
        LaterLinesWin(t, e + 1, b.0, b.1);
      }
    }
  }

  lemma ApplyLineOr(line: string, ssid: Option<string>, password: Option<string>)
    ensures ApplyLine(line, ssid, password)
      == (Or(ApplyLine(line, None, None).0, ssid), Or(ApplyLine(line, None, None).1, password))
  {
  }

  /** Line ends are found the same way in a suffix of a text. */
  lemma {:induction false} LineEndDrop(t: string, o: nat, i: nat)
    requires o + i <= |t|
    ensures LineEnd(t, o + i) == o + LineEnd(t[o..], i)
    decreases |t| - o - i
  {
    if o + i < |t| && t[o + i] != '\n' {
      assert t[o..][i] == t[o + i];
      LineEndDrop(t, o, i + 1);
    }
  }

  /** One step of ParseLines, with the line end, the line and its effect named. */
  lemma ParseLinesAt(t: string, i: nat, e: nat, line: string, ssid: Option<string>, password: Option<string>, next: (Option<string>, Option<string>))
    requires i < |t| && e == LineEnd(t, i) && line == StripTrailing(t[i..e])
    requires next == ApplyLine(line, ssid, password)
    ensures e <= |t|
    ensures e == |t| ==> ParseLines(t, i, ssid, password) == next
    ensures e < |t| ==> ParseLines(t, i, ssid, password) == ParseLines(t, e + 1, next.0, next.1)
  {
    var s := t[i..];
    LineEndDrop(t, i, 0);
    assert LineEnd(s, 0) == e - i && s != [];
    assert s[..e - i] == t[i..e];
    if e < |t| {
      assert s[e - i + 1..] == t[e + 1..];
    }
  }

  /**
   * For two blocks of lines joined by a newline, a value set in the second
   * block overrides the first block's.
   */
  lemma SecondBlockWins(a: string, b: string)
    requires forall k :: 0 <= k < |a| ==> a[k] != '\n'
    ensures ParseSet(a + "\n" + b)
      == (Or(ParseSet(b).0, ParseSet(a).0), Or(ParseSet(b).1, ParseSet(a).1))
  {
    var t := a + "\n" + b;
    assert t[|a|] == '\n';
    assert LineEnd(t, 0) == |a| by {
      assert t[0..|a|] == a;
      LineEndSkip(t, 0, |a|);
    }
    assert t[0..|a|] == a;
    var first := ApplyLine(StripTrailing(a), None, None);
    ParseLinesAt(t, 0, |a|, StripTrailing(a), None, None, first);
    assert t[|a| + 1..] == b;
    assert ParseLines(t, |a| + 1, first.0, first.1) == ParseText(b, first.0, first.1);
    LaterLinesWin(b, 0, first.0, first.1);
    assert ParseSet(a) == first by {
      if a == [] {
        assert StripTrailing(a) == [];
      } else {
        assert a[0..|a|] == a;
        LineEndSkip(a, 0, |a|);
        ParseLinesAt(a, 0, |a|, StripTrailing(a), None, None, first);
      }
    }
  }

  /** A newline-free stretch followed by a newline or the end is one line. */
  lemma {:induction false} LineEndSkip(t: string, i: nat, e: nat)
    requires i <= e <= |t|
    requires '\n' !in t[i..e]
    requires e == |t| || t[e] == '\n'
    ensures LineEnd(t, i) == e
    decreases e - i
  {
    if i < e {
      assert t[i] == t[i..e][0];
      assert t[i + 1..e] == t[i..e][1..];
      LineEndSkip(t, i + 1, e);
    }
  }

  /**
   * handle_set: submit a connect with the ssid and password the payload sets,
   * an empty password passed as none; nothing when the payload is absent or
   * empty, or sets no ssid or an empty one.
   */
  function SetEffects(payload: Option<string>): (r: seq<Effect>)
    ensures |r| <= 1
    ensures r != [] ==> r[0].WifiConnect? && r[0].ssid != [] && (r[0].password.Some? ==> r[0].password.value != [])
  {
    if payload.None? || |payload.value| == 0 then []
    else
      var (ssid, password) := ParseSet(SetText(payload.value));
      ConnectFor(ssid, password)
  }

  /** Only the first 255 payload bytes matter. */
  lemma SetReadsAtMost255(p: string)
    requires |p| >= SetBufferSize
    ensures SetEffects(Some(p)) == SetEffects(Some(p[..SetBufferSize - 1]))
  {
    assert p[..SetBufferSize - 1][..SetBufferSize - 1] == p[..SetBufferSize - 1];
  }

  /** Example: the last ssid line wins and an empty password is passed as none. */
  lemma SetExampleLastSsidWins()
    ensures SetEffects(Some("ssid=a\r\nssid=bc \npassword=\n")) == [WifiConnect("bc", None)]
  {
    ExampleIsWholeText();
    ParseExampleLastSsidWins();
  }

  lemma ExampleIsWholeText()
    ensures SetText(LastSsidExample) == LastSsidExample
  {
    var t := LastSsidExample;
    assert |t| < SetBufferSize && t[..|t|] == t;
    assert NoNul(t);
    CTextWhole(t);
  }

  const LastSsidExample: string := "ssid=a\r\nssid=bc \npassword=\n"

  lemma ParseExampleLastSsidWins()
    ensures ParseSet(LastSsidExample) == (Some("bc"), Some(""))
  {
    ExampleFirstLine();
    ExampleSecondLine();
    ExampleThirdLine();
  }

  lemma ExampleFirstLine()
    ensures ParseLines(LastSsidExample, 0, None, None) == ParseLines(LastSsidExample, 8, Some("a"), None)
  {
    var t := LastSsidExample;
    assert t[0..7] == "ssid=a\r" && t[7] == '\n';
    SsidLine("ssid=a\r", "a", None, None);
    OneLine(t, 0, 7, "ssid=a\r", None, None, Some("a"), None);
  }

  lemma ExampleSecondLine()
    ensures ParseLines(LastSsidExample, 8, Some("a"), None) == ParseLines(LastSsidExample, 17, Some("bc"), None)
  {
    var t := LastSsidExample;
    assert t[8..16] == "ssid=bc " && t[16] == '\n';
    SsidLine("ssid=bc ", "bc", Some("a"), None);
    OneLine(t, 8, 16, "ssid=bc ", Some("a"), None, Some("bc"), None);
  }

  lemma ExampleThirdLine()
    ensures ParseLines(LastSsidExample, 17, Some("bc"), None) == (Some("bc"), Some(""))
  {
    var t := LastSsidExample;
    assert t[17..26] == "password=" && t[26] == '\n' && |t| == 27;
    EmptyPasswordLine(Some("bc"));
    OneLine(t, 17, 26, "password=", Some("bc"), None, Some("bc"), Some(""));
  }

  /** One line of a text, from i to the newline (or the end) at e, applied to ssid and password. */
  lemma OneLine(t: string, i: nat, e: nat, raw: string, ssid: Option<string>, password: Option<string>,
                ssid': Option<string>, password': Option<string>)
    requires i < |t| && i <= e <= |t| && t[i..e] == raw && '\n' !in raw && (e == |t| || t[e] == '\n')
    requires ApplyLine(StripTrailing(raw), ssid, password) == (ssid', password')
    ensures e == |t| ==> ParseLines(t, i, ssid, password) == (ssid', password')
    ensures e < |t| ==> ParseLines(t, i, ssid, password) == ParseLines(t, e + 1, ssid', password')
  {
    LineEndSkip(t, i, e);
    ParseLinesAt(t, i, e, StripTrailing(t[i..e]), ssid, password, (ssid', password'));
  }

  /** An `ssid=` line with value v and at most one trailing pad character. */
  lemma SsidLine(raw: string, v: string, ssid: Option<string>, password: Option<string>)
    requires |raw| == 6 + |v| && raw[..5 + |v|] == "ssid=" + v && Padding(raw[|raw| - 1])
    requires v != [] && !Padding(v[|v| - 1])
    ensures ApplyLine(StripTrailing(raw), ssid, password) == (Some(v), password)
  {
    var line := raw[..|raw| - 1];
    assert StripTrailing(line) == line by {
      assert line[|line| - 1] == v[|v| - 1];
    }
    assert StripTrailing(raw) == line;
    AfterKeyPrefix(line, "ssid=");
    assert line[..5] == "ssid=" && line[5..] == v;
  }

  lemma EmptyPasswordLine(ssid: Option<string>)
    ensures StripTrailing("password=") == "password="
    ensures ApplyLine("password=", ssid, None) == (ssid, Some(""))
  {
    assert AfterKey("password=", "ssid=") == None;
    AfterKeyPrefix("password=", "password=");
    assert "password="[9..] == "";
  }

  /** Example: a password without an ssid does nothing. */
  lemma SetExamplePasswordAlone()
    ensures SetEffects(Some("password=x")) == []
  {
    PasswordAloneText();
    ParseExamplePasswordAlone();
  }

  lemma PasswordAloneText()
    ensures SetText("password=x") == "password=x"
  {
    var u := "password=x";
    assert |u| < SetBufferSize && u[..|u|] == u;
    assert NoNul(u);
    CTextWhole(u);
  }

  lemma ParseExamplePasswordAlone()
    ensures ParseSet("password=x") == (None, Some("x"))
  {
    var u := "password=x";
    PasswordLine();
    assert u[0..10] == u;
    OneLine(u, 0, 10, u, None, None, None, Some("x"));
  }

  lemma PasswordLine()
    ensures StripTrailing("password=x") == "password=x"
    ensures ApplyLine("password=x", None, None) == (None, Some("x"))
  {
    var u := "password=x";
    assert AfterKey(u, "ssid=") == None;
    AfterKeyPrefix(u, "password=");
    assert u[..9] == "password=" && u[9..] == "x";
  }

  lemma {:induction false} CTextWhole(s: string)
    requires NoNul(s)
    ensures CText(s) == s
    decreases |s|
  {
    if s != [] {
      CTextWhole(s[1..]);
    }
  }

  // ---------------------------------------------------------------- set, on the buffer

  /** buf holds the C string t from index i on: its characters, then the terminator. */
  ghost predicate TextAt(buf: seq<char>, t: string, i: nat)
  {
    NoNul(t) && |t| < |buf| && i <= |t| && buf[|t|] == '\0'
    && forall k :: i <= k < |t| ==> buf[k] == t[k]
  }

  /**
   * A `const char *` into the buffer: -1 for NULL, otherwise the index of a
   * C string with value v that ends before index limit.
   */
  ghost predicate Points(b: seq<char>, at: int, v: Option<string>, limit: nat)
  {
    (at < 0 <==> v.None?)
    && (at >= 0 ==> NoNul(v.value) && at + |v.value| < limit <= |b|
                    && b[at..at + |v.value|] == v.value && b[at + |v.value|] == '\0')
  }

  /** A pointer stays valid while nothing before its limit changes. */
  lemma PointsKept(b: seq<char>, c: seq<char>, at: int, v: Option<string>, limit: nat, limit': nat)
    requires Points(b, at, v, limit) && limit <= limit' <= |c| && limit <= |b| && b[..limit] == c[..limit]
    ensures Points(c, at, v, limit')
  {
    if at >= 0 {
      assert b[at..at + |v.value|] == b[..limit][at..at + |v.value|];
      assert c[at..at + |v.value|] == c[..limit][at..at + |v.value|];
      assert b[at + |v.value|] == b[..limit][at + |v.value|];
      assert c[at + |v.value|] == c[..limit][at + |v.value|];
    }
  }

  /** A pointer valid up to limit is valid up to any larger limit within the buffer. */
  lemma PointsWiden(b: seq<char>, at: int, v: Option<string>, limit: nat, limit': nat)
    requires Points(b, at, v, limit) && limit <= limit' <= |b|
    ensures Points(b, at, v, limit')
  {
  }

  /** The characters a valid pointer designates: no terminator before the value's end. */
  lemma PointsRead(b: seq<char>, at: int, v: Option<string>, limit: nat)
    requires Points(b, at, v, limit) && at >= 0
    ensures forall k :: at <= k < at + |v.value| ==> b[k] != '\0'
    ensures b[at] == '\0' <==> v.value == []
  {
    forall k | at <= k < at + |v.value|
      ensures b[k] != '\0'
    {
      assert b[k] == b[at..at + |v.value|][k - at];
    }
    if v.value != [] {
      assert b[at] == b[at..at + |v.value|][0];
    }
  }

  /** strchr(buf + i, '\n') on a buffer holding t: the index of the newline, or -1 for NULL. */
  method Strchr(buf: array<char>, ghost t: string, i: nat) returns (next: int)
    requires TextAt(buf[..], t, i)
    ensures next == if LineEnd(t, i) == |t| then -1 else LineEnd(t, i)
  {
    var j := i;
    while buf[j] != '\n' && buf[j] != '\0'
      invariant i <= j <= |t|
      invariant LineEnd(t, j) == LineEnd(t, i)
      decreases |t| - j
    {
      j := j + 1;
    }
    next := if buf[j] == '\0' then -1 else j;
  }

  /** strlen(buf + i) when the first terminator from i is at e. */
  method Strlen(buf: array<char>, i: nat, ghost e: nat) returns (len: nat)
    requires i <= e < buf.Length && buf[e] == '\0'
    requires forall k :: i <= k < e ==> buf[k] != '\0'
    ensures len == e - i
  {
    len := 0;
    while buf[i + len] != '\0'
      invariant i + len <= e
      decreases e - i - len
    {
      len := len + 1;
    }
  }

  /** Overwrites trailing '\r' and ' ' of the line buf[i..i + len0] with terminators. */
  method StripLine(buf: array<char>, i: nat, len0: nat, ghost line: string) returns (len: nat)
    requires i + len0 < buf.Length && buf[i..i + len0] == line && buf[i + len0] == '\0'
    modifies buf
    ensures len <= len0 && buf[i..i + len] == StripTrailing(line) && buf[i + len] == '\0'
    ensures buf[..i] == old(buf[..i]) && buf[i + len0 + 1..] == old(buf[i + len0 + 1..])
  {
    len := len0;
    while len > 0 && Padding(buf[i + len - 1])
      invariant len <= len0
      invariant buf[i..i + len] == line[..len] && buf[i + len] == '\0'
      invariant StripTrailing(line[..len]) == StripTrailing(line)
      invariant buf[..i] == old(buf[..i]) && buf[i + len0 + 1..] == old(buf[i + len0 + 1..])
    {
      ghost var before := buf[..];
      buf[i + len - 1] := '\0';
      assert buf[..] == before[i + len - 1 := '\0'];
      StripStep(before, buf[..], old(buf[..]), i, len, len0, line);
      len := len - 1;
    }
    assert line[..len] == buf[i..i + len];
    assert len > 0 ==> !Padding(line[..len][len - 1]);
  }

  /** One pass of StripLine's loop: a trailing '\r' or ' ' becomes the terminator. */
  lemma StripStep(b: seq<char>, b': seq<char>, b0: seq<char>, i: nat, len: nat, len0: nat, line: string)
    requires 0 < len <= len0 == |line| && i + len0 < |b| == |b0|
    requires b[i..i + len] == line[..len] && b[i + len] == '\0' && Padding(b[i + len - 1])
    requires StripTrailing(line[..len]) == StripTrailing(line)
    requires b[..i] == b0[..i] && b[i + len0 + 1..] == b0[i + len0 + 1..]
    requires b' == b[i + len - 1 := '\0']
    ensures b'[i..i + len - 1] == line[..len - 1] && b'[i + len - 1] == '\0'
    ensures StripTrailing(line[..len - 1]) == StripTrailing(line)
    ensures b'[..i] == b0[..i] && b'[i + len0 + 1..] == b0[i + len0 + 1..]
  {
    assert b[i + len - 1] == line[..len][len - 1];
    assert line[..len][..len - 1] == line[..len - 1];
    assert b'[i..i + len - 1] == b[i..i + len][..len - 1];
    assert b'[..i] == b[..i];
    assert b'[i + len0 + 1..] == b[i + len0 + 1..];
  }

  /**
   * wifi_cfg_handle_set on its 256-byte stack buffer: copy at most 255 bytes,
   * terminate, then cut the text into lines in place, strip each, and keep
   * pointers to the values of the last `ssid=` and `password=` lines.
   */
  method HandleSet(payload: Option<string>) returns (effects: seq<Effect>)
    ensures effects == SetEffects(payload)
  {
    if payload.None? || |payload.value| == 0 {
      return [];
    }
    var buf;
    ghost var t;
    buf, t := CopyPayload(payload.value);

    var ssidAt, passwordAt := -1, -1;
    ghost var ssid: Option<string>, password: Option<string> := None, None;
    var i: nat := 0;
    ghost var broke := false;
    ghost var parsed := ParseSet(t);
    while buf[i] != '\0'
      invariant !broke
      invariant TextAt(buf[..], t, i)
      invariant ParseLines(t, i, ssid, password) == parsed
      invariant Points(buf[..], ssidAt, ssid, i) && Points(buf[..], passwordAt, password, i)
      decreases |t| - i
    {
      var next;
      next, ssidAt, ssid, passwordAt, password := SetLine(buf, t, i, ssidAt, ssid, passwordAt, password, parsed);
      if next < 0 {
        broke := true;
        break;
      }
      i := next + 1;
    }
    if !broke {
      assert i == |t|;
      assert t[i..] == [];
      PointsWiden(buf[..], ssidAt, ssid, i, buf.Length);
      PointsWiden(buf[..], passwordAt, password, i, buf.Length);
    }
    effects := ConnectCall(buf, ssidAt, ssid, passwordAt, password);
  }

  /** What is left to parse after one line of the set payload has been applied. */
  lemma LineParsed(t: string, i: nat, e: nat, line: string, ssid: Option<string>, password: Option<string>,
                   ssid': Option<string>, password': Option<string>, parsed: (Option<string>, Option<string>), next: int)
    requires i < |t| && e == LineEnd(t, i) && line == StripTrailing(t[i..e])
    requires next == if e == |t| then -1 else e
    requires ApplyLine(line, ssid, password) == (ssid', password')
    requires ParseLines(t, i, ssid, password) == parsed
    ensures next < 0 ==> (ssid', password') == parsed
    ensures next >= 0 ==> ParseLines(t, next + 1, ssid', password') == parsed
  {
    ParseLinesAt(t, i, e, line, ssid, password, (ssid', password'));
  }

  /**
   * One pass of handle_set's loop over the line starting at i: terminate and
   * strip it, then take its value. Returns the index of its newline, or -1
   * when it was the last line; the values still owed by the rest of the text
   * are unchanged.
   */
  method SetLine(buf: array<char>, ghost t: string, i: nat,
                 ssidAt: int, ghost ssid: Option<string>, passwordAt: int, ghost password: Option<string>,
                 ghost parsed: (Option<string>, Option<string>))
    returns (next: int, ssidAt': int, ghost ssid': Option<string>, passwordAt': int, ghost password': Option<string>)
    requires TextAt(buf[..], t, i) && i < |t|
    requires ParseLines(t, i, ssid, password) == parsed
    requires Points(buf[..], ssidAt, ssid, i) && Points(buf[..], passwordAt, password, i)
    modifies buf
    ensures next < 0 ==> (ssid', password') == parsed
    ensures next < 0 ==> Points(buf[..], ssidAt', ssid', buf.Length) && Points(buf[..], passwordAt', password', buf.Length)
    ensures next >= 0 ==> i <= next < |t| && TextAt(buf[..], t, next + 1)
    ensures next >= 0 ==> ParseLines(t, next + 1, ssid', password') == parsed
    ensures next >= 0 ==> Points(buf[..], ssidAt', ssid', next + 1) && Points(buf[..], passwordAt', password', next + 1)
  {
    ghost var before := buf[..];
    ghost var e := LineEnd(t, i);
    var len;
    next, len := TerminateLine(buf, t, i);
    ghost var after := buf[..];
    ghost var stripped := StripTrailing(t[i..e]);
    SetStep(before, after, t, i, e, len, stripped, ssidAt, ssid, passwordAt, password);
    ssidAt', ssid', passwordAt', password' := TakeValue(buf, i, len, e, stripped, ssidAt, ssid, passwordAt, password);
    LineParsed(t, i, e, stripped, ssid, password, ssid', password', parsed, next);
    if next < 0 {
      assert e == |t|;
      PointsWiden(after, ssidAt', ssid', e + 1, |after|);
      PointsWiden(after, passwordAt', password', e + 1, |after|);
    } else {
      assert next == e < |t|;
    }
  }

  /**
   * The strncmp tests on a stripped line: an `ssid=` line moves the ssid
   * pointer past its key, otherwise a `password=` line moves the password pointer.
   */
  method TakeValue(buf: array<char>, i: nat, len: nat, ghost e: nat, ghost stripped: string,
                   ssidAt: int, ghost ssid: Option<string>, passwordAt: int, ghost password: Option<string>)
    returns (ssidAt': int, ghost ssid': Option<string>, passwordAt': int, ghost password': Option<string>)
    requires i + len <= e < buf.Length && buf[i..i + len] == stripped && buf[i + len] == '\0' && NoNul(stripped)
    requires Points(buf[..], ssidAt, ssid, e + 1) && Points(buf[..], passwordAt, password, e + 1)
    ensures (ssid', password') == ApplyLine(stripped, ssid, password)
    ensures Points(buf[..], ssidAt', ssid', e + 1)
    ensures Points(buf[..], passwordAt', password', e + 1)
  {
    ghost var b := buf[..];
    if len >= 5 && buf[i..i + 5] == "ssid=" {               // strncmp(line, "ssid=", 5) == 0
      ssidAt', passwordAt' := i + 5, passwordAt;
      ssid' := TakeKey(b, i, len, e, stripped, "ssid=");
      password' := password;
      assert ApplyLine(stripped, ssid, password) == (ssid', password');
    } else if len >= 9 && buf[i..i + 9] == "password=" {    // strncmp(line, "password=", 9) == 0
      KeyTest(b, i, len, stripped, "ssid=");
      ssidAt', passwordAt' := ssidAt, i + 9;
      ssid' := ssid;
      password' := TakeKey(b, i, len, e, stripped, "password=");
      assert ApplyLine(stripped, ssid, password) == (ssid', password');
    } else {
      KeyTest(b, i, len, stripped, "ssid=");
      KeyTest(b, i, len, stripped, "password=");
      ssidAt', ssid', passwordAt', password' := ssidAt, ssid, passwordAt, password;
    }
  }

  /** strncmp(line, key, |key|) == 0 on the buffer is AfterKey finding key in the stripped line. */
  lemma KeyTest(b: seq<char>, i: nat, len: nat, stripped: string, key: string)
    requires i + len < |b| && b[i..i + len] == stripped
    ensures AfterKey(stripped, key).Some? <==> len >= |key| && b[i..i + |key|] == key
  {
    AfterKeyPrefix(stripped, key);
    if len >= |key| {
      assert stripped[..|key|] == b[i..i + |key|];
    }
  }

  /** A line that starts with key: its value, which the pointer past the key points to. */
  lemma TakeKey(b: seq<char>, i: nat, len: nat, e: nat, stripped: string, key: string) returns (v: Option<string>)
    requires i + len <= e < |b| && b[i..i + len] == stripped && b[i + len] == '\0' && NoNul(stripped)
    requires len >= |key| && b[i..i + |key|] == key
    ensures v == AfterKey(stripped, key) && v.Some?
    ensures Points(b, i + |key|, v, e + 1)
  {
    KeyTest(b, i, len, stripped, key);
    PointsTaken(b, i, len, stripped, key, e + 1);
    v := AfterKey(stripped, key);
  }

  /** memcpy of at most 255 payload bytes into a fresh 256-byte buffer, then the terminator. */
  method CopyPayload(p: string) returns (buf: array<char>, ghost t: string)
    ensures fresh(buf) && buf.Length == SetBufferSize && t == SetText(p) && TextAt(buf[..], t, 0)
  {
    var n := Min(|p|, SetBufferSize - 1);
    buf := new char[SetBufferSize];
    forall k | 0 <= k < n {
      buf[k] := p[k];
    }
    buf[n] := '\0';
    t := SetText(p);
    assert buf[..n] == p[..n];
    assert t <= p[..n];
    if |t| < n {
      assert buf[|t|] == p[..n][|t|];
    }
  }

  /**
   * One line of handle_set's loop: find the newline, overwrite it with a
   * terminator, then strip the line. Returns the newline's index (-1 for none)
   * and the stripped length; nothing outside the line changes.
   */
  method TerminateLine(buf: array<char>, ghost t: string, i: nat) returns (next: int, len: nat)
    requires TextAt(buf[..], t, i) && i < |t|
    modifies buf
    ensures next == if LineEnd(t, i) == |t| then -1 else LineEnd(t, i)
    ensures i + len <= LineEnd(t, i) && buf[i..i + len] == StripTrailing(t[i..LineEnd(t, i)]) && buf[i + len] == '\0'
    ensures buf[..i] == old(buf[..i]) && buf[LineEnd(t, i) + 1..] == old(buf[LineEnd(t, i) + 1..])
  {
    ghost var e := LineEnd(t, i);
    next := Strchr(buf, t, i);
    if next >= 0 {
      buf[next] := '\0';
    }
    assert forall k :: i <= k < e ==> buf[k] == t[k];
    len := Strlen(buf, i, e);
    assert buf[i..i + len] == t[i..e];
    assert buf[..i] == old(buf[..i]) && buf[e + 1..] == old(buf[e + 1..]);
    len := StripLine(buf, i, len, t[i..e]);
  }

  /**
   * The end of handle_set: no call without an ssid or with an empty one; an
   * empty password is passed as NULL.
   */
  function ConnectFor(ssid: Option<string>, password: Option<string>): (r: seq<Effect>)
    ensures r != [] <==> ssid.Some? && ssid.value != []
    ensures r != [] ==> r == [WifiConnect(ssid.value, if password.Some? && password.value != [] then password else None)]
  {
    if ssid.None? || ssid.value == [] then []
    else [WifiConnect(ssid.value, if password.Some? && password.value != [] then password else None)]
  }

  /** Reads the strings the two pointers designate and makes the call ConnectFor describes. */
  method ConnectCall(buf: array<char>, ssidAt: int, ghost ssid: Option<string>, passwordAt: int, ghost password: Option<string>)
    returns (effects: seq<Effect>)
    requires Points(buf[..], ssidAt, ssid, buf.Length) && Points(buf[..], passwordAt, password, buf.Length)
    ensures effects == ConnectFor(ssid, password)
  {
    if ssidAt < 0 {
      return [];
    }
    PointsRead(buf[..], ssidAt, ssid, buf.Length);
    if buf[ssidAt] == '\0' {
      return [];
    }
    var ssidLen := Strlen(buf, ssidAt, ssidAt + |ssid.value|);
    var pwd: Option<string> := None;
    if passwordAt >= 0 {
      PointsRead(buf[..], passwordAt, password, buf.Length);
    }
    if passwordAt >= 0 && buf[passwordAt] != '\0' {
      var passwordLen := Strlen(buf, passwordAt, passwordAt + |password.value|);
      pwd := Some(buf[passwordAt..passwordAt + passwordLen]);
    }
    effects := [WifiConnect(buf[ssidAt..ssidAt + ssidLen], pwd)];
  }

  /** The text after a line is untouched by the work on that line. */
  lemma RestKept(before: seq<char>, after: seq<char>, t: string, i: nat, e: nat)
    requires TextAt(before, t, i) && i <= e < |t| && |after| == |before| && before[e + 1..] == after[e + 1..]
    ensures TextAt(after, t, e + 1)
  {
    forall k | e + 1 <= k < |t|
      ensures after[k] == t[k]
    {
      assert after[k] == after[e + 1..][k - e - 1];
    }
    assert after[|t|] == after[e + 1..][|t| - e - 1];
  }

  /** The pointer taken past a key into a stripped, terminated line. */
  lemma PointsTaken(after: seq<char>, i: nat, len: nat, stripped: string, key: string, limit: nat)
    requires i + len < limit <= |after| && after[i..i + len] == stripped && after[i + len] == '\0'
    requires NoNul(stripped) && AfterKey(stripped, key).Some?
    ensures Points(after, i + |key|, AfterKey(stripped, key), limit)
  {
    AfterKeyPrefix(stripped, key);
    assert after[i + |key|..i + len] == stripped[|key|..];
  }

  /** What one iteration of HandleSet's loop keeps: the rest of the text and the pointers already taken. */
  lemma SetStep(before: seq<char>, after: seq<char>, t: string, i: nat, e: nat, len: nat, stripped: string,
                ssidAt: int, ssid: Option<string>, passwordAt: int, password: Option<string>)
    requires TextAt(before, t, i) && i < |t| && e == LineEnd(t, i) && |after| == |before|
    requires before[..i] == after[..i] && before[e + 1..] == after[e + 1..]
    requires stripped == StripTrailing(t[i..e]) && i + len <= e
    requires after[i..i + len] == stripped && after[i + len] == '\0'
    requires Points(before, ssidAt, ssid, i) && Points(before, passwordAt, password, i)
    ensures e < |t| ==> TextAt(after, t, e + 1)
    ensures Points(after, ssidAt, ssid, e + 1) && Points(after, passwordAt, password, e + 1)
    ensures NoNul(stripped)
  {
    PointsKept(before, after, ssidAt, ssid, i, e + 1);
    PointsKept(before, after, passwordAt, password, i, e + 1);
    if e < |t| {
      RestKept(before, after, t, i, e);
    }
    assert NoNul(stripped) by {
      assert stripped <= t[i..e];
    }
  }

  // ---------------------------------------------------------------- connect_saved

  /** Size of handle_connect_saved's buffer; the payload keeps at most one byte less. */
  const ConnectSavedBufferSize: nat := 128

  /** The ssid handle_connect_saved asks for: the text after a leading `ssid=`, taken as is. */
  function RequestedSsid(payload: Option<string>): Option<string>
  {
    if payload.None? || |payload.value| == 0 then None
    else
      var text := CText(payload.value[..Min(|payload.value|, ConnectSavedBufferSize - 1)]);
      var s := AfterKey(text, "ssid=");
      if s.None? || s.value == [] then None else s
  }

  /**
   * strncmp(field, s, 32) == 0 for a 32-byte ssid field and a C string s:
   * a terminated name must equal s, a full 32-byte name must be s's first 32 bytes.
   */
  predicate SsidEquals(field: SsidField, s: string)
  {
    var f := CText(field);
    if |f| < 32 then s == f else |s| >= 32 && s[..32] == f
  }

  /** A saved entry the search accepts: a non-empty name equal to s. */
  predicate Selectable(e: SsidField, s: string)
  {
    e[0] != '\0' && SsidEquals(e, s)
  }

  /** r is the first index from i on whose entry is selectable, or -1 when there is none. */
  predicate IsFirstSelectable(list: seq<SsidField>, s: string, i: nat, r: int)
  {
    (r == -1 && forall j :: i <= j < |list| ==> !Selectable(list[j], s))
    || (i <= r < |list| && Selectable(list[r], s) && forall j :: i <= j < r ==> !Selectable(list[j], s))
  }

  function FirstSelectable(list: seq<SsidField>, s: string, i: nat): (r: int)
    requires i <= |list|
    ensures IsFirstSelectable(list, s, i, r)
    decreases |list| - i
  {
    if i == |list| then -1
    else if Selectable(list[i], s) then i
    else FirstSelectable(list, s, i + 1)
  }

  /**
   * handle_connect_saved: with a requested ssid, load the saved list; when the
   * load succeeds with entries and one is selectable, promote the first such
   * entry and, when that succeeds, disconnect so that the station reconnects.
   */
  function ConnectSavedEffects(payload: Option<string>, saved: Option<seq<SsidField>>, promoteOk: bool): seq<Effect>
  {
    var ssid := RequestedSsid(payload);
    if ssid.None? then []
    else if saved.None? || saved.value == [] then [LoadSaved]
    else
      var k := FirstSelectable(saved.value, ssid.value, 0);
      if k < 0 then [LoadSaved]
      else [LoadSaved, PromoteSaved(saved.value[k])] + (if promoteOk then [WifiDisconnect] else [])
  }

  /** The search loop of handle_connect_saved. */
  method FindSaved(configs: seq<SsidField>, ssid: string) returns (found: int)
    ensures found == FirstSelectable(configs, ssid, 0)
  {
    found := -1;
    var i := 0;
    while i < |configs|
      invariant i <= |configs|
      invariant FirstSelectable(configs, ssid, i) == FirstSelectable(configs, ssid, 0)
    {
      if configs[i][0] == '\0' {
        i := i + 1;
        continue;
      }
      if SsidEquals(configs[i], ssid) {
        found := i;
        break;
      }
      i := i + 1;
    }
  }

  method HandleConnectSaved(payload: Option<string>, saved: Option<seq<SsidField>>, promoteOk: bool)
    returns (effects: seq<Effect>)
    ensures effects == ConnectSavedEffects(payload, saved, promoteOk)
  {
    var ssid := RequestedSsid(payload);
    if ssid.None? {
      return [];
    }
    effects := [LoadSaved];
    if saved.None? || |saved.value| == 0 {
      return;
    }
    var found := FindSaved(saved.value, ssid.value);
    if found < 0 {
      return;
    }
    effects := effects + [PromoteSaved(saved.value[found])];
    if promoteOk {
      effects := effects + [WifiDisconnect];
    }
  }

  /**
   * Storage is promoted at most once, only for the first selectable entry, and
   * the disconnect happens exactly when a selectable entry exists and the
   * promotion succeeds.
   */
  lemma ConnectSavedPromotesFirstMatch(payload: Option<string>, saved: Option<seq<SsidField>>, promoteOk: bool, e: SsidField)
    ensures var effects := ConnectSavedEffects(payload, saved, promoteOk);
      && (PromoteSaved(e) in effects <==>
          RequestedSsid(payload).Some? && saved.Some?
          && exists k :: 0 <= k < |saved.value| && saved.value[k] == e
                         && IsFirstSelectable(saved.value, RequestedSsid(payload).value, 0, k))
      && (WifiDisconnect in effects <==>
          RequestedSsid(payload).Some? && saved.Some? && promoteOk
          && exists k :: 0 <= k < |saved.value| && Selectable(saved.value[k], RequestedSsid(payload).value))
  {
    var effects := ConnectSavedEffects(payload, saved, promoteOk);
    var ssid := RequestedSsid(payload);
    if ssid.Some? && saved.Some? && saved.value != [] {
      var k := FirstSelectable(saved.value, ssid.value, 0);
      if k >= 0 {
        assert effects[1] == PromoteSaved(saved.value[k]);
        forall k' | 0 <= k' < |saved.value| && IsFirstSelectable(saved.value, ssid.value, 0, k')
          ensures k' == k
        {
        }
      }
    }
  }

  /** The ssid is taken as is: a trailing newline stays part of it and does not match the saved name. */
  lemma ConnectSavedKeepsNewline()
    ensures RequestedSsid(Some("ssid=home\n")) == Some("home\n")
  {
    var p := "ssid=home\n";
    assert p[..Min(|p|, ConnectSavedBufferSize - 1)] == p;
    CTextWhole(p);
    AfterKeyPrefix(p, "ssid=");
    assert p[..5] == "ssid=";
  }

  /** The key must open the payload: a leading space makes it no connect request. */
  lemma ConnectSavedKeyFirst()
    ensures RequestedSsid(Some(" ssid=home")) == None
  {
    var q := " ssid=home";
    assert q[..Min(|q|, ConnectSavedBufferSize - 1)] == q;
    AfterKeyPrefix(CText(q), "ssid=");
    assert CText(q)[0] == ' ';
  }

  /** Only the first 127 payload bytes matter. */
  lemma ConnectSavedReadsAtMost127(p: string)
    requires |p| >= ConnectSavedBufferSize
    ensures RequestedSsid(Some(p)) == RequestedSsid(Some(p[..ConnectSavedBufferSize - 1]))
  {
    assert p[..ConnectSavedBufferSize - 1][..ConnectSavedBufferSize - 1] == p[..ConnectSavedBufferSize - 1];
  }

  /** A full 32-byte saved name matches any requested ssid that starts with it. */
  lemma LongSsidMatchesPrefix(field: SsidField, s: string)
    requires NoNul(field) && |s| >= 32 && s[..32] == field
    ensures SsidEquals(field, s)
  {
    CTextWhole(field);
  }

  // ---------------------------------------------------------------- get_saved

  /** Entries get_saved considers (max_num). */
  const MaxSaved: nat := 5

  /** Size of get_saved's JSON buffer. */
  const JsonCapacity: nat := 512

  const ListOpen: string := "{\"list\":["
  const ListClose: string := "]}"
  const EmptyList: string := "{\"list\":[]}"

  /** The name get_saved reports: strncpy into char[32], then the last byte cleared. */
  function EntryName(e: SsidField): (name: CString)
    ensures |name| <= 31
  {
    CText(e[..31])
  }

  function Item(name: string): string
  {
    "{\"ssid\":\"" + name + "\"}"
  }

  /** The list items for entries, in order: empty names skipped, a comma before all but the first. */
  function Items(entries: seq<SsidField>): (r: string)
    ensures |r| <= 43 * |entries|
    ensures r != [] ==> |r| >= 11
    ensures NoNul(r)
  {
    if entries == [] then ""
    else
      var prev := Items(entries[..|entries| - 1]);
      var name := EntryName(entries[|entries| - 1]);
      if name == [] then prev
      else prev + (if prev != [] then "," else "") + Item(name)
  }

  function ListJson(entries: seq<SsidField>): (r: string)
  {
    ListOpen + Items(entries) + ListClose
  }

  /** The non-empty names of entries, in order. */
  function Names(entries: seq<SsidField>): seq<string>
  {
    if entries == [] then []
    else
      var name := EntryName(entries[|entries| - 1]);
      Names(entries[..|entries| - 1]) + (if name == [] then [] else [name])
  }

  /** The items of names joined by commas. */
  function Join(names: seq<string>): string
  {
    if names == [] then ""
    else if |names| == 1 then Item(names[0])
    else Item(names[0]) + "," + Join(names[1..])
  }

  lemma {:induction false} JoinSnoc(names: seq<string>, n: string)
    requires names != []
    ensures Join(names + [n]) == Join(names) + "," + Item(n)
    decreases |names|
  {
    var m := names + [n];
    assert m[0] == names[0] && |m| >= 2;
    if |names| == 1 {
      assert m[1..] == [n];
      assert Join(m) == Item(names[0]) + "," + Item(n);
    } else {
      assert m[1..] == names[1..] + [n];
      JoinSnoc(names[1..], n);
      var a, b := Item(names[0]) + ",", Join(names[1..]);
      assert Join(m) == a + (b + "," + Item(n));
      assert Join(names) == a + b;
      assert a + (b + "," + Item(n)) == (a + b) + "," + Item(n);
    }
  }

  /** The list is the comma-joined items of the non-empty names. */
  lemma {:induction false} ItemsAreJoinedNames(entries: seq<SsidField>)
    ensures Items(entries) == Join(Names(entries))
    decreases |entries|
  {
    if entries != [] {
      var init := entries[..|entries| - 1];
      ItemsAreJoinedNames(init);
      var name := EntryName(entries[|entries| - 1]);
      assert entries[..|entries| - 1] == init;
      if name == [] {
        assert Items(entries) == Items(init);
        assert Names(entries) == Names(init) + [] == Names(init);
      } else {
        if Names(init) == [] {
          assert Names(entries) == [name];
          assert Items(entries) == [] + [] + Item(name) == Item(name);
        } else {
          assert |Join(Names(init))| >= |Item(Names(init)[0])| > 0;
          JoinSnoc(Names(init), name);
        }
      }
    }
  }

  /** No item at all exactly when every considered name is empty. */
  lemma {:induction false} ItemsEmptyIff(entries: seq<SsidField>)
    ensures Items(entries) == [] <==> forall k :: 0 <= k < |entries| ==> EntryName(entries[k]) == []
    decreases |entries|
  {
    if entries != [] {
      var init := entries[..|entries| - 1];
      ItemsEmptyIff(init);
      assert forall k :: 0 <= k < |init| ==> init[k] == entries[k];
    }
  }

  /** The JSON get_saved publishes for a load result. */
  function SavedJson(saved: Option<seq<SsidField>>): (json: CString)
    ensures |json| < JsonCapacity
  {
    if saved.None? || saved.value == [] then EmptyList
    else ListJson(saved.value[..Min(|saved.value|, MaxSaved)])
  }

  /**
   * handle_get_saved: load the saved list, then publish its JSON on
   * `<uplink>/wifi/<client_id>/saved`.
   */
  function GetSavedEffects(ctx: AppContext, saved: Option<seq<SsidField>>): seq<Effect>
  {
    [LoadSaved] + PublishJson(ctx, Some("saved"), Some(SavedJson(saved)))
  }

  /** A failed load, an empty list, or a list of empty names all publish `{"list":[]}`. */
  lemma SavedJsonEmpty(saved: Option<seq<SsidField>>)
    requires saved.Some? ==> forall k :: 0 <= k < |saved.value| ==> EntryName(saved.value[k]) == []
    ensures SavedJson(saved) == EmptyList
  {
    if saved.Some? && saved.value != [] {
      var entries := saved.value[..Min(|saved.value|, MaxSaved)];
      ItemsEmptyIff(entries);
    }
  }

  /** snprintf(buf + pos, size - pos, ...) of text that fits: the text and a terminator. */
  method Append(buf: array<char>, pos: nat, text: string) returns (n: nat)
    requires pos + |text| < buf.Length
    modifies buf
    ensures n == |text| && buf[..pos + n] == old(buf[..pos]) + text && buf[pos + n] == '\0'
  {
    forall k | 0 <= k < |text| {
      buf[pos + k] := text[k];
    }
    buf[pos + |text|] := '\0';
    n := |text|;
    assert buf[..pos + n] == old(buf[..pos]) + text;
  }

  /**
   * The JSON builder of handle_get_saved on its 512-byte buffer: the list
   * never comes near the buffer's end, so the loop guard on pos never stops
   * it and every snprintf writes its text in full.
   */
  method BuildSavedJson(entries: seq<SsidField>) returns (json: string)
    requires |entries| <= MaxSaved
    ensures json == ListJson(entries)
  {
    var buf := new char[JsonCapacity];
    var pos := Append(buf, 0, ListOpen);
    var i := 0;
    while i < |entries| && pos < JsonCapacity - 1
      invariant i <= |entries|
      invariant pos == |ListOpen| + |Items(entries[..i])| && pos <= |ListOpen| + 43 * i
      invariant buf[..pos] == ListOpen + Items(entries[..i])
    {
      ItemsStep(entries, i);
      ghost var prev := Items(entries[..i]);
      var name := EntryName(entries[i]);
      if name == [] {
        i := i + 1;
        continue;
      }
      pos := AppendItem(buf, pos, prev, name);
      i := i + 1;
    }
    assert i == |entries|;
    assert entries[..i] == entries;
    var n := Append(buf, pos, ListClose);
    pos := pos + n;
    json := buf[..pos];
  }

  /** One list item, after a comma unless it is the first (pos > 10 only once an item is written). */
  method AppendItem(buf: array<char>, pos: nat, ghost prev: string, name: string) returns (pos': nat)
    requires |name| <= 31 && (prev != [] ==> |prev| >= 11)
    requires pos == |ListOpen| + |prev| && pos + 43 < buf.Length && buf[..pos] == ListOpen + prev
    modifies buf
    ensures pos' == |ListOpen| + |prev + (if prev != [] then "," else "") + Item(name)| < buf.Length
    ensures buf[..pos'] == ListOpen + (prev + (if prev != [] then "," else "") + Item(name))
  {
    pos' := pos;
    ghost var sep: string := [];
    if pos' > 10 {
      var n := Append(buf, pos', ",");
      pos' := pos' + n;
      sep := ",";
    }
    assert buf[..pos'] == ListOpen + (prev + sep);
    var item := Item(name);
    var n := Append(buf, pos', item);
    pos' := pos' + n;
    assert (ListOpen + (prev + sep)) + item == ListOpen + ((prev + sep) + item);
  }

  /** Items after one more entry. */
  lemma ItemsStep(entries: seq<SsidField>, i: nat)
    requires i < |entries|
    ensures var prev := Items(entries[..i]);
      var name := EntryName(entries[i]);
      Items(entries[..i + 1]) == if name == [] then prev else prev + (if prev != [] then "," else "") + Item(name)
  {
    assert entries[..i + 1][..i] == entries[..i] && entries[..i + 1][i] == entries[i];
  }

  method HandleGetSaved(ctx: AppContext, saved: Option<seq<SsidField>>) returns (effects: seq<Effect>)
    ensures effects == GetSavedEffects(ctx, saved)
  {
    if saved.None? || |saved.value| == 0 {
      return [LoadSaved] + PublishJson(ctx, Some("saved"), Some(EmptyList));
    }
    var count := Min(|saved.value|, MaxSaved);
    var json := BuildSavedJson(saved.value[..count]);
    effects := [LoadSaved] + PublishJson(ctx, Some("saved"), Some(json));
  }

  // ---------------------------------------------------------------- dispatch

  /** The calls one message causes: the routed handler's, or none. */
  function MessageEffects(ctx: AppContext, topic: Option<string>, payload: Option<string>,
                          saved: Option<seq<SsidField>>, promoteOk: bool): seq<Effect>
  {
    match Route(ctx.baseTopic, ctx.clientId, topic)
    case None => []
    case Some(Set) => SetEffects(payload)
    case Some(GetStatus) => [ReportStatus]
    case Some(GetSaved) => GetSavedEffects(ctx, saved)
    case Some(ConnectSaved) => ConnectSavedEffects(payload, saved, promoteOk)
  }

  /**
   * wifi_config_app_on_message: route, run the handler, and return ESP_OK
   * whatever happened. saved and promoteOk are what storage answers.
   */
  method OnMessage(ctx: AppContext, topic: Option<string>, payload: Option<string>,
                   saved: Option<seq<SsidField>>, promoteOk: bool) returns (ret: int, effects: seq<Effect>)
    ensures ret == EspOk
    ensures effects == MessageEffects(ctx, topic, payload, saved, promoteOk)
  {
    ret := EspOk;
    var command := Route(ctx.baseTopic, ctx.clientId, topic);
    match command {
      case None =>
        effects := [];
      case Some(Set) =>
        effects := HandleSet(payload);
      case Some(GetStatus) =>
        effects := [ReportStatus];
      case Some(GetSaved) =>
        effects := HandleGetSaved(ctx, saved);
      case Some(ConnectSaved) =>
        effects := HandleConnectSaved(payload, saved, promoteOk);
    }
  }

}

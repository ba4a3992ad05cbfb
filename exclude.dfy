/** The exclusion-rule engine of src/exclude.rs: each comma-separated token of the
    user's `--excludes` string is captured into four optional fields, and four
    predicates decide whether a host, a device, a socket or a connection is filtered out. */
module Exclude {
  import opened Text

  /** What the rule pattern captures from one token: each field is absent or a non-empty string. */
  datatype Rule = Rule(host: Option<string>, device: Option<string>, port: Option<string>, protocol: Option<string>)

  /** `h` matches `[a-zA-Z0-9][a-zA-Z0-9.-]*[a-zA-Z0-9]` as a whole. */
  predicate IsHostPattern(h: string) {
    && |h| >= 2
    && IsAlnum(h[0])
    && IsAlnum(h[|h| - 1])
    && forall i :: 0 <= i < |h| ==> IsHostChar(h[i])
  }

  /** The largest `k` in `2..m` with `s[k - 1]` alphanumeric, or 0 if there is none: where
      the greedy `[a-zA-Z0-9.-]*` backs off to so that the host ends in an alphanumeric. */
  function LastAlnumEnd(s: string, m: nat): (k: nat)
    requires m <= |s|
    ensures k == 0 || (2 <= k <= m && IsAlnum(s[k - 1]))
  {
    if m < 2 then 0 else if IsAlnum(s[m - 1]) then m else LastAlnumEnd(s, m - 1)
  }

  lemma {:induction false} LastAlnumEndIsLast(s: string, m: nat)
    requires m <= |s|
    ensures forall j :: LastAlnumEnd(s, m) <= j < m && 1 <= j ==> !IsAlnum(s[j])
  {
    if m >= 2 && !IsAlnum(s[m - 1]) {
      LastAlnumEndIsLast(s, m - 1);
    }
  }

  /** Length of the host the pattern captures at the start of `t`; 0 when it captures none. */
  function HostLength(t: string): (k: nat)
    ensures k <= |t| && k != 1
  {
    if |t| == 0 || !IsAlnum(t[0]) then 0 else LastAlnumEnd(t, RunEnd(t, 1, HostChar))
  }

  /** The captured host is the longest prefix of the token that is a host, as the greedy
      pattern makes it; when no prefix is a host, none is captured. */
  lemma {:induction false} HostLengthIsLongest(t: string)
    ensures HostLength(t) == 0 || IsHostPattern(t[..HostLength(t)])
    ensures forall j :: HostLength(t) < j <= |t| ==> !IsHostPattern(t[..j])
  {
    var k := HostLength(t);
    if |t| > 0 && IsAlnum(t[0]) {
      var m := RunEnd(t, 1, HostChar);
      RunEndIsMaximal(t, 1, HostChar);
      LastAlnumEndIsLast(t, m);
      forall j | k < j <= |t| ensures !IsHostPattern(t[..j]) {
        if j > m {
          assert t[..j][m] == t[m];
        } else {
          assert t[..j][j - 1] == t[j - 1];
        }
      }
      if k > 0 {
        forall i | 0 <= i < k ensures IsHostChar(t[..k][i]) {
          assert t[..k][i] == t[i];
        }
      }
    } else {
      forall j | 0 < j <= |t| ensures !IsHostPattern(t[..j]) {
        assert t[..j][0] == t[0];
      }
    }
  }

  /** Where an optional group `(<lead>(?P<x>[p]{1,most})){0,1}` that starts at `i` ends,
      taking as much as it can; `i` when the group does not take part. */
  function GroupEnd(s: string, i: nat, lead: char, p: CharClass, most: nat): (e: nat)
    requires i <= |s|
    ensures i <= e <= |s| && e != i + 1
  {
    if most >= 1 && i + 1 < |s| && s[i] == lead && In(s[i + 1], p) then
      var r := RunEnd(s, i + 1, p);
      if r - (i + 1) <= most then r else i + 1 + most
    else i
  }

  /** The group takes part exactly when `lead` and one `p` character come first; what it
      captures is all in `p`, at most `most` long, and cannot be extended. */
  lemma {:induction false} GroupEndCaptures(s: string, i: nat, lead: char, p: CharClass, most: nat)
    requires i <= |s|
    ensures var e := GroupEnd(s, i, lead, p, most);
      && (e == i <==> !(most >= 1 && i + 1 < |s| && s[i] == lead && In(s[i + 1], p)))
      && (e > i ==> s[i] == lead && e - (i + 1) <= most)
      && (e > i ==> forall j :: i < j < e ==> In(s[j], p))
      && (e > i ==> e - (i + 1) == most || e == |s| || !In(s[e], p))
  {
    if most >= 1 && i + 1 < |s| && s[i] == lead && In(s[i + 1], p) {
      RunEndIsMaximal(s, i + 1, p);
    }
  }

  /** The text a group spanning `i..e` captures, without its lead character. */
  function Captured(s: string, i: nat, e: nat): Option<string>
    requires i <= e <= |s| && e != i + 1
  {
    if e == i then None else Some(s[i + 1..e])
  }

  /** The capture of src/exclude.rs:6-12. The pattern can match the empty string at the
      start of every token, so the capture is a scan from position 0: a host, then
      `%device`, then `:port` (at most five digits), then `/protocol`. Whatever the scan
      cannot consume ends it and leaves the later fields unset. Every capture is well formed:
      a host, names of `[a-z0-9]`, a port of one to five digits. */
  function ParseRule(token: string): (r: Rule)
    ensures WellFormed(r)
  {
    var h := HostLength(token);
    var d := GroupEnd(token, h, '%', NameChar, |token|);
    var p := GroupEnd(token, d, ':', Digit, 5);
    var q := GroupEnd(token, p, '/', NameChar, |token|);
    HostLengthIsLongest(token);
    CapturedIn(token, h, '%', NameChar, |token|);
    CapturedIn(token, d, ':', Digit, 5);
    CapturedIn(token, p, '/', NameChar, |token|);
    Rule(if h == 0 then None else Some(token[..h]), Captured(token, h, d), Captured(token, d, p),
         Captured(token, p, q))
  }

  predicate IsName(s: string) { s != [] && forall i :: 0 <= i < |s| ==> IsNameChar(s[i]) }
  predicate IsPort(s: string) { 1 <= |s| <= 5 && forall i :: 0 <= i < |s| ==> IsDigit(s[i]) }

  /** The field values the pattern can capture. */
  predicate WellFormed(r: Rule) {
    && (r.host.Some? ==> IsHostPattern(r.host.value))
    && (r.device.Some? ==> IsName(r.device.value))
    && (r.port.Some? ==> IsPort(r.port.value))
    && (r.protocol.Some? ==> IsName(r.protocol.value))
  }

  function Spell(lead: string, field: Option<string>): string {
    if field.Some? then lead + field.value else ""
  }

  /** The text that spells a rule: `[host][%device][:port][/protocol]`. */
  function Render(r: Rule): string {
    r.host.GetOr("") + Spell("%", r.device) + Spell(":", r.port) + Spell("/", r.protocol)
  }

  lemma CapturedSpells(s: string, i: nat, e: nat, lead: char)
    requires i <= e <= |s| && e != i + 1
    requires e > i ==> s[i] == lead
    ensures s[i..e] == Spell([lead], Captured(s, i, e))
  {
    if e > i {
      assert s[i..e] == [s[i]] + s[i + 1..e];
    }
  }

  /** A group's capture is a name or a port, as its character class and bound say. */
  lemma CapturedIn(s: string, i: nat, lead: char, p: CharClass, most: nat)
    requires i <= |s|
    ensures var c := Captured(s, i, GroupEnd(s, i, lead, p, most));
      c.Some? ==> 1 <= |c.value| <= most && forall j :: 0 <= j < |c.value| ==> In(c.value[j], p)
  {
    var e := GroupEnd(s, i, lead, p, most);
    GroupEndCaptures(s, i, lead, p, most);
    if e > i {
      SliceIn(s, i + 1, e, p);
    }
  }

  /** The four pieces of a token the scan consumes, spelled back, are the consumed prefix. */
  lemma RenderPieces(t: string, h: nat, d: nat, p: nat, q: nat, r: Rule)
    requires h <= d <= p <= q <= |t| && d != h + 1 && p != d + 1 && q != p + 1
    requires d > h ==> t[h] == '%'
    requires p > d ==> t[d] == ':'
    requires q > p ==> t[p] == '/'
    requires r == Rule(if h == 0 then None else Some(t[..h]), Captured(t, h, d), Captured(t, d, p), Captured(t, p, q))
    ensures Render(r) == t[..q]
  {
    CapturedSpells(t, h, d, '%');
    CapturedSpells(t, d, p, ':');
    CapturedSpells(t, p, q, '/');
    SliceConcat(t, 0, h, d);
    SliceConcat(t, 0, d, p);
    SliceConcat(t, 0, p, q);
    assert r.host.GetOr("") == t[..h];
  }

  /** A capture, spelled back, is a prefix of its token: the scan only consumes. */
  lemma ParseRuleSpellsPrefix(token: string)
    ensures Render(ParseRule(token)) <= token
  {
    var h := HostLength(token);
    var d := GroupEnd(token, h, '%', NameChar, |token|);
    var p := GroupEnd(token, d, ':', Digit, 5);
    var q := GroupEnd(token, p, '/', NameChar, |token|);
    GroupEndCaptures(token, h, '%', NameChar, |token|);
    GroupEndCaptures(token, d, ':', Digit, 5);
    GroupEndCaptures(token, p, '/', NameChar, |token|);
    RenderPieces(token, h, d, p, q, ParseRule(token));
  }

  /** A host followed by a character that cannot extend it is what the scan captures. */
  lemma HostLengthAt(t: string, h: nat)
    requires h <= |t|
    requires h == 0 || IsHostPattern(t[..h])
    requires h == |t| || !IsHostChar(t[h])
    ensures HostLength(t) == h
  {
    HostLengthIsLongest(t);
    forall j | h < j <= |t| ensures !IsHostPattern(t[..j]) {
      assert t[..j][h] == t[h];
    }
  }

  /** A group that spans `i..e` and cannot be extended: all the scan needs to end it at `e`. */
  predicate GroupAt(s: string, i: nat, e: nat, lead: char, p: CharClass, most: nat)
    requires i <= e <= |s|
  {
    if e == i then !(i + 1 < |s| && s[i] == lead && In(s[i + 1], p))
    else
      && i + 2 <= e && s[i] == lead && e - (i + 1) <= most
      && (forall j :: i < j < e ==> In(s[j], p))
      && (e == |s| || !In(s[e], p))
  }

  lemma GroupAtEnd(s: string, i: nat, e: nat, lead: char, p: CharClass, most: nat)
    requires i <= e <= |s| && GroupAt(s, i, e, lead, p, most)
    ensures GroupEnd(s, i, lead, p, most) == e
  {
    if e > i {
      RunEndAt(s, i + 1, e, p);
    }
  }

  /** The values a field of a well-formed rule can hold, for a group of class `p`. */
  predicate FieldIn(f: Option<string>, p: CharClass, most: nat) {
    f.Some? ==> 1 <= |f.value| <= most && forall j :: 0 <= j < |f.value| ==> In(f.value[j], p)
  }

  /** A spelled field followed by text that cannot extend it forms a group that ends right
      after it and captures the field's value. */
  lemma {:induction false} SpellGroupAt(a: string, lead: char, field: Option<string>, b: string, p: CharClass, most: nat)
    requires FieldIn(field, p, most)
    requires b == [] || (!In(b[0], p) && b[0] != lead)
    ensures var s := a + Spell([lead], field) + b; var e := |a| + |Spell([lead], field)|;
      e <= |s| && e != |a| + 1 && GroupAt(s, |a|, e, lead, p, most) && Captured(s, |a|, e) == field
  {
    var f := Spell([lead], field);
    var s := a + f + b;
    var e := |a| + |f|;
    if field.Some? {
      var v := field.value;
      assert s[|a|] == lead;
      assert forall j :: |a| + 1 <= j < e ==> s[j] == v[j - |a| - 1];
      assert e < |s| ==> s[e] == b[0];
      assert s[|a| + 1..e] == v;
    } else {
      assert |a| < |s| ==> s[|a|] == b[0];
    }
  }

  /** `s` is empty or starts with `lead`. */
  predicate LeadFirst(s: string, lead: char) { s == [] || s[0] == lead }

  lemma SpellLeads(lead: char, f: Option<string>)
    ensures LeadFirst(Spell([lead], f), lead)
  {
  }

  lemma LeadPair(a: string, b: string, x: char, y: char)
    requires LeadFirst(a, x) && LeadFirst(b, y)
    ensures a + b == [] || (a + b)[0] == x || (a + b)[0] == y
  {
    if a == [] {
      assert a + b == b;
    }
  }

  lemma HostStage(t: string, hs: string, ds: string, ps: string, qs: string)
    requires t == hs + ds + ps + qs
    requires hs == [] || IsHostPattern(hs)
    requires LeadFirst(ds, '%') && LeadFirst(ps, ':') && LeadFirst(qs, '/')
    ensures HostLength(t) == |hs| && t[..|hs|] == hs
  {
    var rest := ds + ps + qs;
    assert t == hs + rest;
    assert t[..|hs|] == hs;
    if rest != [] {
      assert rest[0] == if ds != [] then ds[0] else if ps != [] then ps[0] else qs[0];
      assert t[|hs|] == rest[0];
    }
    HostLengthAt(t, |hs|);
  }

  lemma DeviceStage(t: string, hs: string, dev: Option<string>, ps: string, qs: string, d: nat)
    requires t == hs + Spell("%", dev) + ps + qs && d == |hs| + |Spell("%", dev)|
    requires FieldIn(dev, NameChar, |t|)
    requires LeadFirst(ps, ':') && LeadFirst(qs, '/')
    ensures d <= |t| && d != |hs| + 1 && GroupAt(t, |hs|, d, '%', NameChar, |t|) && Captured(t, |hs|, d) == dev
  {
    var rest := ps + qs;
    ConcatAssoc(hs, Spell("%", dev), ps, qs);
    LeadPair(ps, qs, ':', '/');
    SpellGroupAt(hs, '%', dev, rest, NameChar, |t|);
  }

  lemma PortStage(t: string, a: string, port: Option<string>, qs: string, d: nat, p: nat)
    requires t == a + Spell(":", port) + qs && d == |a| && p == d + |Spell(":", port)|
    requires FieldIn(port, Digit, 5)
    requires LeadFirst(qs, '/')
    ensures p <= |t| && p != d + 1 && GroupEnd(t, d, ':', Digit, 5) == p && Captured(t, d, p) == port
  {
    SpellGroupAt(a, ':', port, qs, Digit, 5);
    GroupAtEnd(t, d, p, ':', Digit, 5);
  }

  lemma ProtocolStage(t: string, a: string, proto: Option<string>, p: nat)
    requires t == a + Spell("/", proto) && p == |a|
    requires FieldIn(proto, NameChar, |t|)
    ensures p <= |t| && |t| != p + 1 && GroupEnd(t, p, '/', NameChar, |t|) == |t| && Captured(t, p, |t|) == proto
  {
    assert t == a + Spell("/", proto) + [];
    SpellGroupAt(a, '/', proto, [], NameChar, |t|);
    GroupAtEnd(t, p, |t|, '/', NameChar, |t|);
  }

  /** The capture of a token whose host and groups are known to end at `h`, `d`, `p`, `q`. */
  lemma ParseAt(t: string, h: nat, d: nat, p: nat, q: nat, r: Rule)
    requires HostLength(t) == h && (r.host.None? <==> h == 0) && (h > 0 ==> r.host == Some(t[..h]))
    requires h <= d <= |t| && d != h + 1 && GroupEnd(t, h, '%', NameChar, |t|) == d && Captured(t, h, d) == r.device
    requires d <= p <= |t| && p != d + 1 && GroupEnd(t, d, ':', Digit, 5) == p && Captured(t, d, p) == r.port
    requires p <= q <= |t| && q != p + 1 && GroupEnd(t, p, '/', NameChar, |t|) == q && Captured(t, p, q) == r.protocol
    ensures ParseRule(t) == r
  {
  }

  /** Capturing the spelling of a well-formed rule gives the rule back. */
  lemma ParseRender(r: Rule)
    requires WellFormed(r)
    ensures ParseRule(Render(r)) == r
  {
    var hs, ds, ps, qs := r.host.GetOr(""), Spell("%", r.device), Spell(":", r.port), Spell("/", r.protocol);
    var t := hs + ds + ps + qs;
    var h, d, p := |hs|, |hs| + |ds|, |hs| + |ds| + |ps|;
    assert Render(r) == t;
    SpellLeads('%', r.device);
    SpellLeads(':', r.port);
    SpellLeads('/', r.protocol);
    HostStage(t, hs, ds, ps, qs);
    assert r.host.None? <==> h == 0;
    DeviceStage(t, hs, r.device, ps, qs, d);
    GroupAtEnd(t, h, d, '%', NameChar, |t|);
    PortStage(t, hs + ds, r.port, qs, d, p);
    ProtocolStage(t, hs + ds + ps, r.protocol, p);
    ParseAt(t, h, d, p, |t|, r);
  }

  /** The tokens of src/exclude.rs: the comma-separated pieces of the rule string, each of
      which the pattern captures into a rule; no rule string means no tokens. */
  function Tokens(excludes: Option<string>): seq<string> {
    match excludes
    case None => []
    case Some(s) => Split(s, ',')
  }

  /** The test of src/exclude.rs:24-29: a rule with only a host, equal to `host`. */
  predicate HostRuleMatches(r: Rule, host: string) {
    r.host.Some? && r.device.None? && r.port.None? && r.protocol.None? && r.host.value == host
  }

  /** The test of src/exclude.rs:47-53: a device rule without port or protocol, whose host is
      unset or equal to `host`. */
  predicate DeviceRuleMatches(r: Rule, host: string, device: string) {
    var hostname := r.host.GetOr("");
    && r.device.Some?
    && r.port.None? && r.protocol.None?
    && (hostname == host || hostname == "") && r.device.value == device
  }

  /** The three overlapping clauses of src/exclude.rs:94-105, with unset fields read as "". */
  predicate SocketRuleMatches(r: Rule, host: string, bindaddr: string, port: string, protocol: string) {
    var hostname := r.host.GetOr("");
    var devicename := r.device.GetOr("");
    var portname := r.port.GetOr("");
    var protocolname := r.protocol.GetOr("");
    || ((hostname == host || hostname == bindaddr)
        && portname == ""
        && devicename == ""
        && protocolname == "")
    || ((hostname == host || hostname == bindaddr || hostname == "")
        && portname == port
        && devicename == ""
        && (protocolname == protocol || protocolname == ""))
    || ((hostname == host || hostname == bindaddr || hostname == "")
        && (portname == port || protocolname == "")
        && devicename == ""
        && protocolname == protocol)
  }

  predicate HostExcluded(host: string, excludes: Option<string>) {
    var tokens := Tokens(excludes);
    exists i :: 0 <= i < |tokens| && HostRuleMatches(ParseRule(tokens[i]), host)
  }

  predicate DeviceExcluded(host: string, device: string, excludes: Option<string>) {
    var tokens := Tokens(excludes);
    exists i :: 0 <= i < |tokens| && DeviceRuleMatches(ParseRule(tokens[i]), host, device)
  }

  predicate SocketExcluded(host: string, bindaddr: string, port: string, protocol: string, excludes: Option<string>) {
    var tokens := Tokens(excludes);
    exists i :: 0 <= i < |tokens| && SocketRuleMatches(ParseRule(tokens[i]), host, bindaddr, port, protocol)
  }

  /** A connection is filtered only when both of its endpoints are. */
  predicate ConnectionExcluded(host: string, localaddr: string, localport: string,
                               remoteaddr: string, remoteport: string, protocol: string,
                               excludes: Option<string>) {
    && SocketExcluded(host, localaddr, localport, protocol, excludes)
    && SocketExcluded(host, remoteaddr, remoteport, protocol, excludes)
  }

  /** `is_host_excluded`: scans the tokens until one is a host-only rule naming `host`. */
  method IsHostExcluded(host: string, excludes: Option<string>) returns (excluded: bool)
    ensures excluded == HostExcluded(host, excludes)
  {
    excluded := false;
    if excludes.Some? {
      var tokens := Split(excludes.value, ',');
      var i := 0;
      while i < |tokens|
        invariant i <= |tokens|
        invariant !excluded
        invariant forall j :: 0 <= j < i ==> !HostRuleMatches(ParseRule(tokens[j]), host)
      {
        var cap := ParseRule(tokens[i]);
        if cap.host.Some? {
          if cap.device.None? && cap.port.None? && cap.protocol.None? {
            if cap.host.value == host {
              excluded := true;
              break;
            }
          }
        }
        i := i + 1;
      }
    }
  }

  /** `is_device_excluded`: scans the tokens until one is a device rule for `device` on `host`. */
  method IsDeviceExcluded(host: string, device: string, excludes: Option<string>) returns (excluded: bool)
    ensures excluded == DeviceExcluded(host, device, excludes)
  {
    excluded := false;
    if excludes.Some? {
      var tokens := Split(excludes.value, ',');
      var i := 0;
      while i < |tokens|
        invariant i <= |tokens|
        invariant !excluded
        invariant forall j :: 0 <= j < i ==> !DeviceRuleMatches(ParseRule(tokens[j]), host, device)
      {
        var cap := ParseRule(tokens[i]);
        var hostname := cap.host.GetOr("");
        if cap.device.Some? {
          if cap.port.None? && cap.protocol.None? {
            if (hostname == host || hostname == "") && cap.device.value == device {
              excluded := true;
              break;
            }
          }
        }
        i := i + 1;
      }
    }
  }

  /** `is_socket_excluded`: scans the tokens until one satisfies a socket clause. */
  method IsSocketExcluded(host: string, bindaddr: string, port: string, protocol: string,
                          excludes: Option<string>) returns (excluded: bool)
    ensures excluded == SocketExcluded(host, bindaddr, port, protocol, excludes)
  {
    excluded := false;
    if excludes.Some? {
      var tokens := Split(excludes.value, ',');
      var i := 0;
      while i < |tokens|
        invariant i <= |tokens|
        invariant !excluded
        invariant forall j :: 0 <= j < i ==> !SocketRuleMatches(ParseRule(tokens[j]), host, bindaddr, port, protocol)
      {
        var cap := ParseRule(tokens[i]);
        if SocketRuleMatches(cap, host, bindaddr, port, protocol) {
          excluded := true;
          break;
        }
        i := i + 1;
      }
    }
  }

  /** `is_connection_excluded`: both endpoint checks, the second only when the first holds. */
  method IsConnectionExcluded(host: string, localaddr: string, localport: string,
                              remoteaddr: string, remoteport: string, protocol: string,
                              excludes: Option<string>) returns (excluded: bool)
    ensures excluded == (SocketExcluded(host, localaddr, localport, protocol, excludes)
                         && SocketExcluded(host, remoteaddr, remoteport, protocol, excludes))
  {
    excluded := IsSocketExcluded(host, localaddr, localport, protocol, excludes);
    if excluded {
      excluded := IsSocketExcluded(host, remoteaddr, remoteport, protocol, excludes);
    }
  }

  // ----- Properties of the rule engine -----

  /** Without a rule string nothing is excluded. */
  lemma NoRulesExcludeNothing(host: string, device: string, addr: string, port: string, addr2: string,
                              port2: string, protocol: string)
    ensures !HostExcluded(host, None)
    ensures !DeviceExcluded(host, device, None)
    ensures !SocketExcluded(host, addr, port, protocol, None)
    ensures !ConnectionExcluded(host, addr, port, addr2, port2, protocol, None)
  {
  }

  // Captures of the tokens the usage text of src/main.rs:21-37 shows.

  lemma DeviceCaptureExample()
    ensures ParseRule("%lo") == Rule(None, Some("lo"), None, None)
  {
    var r := Rule(None, Some("lo"), None, None);
    assert IsName("lo") by { assert "lo"[0] == 'l' && "lo"[1] == 'o'; }
    ParseRender(r);
    assert Render(r) == "%lo";
  }

  lemma PortProtocolCaptureExample()
    ensures ParseRule(":53/udp") == Rule(None, None, Some("53"), Some("udp"))
  {
    var r := Rule(None, None, Some("53"), Some("udp"));
    assert IsPort("53") by { assert "53"[0] == '5' && "53"[1] == '3'; }
    assert IsName("udp") by { assert "udp"[0] == 'u' && "udp"[1] == 'd' && "udp"[2] == 'p'; }
    ParseRender(r);
    assert Render(r) == ":53/udp";
  }

  lemma {:induction false} Host123IsHost()
    ensures IsHostPattern("host123")
  {
    assert forall i :: 0 <= i < 7 ==> IsHostChar("host123"[i]);
  }

  lemma HostDeviceCaptureExample()
    ensures ParseRule("host123%eth0") == Rule(Some("host123"), Some("eth0"), None, None)
  {
    var r := Rule(Some("host123"), Some("eth0"), None, None);
    Host123IsHost();
    assert IsName("eth0") by { assert forall i :: 0 <= i < 4 ==> IsNameChar("eth0"[i]); }
    ParseRender(r);
    assert Render(r) == "host123%eth0";
  }

  lemma HostCaptureExample()
    ensures ParseRule("host123") == Rule(Some("host123"), None, None, None)
  {
    var r := Rule(Some("host123"), None, None, None);
    Host123IsHost();
    ParseRender(r);
    assert Render(r) == "host123";
  }

  /** Tokens the pattern cannot start on capture nothing: `#autossh` (the process form the
      usage text mentions) and a one-character host. */
  lemma EmptyCaptureExamples()
    ensures ParseRule("#autossh") == Rule(None, None, None, None)
    ensures ParseRule("a") == Rule(None, None, None, None)
  {
  }

  /** A port range `:22-25` captures only its first port. */
  lemma PortRangeCaptureExample()
    ensures ParseRule(":22-25") == Rule(None, None, Some("22"), None)
  {
    var t := ":22-25";
    assert HostLength(t) == 0;
    assert GroupEnd(t, 0, '%', NameChar, |t|) == 0;
    assert RunEnd(t, 1, Digit) == 3 by {
      RunEndAt(t, 1, 3, Digit);
    }
    assert GroupEnd(t, 0, ':', Digit, 5) == 3;
    assert GroupEnd(t, 3, '/', NameChar, |t|) == 3;
    assert t[1..3] == "22";
  }

  lemma {:induction false} LocalhostIsHost()
    ensures IsHostPattern("localhost")
  {
    assert forall i :: 0 <= i < 9 ==> IsHostChar("localhost"[i]);
  }

  /** `localhost%lo:22/tcp` sets all four fields. */
  lemma FullCaptureExample()
    ensures ParseRule("localhost%lo:22/tcp") == Rule(Some("localhost"), Some("lo"), Some("22"), Some("tcp"))
  {
    var r := Rule(Some("localhost"), Some("lo"), Some("22"), Some("tcp"));
    FullRuleWellFormed(r);
    ParseRender(r);
  }

  lemma FullRuleWellFormed(r: Rule)
    requires r == Rule(Some("localhost"), Some("lo"), Some("22"), Some("tcp"))
    ensures WellFormed(r) && Render(r) == "localhost%lo:22/tcp"
  {
    LocalhostIsHost();
    assert IsName("lo") by { assert "lo"[0] == 'l' && "lo"[1] == 'o'; }
    assert IsPort("22") by { assert "22"[0] == '2' && "22"[1] == '2'; }
    assert IsName("tcp") by { assert "tcp"[0] == 't' && "tcp"[1] == 'c' && "tcp"[2] == 'p'; }
  }

  /** A rule string without a comma is one rule. */
  lemma SingleRule(t: string)
    requires ',' !in t
    ensures Tokens(Some(t)) == [t]
  {
  }

  /** A host rule with a device does not exclude the plain host: `host123` excludes
      `host123`, `host123%eth0` does not. */
  lemma HostExclusionExample()
    ensures HostExcluded("host123", Some("host123"))
  {
    HostCaptureExample();
    SingleRule("host123");
    assert Tokens(Some("host123"))[0] == "host123";
  }

  lemma HostDeviceRuleSparesHost()
    ensures !HostExcluded("host123", Some("host123%eth0"))
  {
    HostDeviceCaptureExample();
    SingleRule("host123%eth0");
  }

  /** `%lo` excludes device `lo` on every host. */
  lemma DeviceExclusionExample(host: string)
    ensures DeviceExcluded(host, "lo", Some("%lo"))
  {
    DeviceCaptureExample();
    SingleRule("%lo");
    assert Tokens(Some("%lo"))[0] == "%lo";
  }

  /** `:53/udp` excludes UDP port 53 of any host and address, and not port 54. */
  lemma SocketExclusionExample(host: string)
    ensures SocketExcluded(host, "10.0.0.1", "53", "udp", Some(":53/udp"))
    ensures !SocketExcluded(host, "10.0.0.1", "54", "udp", Some(":53/udp"))
  {
    PortProtocolCaptureExample();
    SingleRule(":53/udp");
    assert Tokens(Some(":53/udp"))[0] == ":53/udp";
  }

  /** No socket clause fires for a captured rule with a device. */
  lemma {:induction false} DeviceRulesSpareSockets(token: string, host: string, bindaddr: string, port: string, protocol: string)
    requires ParseRule(token).device.Some?
    ensures !SocketRuleMatches(ParseRule(token), host, bindaddr, port, protocol)
  {
  }

  /** A host-only rule naming the host or the bound address excludes every socket. */
  lemma HostOnlyRuleExcludesAllSockets(excludes: Option<string>, i: nat, host: string, bindaddr: string,
                                       port: string, protocol: string)
    requires i < |Tokens(excludes)|
    requires var r := ParseRule(Tokens(excludes)[i]);
      (r.host == Some(host) || r.host == Some(bindaddr)) && r.device.None? && r.port.None? && r.protocol.None?
    ensures SocketExcluded(host, bindaddr, port, protocol, excludes)
  {
  }

  /** A captured rule without host, device and port (`/udp`, or no field at all) excludes no
      socket whose host, address, port and protocol are all non-empty. */
  lemma {:induction false} ProtocolOnlyRulesSpareSockets(token: string, host: string, bindaddr: string, port: string, protocol: string)
    requires ParseRule(token).host.None? && ParseRule(token).device.None? && ParseRule(token).port.None?
    requires host != "" && bindaddr != "" && port != "" && protocol != ""
    ensures !SocketRuleMatches(ParseRule(token), host, bindaddr, port, protocol)
  {
  }

  /** The usage text at src/main.rs:31 advertises `host123/udp` for the UDP traffic of a host;
      as the clauses are written, a host-and-protocol rule excludes no socket with a port. */
  lemma {:induction false} HostProtocolRulesSpareSockets(token: string, host: string, bindaddr: string, port: string, protocol: string)
    requires ParseRule(token).device.None? && ParseRule(token).port.None? && ParseRule(token).protocol.Some?
    requires port != ""
    ensures !SocketRuleMatches(ParseRule(token), host, bindaddr, port, protocol)
  {
  }

  /** The usage text at src/main.rs:35 advertises `localhost%lo:22/tcp` for local ssh
      connections. It captures all four fields, so the host test (which wants only a host),
      the device test (which wants no port and no protocol) and every socket clause (which
      wants no device) reject it: it excludes nothing. */
  lemma FullRuleExcludesNothing(host: string, device: string, bindaddr: string, port: string, protocol: string)
    ensures !HostExcluded(host, Some("localhost%lo:22/tcp"))
    ensures !DeviceExcluded(host, device, Some("localhost%lo:22/tcp"))
    ensures !SocketExcluded(host, bindaddr, port, protocol, Some("localhost%lo:22/tcp"))
  {
    var t := "localhost%lo:22/tcp";
    FullCaptureExample();
    SingleRule(t);
    var r := ParseRule(t);
    assert !HostRuleMatches(r, host) && !DeviceRuleMatches(r, host, device)
        && !SocketRuleMatches(r, host, bindaddr, port, protocol);
  }

  /** Clause (c) ignores the port of a rule without protocol when the observed protocol is
      empty: `:22` excludes a socket on port 80 whose protocol field is empty. */
  lemma PortRuleOverreachesOnEmptyProtocol(host: string, bindaddr: string)
    ensures SocketExcluded(host, bindaddr, "80", "", Some(":22"))
  {
    var r := Rule(None, None, Some("22"), None);
    ParseRender(r);
    assert Render(r) == ":22";
    SingleRule(":22");
    assert Tokens(Some(":22"))[0] == ":22";
  }

  /** Swapping the two endpoints does not change the verdict, so the swapped call in
      src/cli.rs:153-160 decides the same as the intended one. */
  lemma ConnectionExclusionSymmetric(host: string, a: string, aport: string, b: string, bport: string,
                                     protocol: string, excludes: Option<string>)
    ensures ConnectionExcluded(host, a, aport, b, bport, protocol, excludes)
         == ConnectionExcluded(host, b, bport, a, aport, protocol, excludes)
  {
  }
}

/** The graph builder of src/graph.rs: one cluster per machine, a record node per interface,
    a circle node per process and the edges from processes to the addresses they listen on.
    The DOT text and its styling are not modelled; what is emitted is kept as node and edge
    lists. */
module Graph {
  import opened Text
  import opened ModelTypes

  // ----- ip_only (src/graph.rs:6-20) -----

  /** `/\w+$`: a `/` and a run of word characters up to the end is removed. Word characters
      exclude `/`, so the only candidate is the `/` before the maximal word suffix. */
  function StripWordSuffix(s: string): (r: string)
    ensures r <= s
  {
    var n := SuffixSpan(s, Word);
    if 0 < n < |s| && s[|s| - 1 - n] == '/' then s[..|s| - 1 - n] else s
  }

  /** `:\d{1,5}$`: a `:` and one to five digits up to the end are removed. */
  function StripPortSuffix(s: string): (r: string)
    ensures r <= s
  {
    var n := SuffixSpan(s, Digit);
    if 1 <= n <= 5 && n < |s| && s[|s| - 1 - n] == ':' then s[..|s| - 1 - n] else s
  }

  /** `/\w+$` matches at `i`: a `/`, then word characters up to the end, at least one. */
  predicate WordSuffixAt(s: string, i: nat) {
    i + 1 < |s| && s[i] == '/' && forall k :: i < k < |s| ==> In(s[k], Word)
  }

  /** `:\d{1,5}$` matches at `i`: a `:`, then one to five digits up to the end. */
  predicate PortSuffixAt(s: string, i: nat) {
    i < |s| && s[i] == ':' && 1 <= |s| - 1 - i <= 5 && forall k :: i < k < |s| ==> In(s[k], Digit)
  }

  /** The text is cut just before the `/` where `/\w+$` matches, and kept whole when it
      matches nowhere. */
  lemma StripWordSuffixSpec(s: string)
    ensures forall i :: 0 <= i < |s| && WordSuffixAt(s, i) ==> StripWordSuffix(s) == s[..i]
    ensures (forall i :: 0 <= i < |s| ==> !WordSuffixAt(s, i)) ==> StripWordSuffix(s) == s
  {
    forall i | 0 <= i < |s| && WordSuffixAt(s, i) ensures StripWordSuffix(s) == s[..i] {
      assert s == s[..i + 1] + s[i + 1..];
      var t := s[i + 1..];
      forall k | 0 <= k < |t| ensures In(t[k], Word) {
        assert t[k] == s[i + 1 + k];
      }
      SuffixSpanOf(s[..i + 1], t, Word);
    }
    SuffixSpanIsMaximal(s, Word);
    var n := SuffixSpan(s, Word);
    if 0 < n < |s| && s[|s| - 1 - n] == '/' {
      assert WordSuffixAt(s, |s| - 1 - n);
    }
  }

  /** The text is cut just before the `:` where `:\d{1,5}$` matches, and kept whole when it
      matches nowhere. */
  lemma StripPortSuffixSpec(s: string)
    ensures forall i :: 0 <= i < |s| && PortSuffixAt(s, i) ==> StripPortSuffix(s) == s[..i]
    ensures (forall i :: 0 <= i < |s| ==> !PortSuffixAt(s, i)) ==> StripPortSuffix(s) == s
  {
    forall i | 0 <= i < |s| && PortSuffixAt(s, i) ensures StripPortSuffix(s) == s[..i] {
      assert s == s[..i + 1] + s[i + 1..];
      var t := s[i + 1..];
      forall k | 0 <= k < |t| ensures In(t[k], Digit) {
        assert t[k] == s[i + 1 + k];
      }
      SuffixSpanOf(s[..i + 1], t, Digit);
    }
    SuffixSpanIsMaximal(s, Digit);
    var n := SuffixSpan(s, Digit);
    if 1 <= n <= 5 && n < |s| && s[|s| - 1 - n] == ':' {
      assert PortSuffixAt(s, |s| - 1 - n);
    }
  }

  /** `lead` followed by a character of `p` starts a match of `lead[p]+` at `i`. */
  predicate GroupStart(s: string, i: nat, lead: char, p: CharClass) {
    i + 1 < |s| && s[i] == lead && In(s[i + 1], p)
  }

  /** The leftmost start of a match at or after `from`, or `|s|` when there is none. */
  function FirstGroup(s: string, from: nat, lead: char, p: CharClass): (i: nat)
    requires from <= |s|
    ensures from <= i <= |s|
    ensures i < |s| ==> GroupStart(s, i, lead, p)
    decreases |s| - from
  {
    if from == |s| then |s|
    else if GroupStart(s, from, lead, p) then from
    else FirstGroup(s, from + 1, lead, p)
  }

  lemma {:induction false} FirstGroupIsFirst(s: string, from: nat, lead: char, p: CharClass)
    requires from <= |s|
    ensures forall j :: from <= j < FirstGroup(s, from, lead, p) ==> !GroupStart(s, j, lead, p)
    decreases |s| - from
  {
    if from < |s| && !GroupStart(s, from, lead, p) {
      FirstGroupIsFirst(s, from + 1, lead, p);
    }
  }

  /** `Regex::replace` with "": the leftmost match of `lead[p]+`, which the greedy `+`
      extends over the whole run, is deleted. */
  function DeleteFirst(s: string, lead: char, p: CharClass): (r: string)
    ensures |r| <= |s|
  {
    var i := FirstGroup(s, 0, lead, p);
    if i == |s| then s else s[..i] + s[RunEnd(s, i + 1, p)..]
  }

  /** Deleting a match adds no character. */
  lemma DeleteFirstChars(s: string, lead: char, p: CharClass)
    ensures forall x :: x in DeleteFirst(s, lead, p) ==> x in s
  {
    var i := FirstGroup(s, 0, lead, p);
    if i < |s| {
      CutChars(s, i, RunEnd(s, i + 1, p));
    }
  }

  /** Without a match nothing is deleted; otherwise the deleted part is the first match and
      its whole run, and what is left are the parts before and after it. */
  lemma DeleteFirstSpec(s: string, lead: char, p: CharClass)
    ensures (forall j :: 0 <= j < |s| ==> !GroupStart(s, j, lead, p)) ==> DeleteFirst(s, lead, p) == s
    ensures (exists j :: 0 <= j < |s| && GroupStart(s, j, lead, p)) ==>
      exists i, e :: 0 <= i < |s| && i + 1 < e <= |s| && GroupStart(s, i, lead, p)
        && (forall j :: 0 <= j < i ==> !GroupStart(s, j, lead, p))
        && (forall k :: i + 1 <= k < e ==> In(s[k], p)) && (e == |s| || !In(s[e], p))
        && DeleteFirst(s, lead, p) == s[..i] + s[e..]
  {
    FirstGroupIsFirst(s, 0, lead, p);
    var i := FirstGroup(s, 0, lead, p);
    if i < |s| {
      var e := RunEnd(s, i + 1, p);
      RunEndIsMaximal(s, i + 1, p);
      assert GroupStart(s, i, lead, p);
      assert DeleteFirst(s, lead, p) == s[..i] + s[e..];
    }
  }

  lemma NoLeadNothingDeleted(s: string, lead: char, p: CharClass)
    requires lead !in s
    ensures DeleteFirst(s, lead, p) == s
  {
    FirstGroupIsFirst(s, 0, lead, p);
  }

  /** `ip_only`: the protocol suffix, then the port suffix, then the first `/prefix` and the
      first `%zone` are removed. The result is never longer, and a text with none of `/`,
      `:` and `%` is returned as it is. */
  function IpOnly(s: string): (r: string)
    ensures |r| <= |s|
    ensures '/' !in s && ':' !in s && '%' !in s ==> r == s
  {
    var r := DeleteFirst(DeleteFirst(StripPortSuffix(StripWordSuffix(s)), '/', Digit), '%', NameChar);
    if '/' !in s && ':' !in s && '%' !in s then
      KeptWithoutLeads(s);
      r
    else r
  }

  /** `ip_only` only deletes: every character of its result is one of the input's. */
  lemma IpOnlyChars(s: string)
    ensures forall x :: x in IpOnly(s) ==> x in s
  {
    var a := StripWordSuffix(s);
    var b := StripPortSuffix(a);
    var c := DeleteFirst(b, '/', Digit);
    PrefixChars(a, s);
    PrefixChars(b, a);
    DeleteFirstChars(b, '/', Digit);
    DeleteFirstChars(c, '%', NameChar);
  }

  /** Without `/`, `:` and `%` none of the four deletions finds a match. */
  lemma KeptWithoutLeads(s: string)
    requires '/' !in s && ':' !in s && '%' !in s
    ensures DeleteFirst(DeleteFirst(StripPortSuffix(StripWordSuffix(s)), '/', Digit), '%', NameChar) == s
  {
    StripWordSuffixSpec(s);
    assert forall i :: 0 <= i < |s| ==> !WordSuffixAt(s, i) by {
      forall i | 0 <= i < |s| ensures !WordSuffixAt(s, i) {
        assert s[i] in s;
      }
    }
    StripPortSuffixSpec(s);
    assert forall i :: 0 <= i < |s| ==> !PortSuffixAt(s, i) by {
      forall i | 0 <= i < |s| ensures !PortSuffixAt(s, i) {
        assert s[i] in s;
      }
    }
    NoLeadNothingDeleted(s, '/', Digit);
    NoLeadNothingDeleted(s, '%', NameChar);
  }

  lemma IpOnlySocketExample()
    ensures IpOnly("0.0.0.0:80/tcp") == "0.0.0.0"
  {
    var s := "0.0.0.0:80/tcp";
    assert s == "0.0.0.0:80/" + "tcp";
    SuffixSpanOf("0.0.0.0:80/", "tcp", Word);
    var a := "0.0.0.0:80";
    assert StripWordSuffix(s) == a;
    assert a == "0.0.0.0:" + "80";
    SuffixSpanOf("0.0.0.0:", "80", Digit);
    var b := "0.0.0.0";
    assert StripPortSuffix(a) == b;
    NoLeadNothingDeleted(b, '/', Digit);
    NoLeadNothingDeleted(b, '%', NameChar);
  }

  lemma IpOnlyPrefixExample()
    ensures IpOnly("10.0.0.1/24") == "10.0.0.1"
  {
    var s := "10.0.0.1/24";
    assert s == "10.0.0.1/" + "24";
    SuffixSpanOf("10.0.0.1/", "24", Word);
    var a := "10.0.0.1";
    assert StripWordSuffix(s) == a;
    assert a == "10.0.0." + "1";
    SuffixSpanOf("10.0.0.", "1", Digit);
    assert StripPortSuffix(a) == a;
    NoLeadNothingDeleted(a, '/', Digit);
    NoLeadNothingDeleted(a, '%', NameChar);
  }

  /** `ip_only` is not idempotent: the port pattern strips one `:digits` per pass. */
  lemma IpOnlyNotIdempotent()
    ensures IpOnly("a:1:2") == "a:1"
    ensures IpOnly("a:1") == "a"
    ensures IpOnly(IpOnly("a:1:2")) != IpOnly("a:1:2")
  {
    var s := "a:1:2";
    assert s == "a:1:" + "2";
    SuffixSpanOf("a:1:", "2", Word);
    assert StripWordSuffix(s) == s;
    SuffixSpanOf("a:1:", "2", Digit);
    var a := "a:1";
    assert StripPortSuffix(s) == a;
    NoLeadNothingDeleted(a, '/', Digit);
    NoLeadNothingDeleted(a, '%', NameChar);
    assert a == "a:" + "1";
    SuffixSpanOf("a:", "1", Word);
    assert StripWordSuffix(a) == a;
    SuffixSpanOf("a:", "1", Digit);
    assert StripPortSuffix(a) == "a";
    NoLeadNothingDeleted("a", '/', Digit);
    NoLeadNothingDeleted("a", '%', NameChar);
  }

  // ----- sanitiza_label (src/graph.rs:21-24) -----

  /** `str::replace(c, "")`: every `c` removed. */
  function RemoveAll(s: string, c: char): (r: string)
    ensures |r| <= |s|
  {
    if s == [] then []
    else (if s[0] == c then [] else [s[0]]) + RemoveAll(s[1..], c)
  }

  /** No `c` is left, no other character is added, and a text without `c` is kept. */
  lemma {:induction false} RemoveAllSpec(s: string, c: char)
    ensures c !in RemoveAll(s, c)
    ensures forall x :: x in RemoveAll(s, c) ==> x in s
    ensures c !in s ==> RemoveAll(s, c) == s
  {
    if s != [] {
      RemoveAllSpec(s[1..], c);
      assert s == [s[0]] + s[1..];
    }
  }

  /** Removal works character by character: a `c` is dropped, any other character is kept,
      and the pieces of a text are treated in order. Together these fix `RemoveAll`: the
      characters other than `c` stay, in their order and with their multiplicity. */
  lemma {:induction false} RemoveAllAppend(a: string, b: string, c: char)
    ensures RemoveAll(a + b, c) == RemoveAll(a, c) + RemoveAll(b, c)
    ensures forall x :: RemoveAll([x], c) == if x == c then [] else [x]
    decreases |a|
  {
    if a == [] {
      assert a + b == b;
    } else {
      assert (a + b)[0] == a[0];
      assert (a + b)[1..] == a[1..] + b;
      RemoveAllAppend(a[1..], b, c);
    }
    forall x ensures RemoveAll([x], c) == if x == c then [] else [x] {
      assert [x][1..] == [];
    }
  }

  /** `str::replace(c, d)` for one character `d`: every `c` becomes `d`. */
  function ReplaceAll(s: string, c: char, d: char): (r: string)
    ensures |r| == |s|
  {
    if s == [] then []
    else [if s[0] == c then d else s[0]] + ReplaceAll(s[1..], c, d)
  }

  /** No `c` is left when `d` differs from it, the only new character is `d`, and a text
      without `c` is kept. */
  lemma {:induction false} ReplaceAllSpec(s: string, c: char, d: char)
    ensures forall i :: 0 <= i < |s| ==> ReplaceAll(s, c, d)[i] == if s[i] == c then d else s[i]
    ensures c != d ==> c !in ReplaceAll(s, c, d)
    ensures forall x :: x in ReplaceAll(s, c, d) ==> x in s || x == d
    ensures c !in s ==> ReplaceAll(s, c, d) == s
  {
    if s != [] {
      ReplaceAllSpec(s[1..], c, d);
      assert s == [s[0]] + s[1..];
      forall i | 1 <= i < |s| ensures ReplaceAll(s, c, d)[i] == if s[i] == c then d else s[i] {
        assert ReplaceAll(s, c, d)[i] == ReplaceAll(s[1..], c, d)[i - 1];
        assert s[1..][i - 1] == s[i];
      }
    }
  }

  /** `sanitiza_label`: `-` and `@` removed, `:` turned into `_`. The label holds none of
      the three, is no longer than the input, and a text without any of them is kept as it
      is. */
  function Sanitize(s: string): (r: string)
    ensures '-' !in r && '@' !in r && ':' !in r
    ensures |r| <= |s|
    ensures '-' !in s && '@' !in s && ':' !in s ==> r == s
  {
    var a := RemoveAll(s, '-');
    var b := RemoveAll(a, '@');
    RemoveAllSpec(s, '-');
    RemoveAllSpec(a, '@');
    ReplaceAllSpec(b, ':', '_');
    ReplaceAll(b, ':', '_')
  }

  /** Sanitising adds no character but `_`. */
  lemma SanitizeChars(s: string)
    ensures forall x :: x in Sanitize(s) ==> x in s || x == '_'
  {
    var a := RemoveAll(s, '-');
    var b := RemoveAll(a, '@');
    RemoveAllSpec(s, '-');
    RemoveAllSpec(a, '@');
    ReplaceAllSpec(b, ':', '_');
  }

  /** Sanitising a label a second time changes nothing. */
  lemma SanitizeIdempotent(s: string)
    ensures Sanitize(Sanitize(s)) == Sanitize(s)
  {
  }

  // ----- generate_machine_node and generate_graph (src/graph.rs:26-110) -----

  /** A field `<port> text` of a record label. */
  datatype Field = Field(port: string, text: string)

  datatype Node =
    | Record(name: string, title: Field, fields: seq<Field>)
    | Circle(name: string, caption: string)

  datatype Edge = Edge(source: string, target: string)

  /** A cluster of the digraph, labelled with the machine's name. */
  datatype Cluster = Cluster(caption: string, nodes: seq<Node>, edges: seq<Edge>)

  /** The label field of one address: the port is the bare, sanitised address. */
  function AddressField(addr: string): Field {
    Field(Sanitize(IpOnly(addr)), addr)
  }

  /** `f` applied to every element, in order; written from the last element so that it grows
      with a loop. */
  function Map<A, B>(xs: seq<A>, f: A -> B): (ys: seq<B>)
    ensures |ys| == |xs|
  {
    if xs == [] then [] else Map(xs[..|xs| - 1], f) + [f(xs[|xs| - 1])]
  }

  lemma {:induction false} MapAt<A, B>(xs: seq<A>, f: A -> B)
    ensures forall k :: 0 <= k < |xs| ==> Map(xs, f)[k] == f(xs[k])
  {
    if xs != [] {
      var init := xs[..|xs| - 1];
      MapAt(init, f);
      forall k | 0 <= k < |init| ensures Map(xs, f)[k] == f(xs[k]) {
        assert Map(xs, f)[k] == Map(init, f)[k];
        assert init[k] == xs[k];
      }
    }
  }

  lemma MapStep<A, B>(xs: seq<A>, k: nat, f: A -> B)
    requires k < |xs|
    ensures Map(xs[..k + 1], f) == Map(xs[..k], f) + [f(xs[k])]
  {
    assert xs[..k + 1][..k] == xs[..k];
  }

  /** The fields of a record label, one per address, in order. */
  function AddressFields(addrs: seq<string>): seq<Field> {
    Map(addrs, AddressField)
  }

  /** The record node of an interface: named by the sanitised host and interface names, with
      a title field for the interface and one field per address. */
  function InterfaceNode(hostname: string, itf: Interface): Node {
    var device := Sanitize(hostname) + Sanitize(itf.name);
    Record(device, Field(IpOnly(device), itf.name), AddressFields(itf.addresses))
  }

  /** A process without a name is shown as `_unknown_`. */
  function ProcessLabel(p: Process): string {
    if p.name == "" then "_unknown_" else p.name
  }

  function ProcessNode(hostname: string, p: Process): Node {
    Circle(hostname + ProcessLabel(p), ProcessLabel(p))
  }

  /** The target the source writes for a wildcard edge: the raw host name, the sanitised bare
      interface name, then the sanitised bare address as the port, all passed through
      `ip_only`. The record of `itf` is named by the sanitised host name, so this is the port
      of `addr` on that record only when sanitising and `ip_only` leave the names alone
      (`FanTargetHitsRecord`); a host name with a `-` misses it (`FanTargetMissesDashedHost`). */
  function FanTarget(hostname: string, itf: Interface, addr: string): string {
    IpOnly(hostname + Sanitize(IpOnly(itf.name)) + ":\"" + Sanitize(IpOnly(addr)) + "\"")
  }

  /** A text that ends in `"` and holds no `/` and no `%` is left alone by `ip_only`: neither
      suffix pattern can end at the quote and neither deletion has a lead. */
  lemma QuotedKept(u: string)
    requires '/' !in u && '%' !in u
    ensures IpOnly(u + "\"") == u + "\""
  {
    var t := u + "\"";
    assert t[|t| - 1] == '"';
    assert SuffixSpan(t, Word) == 0;
    assert SuffixSpan(t, Digit) == 0;
    NoLeadNothingDeleted(t, '/', Digit);
    NoLeadNothingDeleted(t, '%', NameChar);
  }

  /** When the host name, the interface name and the address port hold nothing `ip_only`
      cuts, the wildcard target is spelled `host` + sanitised interface name + `:"port"`,
      with the host name as it is. */
  lemma FanTargetSpelled(hostname: string, itf: Interface, addr: string)
    requires '/' !in hostname && '%' !in hostname
    requires '/' !in itf.name && ':' !in itf.name && '%' !in itf.name
    requires '/' !in AddressField(addr).port && '%' !in AddressField(addr).port
    ensures FanTarget(hostname, itf, addr)
         == hostname + Sanitize(itf.name) + ":\"" + AddressField(addr).port + "\""
  {
    var port := AddressField(addr).port;
    var itfLabel := Sanitize(itf.name);
    assert IpOnly(itf.name) == itf.name;
    SanitizeChars(itf.name);
    var u := hostname + itfLabel + ":\"" + port;
    assert '/' !in u && '%' !in u;
    QuotedKept(u);
  }

  /** When moreover the host name is already a clean label, the wildcard target is the port of
      `addr` on the record of `itf`, written `record:"port"`. */
  lemma FanTargetHitsRecord(hostname: string, itf: Interface, addr: string)
    requires '-' !in hostname && '@' !in hostname && ':' !in hostname
    requires '/' !in hostname && '%' !in hostname
    requires '/' !in itf.name && ':' !in itf.name && '%' !in itf.name
    requires '/' !in AddressField(addr).port && '%' !in AddressField(addr).port
    ensures FanTarget(hostname, itf, addr)
         == InterfaceNode(hostname, itf).name + ":\"" + AddressField(addr).port + "\""
  {
    FanTargetSpelled(hostname, itf, addr);
  }

  /** A host name with a `-` is sanitised in the record name but not in the wildcard target,
      so the target is longer than the record port it was meant to hit: the edge of host
      `web-1` points at `web-1eth0`, while the record is `web1eth0`. */
  lemma FanTargetMissesDashedHost(hostname: string, itf: Interface, addr: string)
    requires '-' in hostname
    requires '/' !in hostname && '%' !in hostname
    requires '/' !in itf.name && ':' !in itf.name && '%' !in itf.name
    requires '/' !in AddressField(addr).port && '%' !in AddressField(addr).port
    ensures |InterfaceNode(hostname, itf).name| < |hostname + Sanitize(itf.name)|
    ensures FanTarget(hostname, itf, addr)
         != InterfaceNode(hostname, itf).name + ":\"" + AddressField(addr).port + "\""
  {
    FanTargetSpelled(hostname, itf, addr);
    RemoveAllShortens(hostname, '-');
  }

  /** Removing a character that occurs makes the text strictly shorter. */
  lemma {:induction false} RemoveAllShortens(s: string, c: char)
    requires c in s
    ensures |RemoveAll(s, c)| < |s|
  {
    if s[0] != c {
      RemoveAllShortens(s[1..], c);
    }
  }

  lemma DashRemoved()
    ensures RemoveAll("web-1", '-') == "web1"
  {
  }

  /** The record of host `web-1` is named from `web1`. */
  lemma DashedHostExample()
    ensures Sanitize("web-1") == "web1"
  {
    DashRemoved();
    assert RemoveAll("web1", '@') == "web1";
    assert ReplaceAll("web1", ':', '_') == "web1";
  }

  /** The edges from `source` to the addresses of one interface, in order. */
  function AddressEdges(hostname: string, source: string, itf: Interface, addrs: seq<string>): (es: seq<Edge>)
    ensures |es| == |addrs|
  {
    if addrs == [] then []
    else AddressEdges(hostname, source, itf, addrs[..|addrs| - 1]) + [Edge(source, FanTarget(hostname, itf, addrs[|addrs| - 1]))]
  }

  /** The edges from `source` to every address of every interface, in order. */
  function FanOut(hostname: string, source: string, itfs: seq<Interface>): seq<Edge> {
    if itfs == [] then []
    else FanOut(hostname, source, itfs[..|itfs| - 1])
         + AddressEdges(hostname, source, itfs[|itfs| - 1], itfs[|itfs| - 1].addresses)
  }

  /** The number of addresses over all interfaces. */
  function AddressCount(itfs: seq<Interface>): nat {
    if itfs == [] then 0 else AddressCount(itfs[..|itfs| - 1]) + |itfs[|itfs| - 1].addresses|
  }

  predicate IsLoopback(bindport: string) { bindport == "127.0.0.1" || bindport == "[::1]" }

  predicate IsWildcard(bindport: string) { bindport == "*" || bindport == "0.0.0.0" || bindport == "[::1]" }

  /** The edges for one bound address of a process: none for a loopback bind, one to every
      interface address for a wildcard bind, and one placeholder edge otherwise. */
  function BindEdges(m: Machine, source: string, bind: string): seq<Edge> {
    var bindport := IpOnly(bind);
    if IsLoopback(bindport) then []
    else if IsWildcard(bindport) then FanOut(m.hostname, source, m.interfaces)
    else [Edge(source, IpOnly(m.hostname + "TODO" + ":\"" + Sanitize(IpOnly(bindport)) + "\""))]
  }

  function BindsEdges(m: Machine, source: string, binds: seq<string>): seq<Edge> {
    if binds == [] then []
    else BindsEdges(m, source, binds[..|binds| - 1]) + BindEdges(m, source, binds[|binds| - 1])
  }

  function ProcessNodes(hostname: string, ps: seq<Process>): seq<Node> {
    Map(ps, p => ProcessNode(hostname, p))
  }

  function InterfaceNodes(hostname: string, itfs: seq<Interface>): seq<Node> {
    Map(itfs, itf => InterfaceNode(hostname, itf))
  }

  function ProcessesEdges(m: Machine, ps: seq<Process>): seq<Edge> {
    if ps == [] then []
    else
      var p := ps[|ps| - 1];
      ProcessesEdges(m, ps[..|ps| - 1]) + BindsEdges(m, m.hostname + ProcessLabel(p), p.addresses)
  }

  /** The cluster `generate_machine_node` emits for a machine. */
  function MachineCluster(m: Machine): Cluster {
    Cluster(Sanitize(m.hostname),
            InterfaceNodes(m.hostname, m.interfaces) + ProcessNodes(m.hostname, m.processes),
            ProcessesEdges(m, m.processes))
  }

  function Clusters(ms: seq<Machine>): seq<Cluster> {
    Map(ms, MachineCluster)
  }

  // Each of the sequences above grows by one element or block per loop iteration.

  lemma AddressFieldsStep(addrs: seq<string>, k: nat)
    requires k < |addrs|
    ensures AddressFields(addrs[..k + 1]) == AddressFields(addrs[..k]) + [AddressField(addrs[k])]
  {
    MapStep(addrs, k, AddressField);
  }

  lemma AddressEdgesStep(hostname: string, source: string, itf: Interface, addrs: seq<string>, k: nat)
    requires k < |addrs|
    ensures AddressEdges(hostname, source, itf, addrs[..k + 1])
         == AddressEdges(hostname, source, itf, addrs[..k]) + [Edge(source, FanTarget(hostname, itf, addrs[k]))]
  {
    assert addrs[..k + 1][..k] == addrs[..k];
  }

  lemma FanOutStep(hostname: string, source: string, itfs: seq<Interface>, i: nat)
    requires i < |itfs|
    ensures FanOut(hostname, source, itfs[..i + 1])
         == FanOut(hostname, source, itfs[..i]) + AddressEdges(hostname, source, itfs[i], itfs[i].addresses)
  {
    assert itfs[..i + 1][..i] == itfs[..i];
  }

  lemma BindsEdgesStep(m: Machine, source: string, binds: seq<string>, j: nat)
    requires j < |binds|
    ensures BindsEdges(m, source, binds[..j + 1]) == BindsEdges(m, source, binds[..j]) + BindEdges(m, source, binds[j])
  {
    assert binds[..j + 1][..j] == binds[..j];
  }

  lemma InterfaceNodesStep(hostname: string, itfs: seq<Interface>, i: nat)
    requires i < |itfs|
    ensures InterfaceNodes(hostname, itfs[..i + 1]) == InterfaceNodes(hostname, itfs[..i]) + [InterfaceNode(hostname, itfs[i])]
  {
    MapStep(itfs, i, itf => InterfaceNode(hostname, itf));
  }

  lemma ProcessStep(m: Machine, ps: seq<Process>, i: nat)
    requires i < |ps|
    ensures ProcessNodes(m.hostname, ps[..i + 1]) == ProcessNodes(m.hostname, ps[..i]) + [ProcessNode(m.hostname, ps[i])]
    ensures ProcessesEdges(m, ps[..i + 1])
         == ProcessesEdges(m, ps[..i]) + BindsEdges(m, m.hostname + ProcessLabel(ps[i]), ps[i].addresses)
  {
    MapStep(ps, i, p => ProcessNode(m.hostname, p));
    assert ps[..i + 1][..i] == ps[..i];
  }

  lemma ClustersStep(ms: seq<Machine>, i: nat)
    requires i < |ms|
    ensures Clusters(ms[..i + 1]) == Clusters(ms[..i]) + [MachineCluster(ms[i])]
  {
    MapStep(ms, i, MachineCluster);
  }

  /** The label loop of src/graph.rs:40-44 for one interface. */
  method EmitInterface(hostname: string, itf: Interface) returns (node: Node)
    ensures node == InterfaceNode(hostname, itf)
  {
    var device := Sanitize(hostname) + Sanitize(itf.name);
    var fields: seq<Field> := [];
    var k := 0;
    while k < |itf.addresses|
      invariant k <= |itf.addresses|
      invariant fields == AddressFields(itf.addresses[..k])
    {
      AddressFieldsStep(itf.addresses, k);
      fields := fields + [Field(Sanitize(IpOnly(itf.addresses[k])), itf.addresses[k])];
      k := k + 1;
    }
    assert itf.addresses[..k] == itf.addresses;
    node := Record(device, Field(IpOnly(device), itf.name), fields);
  }

  /** The address loop of src/graph.rs:70-80 for one interface. */
  method EmitAddressEdges(hostname: string, source: string, itf: Interface) returns (edges: seq<Edge>)
    ensures edges == AddressEdges(hostname, source, itf, itf.addresses)
  {
    edges := [];
    var k := 0;
    while k < |itf.addresses|
      invariant k <= |itf.addresses|
      invariant edges == AddressEdges(hostname, source, itf, itf.addresses[..k])
    {
      var target := IpOnly(hostname + Sanitize(IpOnly(itf.name)) + ":\"" + Sanitize(IpOnly(itf.addresses[k])) + "\"");
      assert target == FanTarget(hostname, itf, itf.addresses[k]);
      AddressEdgesStep(hostname, source, itf, itf.addresses, k);
      edges := edges + [Edge(source, target)];
      k := k + 1;
    }
    assert itf.addresses[..k] == itf.addresses;
  }

  /** The wildcard loop of src/graph.rs:68-81, over the interfaces. */
  method EmitFanOut(hostname: string, source: string, itfs: seq<Interface>) returns (edges: seq<Edge>)
    ensures edges == FanOut(hostname, source, itfs)
  {
    edges := [];
    var i := 0;
    while i < |itfs|
      invariant i <= |itfs|
      invariant edges == FanOut(hostname, source, itfs[..i])
    {
      var more := EmitAddressEdges(hostname, source, itfs[i]);
      FanOutStep(hostname, source, itfs, i);
      edges := edges + more;
      i := i + 1;
    }
    assert itfs[..i] == itfs;
  }

  /** The bind loop of src/graph.rs:61-93 for one process named `source`. */
  method EmitBinds(m: Machine, source: string, binds: seq<string>) returns (edges: seq<Edge>)
    ensures edges == BindsEdges(m, source, binds)
  {
    edges := [];
    var j := 0;
    while j < |binds|
      invariant j <= |binds|
      invariant edges == BindsEdges(m, source, binds[..j])
    {
      BindsEdgesStep(m, source, binds, j);
      var bindport := IpOnly(binds[j]);
      if bindport == "127.0.0.1" || bindport == "[::1]" {
        j := j + 1;
        continue;
      }
      if bindport == "*" || bindport == "0.0.0.0" || bindport == "[::1]" {
        var fan := EmitFanOut(m.hostname, source, m.interfaces);
        edges := edges + fan;
      } else {
        edges := edges + [Edge(source, IpOnly(m.hostname + "TODO" + ":\"" + Sanitize(IpOnly(bindport)) + "\""))];
      }
      j := j + 1;
    }
    assert binds[..j] == binds;
  }

  /** The body of the process loop of src/graph.rs:50-93: the circle node of a process
      and the edges of its binds. */
  method EmitProcess(m: Machine, p: Process) returns (node: Node, edges: seq<Edge>)
    ensures node == ProcessNode(m.hostname, p)
    ensures edges == BindsEdges(m, m.hostname + ProcessLabel(p), p.addresses)
  {
    var caption := p.name;
    var name := m.hostname;
    if caption == "" {
      caption := "_unknown_";
    }
    name := name + caption;
    node := Circle(name, caption);
    edges := EmitBinds(m, name, p.addresses);
  }

  /** The interface loop of src/graph.rs:37-49. */
  method EmitInterfaces(hostname: string, itfs: seq<Interface>) returns (nodes: seq<Node>)
    ensures nodes == InterfaceNodes(hostname, itfs)
  {
    nodes := [];
    var i := 0;
    while i < |itfs|
      invariant i <= |itfs|
      invariant nodes == InterfaceNodes(hostname, itfs[..i])
    {
      var node := EmitInterface(hostname, itfs[i]);
      InterfaceNodesStep(hostname, itfs, i);
      nodes := nodes + [node];
      i := i + 1;
    }
    assert itfs[..i] == itfs;
  }

  /** The process loop of src/graph.rs:50-94. */
  method EmitProcesses(m: Machine) returns (nodes: seq<Node>, edges: seq<Edge>)
    ensures nodes == ProcessNodes(m.hostname, m.processes)
    ensures edges == ProcessesEdges(m, m.processes)
  {
    nodes, edges := [], [];
    var i := 0;
    while i < |m.processes|
      invariant i <= |m.processes|
      invariant nodes == ProcessNodes(m.hostname, m.processes[..i])
      invariant edges == ProcessesEdges(m, m.processes[..i])
    {
      ProcessStep(m, m.processes, i);
      var node, more := EmitProcess(m, m.processes[i]);
      nodes := nodes + [node];
      edges := edges + more;
      i := i + 1;
    }
    assert m.processes[..i] == m.processes;
  }

  /** `generate_machine_node`: the cluster of one machine, labelled with its sanitised name,
      with the interface records before the process circles. */
  method GenerateMachineNode(m: Machine) returns (cluster: Cluster)
    ensures cluster == MachineCluster(m)
  {
    var records := EmitInterfaces(m.hostname, m.interfaces);
    var circles, edges := EmitProcesses(m);
    cluster := Cluster(Sanitize(m.hostname), records + circles, edges);
  }

  /** `generate_graph`: the clusters of the machines in model order. */
  method GenerateGraph(machines: seq<Machine>) returns (clusters: seq<Cluster>)
    ensures clusters == Clusters(machines)
  {
    clusters := [];
    var i := 0;
    while i < |machines|
      invariant i <= |machines|
      invariant clusters == Clusters(machines[..i])
    {
      ClustersStep(machines, i);
      var cluster := GenerateMachineNode(machines[i]);
      clusters := clusters + [cluster];
      i := i + 1;
    }
    assert machines[..i] == machines;
  }

  // ----- Properties of the generated graph -----

  /** One cluster per machine, in model order, labelled with the sanitised host name. */
  lemma ClustersSpec(ms: seq<Machine>)
    ensures |Clusters(ms)| == |ms|
    ensures forall i :: 0 <= i < |ms| ==>
      Clusters(ms)[i] == MachineCluster(ms[i]) && Clusters(ms)[i].caption == Sanitize(ms[i].hostname)
  {
    MapAt(ms, MachineCluster);
  }

  /** A machine's cluster holds one record per interface, in order, followed by one circle per
      process, in order. */
  lemma MachineClusterNodes(m: Machine)
    ensures var nodes := MachineCluster(m).nodes;
      && |nodes| == |m.interfaces| + |m.processes|
      && (forall i :: 0 <= i < |m.interfaces| ==> nodes[i] == InterfaceNode(m.hostname, m.interfaces[i]))
      && (forall j :: 0 <= j < |m.processes| ==> nodes[|m.interfaces| + j] == ProcessNode(m.hostname, m.processes[j]))
  {
    MapConcatAt(m.interfaces, itf => InterfaceNode(m.hostname, itf), m.processes, p => ProcessNode(m.hostname, p));
  }

  lemma MapConcatAt<A, B, C>(xs: seq<A>, f: A -> C, ys: seq<B>, g: B -> C)
    ensures var zs := Map(xs, f) + Map(ys, g);
      && |zs| == |xs| + |ys|
      && (forall i :: 0 <= i < |xs| ==> zs[i] == f(xs[i]))
      && (forall j :: 0 <= j < |ys| ==> zs[|xs| + j] == g(ys[j]))
  {
    MapAt(xs, f);
    MapAt(ys, g);
  }

  /** The record of an interface is named by the sanitised host and interface names, is titled
      with the interface name, and has one field per address, in order, whose port is the
      sanitised bare address. */
  lemma InterfaceNodeFields(hostname: string, itf: Interface)
    ensures var node := InterfaceNode(hostname, itf);
      && node.Record?
      && node.name == Sanitize(hostname) + Sanitize(itf.name)
      && node.title.text == itf.name
      && |node.fields| == |itf.addresses|
      && (forall k :: 0 <= k < |itf.addresses| ==>
            node.fields[k] == Field(Sanitize(IpOnly(itf.addresses[k])), itf.addresses[k]))
  {
    MapAt(itf.addresses, AddressField);
  }

  /** A process circle is named by the host name and its caption; the caption is the process
      name, or `_unknown_` when that is empty, so it is never empty. */
  lemma ProcessNodeNaming(hostname: string, p: Process)
    ensures var node := ProcessNode(hostname, p);
      && node.name == hostname + node.caption
      && node.caption != ""
      && (p.name != "" ==> node.caption == p.name)
      && (p.name == "" ==> node.caption == "_unknown_")
  {
  }

  /** `e` goes from `source` to the wildcard target of some address on some interface. */
  predicate FanEdge(hostname: string, source: string, itfs: seq<Interface>, e: Edge) {
    exists i, k :: 0 <= i < |itfs| && 0 <= k < |itfs[i].addresses|
                   && e == Edge(source, FanTarget(hostname, itfs[i], itfs[i].addresses[k]))
  }

  /** The wildcard fan-out draws exactly one edge per interface address. */
  lemma {:induction false} FanOutLength(hostname: string, source: string, itfs: seq<Interface>)
    ensures |FanOut(hostname, source, itfs)| == AddressCount(itfs)
  {
    if itfs != [] {
      FanOutLength(hostname, source, itfs[..|itfs| - 1]);
    }
  }

  /** Every edge of the fan-out goes from `source` to the wildcard target of some address on
      some interface (the port of that address on its record under the conditions of
      `FanTargetHitsRecord`). */
  lemma {:induction false} FanOutTargets(hostname: string, source: string, itfs: seq<Interface>)
    ensures forall e :: e in FanOut(hostname, source, itfs) ==> FanEdge(hostname, source, itfs, e)
  {
    if itfs != [] {
      var init := itfs[..|itfs| - 1];
      var last := itfs[|itfs| - 1];
      FanOutTargets(hostname, source, init);
      AddressEdgesTargets(hostname, source, last, last.addresses);
      forall e | e in FanOut(hostname, source, itfs) ensures FanEdge(hostname, source, itfs, e) {
        if e in FanOut(hostname, source, init) {
          var i, k :| 0 <= i < |init| && 0 <= k < |init[i].addresses|
            && e == Edge(source, FanTarget(hostname, init[i], init[i].addresses[k]));
          assert itfs[i] == init[i];
        } else {
          assert e in AddressEdges(hostname, source, last, last.addresses);
          var k :| 0 <= k < |last.addresses| && e == Edge(source, FanTarget(hostname, last, last.addresses[k]));
          assert itfs[|itfs| - 1] == last;
        }
      }
    }
  }

  lemma {:induction false} AddressEdgesTargets(hostname: string, source: string, itf: Interface, addrs: seq<string>)
    ensures forall e :: e in AddressEdges(hostname, source, itf, addrs) ==>
      exists k :: 0 <= k < |addrs| && e == Edge(source, FanTarget(hostname, itf, addrs[k]))
  {
    if addrs != [] {
      var init := addrs[..|addrs| - 1];
      AddressEdgesTargets(hostname, source, itf, init);
      forall e | e in AddressEdges(hostname, source, itf, addrs)
        ensures exists k :: 0 <= k < |addrs| && e == Edge(source, FanTarget(hostname, itf, addrs[k]))
      {
        if e in AddressEdges(hostname, source, itf, init) {
          var k :| 0 <= k < |init| && e == Edge(source, FanTarget(hostname, itf, init[k]));
          assert addrs[k] == init[k];
        }
      }
    }
  }

  /** The three kinds of bind: a loopback bind draws no edge, a wildcard bind one edge per
      interface address, any other bind one placeholder edge. The `[::1]` test of the wildcard
      branch is never reached, since a loopback bind has already been skipped. */
  lemma BindEdgesKinds(m: Machine, source: string, bind: string)
    ensures IsLoopback(IpOnly(bind)) ==> BindEdges(m, source, bind) == []
    ensures IsWildcard(IpOnly(bind)) && !IsLoopback(IpOnly(bind)) ==>
      && (IpOnly(bind) == "*" || IpOnly(bind) == "0.0.0.0")
      && BindEdges(m, source, bind) == FanOut(m.hostname, source, m.interfaces)
      && |BindEdges(m, source, bind)| == AddressCount(m.interfaces)
    ensures !IsWildcard(IpOnly(bind)) && !IsLoopback(IpOnly(bind)) ==> |BindEdges(m, source, bind)| == 1
  {
    FanOutLength(m.hostname, source, m.interfaces);
  }

  /** Every edge drawn for a process starts at that process's circle. */
  lemma {:induction false} BindsEdgesSource(m: Machine, source: string, binds: seq<string>)
    ensures forall e :: e in BindsEdges(m, source, binds) ==> e.source == source
  {
    if binds != [] {
      BindsEdgesSource(m, source, binds[..|binds| - 1]);
      var bind := binds[|binds| - 1];
      if IsWildcard(IpOnly(bind)) && !IsLoopback(IpOnly(bind)) {
        FanOutTargets(m.hostname, source, m.interfaces);
      }
    }
  }

  /** Every edge of a machine's cluster starts at the circle of one of its processes. */
  lemma {:induction false} ProcessesEdgesSource(m: Machine, ps: seq<Process>)
    ensures forall e :: e in ProcessesEdges(m, ps) ==>
      exists j :: 0 <= j < |ps| && e.source == ProcessNode(m.hostname, ps[j]).name
  {
    if ps != [] {
      var init := ps[..|ps| - 1];
      var p := ps[|ps| - 1];
      ProcessesEdgesSource(m, init);
      BindsEdgesSource(m, m.hostname + ProcessLabel(p), p.addresses);
      forall e | e in ProcessesEdges(m, ps)
        ensures exists j :: 0 <= j < |ps| && e.source == ProcessNode(m.hostname, ps[j]).name
      {
        if e in ProcessesEdges(m, init) {
          var j :| 0 <= j < |init| && e.source == ProcessNode(m.hostname, init[j]).name;
          assert ps[j] == init[j];
        } else {
          assert e.source == ProcessNode(m.hostname, ps[|ps| - 1]).name;
        }
      }
    }
  }

  /** The source of every edge of a cluster is one of the cluster's circle nodes. */
  lemma EdgeSourcesAreCircles(m: Machine)
    ensures forall e :: e in MachineCluster(m).edges ==>
      exists n :: n in MachineCluster(m).nodes && n.Circle? && n.name == e.source
  {
    ProcessesEdgesSource(m, m.processes);
    MachineClusterNodes(m);
    var nodes := MachineCluster(m).nodes;
    forall e | e in MachineCluster(m).edges
      ensures exists n :: n in nodes && n.Circle? && n.name == e.source
    {
      var j :| 0 <= j < |m.processes| && e.source == ProcessNode(m.hostname, m.processes[j]).name;
      assert nodes[|m.interfaces| + j] in nodes;
    }
  }
}

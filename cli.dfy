/** The parsers of src/cli.rs over the output of `ip --brief address show`, `ss -tulpn`
    and `ss -tuapn`. The commands run on the remote host over `ssh`; here their output is
    given as its sequence of lines. */
module Cli {
  import opened Text
  import opened ModelTypes
  import opened Exclude

  // ----- extract_proc_name (src/cli.rs:50-61) -----

  /** The pattern `"([[:word:]]+)"` matches at `i`: a quote, a run of word characters and a
      closing quote. Word characters exclude the quote, so the run is the maximal one. */
  predicate QuotedWordAt(s: string, i: nat)
    requires i < |s|
  {
    var e := RunEnd(s, i + 1, Word);
    s[i] == '"' && e > i + 1 && e < |s| && s[e] == '"'
  }

  /** The word of the leftmost match at or after `i`, or "" when there is none. */
  function ProcNameFrom(s: string, i: nat): string
    requires i <= |s|
    decreases |s| - i
  {
    if i == |s| then ""
    else if QuotedWordAt(s, i) then s[i + 1..RunEnd(s, i + 1, Word)]
    else ProcNameFrom(s, i + 1)
  }

  /** `extract_proc_name`: the first double-quoted run of word characters, or "". The name is
      made of word characters only (`ProcNameIsFirstQuotedWord` says which run it is). */
  function ExtractProcName(s: string): (name: string)
    ensures forall k :: 0 <= k < |name| ==> IsWordChar(name[k])
  {
    ProcNameWordChars(s, 0);
    ProcNameFrom(s, 0)
  }

  lemma {:induction false} ProcNameFromSpec(s: string, i: nat)
    requires i <= |s|
    ensures ProcNameFrom(s, i) == "" <==> forall j :: i <= j < |s| ==> !QuotedWordAt(s, j)
    ensures forall j :: i <= j < |s| && QuotedWordAt(s, j) && (forall j' :: i <= j' < j ==> !QuotedWordAt(s, j'))
              ==> ProcNameFrom(s, i) == s[j + 1..RunEnd(s, j + 1, Word)]
    decreases |s| - i
  {
    if i < |s| {
      ProcNameFromSpec(s, i + 1);
      if QuotedWordAt(s, i) {
        assert |s[i + 1..RunEnd(s, i + 1, Word)]| > 0;
      }
    }
  }

  /** The name is the word of the leftmost quoted word, and "" exactly when there is none. */
  lemma ProcNameIsFirstQuotedWord(s: string)
    ensures ExtractProcName(s) == "" <==> forall j :: 0 <= j < |s| ==> !QuotedWordAt(s, j)
    ensures forall j :: 0 <= j < |s| && QuotedWordAt(s, j) && (forall j' :: 0 <= j' < j ==> !QuotedWordAt(s, j'))
              ==> ExtractProcName(s) == s[j + 1..RunEnd(s, j + 1, Word)]
  {
    ProcNameFromSpec(s, 0);
  }

  lemma {:induction false} ProcNameWordChars(s: string, i: nat)
    requires i <= |s|
    ensures forall k :: 0 <= k < |ProcNameFrom(s, i)| ==> In(ProcNameFrom(s, i)[k], Word)
    decreases |s| - i
  {
    if i < |s| {
      if QuotedWordAt(s, i) {
        RunEndIsMaximal(s, i + 1, Word);
        SliceIn(s, i + 1, RunEnd(s, i + 1, Word), Word);
      } else {
        ProcNameWordChars(s, i + 1);
      }
    }
  }

  /** A quoted word after a prefix without quotes is the name, whatever follows it. */
  lemma QuotedWordIsName(pre: string, w: string, post: string)
    requires '"' !in pre
    requires w != [] && forall k :: 0 <= k < |w| ==> IsWordChar(w[k])
    ensures ExtractProcName(pre + ['"'] + w + ['"'] + post) == w
  {
    var s := pre + ['"'] + w + ['"'] + post;
    var i := |pre|;
    var e := i + 1 + |w|;
    assert s[i] == '"' && s[e] == '"';
    forall j | i + 1 <= j < e ensures In(s[j], Word) {
      assert s[j] == w[j - i - 1];
    }
    RunEndAt(s, i + 1, e, Word);
    assert QuotedWordAt(s, i);
    forall j | 0 <= j < i ensures !QuotedWordAt(s, j) {
      assert s[j] == pre[j];
    }
    ProcNameFromSpec(s, 0);
    assert s[i + 1..e] == w;
  }

  /** The process column of `ss -p`. */
  lemma ProcNameExample()
    ensures ExtractProcName("users:((\"sshd\",pid=1,fd=3))") == "sshd"
  {
    assert forall k :: 0 <= k < 4 ==> IsWordChar("sshd"[k]);
    QuotedWordIsName("users:((", "sshd", ",pid=1,fd=3))");
    assert "users:((" + ['"'] + "sshd" + ['"'] + ",pid=1,fd=3))" == "users:((\"sshd\",pid=1,fd=3))";
  }

  // ----- extract_addr_and_port (src/cli.rs:63-75) -----

  /** A `:` followed by a digit, with at least one character before it for `.+`. */
  predicate ColonDigitAt(s: string, c: nat) {
    1 <= c && c + 1 < |s| && s[c] == ':' && IsDigit(s[c + 1])
  }

  /** The last `c < n` with `ColonDigitAt(s, c)`, or 0 when there is none. */
  function LastColonDigit(s: string, n: nat): (c: nat)
    requires n <= |s|
    ensures c == 0 || (c < n && ColonDigitAt(s, c))
  {
    if n <= 1 then 0 else if ColonDigitAt(s, n - 1) then n - 1 else LastColonDigit(s, n - 1)
  }

  lemma {:induction false} LastColonDigitIsLast(s: string, n: nat)
    requires n <= |s|
    ensures forall c :: LastColonDigit(s, n) < c < n ==> !ColonDigitAt(s, c)
    ensures LastColonDigit(s, n) == 0 ==> forall c :: 0 <= c < n ==> !ColonDigitAt(s, c)
  {
    if n > 1 && !ColonDigitAt(s, n - 1) {
      LastColonDigitIsLast(s, n - 1);
    }
  }

  /** The match of `(.+):(\d{1,5})` inside one line: `.+` is greedy, so it ends at the last
      `:digit`; the port takes up to five digits. */
  function LineMatch(s: string): Option<(string, string)> {
    var c := LastColonDigit(s, |s|);
    if c == 0 then None
    else
      var e := RunEnd(s, c + 1, Digit);
      Some((s[..c], s[c + 1..if e - (c + 1) <= 5 then e else c + 6]))
  }

  /** `.` does not match a newline, so the leftmost match lies in the first line that has one. */
  function FirstLineMatch(lines: seq<string>): Option<(string, string)> {
    if lines == [] then None
    else if LineMatch(lines[0]).Some? then LineMatch(lines[0])
    else FirstLineMatch(lines[1..])
  }

  /** `extract_addr_and_port`: the new values of the two out-parameters, which keep their old
      values when the pattern does not match. On a one-line endpoint (every whitespace-separated
      field is one) a match gives an address that is a prefix of the endpoint and a port of one
      to five characters (`AddrAndPortSplitsAtLastColonDigit` says which). */
  function ExtractAddrAndPort(endpoint: string, bindaddr: string, port: string): (r: (string, string))
    ensures '\n' !in endpoint ==> r == (bindaddr, port) || (r.0 < endpoint && 1 <= |r.1| <= 5)
  {
    var r := match FirstLineMatch(Split(endpoint, '\n'))
      case Some(m) => m
      case None => (bindaddr, port);
    if '\n' !in endpoint then
      OneLineMatch(endpoint);
      r
    else r
  }

  /** Where there is no `:digit` after the first character, both out-parameters are unchanged;
      otherwise the address is everything before the last `:digit`, and the port is the one to
      five digits after it, as many as there are. */
  lemma AddrAndPortSplitsAtLastColonDigit(endpoint: string, bindaddr: string, port: string)
    requires '\n' !in endpoint
    ensures var (a, p) := ExtractAddrAndPort(endpoint, bindaddr, port);
      && ((forall c :: 0 <= c < |endpoint| ==> !ColonDigitAt(endpoint, c)) ==> a == bindaddr && p == port)
      && ((exists c :: 0 <= c < |endpoint| && ColonDigitAt(endpoint, c)) ==>
            && ColonDigitAt(endpoint, |a|) && endpoint[..|a|] == a
            && (forall c :: |a| < c < |endpoint| ==> !ColonDigitAt(endpoint, c))
            && 1 <= |p| <= 5 && |a| + 1 + |p| <= |endpoint| && endpoint[|a| + 1..|a| + 1 + |p|] == p
            && (forall k :: 0 <= k < |p| ==> IsDigit(p[k]))
            && (|p| == 5 || |a| + 1 + |p| == |endpoint| || !IsDigit(endpoint[|a| + 1 + |p|])))
  {
    OneLineMatch(endpoint);
  }

  /** On one line the leftmost match is the line's own: it exists exactly when there is a
      `:digit` after the first character, and then it splits at the last one. */
  lemma {:induction false} OneLineMatch(s: string)
    requires '\n' !in s
    ensures FirstLineMatch(Split(s, '\n')) == LineMatch(s)
    ensures (forall c :: 0 <= c < |s| ==> !ColonDigitAt(s, c)) ==> LineMatch(s) == None
    ensures (exists c :: 0 <= c < |s| && ColonDigitAt(s, c)) ==>
      && LineMatch(s).Some?
      && var (a, p) := LineMatch(s).value;
      && ColonDigitAt(s, |a|) && s[..|a|] == a
      && (forall c :: |a| < c < |s| ==> !ColonDigitAt(s, c))
      && 1 <= |p| <= 5 && |a| + 1 + |p| <= |s| && s[|a| + 1..|a| + 1 + |p|] == p
      && (forall k :: 0 <= k < |p| ==> IsDigit(p[k]))
      && (|p| == 5 || |a| + 1 + |p| == |s| || !IsDigit(s[|a| + 1 + |p|]))
  {
    assert Split(s, '\n') == [s];
    var c := LastColonDigit(s, |s|);
    LastColonDigitIsLast(s, |s|);
    assert FirstLineMatch([s]) == LineMatch(s) by {
      assert FirstLineMatch([s][1..]) == None;
    }
    if c > 0 {
      assert ColonDigitAt(s, c);
      var e := RunEnd(s, c + 1, Digit);
      RunEndIsMaximal(s, c + 1, Digit);
      var q := if e - (c + 1) <= 5 then e else c + 6;
      SliceIn(s, c + 1, q, Digit);
      assert |s[..c]| == c;
    }
  }

  /** Every field of a line is one line, so the characterisation of `extract_addr_and_port`
      applies to the endpoint fields the listing loops pass to it. */
  lemma FieldsAreOneLine(line: string)
    ensures forall i :: 0 <= i < |Fields(line)| ==> '\n' !in Fields(line)[i]
  {
    forall i | 0 <= i < |Fields(line)| ensures '\n' !in Fields(line)[i] {
      var f := Fields(line)[i];
      assert NoWhitespace(f);
      assert IsWhitespace('\n');
    }
  }

  lemma AddrAndPortExampleV4(b: string, p: string)
    ensures ExtractAddrAndPort("0.0.0.0:80", b, p) == ("0.0.0.0", "80")
  {
    var s := "0.0.0.0:80";
    assert Split(s, '\n') == [s];
    assert LastColonDigit(s, 8) == 7;
    assert LastColonDigit(s, 9) == 7;
    assert LastColonDigit(s, |s|) == 7;
    assert RunEnd(s, 8, Digit) == 10;
    assert s[..7] == "0.0.0.0" && s[8..10] == "80";
    assert FirstLineMatch([s]) == LineMatch(s);
  }

  lemma AddrAndPortExampleV6(b: string, p: string)
    ensures ExtractAddrAndPort("[::]:22", b, p) == ("[::]", "22")
  {
    var s := "[::]:22";
    assert Split(s, '\n') == [s];
    assert LastColonDigit(s, 5) == 4;
    assert LastColonDigit(s, 6) == 4;
    assert LastColonDigit(s, |s|) == 4;
    assert RunEnd(s, 5, Digit) == 7;
    assert s[..4] == "[::]" && s[5..7] == "22";
    assert FirstLineMatch([s]) == LineMatch(s);
  }

  /** A wildcard port leaves the out-parameters as they were. */
  lemma AddrAndPortExampleWildcard(b: string, p: string)
    ensures ExtractAddrAndPort("*:*", b, p) == (b, p)
  {
    var s := "*:*";
    assert Split(s, '\n') == [s];
    assert LastColonDigit(s, 2) == 0;
    assert LastColonDigit(s, |s|) == 0;
    assert FirstLineMatch([s][1..]) == None;
  }

  // ----- The line filters of get_interfaces, get_processes and get_connections -----

  /** What the loops over the lines of a command's output collect: the value each line
      contributes, in line order. Written from the last line so that it grows with a loop. */
  function Collect<T>(lines: seq<string>, f: string -> Option<T>): seq<T> {
    if lines == [] then []
    else Collect(lines[..|lines| - 1], f) + f(lines[|lines| - 1]).ToSeq()
  }

  /** One more line adds what that line contributes. */
  lemma CollectStep<T>(lines: seq<string>, n: nat, f: string -> Option<T>)
    requires n < |lines|
    ensures Collect(lines[..n + 1], f) == Collect(lines[..n], f) + f(lines[n]).ToSeq()
  {
    assert lines[..n + 1][..n] == lines[..n];
  }

  /** Collecting over two blocks of lines collects over each in turn. */
  lemma {:induction false} CollectAppend<T>(a: seq<string>, b: seq<string>, f: string -> Option<T>)
    ensures Collect(a + b, f) == Collect(a, f) + Collect(b, f)
    decreases |b|
  {
    if b == [] {
      assert a + b == a;
    } else {
      var b' := b[..|b| - 1];
      assert (a + b)[..|a + b| - 1] == a + b';
      assert (a + b)[|a + b| - 1] == b[|b| - 1];
      CollectAppend(a, b', f);
      assert Collect(a + b, f) == Collect(a + b', f) + f(b[|b| - 1]).ToSeq();
      assert Collect(b, f) == Collect(b', f) + f(b[|b| - 1]).ToSeq();
    }
  }

  /** A value is collected exactly when some line contributes it. */
  lemma {:induction false} CollectMembers<T>(lines: seq<string>, f: string -> Option<T>)
    ensures forall x :: x in Collect(lines, f) <==> exists j :: 0 <= j < |lines| && f(lines[j]) == Some(x)
    ensures |Collect(lines, f)| <= |lines|
  {
    if lines != [] {
      var init := lines[..|lines| - 1];
      CollectMembers(init, f);
      forall x ensures x in Collect(lines, f) <==> exists j :: 0 <= j < |lines| && f(lines[j]) == Some(x) {
        if exists j :: 0 <= j < |lines| && f(lines[j]) == Some(x) {
          var j :| 0 <= j < |lines| && f(lines[j]) == Some(x);
          if j < |lines| - 1 {
            assert init[j] == lines[j];
          }
        }
        if x in Collect(init, f) {
          var j :| 0 <= j < |init| && f(init[j]) == Some(x);
          assert lines[j] == init[j];
        }
      }
    }
  }

  /** Field `i` of a line, or "" when the line is shorter; the loops leave a variable at its
      initial "" when its field is missing. */
  function Field(fields: seq<string>, i: nat): string {
    if i < |fields| then fields[i] else ""
  }

  /** The address and port of endpoint field `i`, starting from "" and "". */
  function EndpointAt(fields: seq<string>, i: nat): (string, string) {
    if i < |fields| then ExtractAddrAndPort(fields[i], "", "") else ("", "")
  }

  /** The process name of field 6. */
  function ProcNameAt(fields: seq<string>): string {
    if 6 < |fields| then ExtractProcName(fields[6]) else ""
  }

  // get_interfaces (src/cli.rs:28-46)

  /** The interface a line of `ip --brief address show` describes: field 0 is the name,
      field 1 (the state) is skipped and the rest are addresses. */
  function InterfaceOf(fields: seq<string>): Interface {
    Interface(Field(fields, 0), if |fields| > 2 then fields[2..] else [])
  }

  function InterfaceLine(host: string, excludes: Option<string>, line: string): Option<Interface> {
    var itf := InterfaceOf(Fields(line));
    if DeviceExcluded(host, itf.name, excludes) then None else Some(itf)
  }

  function Interfaces(host: string, excludes: Option<string>, lines: seq<string>): seq<Interface> {
    Collect(lines, line => InterfaceLine(host, excludes, line))
  }

  lemma InterfacesStep(host: string, excludes: Option<string>, lines: seq<string>, n: nat)
    requires n < |lines|
    ensures Interfaces(host, excludes, lines[..n + 1])
         == Interfaces(host, excludes, lines[..n]) + InterfaceLine(host, excludes, lines[n]).ToSeq()
  {
    CollectStep(lines, n, line => InterfaceLine(host, excludes, line));
  }

  /** The field loop of src/cli.rs:36-42: field 0 is the name, field 1 is skipped and every
      later field is pushed onto the addresses. */
  method ReadInterfaceFields(fields: seq<string>) returns (interface: Interface)
    ensures interface == InterfaceOf(fields)
  {
    interface := Interface("", []);
    var index := 0;
    while index < |fields|
      invariant index <= |fields|
      invariant interface.name == (if index > 0 then fields[0] else "")
      invariant interface.addresses == (if index > 2 then fields[2..index] else [])
    {
      if index == 0 {
        interface := interface.(name := fields[index]);
      } else if index == 1 {
      } else {
        interface := interface.(addresses := interface.addresses + [fields[index]]);
      }
      index := index + 1;
    }
  }

  /** `get_interfaces` over the lines of the command's output. */
  method GetInterfaces(host: string, excludes: Option<string>, lines: seq<string>) returns (interfaces: seq<Interface>)
    ensures interfaces == Interfaces(host, excludes, lines)
  {
    interfaces := [];
    var n := 0;
    while n < |lines|
      invariant n <= |lines|
      invariant interfaces == Interfaces(host, excludes, lines[..n])
    {
      var interface := ReadInterfaceFields(Fields(lines[n]));
      var excluded := IsDeviceExcluded(host, interface.name, excludes);
      if !excluded {
        interfaces := interfaces + [interface];
      }
      InterfacesStep(host, excludes, lines, n);
      n := n + 1;
    }
    assert lines[..|lines|] == lines;
  }

  /** An interface line written with single spaces is read back field by field: the name is
      field 0 and the addresses are the fields after the state, in order. */
  lemma InterfaceOfLine(fields: seq<string>)
    requires |fields| >= 2
    requires forall i :: 0 <= i < |fields| ==> fields[i] != [] && NoWhitespace(fields[i])
    ensures InterfaceOf(Fields(Join(fields, ' '))) == Interface(fields[0], fields[2..])
  {
    FieldsOfJoin(fields);
    var r := Fields(Join(fields, ' '));
    assert r == fields;
  }

  /** The interfaces are those of the lines whose device is not excluded, in line order. */
  lemma InterfacesSpec(host: string, excludes: Option<string>, lines: seq<string>, more: seq<string>)
    ensures forall itf :: itf in Interfaces(host, excludes, lines) <==>
      exists j :: 0 <= j < |lines| && itf == InterfaceOf(Fields(lines[j])) && !DeviceExcluded(host, itf.name, excludes)
    ensures Interfaces(host, excludes, lines + more) == Interfaces(host, excludes, lines) + Interfaces(host, excludes, more)
  {
    var f := line => InterfaceLine(host, excludes, line);
    CollectMembers(lines, f);
    CollectAppend(lines, more, f);
  }

  // get_processes (src/cli.rs:87-111)

  predicate IsListenLine(line: string) {
    Contains(line, " LISTEN ") || Contains(line, " UNCONN ")
  }

  /** The process a listening line of `ss -tulpn` describes: field 0 is the protocol,
      field 4 the local endpoint and field 6 the process column. The socket's one address is
      dropped when the socket is excluded, and a process without addresses is dropped. */
  function ListenerOf(host: string, excludes: Option<string>, fields: seq<string>): Option<Process> {
    var protocol := Field(fields, 0);
    var bindaddr := EndpointAt(fields, 4).0;
    var port := EndpointAt(fields, 4).1;
    var addresses := if SocketExcluded(host, bindaddr, port, protocol, excludes) then []
                     else [bindaddr + ":" + port + "/" + protocol];
    if |addresses| > 0 then Some(Process(ProcNameAt(fields), addresses)) else None
  }

  function ListenLine(host: string, excludes: Option<string>, line: string): Option<Process> {
    if IsListenLine(line) then ListenerOf(host, excludes, Fields(line)) else None
  }

  function Processes(host: string, excludes: Option<string>, lines: seq<string>): seq<Process> {
    Collect(lines, line => ListenLine(host, excludes, line))
  }

  lemma ProcessesStep(host: string, excludes: Option<string>, lines: seq<string>, n: nat)
    requires n < |lines|
    ensures Processes(host, excludes, lines[..n + 1])
         == Processes(host, excludes, lines[..n]) + ListenLine(host, excludes, lines[n]).ToSeq()
  {
    CollectStep(lines, n, line => ListenLine(host, excludes, line));
  }

  /** The field loop of src/cli.rs:92-99: field 0 is the protocol, field 4 goes through
      `extract_addr_and_port` and field 6 through `extract_proc_name`. */
  method ReadListenFields(fields: seq<string>) returns (protocol: string, bindaddr: string, port: string, procname: string)
    ensures protocol == Field(fields, 0)
    ensures (bindaddr, port) == EndpointAt(fields, 4)
    ensures procname == ProcNameAt(fields)
  {
    bindaddr, port, protocol, procname := "", "", "", "";
    var index := 0;
    while index < |fields|
      invariant index <= |fields|
      invariant protocol == (if index > 0 then fields[0] else "")
      invariant (bindaddr, port) == (if index > 4 then ExtractAddrAndPort(fields[4], "", "") else ("", ""))
      invariant procname == (if index > 6 then ExtractProcName(fields[6]) else "")
    {
      if index == 0 {
        protocol := fields[index];
      } else if index == 4 {
        var endpoint := ExtractAddrAndPort(fields[index], bindaddr, port);
        bindaddr, port := endpoint.0, endpoint.1;
      } else if index == 6 {
        procname := ExtractProcName(fields[index]);
      }
      index := index + 1;
    }
  }

  /** `get_processes` over the lines of the command's output. */
  method GetProcesses(host: string, excludes: Option<string>, lines: seq<string>) returns (processes: seq<Process>)
    ensures processes == Processes(host, excludes, lines)
  {
    processes := [];
    var n := 0;
    while n < |lines|
      invariant n <= |lines|
      invariant processes == Processes(host, excludes, lines[..n])
    {
      var line := lines[n];
      if Contains(line, " LISTEN ") || Contains(line, " UNCONN ") {
        var fields := Fields(line);
        var protocol, bindaddr, port, procname := ReadListenFields(fields);
        var addresses: seq<string> := [];
        var excluded := IsSocketExcluded(host, bindaddr, port, protocol, excludes);
        if !excluded {
          addresses := addresses + [bindaddr + ":" + port + "/" + protocol];
          assert addresses == [bindaddr + ":" + port + "/" + protocol];
        }
        if |addresses| > 0 {
          processes := processes + [Process(procname, addresses)];
        }
        assert ListenerOf(host, excludes, fields) == if |addresses| > 0 then Some(Process(procname, addresses)) else None;
      }
      ProcessesStep(host, excludes, lines, n);
      n := n + 1;
    }
    assert lines[..|lines|] == lines;
  }

  /** The processes are those the listening lines yield, in line order; each carries exactly
      one address, and there are no more processes than lines. */
  lemma ProcessesSpec(host: string, excludes: Option<string>, lines: seq<string>, more: seq<string>)
    ensures forall p :: p in Processes(host, excludes, lines) <==>
      exists j :: 0 <= j < |lines| && IsListenLine(lines[j]) && ListenerOf(host, excludes, Fields(lines[j])) == Some(p)
    ensures forall p :: p in Processes(host, excludes, lines) ==> |p.addresses| == 1
    ensures |Processes(host, excludes, lines)| <= |lines|
    ensures Processes(host, excludes, lines + more) == Processes(host, excludes, lines) + Processes(host, excludes, more)
  {
    var f := line => ListenLine(host, excludes, line);
    CollectMembers(lines, f);
    CollectAppend(lines, more, f);
  }

  /** A listening line yields a process exactly when its socket is not excluded, and then
      the process is named by field 6 and bound where field 4 says. */
  lemma ListenerSpec(host: string, excludes: Option<string>, fields: seq<string>)
    ensures var bindaddr := EndpointAt(fields, 4).0;
      var port := EndpointAt(fields, 4).1;
      var protocol := Field(fields, 0);
      && (ListenerOf(host, excludes, fields).None? <==> SocketExcluded(host, bindaddr, port, protocol, excludes))
      && (ListenerOf(host, excludes, fields).Some? ==>
            ListenerOf(host, excludes, fields).value == Process(ProcNameAt(fields), [bindaddr + ":" + port + "/" + protocol]))
  {
  }

  // get_connections (src/cli.rs:127-163)

  predicate IsEstablishedLine(line: string) {
    Contains(line, " ESTAB ")
  }

  /** The connection an established line of `ss -tuapn` describes, seen on `host`: field 4 is
      the local endpoint, field 5 the remote one and field 6 the process column. */
  function ConnectionOf(host: string, fields: seq<string>): Connection {
    var local := EndpointAt(fields, 4);
    var remote := EndpointAt(fields, 5);
    Connection(host, ProcNameAt(fields), local.0, local.1, remote.0, remote.1)
  }

  /** The filter of src/cli.rs:153-160, which passes the remote endpoint where the local one
      is expected and the local where the remote is. */
  function EstablishedLine(host: string, excludes: Option<string>, line: string): Option<Connection> {
    if !IsEstablishedLine(line) then None
    else
      var fields := Fields(line);
      var c := ConnectionOf(host, fields);
      if ConnectionExcluded(host, c.remoteAddr, c.remotePort, c.localAddr, c.localPort, Field(fields, 0), excludes)
      then None else Some(c)
  }

  function Connections(host: string, excludes: Option<string>, lines: seq<string>): seq<Connection> {
    Collect(lines, line => EstablishedLine(host, excludes, line))
  }

  lemma ConnectionsStep(host: string, excludes: Option<string>, lines: seq<string>, n: nat)
    requires n < |lines|
    ensures Connections(host, excludes, lines[..n + 1])
         == Connections(host, excludes, lines[..n]) + EstablishedLine(host, excludes, lines[n]).ToSeq()
  {
    CollectStep(lines, n, line => EstablishedLine(host, excludes, line));
  }

  /** The field loop of src/cli.rs:134-144: field 0 is the protocol, fields 4 and 5 go
      through `extract_addr_and_port` and field 6 through `extract_proc_name`. */
  method ReadEstablishedFields(fields: seq<string>)
    returns (protocol: string, localaddr: string, localport: string, remoteaddr: string, remoteport: string,
             procname: string)
    ensures protocol == Field(fields, 0)
    ensures (localaddr, localport) == EndpointAt(fields, 4)
    ensures (remoteaddr, remoteport) == EndpointAt(fields, 5)
    ensures procname == ProcNameAt(fields)
  {
    localaddr, localport, remoteaddr, remoteport, procname, protocol := "", "", "", "", "", "";
    var index := 0;
    while index < |fields|
      invariant index <= |fields|
      invariant protocol == (if index > 0 then fields[0] else "")
      invariant (localaddr, localport) == (if index > 4 then ExtractAddrAndPort(fields[4], "", "") else ("", ""))
      invariant (remoteaddr, remoteport) == (if index > 5 then ExtractAddrAndPort(fields[5], "", "") else ("", ""))
      invariant procname == (if index > 6 then ExtractProcName(fields[6]) else "")
    {
      if index == 0 {
        protocol := fields[index];
      } else if index == 4 {
        var endpoint := ExtractAddrAndPort(fields[index], localaddr, localport);
        localaddr, localport := endpoint.0, endpoint.1;
      } else if index == 5 {
        var endpoint := ExtractAddrAndPort(fields[index], remoteaddr, remoteport);
        remoteaddr, remoteport := endpoint.0, endpoint.1;
      } else if index == 6 {
        procname := ExtractProcName(fields[index]);
      }
      index := index + 1;
    }
  }

  /** `get_connections` over the lines of the command's output. */
  method GetConnections(host: string, excludes: Option<string>, lines: seq<string>) returns (connections: seq<Connection>)
    ensures connections == Connections(host, excludes, lines)
  {
    connections := [];
    var n := 0;
    while n < |lines|
      invariant n <= |lines|
      invariant connections == Connections(host, excludes, lines[..n])
    {
      var line := lines[n];
      if Contains(line, " ESTAB ") {
        var fields := Fields(line);
        var protocol, localaddr, localport, remoteaddr, remoteport, procname := ReadEstablishedFields(fields);
        var connection := Connection(host, procname, localaddr, localport, remoteaddr, remoteport);
        assert connection == ConnectionOf(host, fields);
        var excluded := IsConnectionExcluded(host, remoteaddr, remoteport, localaddr, localport, protocol, excludes);
        if !excluded {
          connections := connections + [connection];
        }
        assert EstablishedLine(host, excludes, line) == if excluded then None else Some(connection);
      }
      ConnectionsStep(host, excludes, lines, n);
      n := n + 1;
    }
    assert lines[..|lines|] == lines;
  }

  /** Every connection comes from an established line, is seen on the queried host, and is
      kept exactly when its endpoints, in their natural order, are not both excluded; the
      order of the lines is kept. */
  lemma ConnectionsSpec(host: string, excludes: Option<string>, lines: seq<string>, more: seq<string>)
    ensures forall c :: c in Connections(host, excludes, lines) <==>
      exists j :: 0 <= j < |lines| && IsEstablishedLine(lines[j]) && c == ConnectionOf(host, Fields(lines[j]))
                  && !ConnectionExcluded(host, c.localAddr, c.localPort, c.remoteAddr, c.remotePort,
                                         Field(Fields(lines[j]), 0), excludes)
    ensures forall c :: c in Connections(host, excludes, lines) ==> c.host == host
    ensures Connections(host, excludes, lines + more) == Connections(host, excludes, lines) + Connections(host, excludes, more)
  {
    var f := line => EstablishedLine(host, excludes, line);
    CollectMembers(lines, f);
    CollectAppend(lines, more, f);
    forall j | 0 <= j < |lines|
      ensures var c := ConnectionOf(host, Fields(lines[j]));
        ConnectionExcluded(host, c.remoteAddr, c.remotePort, c.localAddr, c.localPort, Field(Fields(lines[j]), 0), excludes)
        == ConnectionExcluded(host, c.localAddr, c.localPort, c.remoteAddr, c.remotePort, Field(Fields(lines[j]), 0), excludes)
    {
      var c := ConnectionOf(host, Fields(lines[j]));
      ConnectionExclusionSymmetric(host, c.localAddr, c.localPort, c.remoteAddr, c.remotePort, Field(Fields(lines[j]), 0), excludes);
    }
  }
}

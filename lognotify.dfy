/** The logged-user notifier of `apl_coding_challenge/apple_wt_coding_challenge.py`: a
    `MessageSender` that never messages the same user at the same server twice, the parser of
    log lines `"server user"`, and the rewrite of the log that marks messaged lines and
    appends newly seen online servers. */
module LogNotify {
  import opened Wrappers

  /** Python's whitespace, as `str.split()` and `str.strip()` without arguments see it. */
  predicate IsSpace(ch: char)
  {
    var c := ch as int;
    (9 <= c <= 13) || (28 <= c <= 32) || c == 0x85 || c == 0xA0 || c == 0x1680
    || (0x2000 <= c <= 0x200A) || c == 0x2028 || c == 0x2029 || c == 0x202F
    || c == 0x205F || c == 0x3000
  }

  predicate NoSpace(s: string)
  {
    forall k | 0 <= k < |s| :: !IsSpace(s[k])
  }

  const Newline: char := 10 as char
  const Space: char := 32 as char

  /** The longest prefix of `s` without whitespace. */
  function Word(s: string): (w: string)
    ensures |w| <= |s| && w == s[..|w|] && NoSpace(w)
    ensures |w| < |s| ==> IsSpace(s[|w|])
  {
    if s == [] || IsSpace(s[0]) then []
    else [s[0]] + Word(s[1..])
  }

  /** `s.split()`: the maximal runs of non-whitespace, in order. */
  function Tokens(s: string): (t: seq<string>)
    ensures forall k | 0 <= k < |t| :: t[k] != [] && NoSpace(t[k])
    decreases |s|
  {
    if s == [] then []
    else if IsSpace(s[0]) then Tokens(s[1..])
    else
      var w := Word(s);
      [w] + Tokens(s[|w|..])
  }

  /** `s.lstrip()`: the suffix of `s` left after its leading whitespace. */
  function StripLeft(s: string): (r: string)
    ensures r == [] || !IsSpace(r[0])
    ensures NoSpace(s) ==> r == s
  {
    if s != [] && IsSpace(s[0]) then StripLeft(s[1..]) else s
  }

  /** `s.rstrip()`: the prefix of `s` left before its trailing whitespace. */
  function StripRight(s: string): (r: string)
    ensures r == [] || !IsSpace(r[|r| - 1])
    ensures NoSpace(s) ==> r == s
    ensures s == [] || !IsSpace(s[0]) ==> r == [] || !IsSpace(r[0])
  {
    if s != [] && IsSpace(s[|s| - 1]) then StripRight(s[..|s| - 1]) else s
  }

  /** `s.strip()`: whitespace removed from both ends. */
  function Strip(s: string): (r: string)
    ensures r == [] || (!IsSpace(r[0]) && !IsSpace(r[|r| - 1]))
    ensures NoSpace(s) ==> r == s
  {
    StripRight(StripLeft(s))
  }

  /** `s[i..j]` has only whitespace before and after it in `s`. */
  predicate SpaceFramed(s: string, i: nat, j: nat)
  {
    && i <= j <= |s|
    && (forall k | 0 <= k < i :: IsSpace(s[k]))
    && (forall k | j <= k < |s| :: IsSpace(s[k]))
  }

  /** The stripped string is a slice of `s` with only whitespace before and after it. */
  lemma StripIsSlice(s: string)
    ensures exists i: nat, j: nat :: SpaceFramed(s, i, j) && Strip(s) == s[i..j]
  {
    var l := StripLeft(s);
    StripLeftIsSuffix(s);
    StripRightIsPrefix(l);
    var i := |s| - |l|;
    var j := i + |StripRight(l)|;
    forall k | j <= k < |s|
      ensures IsSpace(s[k])
    {
      assert s[k] == l[k - i];
    }
    assert SpaceFramed(s, i, j);
    assert Strip(s) == s[i..j];
  }

  /** `lstrip()` drops a whitespace prefix. */
  lemma {:induction false} StripLeftIsSuffix(s: string)
    ensures |StripLeft(s)| <= |s| && StripLeft(s) == s[|s| - |StripLeft(s)|..]
    ensures forall k | 0 <= k < |s| - |StripLeft(s)| :: IsSpace(s[k])
    decreases |s|
  {
    if s != [] && IsSpace(s[0]) {
      StripLeftIsSuffix(s[1..]);
    }
  }

  /** `rstrip()` drops a whitespace suffix. */
  lemma {:induction false} StripRightIsPrefix(s: string)
    ensures |StripRight(s)| <= |s| && StripRight(s) == s[..|StripRight(s)|]
    ensures forall k | |StripRight(s)| <= k < |s| :: IsSpace(s[k])
    decreases |s|
  {
    if s != [] && IsSpace(s[|s| - 1]) {
      StripRightIsPrefix(s[..|s| - 1]);
    }
  }

  /** Whitespace around a middle that neither starts nor ends with whitespace is exactly
      what `strip()` removes. */
  lemma StripOf(lead: string, m: string, trail: string)
    requires forall k | 0 <= k < |lead| :: IsSpace(lead[k])
    requires forall k | 0 <= k < |trail| :: IsSpace(trail[k])
    requires m == [] || (!IsSpace(m[0]) && !IsSpace(m[|m| - 1]))
    ensures Strip(lead + m + trail) == m
  {
    var s := lead + m + trail;
    if m == [] {
      var spaces := lead + trail;
      assert forall k | 0 <= k < |spaces| :: IsSpace(spaces[k]);
      StripLeftOf(spaces, []);
      assert s == spaces + [];
    } else {
      StripLeftOf(lead, m + trail);
      assert s == lead + (m + trail);
      StripRightOf(m, trail);
    }
  }

  /** `lstrip()` removes a whitespace prefix and stops at the first other character. */
  lemma {:induction false} StripLeftOf(lead: string, rest: string)
    requires forall k | 0 <= k < |lead| :: IsSpace(lead[k])
    requires rest == [] || !IsSpace(rest[0])
    ensures StripLeft(lead + rest) == rest
    decreases |lead|
  {
    if lead != [] {
      assert (lead + rest)[1..] == lead[1..] + rest;
      StripLeftOf(lead[1..], rest);
    } else {
      assert lead + rest == rest;
    }
  }

  /** `rstrip()` removes a whitespace suffix and stops at the last other character. */
  lemma {:induction false} StripRightOf(m: string, trail: string)
    requires forall k | 0 <= k < |trail| :: IsSpace(trail[k])
    requires m == [] || !IsSpace(m[|m| - 1])
    ensures StripRight(m + trail) == m
    decreases |trail|
  {
    if trail != [] {
      var t0 := trail[..|trail| - 1];
      assert (m + trail)[..|m + trail| - 1] == m + t0;
      StripRightOf(m, t0);
    } else {
      assert m + trail == m;
    }
  }

  /** The `ValueError` of unpacking `entry.split()` into two names. */
  datatype LogError = WrongTokenCount(found: nat)

  /** `parse_inputfile_entry`: a line `"server user"` gives `(user, server)`; any other
      number of whitespace-separated tokens raises. */
  function ParseInputfileEntry(entry: string): (r: Result<(string, string), LogError>)
    ensures r.Ok? <==> |Tokens(entry)| == 2
    ensures r.Ok? ==> r.value.0 == Tokens(entry)[1] && r.value.1 == Tokens(entry)[0]
    ensures r.Err? ==> r.error == WrongTokenCount(|Tokens(entry)|)
  {
    var tokens := Tokens(entry);
    if |tokens| != 2 then Err(WrongTokenCount(|tokens|))
    else
      var serverName, userName := tokens[0], tokens[1];
      Ok((Strip(userName), Strip(serverName)))
  }

  lemma TokensAfterSpace(sp: char, s: string)
    requires IsSpace(sp)
    ensures Tokens([sp] + s) == Tokens(s)
  {
    assert ([sp] + s)[1..] == s;
  }

  lemma TokensAfterWord(a: string, rest: string)
    requires a != [] && NoSpace(a)
    requires rest == [] || IsSpace(rest[0])
    ensures Tokens(a + rest) == [a] + Tokens(rest)
  {
    var s := a + rest;
    WordOfPrefix(a, rest);
    assert s[|a|..] == rest;
  }

  lemma {:induction false} WordOfPrefix(a: string, rest: string)
    requires NoSpace(a)
    requires rest == [] || IsSpace(rest[0])
    ensures Word(a + rest) == a
    decreases |a|
  {
    if a != [] {
      WordOfPrefix(a[1..], rest);
      assert (a + rest)[1..] == a[1..] + rest;
    }
  }

  /** A line written as `server + " " + user + "\n"` parses back to `(user, server)`. */
  lemma ParseInputfileEntryRoundTrip(serverName: string, userName: string)
    requires serverName != [] && NoSpace(serverName)
    requires userName != [] && NoSpace(userName)
    ensures ParseInputfileEntry(serverName + [Space] + userName + [Newline]) == Ok((userName, serverName))
  {
    LineTokens(serverName, userName);
  }

  /** The tokens of such a line are the server name and the user name. */
  lemma LineTokens(serverName: string, userName: string)
    requires serverName != [] && NoSpace(serverName)
    requires userName != [] && NoSpace(userName)
    ensures Tokens(serverName + [Space] + userName + [Newline]) == [serverName, userName]
  {
    var tail := [Space] + (userName + [Newline]);
    LineShape(serverName, userName);
    TokensAfterWord(serverName, tail);
    UserTokens(userName);
  }

  /** The log line regrouped as the server name followed by the rest. */
  lemma LineShape(serverName: string, userName: string)
    ensures serverName + [Space] + userName + [Newline] == serverName + ([Space] + (userName + [Newline]))
  {
  }

  /** After the separating space, the rest of the line holds the user name alone. */
  lemma UserTokens(userName: string)
    requires userName != [] && NoSpace(userName)
    ensures Tokens([Space] + (userName + [Newline])) == [userName]
  {
    TokensAfterSpace(Space, userName + [Newline]);
    TokensAfterWord(userName, [Newline]);
    TokensAfterSpace(Newline, []);
    assert [Newline] + [] == [Newline];
  }

  /** `MessageSender`: the set of (user, server) pairs already messaged, and the transcript
      of the messages it printed as "sent". */
  class MessageSender {
    var messagePairsSent: set<(string, string)>
    var transcript: seq<(string, string)>

    /** Every recorded pair was messaged exactly once. */
    ghost predicate Valid()
      reads this
    {
      && (forall p :: p in messagePairsSent <==> p in transcript)
      && (forall i, j | 0 <= i < j < |transcript| :: transcript[i] != transcript[j])
    }

    /** `__init__`: nothing sent yet. */
    constructor()
      ensures Valid()
      ensures messagePairsSent == {} && transcript == []
    {
      messagePairsSent := {};
      transcript := [];
    }

    /** `send_message`: message the pair only if it is new, record it, and report success. */
    method SendMessage(userName: string, serverName: string, message: string) returns (ok: bool)
      requires Valid()
      modifies this
      ensures Valid()
      ensures ok
      ensures messagePairsSent == old(messagePairsSent) + {(userName, serverName)}
      ensures (userName, serverName) in old(messagePairsSent) ==> transcript == old(transcript)
      ensures (userName, serverName) !in old(messagePairsSent) ==>
        transcript == old(transcript) + [(userName, serverName)]
    {
      if (userName, serverName) !in messagePairsSent {
        transcript := transcript + [(userName, serverName)];
        messagePairsSent := messagePairsSent + {(userName, serverName)};
      }
      return true;
    }
  }

  /** The output line for a parsed input line: marked when its server is online. */
  function RewriteLine(line: string, serverName: string, online: seq<string>): string
  {
    if serverName in online then Strip(line) + " messaged" + [Newline] else line
  }

  /** What the main loop has done after some input lines: the output written, the servers
      seen, the pairs messaged, and the error that stopped it, if any. */
  datatype Run = Run(
    output: seq<string>,
    servers: set<string>,
    pairs: set<(string, string)>,
    failure: Option<LogError>)

  type Entry = Result<(string, string), LogError>

  /** `parse_inputfile_entry` of every input line. */
  function Parses(lines: seq<string>): (r: seq<Entry>)
    ensures |r| == |lines|
    ensures forall k | 0 <= k < |lines| :: r[k] == ParseInputfileEntry(lines[k])
  {
    seq(|lines|, k requires 0 <= k < |lines| => ParseInputfileEntry(lines[k]))
  }

  /** One pass of the main loop, given the line and what parsing it gave: stop on an error,
      otherwise write the (possibly marked) line and remember its server and, when the
      server is online, its pair. */
  function StepLine(prev: Run, line: string, entry: Entry, online: seq<string>): (run: Run)
    requires prev.failure.None?
  {
    match entry
    case Err(e) =>
      prev.(failure := Some(e))
    case Ok((userName, serverName)) =>
      Run(prev.output + [RewriteLine(line, serverName, online)],
          prev.servers + {serverName},
          if serverName in online then prev.pairs + {(userName, serverName)} else prev.pairs,
          None)
  }

  /** The main loop over the input lines and their parses, one line at a time. */
  function RunOf(lines: seq<string>, parsed: seq<Entry>, online: seq<string>): (run: Run)
    requires |parsed| == |lines|
    ensures run.failure.None? ==> |run.output| == |lines|
  {
    if lines == [] then Run([], {}, {}, None)
    else
      var n := |lines| - 1;
      var prev := RunOf(lines[..n], parsed[..n], online);
      if prev.failure.Some? then prev
      else StepLine(prev, lines[n], parsed[n], online)
  }

  /** The main loop over the input lines. */
  function RunLog(lines: seq<string>, online: seq<string>): Run
  {
    RunOf(lines, Parses(lines), online)
  }

  /** The closing loop: `server + "\n"` for every online server not seen in the input, in
      the order of the online list. */
  function NewServerLines(online: seq<string>, seen: set<string>): (r: seq<string>)
    ensures |r| <= |online|
    ensures forall x | x in online && x !in seen :: x + [Newline] in r
    ensures forall l | l in r :: exists x | x in online && x !in seen :: l == x + [Newline]
  {
    if online == [] then []
    else
      var init, x := online[..|online| - 1], online[|online| - 1];
      assert forall y | y in init :: y in online;
      NewServerLines(init, seen) + (if x !in seen then [x + [Newline]] else [])
  }

  /** The closing loop over one online server: a line for it exactly when it was not seen. */
  lemma NewServerLinesOne(x: string, seen: set<string>)
    ensures NewServerLines([x], seen) == if x !in seen then [x + [Newline]] else []
  {
    assert [x][..0] == [];
  }

  /** The closing loop over `a + b` writes the lines for `a`, then those for `b`: the lines
      follow the online list, one per occurrence of an unseen server. */
  lemma {:induction false} NewServerLinesAppend(a: seq<string>, b: seq<string>, seen: set<string>)
    ensures NewServerLines(a + b, seen) == NewServerLines(a, seen) + NewServerLines(b, seen)
    decreases |b|
  {
    if b == [] {
      assert a + b == a;
    } else {
      var init, x := b[..|b| - 1], b[|b| - 1];
      assert a + b == (a + init) + [x];
      assert b == init + [x];
      NewServerLinesSnoc(a + init, x, seen);
      NewServerLinesSnoc(init, x, seen);
      NewServerLinesAppend(a, init, seen);
    }
  }

  lemma NewServerLinesSnoc(c: seq<string>, x: string, seen: set<string>)
    ensures NewServerLines(c + [x], seen)
      == NewServerLines(c, seen) + (if x !in seen then [x + [Newline]] else [])
  {
    assert (c + [x])[..|c|] == c;
  }

  /** The rewritten log, or the error of the first line that does not parse. */
  function RewriteLog(lines: seq<string>, online: seq<string>): Result<seq<string>, LogError>
  {
    var run := RunLog(lines, online);
    if run.failure.Some? then Err(run.failure.value)
    else Ok(run.output + NewServerLines(online, run.servers))
  }

  /** The main block with the file reads and writes replaced by the input and output line
      lists and `get_online_servers()` by the `online` parameter. */
  method ProcessLog(sender: MessageSender, lines: seq<string>, online: seq<string>)
    returns (r: Result<seq<string>, LogError>)
    requires sender.Valid()
    modifies sender
    ensures sender.Valid()
    ensures r == RewriteLog(lines, online)
    ensures sender.messagePairsSent == old(sender.messagePairsSent) + RunLog(lines, online).pairs
  {
    ghost var parsed := Parses(lines);
    var output: seq<string> := [];
    var serversInInputlogfile: set<string> := {};
    for i := 0 to |lines|
      invariant sender.Valid()
      invariant RunOf(lines[..i], parsed[..i], online).failure.None?
      invariant output == RunOf(lines[..i], parsed[..i], online).output
      invariant serversInInputlogfile == RunOf(lines[..i], parsed[..i], online).servers
      invariant sender.messagePairsSent
        == old(sender.messagePairsSent) + RunOf(lines[..i], parsed[..i], online).pairs
    {
      RunOfStep(lines, parsed, online, i);
      var inputLine := lines[i];
      var entry := ParseInputfileEntry(inputLine);
      assert entry == parsed[i];
      if entry.Err? {
        FailureSticks(lines, parsed, online, i + 1);
        return Err(entry.error);
      }
      var (userName, serverName) := entry.value;
      if serverName in online {
        var _ := sender.SendMessage(userName, serverName, "Hello, " + userName);
        inputLine := Strip(inputLine) + " messaged" + [Newline];
      }
      output := output + [inputLine];
      serversInInputlogfile := serversInInputlogfile + {serverName};
    }
    assert lines[..|lines|] == lines && parsed[..|lines|] == parsed;
    var tail := AppendNewServers(online, serversInInputlogfile);
    r := Ok(output + tail);
  }

  /** The closing loop of the main block over the online servers. */
  method AppendNewServers(online: seq<string>, serversInInputlogfile: set<string>)
    returns (lines: seq<string>)
    ensures lines == NewServerLines(online, serversInInputlogfile)
  {
    lines := [];
    for i := 0 to |online|
      invariant lines == NewServerLines(online[..i], serversInInputlogfile)
    {
      assert online[..i + 1][..i] == online[..i];
      var serverName := online[i];
      if serverName !in serversInInputlogfile {
        lines := lines + [serverName + [Newline]];
      }
    }
    assert online[..|online|] == online;
  }

  lemma RunOfStep(lines: seq<string>, parsed: seq<Entry>, online: seq<string>, i: nat)
    requires |parsed| == |lines| && i < |lines|
    requires RunOf(lines[..i], parsed[..i], online).failure.None?
    ensures RunOf(lines[..i + 1], parsed[..i + 1], online)
      == StepLine(RunOf(lines[..i], parsed[..i], online), lines[i], parsed[i], online)
  {
    assert lines[..i + 1][..i] == lines[..i];
    assert parsed[..i + 1][..i] == parsed[..i];
  }

  /** Once a line fails to parse, later lines change nothing. */
  lemma {:induction false} FailureSticks(lines: seq<string>, parsed: seq<Entry>, online: seq<string>, i: nat)
    requires |parsed| == |lines| && i <= |lines|
    requires RunOf(lines[..i], parsed[..i], online).failure.Some?
    ensures RunOf(lines, parsed, online) == RunOf(lines[..i], parsed[..i], online)
    decreases |lines| - i
  {
    if i < |lines| {
      assert lines[..i + 1][..i] == lines[..i];
      assert parsed[..i + 1][..i] == parsed[..i];
      FailureSticks(lines, parsed, online, i + 1);
    } else {
      assert lines[..i] == lines && parsed[..i] == parsed;
    }
  }

  /** The loop runs to the end exactly when every line parses. */
  lemma {:induction false} RunOfOkIff(lines: seq<string>, parsed: seq<Entry>, online: seq<string>)
    requires |parsed| == |lines|
    ensures RunOf(lines, parsed, online).failure.None? <==> forall k | 0 <= k < |parsed| :: parsed[k].Ok?
    decreases |lines|
  {
    if lines != [] {
      var n := |lines| - 1;
      var pinit := parsed[..n];
      RunOfOkIff(lines[..n], pinit, online);
      assert forall k | 0 <= k < n :: pinit[k] == parsed[k];
    }
  }

  /** The error is that of the first line that does not parse. */
  lemma RunOfFirstError(lines: seq<string>, parsed: seq<Entry>, online: seq<string>, i: nat)
    requires |parsed| == |lines| && i < |lines|
    requires forall k | 0 <= k < i :: parsed[k].Ok?
    requires parsed[i].Err?
    ensures RunOf(lines, parsed, online).failure == Some(parsed[i].error)
  {
    var pinit := parsed[..i];
    assert forall k | 0 <= k < i :: pinit[k] == parsed[k];
    RunOfOkIff(lines[..i], pinit, online);
    RunOfStep(lines, parsed, online, i);
    FailureSticks(lines, parsed, online, i + 1);
  }

  /** Without parse errors, the k-th output line is the k-th input line rewritten. */
  lemma {:induction false} RunOfLines(lines: seq<string>, parsed: seq<Entry>, online: seq<string>)
    requires |parsed| == |lines|
    requires forall k | 0 <= k < |parsed| :: parsed[k].Ok?
    ensures RunOf(lines, parsed, online).failure.None?
    ensures forall k | 0 <= k < |lines| ::
      RunOf(lines, parsed, online).output[k] == RewriteLine(lines[k], parsed[k].value.1, online)
    decreases |lines|
  {
    RunOfOkIff(lines, parsed, online);
    if lines != [] {
      var n := |lines| - 1;
      var init, pinit := lines[..n], parsed[..n];
      assert forall k | 0 <= k < n :: pinit[k] == parsed[k] && init[k] == lines[k];
      RunOfLines(init, pinit, online);
      var prev := RunOf(init, pinit, online);
      var out := RewriteLine(lines[n], parsed[n].value.1, online);
      assert RunOf(lines, parsed, online).output == prev.output + [out];
    }
  }

  lemma {:induction false} ServerKept(lines: seq<string>, parsed: seq<Entry>, online: seq<string>, k: nat)
    requires |parsed| == |lines|
    requires forall j | 0 <= j < |parsed| :: parsed[j].Ok?
    requires k < |lines|
    ensures parsed[k].value.1 in RunOf(lines, parsed, online).servers
    decreases |lines|
  {
    var n := |lines| - 1;
    var init, pinit := lines[..n], parsed[..n];
    assert forall j | 0 <= j < n :: pinit[j] == parsed[j];
    RunOfOkIff(init, pinit, online);
    assert RunOf(lines, parsed, online).servers
      == RunOf(init, pinit, online).servers + {parsed[n].value.1};
    if k < n {
      ServerKept(init, pinit, online, k);
    }
  }

  lemma {:induction false} ServerSeen(lines: seq<string>, parsed: seq<Entry>, online: seq<string>, x: string)
    requires |parsed| == |lines|
    requires forall j | 0 <= j < |parsed| :: parsed[j].Ok?
    requires x in RunOf(lines, parsed, online).servers
    ensures exists k | 0 <= k < |lines| :: parsed[k].value.1 == x
    decreases |lines|
  {
    var n := |lines| - 1;
    var init, pinit := lines[..n], parsed[..n];
    assert forall j | 0 <= j < n :: pinit[j] == parsed[j];
    RunOfOkIff(init, pinit, online);
    assert RunOf(lines, parsed, online).servers
      == RunOf(init, pinit, online).servers + {parsed[n].value.1};
    if x in RunOf(init, pinit, online).servers {
      ServerSeen(init, pinit, online, x);
      var k :| 0 <= k < n && pinit[k].value.1 == x;
      assert parsed[k].value.1 == x;
    } else {
      assert parsed[n].value.1 == x;
    }
  }

  lemma {:induction false} PairKept(lines: seq<string>, parsed: seq<Entry>, online: seq<string>, k: nat)
    requires |parsed| == |lines|
    requires forall j | 0 <= j < |parsed| :: parsed[j].Ok?
    requires k < |lines| && parsed[k].value.1 in online
    ensures parsed[k].value in RunOf(lines, parsed, online).pairs
    decreases |lines|
  {
    var n := |lines| - 1;
    var init, pinit := lines[..n], parsed[..n];
    assert forall j | 0 <= j < n :: pinit[j] == parsed[j];
    RunOfOkIff(init, pinit, online);
    var prev := RunOf(init, pinit, online);
    assert prev.pairs <= RunOf(lines, parsed, online).pairs;
    if k < n {
      PairKept(init, pinit, online, k);
    }
  }

  lemma {:induction false} PairSeen(lines: seq<string>, parsed: seq<Entry>, online: seq<string>, p: (string, string))
    requires |parsed| == |lines|
    requires forall j | 0 <= j < |parsed| :: parsed[j].Ok?
    requires p in RunOf(lines, parsed, online).pairs
    ensures p.1 in online
    ensures exists k | 0 <= k < |lines| :: parsed[k].value == p
    decreases |lines|
  {
    var n := |lines| - 1;
    var init, pinit := lines[..n], parsed[..n];
    assert forall j | 0 <= j < n :: pinit[j] == parsed[j];
    RunOfOkIff(init, pinit, online);
    if p in RunOf(init, pinit, online).pairs {
      PairSeen(init, pinit, online, p);
      var k :| 0 <= k < n && pinit[k].value == p;
      assert parsed[k].value == p;
    } else {
      assert parsed[n].value == p;
    }
  }

  /** The rewrite succeeds exactly when every input line has two tokens. */
  lemma RewriteLogOkIff(lines: seq<string>, online: seq<string>)
    ensures RewriteLog(lines, online).Ok? <==>
      forall k | 0 <= k < |lines| :: |Tokens(lines[k])| == 2
  {
    RunOfOkIff(lines, Parses(lines), online);
  }

  /** The error reported is that of the first line that does not have two tokens. */
  lemma RewriteLogFirstError(lines: seq<string>, online: seq<string>, i: nat)
    requires i < |lines|
    requires forall k | 0 <= k < i :: |Tokens(lines[k])| == 2
    requires |Tokens(lines[i])| != 2
    ensures RewriteLog(lines, online) == Err(WrongTokenCount(|Tokens(lines[i])|))
  {
    RunOfFirstError(lines, Parses(lines), online, i);
  }

  /** When every line parses, the rewritten log is the input lines, each marked
      `" messaged"` after stripping when its server is online and copied as is otherwise,
      followed by the lines for the online servers the input never mentions. */
  lemma RewriteLogOk(lines: seq<string>, online: seq<string>)
    requires forall k | 0 <= k < |lines| :: |Tokens(lines[k])| == 2
    ensures RewriteLog(lines, online).Ok?
    ensures |RewriteLog(lines, online).value| >= |lines|
    ensures forall k | 0 <= k < |lines| ::
      RewriteLog(lines, online).value[k] == RewriteLine(lines[k], Tokens(lines[k])[0], online)
    ensures RewriteLog(lines, online).value[|lines|..]
      == NewServerLines(online, RunLog(lines, online).servers)
  {
    var parsed := Parses(lines);
    RunOfLines(lines, parsed, online);
    var run := RunLog(lines, online);
    assert (run.output + NewServerLines(online, run.servers))[|lines|..]
      == NewServerLines(online, run.servers);
  }

  /** Without parse errors, the servers remembered are exactly the first tokens of the
      input lines. */
  lemma RunLogServers(lines: seq<string>, online: seq<string>)
    requires forall k | 0 <= k < |lines| :: |Tokens(lines[k])| == 2
    ensures forall k | 0 <= k < |lines| :: Tokens(lines[k])[0] in RunLog(lines, online).servers
    ensures forall x | x in RunLog(lines, online).servers ::
      exists k | 0 <= k < |lines| :: Tokens(lines[k])[0] == x
  {
    var parsed := Parses(lines);
    forall k | 0 <= k < |lines|
      ensures Tokens(lines[k])[0] in RunLog(lines, online).servers
    {
      ServerKept(lines, parsed, online, k);
    }
    forall x | x in RunLog(lines, online).servers
      ensures exists k | 0 <= k < |lines| :: Tokens(lines[k])[0] == x
    {
      ServerSeen(lines, parsed, online, x);
      var k :| 0 <= k < |lines| && parsed[k].value.1 == x;
      assert Tokens(lines[k])[0] == x;
    }
  }

  /** The pairs messaged are exactly the (user, server) pairs of the lines whose server is
      online. */
  lemma RunLogPairs(lines: seq<string>, online: seq<string>)
    requires forall k | 0 <= k < |lines| :: |Tokens(lines[k])| == 2
    ensures forall k | 0 <= k < |lines| && Tokens(lines[k])[0] in online ::
      (Tokens(lines[k])[1], Tokens(lines[k])[0]) in RunLog(lines, online).pairs
    ensures forall p | p in RunLog(lines, online).pairs ::
      p.1 in online && exists k | 0 <= k < |lines| :: Tokens(lines[k]) == [p.1, p.0]
  {
    var parsed := Parses(lines);
    forall k | 0 <= k < |lines| && Tokens(lines[k])[0] in online
      ensures (Tokens(lines[k])[1], Tokens(lines[k])[0]) in RunLog(lines, online).pairs
    {
      PairKept(lines, parsed, online, k);
    }
    forall p | p in RunLog(lines, online).pairs
      ensures p.1 in online && exists k | 0 <= k < |lines| :: Tokens(lines[k]) == [p.1, p.0]
    {
      PairSeen(lines, parsed, online, p);
      var k :| 0 <= k < |lines| && parsed[k].value == p;
      assert Tokens(lines[k]) == [p.1, p.0];
    }
  }
}

/** Every run of an authenticated cipher (crypto++/authenc.cpp): any list of
    calls, in any order, on one object. */
module AuthEncRuns {
  import opened Powers
  import opened AuthEnc

  datatype Call =
    | SetKeyCall(key: seq<byte>, hasIV: bool, iv: seq<byte>)
    | ResynchronizeCall(iv: seq<byte>)
    | RestartCall
    | UpdateCall(data: seq<byte>)
    | ProcessDataCall(data: seq<byte>)
    | TruncatedFinalCall(macSize: nat)

  /** A call, how it ended, and the bytes it put out. */
  datatype Entry = Entry(call: Call, outcome: Outcome, result: seq<byte>)

  // ----- what a run amounts to

  /** The bytes of each part of a message that has an IV and no MAC yet, and how
      many bytes ProcessData was asked for, refused ones included. */
  datatype Progress =
    | Idle
    | Open(iv: seq<byte>, header: seq<byte>, started: bool, input: seq<byte>, output: seq<byte>, footer: seq<byte>,
           attempted: nat)

  function Opened(iv: seq<byte>): Progress {
    Open(iv, [], false, [], [], [], 0)
  }

  function After(p: Progress, e: Entry): Progress {
    var p := if e.call.ProcessDataCall? && p.Open? then p.(attempted := p.attempted + |e.call.data|) else p;
    if e.outcome != Done then p else
    match e.call
    case SetKeyCall(_, hasIV, iv) => if hasIV then Opened(iv) else Idle
    case ResynchronizeCall(iv) => Opened(iv)
    case RestartCall => Idle
    case UpdateCall(data) =>
      if p.Idle? then p else if p.started then p.(footer := p.footer + data) else p.(header := p.header + data)
    case ProcessDataCall(data) =>
      if p.Idle? then p else p.(started := true, input := p.input + data, output := p.output + e.result)
    case TruncatedFinalCall(_) => Idle
  }

  function ProgressOf(trace: seq<Entry>): Progress {
    if trace == [] then Idle else After(ProgressOf(trace[..|trace| - 1]), trace[|trace| - 1])
  }

  function KeyOf(key: seq<byte>, trace: seq<Entry>): seq<byte> {
    if trace == [] then key
    else
      var e := trace[|trace| - 1];
      if e.call.SetKeyCall? then e.call.key else KeyOf(key, trace[..|trace| - 1])
  }

  /** A key was set before the run or in it. */
  predicate HasKey(keyed: bool, trace: seq<Entry>) {
    if trace == [] then keyed
    else trace[|trace| - 1].call.SetKeyCall? || HasKey(keyed, trace[..|trace| - 1])
  }

  /** How ProcessData ends. */
  function ProcessOutcome<St, Cs>(s: Scheme<St, Cs>, p: Progress, length: nat): Outcome {
    if p.Open? && p.attempted + length > s.maxMessage then InvalidArgument
    else if p.Idle? || p.footer != [] then BadState
    else Done
  }

  /** What a call does, given the message so far. */
  ghost predicate Allowed<St, Cs>(s: Scheme<St, Cs>, forward: bool, keyed: bool, key: seq<byte>, p: Progress, e: Entry)
    requires s.blockSize >= 1
  {
    && (e.outcome != Done ==> e.result == [])
    && match e.call
       case SetKeyCall(_, _, _) => e.outcome == Done && e.result == []
       case ResynchronizeCall(_) => e.outcome == (if keyed then Done else BadState) && e.result == []
       case RestartCall => e.outcome == Done && e.result == []
       case UpdateCall(data) => e.result == [] && e.outcome == if data == [] || p.Open? then Done else BadState
       case ProcessDataCall(data) =>
         && e.outcome == ProcessOutcome(s, p, |data|)
         && (e.outcome == Done ==>
               && |e.result| == |data|
               && p.output + e.result == Stream(s, forward, s.startCipher(key, p.iv), p.input + data).1)
       case TruncatedFinalCall(macSize) =>
         && (e.outcome == Done <==> p.Open? && |p.header| <= s.maxHeader && |p.footer| <= s.maxFooter)
         && (p.Open? ==> e.outcome != BadState)
         && (e.outcome == Done ==>
               e.result == Mac(s, key, p.iv, p.header,
                               if s.onPlaintext then (if forward then p.input else p.output)
                               else if forward then p.output else p.input,
                               p.footer, macSize))
  }

  ghost predicate AllowedAt<St, Cs>(
    s: Scheme<St, Cs>, forward: bool, keyed: bool, key: seq<byte>, trace: seq<Entry>, i: int)
    requires s.blockSize >= 1 && 0 <= i < |trace|
  {
    Allowed(s, forward, HasKey(keyed, trace[..i]), KeyOf(key, trace[..i]), ProgressOf(trace[..i]), trace[i])
  }

  ghost predicate AllowedRun<St, Cs>(s: Scheme<St, Cs>, forward: bool, keyed: bool, key: seq<byte>, trace: seq<Entry>)
    requires s.blockSize >= 1
  {
    forall i :: 0 <= i < |trace| ==> AllowedAt(s, forward, keyed, key, trace, i)
  }

  // ----- the object follows

  ghost predicate Follows<St(!new), Cs(!new)>(c: Cipher<St, Cs>, p: Progress)
    reads c, c.buffer
  {
    && c.Valid() && (p.Open? <==> c.Live())
    && (p.Open? ==>
          && c.msg == Message(p.iv, p.header, p.input, p.output, p.footer)
          && (p.started <==> c.state != IVSet) && (p.footer != [] <==> c.state == AuthFooter)
          && p.attempted == c.totalMessageLength)
  }

  method PerformOne<St(!new), Cs(!new)>(c: Cipher<St, Cs>, call: Call, ghost p: Progress) returns (e: Entry)
    requires Follows(c, p)
    modifies c, c.buffer
    ensures e.call == call && Follows(c, After(p, e))
    ensures c.key == if call.SetKeyCall? then call.key else old(c.key)
    ensures c.state != Start <==> call.SetKeyCall? || old(c.state) != Start
    ensures c.scheme.blockSize >= 1 && Allowed(c.scheme, c.forward, old(c.state) != Start, old(c.key), p, e)
  {
    hide Absorb, Tail, Stream, Mac;
    match call {
      case SetKeyCall(key, hasIV, iv) =>
        c.SetKey(key, hasIV, iv);
        e := Entry(call, Done, []);
      case ResynchronizeCall(iv) =>
        var r := c.Resynchronize(iv);
        e := Entry(call, r, []);
      case RestartCall =>
        c.Restart();
        e := Entry(call, Done, []);
      case UpdateCall(data) =>
        var r := c.Update(data);
        e := Entry(call, r, []);
      case ProcessDataCall(data) =>
        e := PerformProcess(c, call, data, p);
      case TruncatedFinalCall(macSize) =>
        var r, mac := c.TruncatedFinal(macSize);
        e := Entry(call, r, mac);
    }
  }

  method PerformProcess<St(!new), Cs(!new)>(c: Cipher<St, Cs>, call: Call, data: seq<byte>, ghost p: Progress)
    returns (e: Entry)
    requires Follows(c, p) && call == ProcessDataCall(data)
    modifies c, c.buffer
    ensures e.call == call && Follows(c, After(p, e)) && c.key == old(c.key)
    ensures c.state == Start <==> old(c.state) == Start
    ensures c.scheme.blockSize >= 1 && Allowed(c.scheme, c.forward, old(c.state) != Start, c.key, p, e)
  {
    hide Absorb, Tail, Stream, Mac;
    var a := new byte[|data|](k requires 0 <= k < |data| => data[k]);
    assert a[..|data|] == data;
    var r := c.ProcessData(a, a, |data|);
    e := Entry(call, r, if r == Done then a[..] else []);
    assert a[..|data|] == a[..];
  }

  /** Any list of calls on an object without a message under way. */
  method Perform<St(!new), Cs(!new)>(c: Cipher<St, Cs>, calls: seq<Call>) returns (trace: seq<Entry>)
    requires c.Valid() && !c.Live()
    modifies c, c.buffer
    ensures |trace| == |calls| && forall i :: 0 <= i < |calls| ==> trace[i].call == calls[i]
    ensures c.scheme.blockSize >= 1 && AllowedRun(c.scheme, c.forward, old(c.state) != Start, old(c.key), trace)
    ensures Follows(c, ProgressOf(trace)) && c.key == KeyOf(old(c.key), trace)
    ensures c.state != Start <==> HasKey(old(c.state) != Start, trace)
  {
    hide Allowed, After, Follows;
    trace := [];
    assert Follows(c, Idle) by {
      IdleFollows(c);
    }
    BlockSizePositive(c);
    for i := 0 to |calls|
      invariant |trace| == i && forall k :: 0 <= k < i ==> trace[k].call == calls[k]
      invariant AllowedRun(c.scheme, c.forward, old(c.state) != Start, old(c.key), trace)
      invariant Follows(c, ProgressOf(trace)) && c.key == KeyOf(old(c.key), trace)
      invariant c.state != Start <==> HasKey(old(c.state) != Start, trace)
    {
      var e := PerformOne(c, calls[i], ProgressOf(trace));
      OneMore(c.scheme, c.forward, old(c.state) != Start, old(c.key), trace, e);
      trace := trace + [e];
    }
  }

  lemma IdleFollows<St(!new), Cs(!new)>(c: Cipher<St, Cs>)
    requires c.Valid() && !c.Live()
    ensures Follows(c, Idle)
  {
  }

  lemma BlockSizePositive<St(!new), Cs(!new)>(c: Cipher<St, Cs>)
    requires c.Valid()
    ensures c.scheme.blockSize >= 1
  {
  }

  lemma OneMore<St, Cs>(s: Scheme<St, Cs>, forward: bool, keyed: bool, key: seq<byte>, trace: seq<Entry>, e: Entry)
    requires s.blockSize >= 1 && AllowedRun(s, forward, keyed, key, trace)
    requires Allowed(s, forward, HasKey(keyed, trace), KeyOf(key, trace), ProgressOf(trace), e)
    ensures AllowedRun(s, forward, keyed, key, trace + [e])
    ensures HasKey(keyed, trace + [e]) <==> e.call.SetKeyCall? || HasKey(keyed, trace)
    ensures ProgressOf(trace + [e]) == After(ProgressOf(trace), e)
    ensures KeyOf(key, trace + [e]) == if e.call.SetKeyCall? then e.call.key else KeyOf(key, trace)
  {
    hide Allowed, After;
    var more := trace + [e];
    assert more[..|trace|] == trace;
    forall i | 0 <= i < |more| ensures AllowedAt(s, forward, keyed, key, more, i) {
      if i < |trace| {
        assert AllowedAt(s, forward, keyed, key, trace, i);
        assert more[..i] == trace[..i];
      }
    }
  }

  // ----- the calls determine the run

  ghost predicate SameEffect(e: Entry, f: Entry) {
    e.call == f.call && e.result == f.result && (e.outcome == Done <==> f.outcome == Done)
  }

  lemma SameCallSameEffect<St, Cs>(
    s: Scheme<St, Cs>, forward: bool, keyed: bool, key: seq<byte>, p: Progress, e: Entry, f: Entry)
    requires s.blockSize >= 1 && e.call == f.call
    requires Allowed(s, forward, keyed, key, p, e) && Allowed(s, forward, keyed, key, p, f)
    ensures SameEffect(e, f) && After(p, e) == After(p, f)
  {
    hide Stream, Mac;
    if e.call.ProcessDataCall? && e.outcome == Done {
      assert (p.output + e.result)[|p.output|..] == (p.output + f.result)[|p.output|..];
    }
  }

  /** Which calls succeed, and every byte put out, is a function of the calls. */
  lemma {:induction false} Determined<St, Cs>(
    s: Scheme<St, Cs>, forward: bool, keyed: bool, key: seq<byte>, t: seq<Entry>, u: seq<Entry>)
    requires s.blockSize >= 1 && AllowedRun(s, forward, keyed, key, t) && AllowedRun(s, forward, keyed, key, u)
    requires |t| == |u| && forall i :: 0 <= i < |t| ==> t[i].call == u[i].call
    ensures forall i :: 0 <= i < |t| ==> SameEffect(t[i], u[i])
    ensures ProgressOf(t) == ProgressOf(u) && KeyOf(key, t) == KeyOf(key, u) && HasKey(keyed, t) == HasKey(keyed, u)
  {
    hide Allowed, After;
    if t != [] {
      var n := |t| - 1;
      Shorter(s, forward, keyed, key, t);
      Shorter(s, forward, keyed, key, u);
      Determined(s, forward, keyed, key, t[..n], u[..n]);
      SameCallSameEffect(s, forward, HasKey(keyed, t[..n]), KeyOf(key, t[..n]), ProgressOf(t[..n]), t[n], u[n]);
      forall i | 0 <= i < |t| ensures SameEffect(t[i], u[i]) {
        if i < n {
          assert SameEffect(t[..n][i], u[..n][i]);
        }
      }
    }
  }

  lemma Shorter<St, Cs>(s: Scheme<St, Cs>, forward: bool, keyed: bool, key: seq<byte>, t: seq<Entry>)
    requires s.blockSize >= 1 && AllowedRun(s, forward, keyed, key, t) && t != []
    ensures AllowedRun(s, forward, keyed, key, t[..|t| - 1])
    ensures var n := |t| - 1; Allowed(s, forward, HasKey(keyed, t[..n]), KeyOf(key, t[..n]), ProgressOf(t[..n]), t[n])
  {
    hide Allowed;
    var n := |t| - 1;
    assert AllowedAt(s, forward, keyed, key, t, n);
    forall i | 0 <= i < n ensures AllowedAt(s, forward, keyed, key, t[..n], i) {
      assert AllowedAt(s, forward, keyed, key, t, i);
      assert t[..n][..i] == t[..i];
    }
  }

  // ----- nothing comes out without an IV of its own

  /** The call gave the object an IV. */
  predicate Starts(e: Entry) {
    e.outcome == Done && (e.call.ResynchronizeCall? || (e.call.SetKeyCall? && e.call.hasIV))
  }

  /** The call took it away: a MAC, a restart, or a key without an IV. */
  predicate Ends(e: Entry) {
    e.outcome == Done && (e.call.TruncatedFinalCall? || e.call.RestartCall? || (e.call.SetKeyCall? && !e.call.hasIV))
  }

  lemma {:induction false} OpenSince(trace: seq<Entry>) returns (j: nat)
    requires ProgressOf(trace).Open?
    ensures j < |trace| && Starts(trace[j]) && forall k :: j < k < |trace| ==> !Ends(trace[k])
  {
    var n := |trace| - 1;
    if Starts(trace[n]) {
      j := n;
    } else {
      j := OpenSince(trace[..n]);
    }
  }

  /** In every run, output and MACs come only after an IV, with no MAC and no
      restart since. */
  lemma NothingWithoutIV<St, Cs>(
    s: Scheme<St, Cs>, forward: bool, keyed: bool, key: seq<byte>, trace: seq<Entry>, i: nat)
    returns (j: nat)
    requires s.blockSize >= 1 && AllowedRun(s, forward, keyed, key, trace) && i < |trace|
    requires
      || trace[i].result != []
      || (trace[i].outcome == Done && (trace[i].call.ProcessDataCall? || trace[i].call.TruncatedFinalCall?))
    ensures j < i && Starts(trace[j]) && forall k :: j < k < i ==> !Ends(trace[k])
  {
    hide Stream, Mac;
    assert AllowedAt(s, forward, keyed, key, trace, i);
    j := OpenSince(trace[..i]);
  }

  // ----- the hooks of a message

  datatype Event =
    | Reset(key: seq<byte>, iv: seq<byte>)
    | Block(data: seq<byte>)
    | LastHeader(data: seq<byte>)
    | LastConfidential(data: seq<byte>)

  /** The hooks do nothing but write down that they were called. */
  ghost predicate Logs<Cs>(s: Scheme<seq<Event>, Cs>) {
    && (forall key, iv :: s.resync(key, iv) == [Reset(key, iv)])
    && (forall log, b :: s.absorb(log, b) == log + [Block(b)])
    && (forall log, b :: s.lastHeader(log, b) == log + [LastHeader(b)])
    && (forall log, b :: s.lastConfidential(log, b) == log + [LastConfidential(b)])
  }

  function Blocks(n: nat, data: seq<byte>): seq<Event>
    requires n >= 1
    decreases |data|
  {
    if |data| < n then [] else [Block(data[..n])] + Blocks(n, data[n..])
  }

  lemma {:induction false} AbsorbLogs<Cs>(s: Scheme<seq<Event>, Cs>, log: seq<Event>, data: seq<byte>)
    requires s.blockSize >= 1 && Logs(s)
    ensures Absorb(s, log, data) == log + Blocks(s.blockSize, data)
    decreases |data|
  {
    hide Logs;
    var n := s.blockSize;
    if |data| >= n {
      var e := Block(data[..n]);
      BlockLogged(s, log, data[..n]);
      AbsorbLogs(s, log + [e], data[n..]);
      Reassociate(log, e, Blocks(n, data[n..]));
    }
  }

  lemma BlockLogged<Cs>(s: Scheme<seq<Event>, Cs>, log: seq<Event>, b: seq<byte>)
    requires Logs(s)
    ensures s.absorb(log, b) == log + [Block(b)]
  {
  }

  lemma Reassociate(log: seq<Event>, e: Event, more: seq<Event>)
    ensures (log + [e]) + more == log + ([e] + more)
  {
  }

  /** The bytes that blocks and a rest hold. */
  function Bytes(log: seq<Event>): seq<byte>
    requires forall e <- log :: e.Block?
  {
    if log == [] then [] else
    assert forall e <- log[1..] :: e in log;
    log[0].data + Bytes(log[1..])
  }

  lemma {:induction false} BlocksWhole(n: nat, data: seq<byte>)
    requires n >= 1
    ensures forall e <- Blocks(n, data) :: e.Block? && |e.data| == n
    ensures Bytes(Blocks(n, data)) + Tail(n, data) == data
    decreases |data|
  {
    if |data| >= n {
      BlocksWhole(n, data[n..]);
      var more := Blocks(n, data[n..]);
      assert Blocks(n, data)[1..] == more;
      assert data == data[..n] + (Bytes(more) + Tail(n, data[n..]));
    }
  }

  /** What the last hook of a message sees, and so what its MAC is made of: the
      key and IV, the header in blocks, its rest once, the confidential part in
      blocks, its rest once, and the footer in blocks. */
  function MessageLog(
    n: nat, key: seq<byte>, iv: seq<byte>, header: seq<byte>, confidential: seq<byte>, footer: seq<byte>): seq<Event>
    requires n >= 1
  {
    [Reset(key, iv)] + Blocks(n, header) + [LastHeader(Tail(n, header))]
    + Blocks(n, confidential) + [LastConfidential(Tail(n, confidential))] + Blocks(n, footer)
  }

  lemma HookOrder<Cs>(
    s: Scheme<seq<Event>, Cs>, key: seq<byte>, iv: seq<byte>, header: seq<byte>, confidential: seq<byte>,
    footer: seq<byte>, macSize: nat)
    requires s.blockSize >= 1 && Logs(s)
    ensures Mac(s, key, iv, header, confidential, footer, macSize) ==
      s.lastFooter(MessageLog(s.blockSize, key, iv, header, confidential, footer), Tail(s.blockSize, footer), macSize)
  {
    hide Absorb, Tail, Blocks;
    AbsorbLogs(s, s.resync(key, iv), header);
    AbsorbLogs(s, AfterHeader(s, key, iv, header), confidential);
    AbsorbLogs(s, AfterConfidential(s, key, iv, header, confidential), footer);
  }

  /** In every run, every MAC is that of a message whose hooks ran in this order,
      once each, on exactly the bytes of each part since its IV was set. */
  lemma EveryMac<Cs>(
    s: Scheme<seq<Event>, Cs>, forward: bool, keyed: bool, key: seq<byte>, trace: seq<Entry>, i: nat)
    requires s.blockSize >= 1 && Logs(s) && AllowedRun(s, forward, keyed, key, trace)
    requires i < |trace| && trace[i].call.TruncatedFinalCall? && trace[i].outcome == Done
    ensures ProgressOf(trace[..i]).Open?
    ensures var p := ProgressOf(trace[..i]);
      var plaintext, ciphertext := if forward then p.input else p.output, if forward then p.output else p.input;
      var confidential := if s.onPlaintext then plaintext else ciphertext;
      trace[i].result == s.lastFooter(
        MessageLog(s.blockSize, KeyOf(key, trace[..i]), p.iv, p.header, confidential, p.footer),
        Tail(s.blockSize, p.footer), trace[i].call.macSize)
  {
    hide Mac, MessageLog, Tail, Logs, Stream;
    assert AllowedAt(s, forward, keyed, key, trace, i);
    var p := ProgressOf(trace[..i]);
    HookOrder(s, KeyOf(key, trace[..i]), p.iv, p.header,
      if s.onPlaintext then (if forward then p.input else p.output) else if forward then p.output else p.input,
      p.footer,
      trace[i].call.macSize);
  }
}

/** AuthenticatedSymmetricCipherBase (crypto++/authenc.cpp) and the calls that
    cryptlib.cpp builds on it.  The virtual hooks of a derived cipher and its
    underlying stream cipher are arbitrary functions, so what is proved about
    the hook state is proved about the sequence of hook calls itself. */
module AuthEnc {
  import opened Powers
  import opened Pieces

  /** What a derived class supplies.  absorb is AuthenticateBlocks on one block;
      each last-block hook sees the bytes left in the buffer. */
  datatype Scheme<!St, !Cs> = Scheme(
    blockSize: nat,
    resync: (seq<byte>, seq<byte>) -> St,
    absorb: (St, seq<byte>) -> St,
    lastHeader: (St, seq<byte>) -> St,
    lastConfidential: (St, seq<byte>) -> St,
    lastFooter: (St, seq<byte>, nat) -> seq<byte>,
    startCipher: (seq<byte>, seq<byte>) -> Cs,
    encrypt: (Cs, byte) -> (Cs, byte),
    decrypt: (Cs, byte) -> (Cs, byte),
    onPlaintext: bool,
    maxHeader: nat,
    maxMessage: nat,
    maxFooter: nat)

  // ----- whole messages

  /** The hook state after every whole block of data. */
  function Absorb<St, Cs>(s: Scheme<St, Cs>, st: St, data: seq<byte>): St
    requires s.blockSize >= 1
    decreases |data|
  {
    if |data| < s.blockSize then st else Absorb(s, s.absorb(st, data[..s.blockSize]), data[s.blockSize..])
  }

  /** The bytes of data after its last whole block. */
  function Tail(blockSize: nat, data: seq<byte>): (t: seq<byte>)
    requires blockSize >= 1
    ensures |t| < blockSize
    decreases |data|
  {
    if |data| < blockSize then data else Tail(blockSize, data[blockSize..])
  }

  /** Absorbing in two pieces is absorbing the whole. */
  lemma {:induction false} AbsorbJoin<St, Cs>(s: Scheme<St, Cs>, st: St, x: seq<byte>, y: seq<byte>)
    requires s.blockSize >= 1
    ensures Absorb(s, Absorb(s, st, x), Tail(s.blockSize, x) + y) == Absorb(s, st, x + y)
    ensures Tail(s.blockSize, Tail(s.blockSize, x) + y) == Tail(s.blockSize, x + y)
    decreases |x|
  {
    var n := s.blockSize;
    if |x| >= n {
      AbsorbJoin(s, s.absorb(st, x[..n]), x[n..], y);
      assert (x + y)[..n] == x[..n];
      assert (x + y)[n..] == x[n..] + y;
    }
  }

  /** The stream cipher on a string: its state afterwards and its output. */
  function Stream<St, Cs>(s: Scheme<St, Cs>, forward: bool, cs: Cs, data: seq<byte>): (Cs, seq<byte>) {
    if data == [] then
      (cs, [])
    else
      var (cs1, b) := if forward then s.encrypt(cs, data[0]) else s.decrypt(cs, data[0]);
      var (cs2, rest) := Stream(s, forward, cs1, data[1..]);
      (cs2, [b] + rest)
  }

  lemma {:induction false} StreamJoin<St, Cs>(s: Scheme<St, Cs>, forward: bool, cs: Cs, x: seq<byte>, y: seq<byte>)
    ensures var (cs1, out1) := Stream(s, forward, cs, x);
      var (cs2, out2) := Stream(s, forward, cs1, y);
      Stream(s, forward, cs, x + y) == (cs2, out1 + out2)
  {
    if x == [] {
      assert x + y == y;
      assert [] + Stream(s, forward, cs, y).1 == Stream(s, forward, cs, y).1;
    } else {
      var (cs1, b) := if forward then s.encrypt(cs, x[0]) else s.decrypt(cs, x[0]);
      StreamJoin(s, forward, cs1, x[1..], y);
      assert (x + y)[1..] == x[1..] + y;
      var (cs2, out1) := Stream(s, forward, cs1, x[1..]);
      var (_, out2) := Stream(s, forward, cs2, y);
      assert [b] + (out1 + out2) == ([b] + out1) + out2;
    }
  }

  lemma {:induction false} StreamLength<St, Cs>(s: Scheme<St, Cs>, forward: bool, cs: Cs, x: seq<byte>)
    ensures |Stream(s, forward, cs, x).1| == |x|
  {
    if x != [] {
      StreamLength(s, forward, (if forward then s.encrypt(cs, x[0]) else s.decrypt(cs, x[0])).0, x[1..]);
    }
  }

  ghost predicate UndoesByte<St, Cs>(s: Scheme<St, Cs>, cs: Cs, b: byte) {
    var (cs1, c) := s.encrypt(cs, b);
    s.decrypt(cs, c) == (cs1, b)
  }

  /** Decryption undoes encryption byte by byte, from the same state. */
  ghost predicate Invertible<St, Cs(!new)>(s: Scheme<St, Cs>) {
    forall cs, b :: UndoesByte(s, cs, b)
  }

  lemma {:induction false} StreamInverse<St, Cs(!new)>(s: Scheme<St, Cs>, cs: Cs, message: seq<byte>)
    requires Invertible(s)
    ensures var (cs1, ciphertext) := Stream(s, true, cs, message);
      Stream(s, false, cs, ciphertext) == (cs1, message)
  {
    if message != [] {
      assert UndoesByte(s, cs, message[0]);
      var (cs1, c) := s.encrypt(cs, message[0]);
      StreamInverse(s, cs1, message[1..]);
      var rest := Stream(s, true, cs1, message[1..]).1;
      var out := [c] + rest;
      assert out[1..] == rest;
      assert [message[0]] + message[1..] == message;
    }
  }

  /** The hook states at the ends of the phases, and the MAC, as functions of
      the bytes of each phase. */
  function AfterHeader<St, Cs>(s: Scheme<St, Cs>, key: seq<byte>, iv: seq<byte>, header: seq<byte>): St
    requires s.blockSize >= 1
  {
    s.lastHeader(Absorb(s, s.resync(key, iv), header), Tail(s.blockSize, header))
  }

  function AfterConfidential<St, Cs>(
    s: Scheme<St, Cs>, key: seq<byte>, iv: seq<byte>, header: seq<byte>, confidential: seq<byte>): St
    requires s.blockSize >= 1
  {
    s.lastConfidential(Absorb(s, AfterHeader(s, key, iv, header), confidential), Tail(s.blockSize, confidential))
  }

  function Mac<St, Cs>(
    s: Scheme<St, Cs>, key: seq<byte>, iv: seq<byte>,
    header: seq<byte>, confidential: seq<byte>, footer: seq<byte>, macSize: nat): seq<byte>
    requires s.blockSize >= 1
  {
    var st := AfterConfidential(s, key, iv, header, confidential);
    s.lastFooter(Absorb(s, st, footer), Tail(s.blockSize, footer), macSize)
  }

  // ----- the class

  datatype State = Start | KeySet | IVSet | AuthUntransformed | AuthTransformed | AuthFooter

  /** The bytes of the current message, phase by phase. */
  datatype Message = Message(iv: seq<byte>, header: seq<byte>, input: seq<byte>, output: seq<byte>, footer: seq<byte>)

  datatype Outcome = Done | BadState | InvalidArgument

  class Cipher<St(!new), Cs(!new)> {
    const scheme: Scheme<St, Cs>
    const forward: bool

    var state: State
    var bufferedDataLength: nat
    var totalHeaderLength: nat
    var totalMessageLength: nat
    var totalFooterLength: nat
    const buffer: array<byte>

    // what the derived class keeps
    var key: seq<byte>
    var hooks: St
    var cipher: Cs

    ghost var msg: Message

    ghost function Pending(): seq<byte>
      requires bufferedDataLength <= buffer.Length
      reads this, buffer
    {
      buffer[..bufferedDataLength]
    }

    /** The side of the stream cipher that is authenticated. */
    ghost function Confidential(): seq<byte>
      reads this
    {
      if scheme.onPlaintext == forward then msg.input else msg.output
    }

    /** full blocks plus buffer are exactly the bytes of the current phase */
    ghost predicate Holding(from: St, data: seq<byte>)
      requires scheme.blockSize >= 1 && bufferedDataLength <= buffer.Length
      reads this, buffer
    {
      hooks == Absorb(scheme, from, data) && Pending() == Tail(scheme.blockSize, data)
    }

    ghost predicate InPhase()
      requires scheme.blockSize >= 1 && bufferedDataLength <= buffer.Length
      reads this, buffer
    {
      match state
      case Start => true
      case KeySet => true
      case IVSet => Holding(scheme.resync(key, msg.iv), msg.header) && msg.input == [] && msg.footer == []
      case AuthUntransformed =>
        && scheme.onPlaintext == forward && msg.footer == []
        && Holding(AfterHeader(scheme, key, msg.iv, msg.header), Confidential())
      case AuthTransformed =>
        && scheme.onPlaintext != forward && msg.footer == []
        && Holding(AfterHeader(scheme, key, msg.iv, msg.header), Confidential())
      case AuthFooter =>
        Holding(AfterConfidential(scheme, key, msg.iv, msg.header, Confidential()), msg.footer)
    }

    ghost predicate Live()
      reads this
    {
      state != Start && state != KeySet
    }

    ghost predicate Valid()
      reads this, buffer
    {
      && scheme.blockSize >= 1
      && buffer.Length == scheme.blockSize
      && bufferedDataLength < scheme.blockSize
      && InPhase()
      && (Live() ==>
            && Stream(scheme, forward, scheme.startCipher(key, msg.iv), msg.input) == (cipher, msg.output)
            && totalHeaderLength == |msg.header| && totalFooterLength == |msg.footer|
            && |msg.input| <= totalMessageLength)
    }

    constructor (scheme: Scheme<St, Cs>, forward: bool, hooks: St, cipher: Cs)
      requires scheme.blockSize >= 1
      ensures Valid() && state == Start && this.scheme == scheme && this.forward == forward && fresh(buffer)
    {
      this.scheme, this.forward, this.hooks, this.cipher := scheme, forward, hooks, cipher;
      state, bufferedDataLength, key := Start, 0, [];
      totalHeaderLength, totalMessageLength, totalFooterLength := 0, 0, 0;
      buffer := new byte[scheme.blockSize];
      msg := Message([], [], [], [], []);
    }

    /** AuthenticateData: one more piece of the current phase. */
    method AuthenticateData(data: seq<byte>)
      requires scheme.blockSize >= 1 && buffer.Length == scheme.blockSize && bufferedDataLength < scheme.blockSize
      modifies `hooks, `bufferedDataLength, buffer
      ensures bufferedDataLength < scheme.blockSize
      ensures hooks == Absorb(scheme, old(hooks), old(Pending()) + data)
      ensures Pending() == Tail(scheme.blockSize, old(Pending()) + data)
    {
      var blockSize, num, rest := scheme.blockSize, bufferedDataLength, data;
      if num != 0 {
        if num + |rest| >= blockSize {
          CopyIn(num, rest[..blockSize - num]);
          ghost var all := old(Pending()) + data;
          SplitBlock(old(Pending()), data, blockSize);
          assert buffer[..] == all[..blockSize];
          hooks := scheme.absorb(hooks, buffer[..]);
          rest := rest[blockSize - num..];
          bufferedDataLength := 0;
        } else {
          CopyIn(num, rest);
          bufferedDataLength := num + |rest|;
          return;
        }
      }
      ghost var st := hooks;
      if |rest| >= blockSize {
        var leftOver := AuthenticateBlocks(rest);
        rest := leftOver;
      }
      CopyIn(0, rest);
      bufferedDataLength := |rest|;
      assert num == 0 ==> old(Pending()) + data == data;
    }

    method CopyIn(at: nat, data: seq<byte>)
      requires at + |data| <= buffer.Length
      modifies buffer
      ensures buffer[..at] == old(buffer[..at]) && buffer[at..at + |data|] == data
      ensures buffer[..at + |data|] == old(buffer[..at]) + data
    {
      for i := 0 to |data|
        invariant buffer[..at] == old(buffer[..at])
        invariant buffer[at..at + i] == data[..i]
      {
        buffer[at + i] := data[i];
      }
      assert buffer[..at + |data|] == buffer[..at] + buffer[at..at + |data|];
    }

    /** The AuthenticateBlocks hook on as many blocks as data has; returns what
        is left over. */
    method AuthenticateBlocks(data: seq<byte>) returns (leftOver: seq<byte>)
      requires scheme.blockSize >= 1
      modifies `hooks
      ensures hooks == Absorb(scheme, old(hooks), data)
      ensures leftOver == Tail(scheme.blockSize, data)
    {
      leftOver := data;
      while |leftOver| >= scheme.blockSize
        invariant Absorb(scheme, hooks, leftOver) == Absorb(scheme, old(hooks), data)
        invariant Tail(scheme.blockSize, leftOver) == Tail(scheme.blockSize, data)
        decreases |leftOver|
      {
        hooks := scheme.absorb(hooks, leftOver[..scheme.blockSize]);
        leftOver := leftOver[scheme.blockSize..];
      }
    }

    /** SetKey, with the IV that the parameters may carry. */
    method SetKey(userKey: seq<byte>, hasIV: bool, newIV: seq<byte>)
      requires Valid()
      modifies this, buffer
      ensures Valid() && key == userKey
      ensures state == if hasIV then IVSet else KeySet
      ensures hasIV ==> msg == Message(newIV, [], [], [], []) && totalMessageLength == 0
    {
      bufferedDataLength := 0;
      state := Start;
      key := userKey;
      state := KeySet;
      if hasIV {
        var r := Resynchronize(newIV);
      }
    }

    method Resynchronize(newIV: seq<byte>) returns (r: Outcome)
      requires Valid()
      modifies this, buffer
      ensures Valid() && key == old(key)
      ensures r == if old(state) == Start then BadState else Done
      ensures r == Done ==> state == IVSet && msg == Message(newIV, [], [], [], [])
      ensures r == Done ==> totalMessageLength == 0
      ensures r != Done ==> state == old(state)
    {
      hide Absorb, Tail, Stream;
      if state == Start {
        return BadState;
      }
      StartMessage(newIV);
      r := Done;
    }

    /** Resynchronize from its first assignment on. */
    method StartMessage(newIV: seq<byte>)
      requires scheme.blockSize >= 1 && buffer.Length == scheme.blockSize && state != Start
      modifies this
      ensures Valid() && state == IVSet && key == old(key) && totalMessageLength == 0
      ensures msg == Message(newIV, [], [], [], [])
    {
      hide Absorb, Tail, Stream, AfterHeader, AfterConfidential, Confidential;
      Nothing(scheme, scheme.resync(key, newIV));
      NoStream(scheme, forward, scheme.startCipher(key, newIV));
      bufferedDataLength := 0;
      totalHeaderLength, totalMessageLength, totalFooterLength := 0, 0, 0;
      state := KeySet;
      hooks, cipher := scheme.resync(key, newIV), scheme.startCipher(key, newIV);
      msg := Message(newIV, [], [], [], []);
      state := IVSet;
      assert Pending() == [];
      assert InPhase();
    }

    method Restart()
      requires Valid()
      modifies `state
      ensures Valid() && state == if old(state) == Start then Start else KeySet
    {
      if state != Start && state != KeySet {
        state := KeySet;
      }
    }

    /** Update: associated data before or after the message. */
    method Update(data: seq<byte>) returns (r: Outcome)
      requires Valid()
      modifies this, buffer
      ensures Valid() && key == old(key)
      ensures totalMessageLength == old(totalMessageLength)
      ensures r == if data != [] && !old(Live()) then BadState else Done
      ensures r != Done || data == [] ==> state == old(state) && msg == old(msg)
      ensures r == Done && data != [] && old(state) == IVSet ==>
                state == IVSet && msg == old(msg).(header := old(msg).header + data)
      ensures r == Done && data != [] && old(state) != IVSet ==>
                state == AuthFooter && msg == old(msg).(footer := old(msg).footer + data)
    {
      hide Absorb, Tail, Stream;
      if data == [] {
        return Done;
      }
      match state {
      case Start => return BadState;
      case KeySet => return BadState;
      case IVSet =>
        AbsorbJoin(scheme, scheme.resync(key, msg.iv), msg.header, data);
        AuthenticateData(data);
        totalHeaderLength := totalHeaderLength + |data|;
        msg := msg.(header := msg.header + data);
      case AuthUntransformed =>
        EndConfidential();
        AddFooter(data);
      case AuthTransformed =>
        EndConfidential();
        AddFooter(data);
      case AuthFooter =>
        AddFooter(data);
      }
      r := Done;
    }

    /** AuthenticateLastConfidentialBlock, and the move to the footer. */
    method EndConfidential()
      requires Valid() && (state == AuthUntransformed || state == AuthTransformed)
      modifies `hooks, `bufferedDataLength, `state
      ensures Valid() && state == AuthFooter
    {
      hide Absorb, Stream;
      hooks := scheme.lastConfidential(hooks, buffer[..bufferedDataLength]);
      bufferedDataLength := 0;
      state := AuthFooter;
      Nothing(scheme, hooks);
      assert buffer[..0] == [];
    }

    method AddFooter(data: seq<byte>)
      requires Valid() && state == AuthFooter
      modifies `hooks, `bufferedDataLength, buffer, `totalFooterLength, `msg
      ensures Valid() && msg == old(msg).(footer := old(msg).footer + data)
    {
      hide Absorb, Tail, Stream;
      AbsorbJoin(scheme, AfterConfidential(scheme, key, msg.iv, msg.header, Confidential()), msg.footer, data);
      AuthenticateData(data);
      totalFooterLength := totalFooterLength + |data|;
      msg := msg.(footer := msg.footer + data);
    }

    /** AuthenticateLastHeaderBlock, and the move to the message. */
    method EndHeader()
      requires Valid() && state == IVSet
      modifies `hooks, `bufferedDataLength, `state
      ensures Valid() && (state == AuthUntransformed || state == AuthTransformed)
    {
      hide Absorb;
      hooks := scheme.lastHeader(hooks, buffer[..bufferedDataLength]);
      bufferedDataLength := 0;
      state := if scheme.onPlaintext == forward then AuthUntransformed else AuthTransformed;
      Nothing(scheme, hooks);
      assert buffer[..0] == [];
    }

    /** The underlying cipher's ProcessData, in place or between two arrays. */
    method Transform(outString: array<byte>, inString: array<byte>, length: nat)
      requires length <= outString.Length && length <= inString.Length
      modifies `cipher, outString
      ensures Stream(scheme, forward, old(cipher), old(inString[..length])) == (cipher, outString[..length])
      ensures outString[length..] == old(outString[length..])
    {
      ghost var data := inString[..length];
      NoStream(scheme, forward, cipher);
      for i := 0 to length
        invariant Stream(scheme, forward, old(cipher), data[..i]) == (cipher, outString[..i])
        invariant inString[i..] == old(inString[i..])
        invariant outString[i..] == old(outString[i..])
      {
        assert inString[i] == inString[i..][0] == data[i];
        ghost var cs, done := cipher, outString[..i];
        var (next, b) := if forward then scheme.encrypt(cipher, inString[i]) else scheme.decrypt(cipher, inString[i]);
        cipher := next;
        outString[i] := b;
        StreamByte(scheme, forward, cs, data[i]);
        StreamJoin(scheme, forward, old(cipher), data[..i], [data[i]]);
        assert data[..i + 1] == data[..i] + [data[i]];
        assert outString[..i + 1] == done + [b];
        assert outString[i + 1..] == old(outString[i..])[1..];
        assert inString[i + 1..] == old(inString[i..])[1..];
      }
      assert data[..length] == data;
    }

    /** ProcessData: a piece of the message, from inString to outString, which
        are the same array or do not overlap. */
    method ProcessData(outString: array<byte>, inString: array<byte>, length: nat) returns (r: Outcome)
      requires Valid() && outString != buffer && inString != buffer
      requires length <= outString.Length && length <= inString.Length
      modifies this, buffer, outString
      ensures Valid() && key == old(key)
      ensures totalMessageLength == old(totalMessageLength) + length
      ensures r == if old(Live()) && totalMessageLength > scheme.maxMessage then InvalidArgument
                   else if !old(Live()) || old(state) == AuthFooter then BadState else Done
      ensures r != Done ==> state == old(state) && msg == old(msg) && outString[..] == old(outString[..])
      ensures r == Done ==>
                && (state == AuthUntransformed || state == AuthTransformed)
                && msg == old(msg).(input := old(msg).input + old(inString[..length]),
                                    output := old(msg).output + outString[..length])
                && outString[length..] == old(outString[length..])
    {
      hide Absorb, Tail, Stream;
      totalMessageLength := totalMessageLength + length;
      if state != Start && state != KeySet && totalMessageLength > scheme.maxMessage {
        return InvalidArgument;
      }
      if state == Start || state == KeySet || state == AuthFooter {
        return BadState;
      }
      if state == IVSet {
        EndHeader();
      }
      ProcessPiece(outString, inString, length);
      r := Done;
    }

    method ProcessPiece(outString: array<byte>, inString: array<byte>, length: nat)
      requires Valid() && outString != buffer && inString != buffer
      requires state == AuthUntransformed || state == AuthTransformed
      requires length <= outString.Length && length <= inString.Length && |msg.input| + length <= totalMessageLength
      modifies `hooks, `bufferedDataLength, `cipher, `msg, buffer, outString
      ensures Valid()
      ensures msg == old(msg).(input := old(msg).input + old(inString[..length]),
                               output := old(msg).output + outString[..length])
      ensures outString[length..] == old(outString[length..])
    {
      hide Absorb, Tail, Stream, AfterHeader;
      ghost var data, before := inString[..length], Confidential();
      StreamJoin(scheme, forward, scheme.startCipher(key, msg.iv), msg.input, data);
      if state == AuthUntransformed {
        AbsorbJoin(scheme, AfterHeader(scheme, key, msg.iv, msg.header), before, data);
        AuthenticateData(inString[..length]);
        Transform(outString, inString, length);
      } else {
        Transform(outString, inString, length);
        AbsorbJoin(scheme, AfterHeader(scheme, key, msg.iv, msg.header), before, outString[..length]);
        AuthenticateData(outString[..length]);
      }
      msg := msg.(input := msg.input + data, output := msg.output + outString[..length]);
    }

    /** TruncatedFinal: the MAC of the whole message, which ends it. */
    method TruncatedFinal(macSize: nat) returns (r: Outcome, mac: seq<byte>)
      requires Valid()
      modifies `state, `hooks, `bufferedDataLength
      ensures Valid()
      ensures r == if totalHeaderLength > scheme.maxHeader || totalFooterLength > scheme.maxFooter then InvalidArgument
                   else if !old(Live()) then BadState else Done
      ensures r != Done ==> state == old(state) && mac == []
      ensures r == Done ==>
                && state == KeySet
                && mac == Mac(scheme, key, msg.iv, msg.header,
                              if scheme.onPlaintext then (if forward then msg.input else msg.output)
                              else if forward then msg.output else msg.input,
                              msg.footer, macSize)
    {
      hide Absorb, Tail, Stream;
      mac := [];
      if totalHeaderLength > scheme.maxHeader || totalFooterLength > scheme.maxFooter {
        return InvalidArgument, [];
      }
      if state == Start || state == KeySet {
        return BadState, [];
      }
      if state == IVSet {
        EndHeader();
      }
      if state == AuthUntransformed || state == AuthTransformed {
        EndConfidential();
      }
      mac := scheme.lastFooter(hooks, buffer[..bufferedDataLength], macSize);
      bufferedDataLength := 0;
      state := KeySet;
      r := Done;
    }
  }

  lemma SplitBlock(held: seq<byte>, data: seq<byte>, n: nat)
    requires |held| <= n <= |held| + |data|
    ensures (held + data)[..n] == held + data[..n - |held|] && (held + data)[n..] == data[n - |held|..]
  {
  }

  lemma NoStream<St, Cs>(s: Scheme<St, Cs>, forward: bool, cs: Cs)
    ensures Stream(s, forward, cs, []) == (cs, [])
  {
  }

  lemma StreamByte<St, Cs>(s: Scheme<St, Cs>, forward: bool, cs: Cs, b: byte)
    ensures var (next, out) := if forward then s.encrypt(cs, b) else s.decrypt(cs, b);
      Stream(s, forward, cs, [b]) == (next, [out])
  {
    var (next, out) := if forward then s.encrypt(cs, b) else s.decrypt(cs, b);
    NoStream(s, forward, next);
    assert [b][1..] == [] && [out] + [] == [out];
  }

  lemma Nothing<St, Cs>(s: Scheme<St, Cs>, st: St)
    requires s.blockSize >= 1
    ensures Absorb(s, st, []) == st && Tail(s.blockSize, []) == []
  {
  }

  // ----- whole runs, in any pieces

  /** Associated data in pieces: header before the first ProcessData, footer
      after it. */
  method FeedData<St(!new), Cs(!new)>(c: Cipher<St, Cs>, data: seq<seq<byte>>)
    requires c.Valid() && c.Live()
    modifies c, c.buffer
    ensures c.Valid() && c.key == old(c.key) && c.Live() && c.totalMessageLength == old(c.totalMessageLength)
    ensures c.state == IVSet <==> old(c.state) == IVSet
    ensures c.msg == if c.state == IVSet then old(c.msg).(header := old(c.msg).header + Concat(data))
                     else old(c.msg).(footer := old(c.msg).footer + Concat(data))
  {
    hide Absorb, Tail, Stream, Mac, Cipher.Valid, Concat;
    NoPieces([]);
    for i := 0 to |data|
      invariant c.Valid() && c.key == old(c.key) && c.Live() && c.totalMessageLength == old(c.totalMessageLength)
      invariant c.state == IVSet <==> old(c.state) == IVSet
      invariant c.msg == if c.state == IVSet then old(c.msg).(header := old(c.msg).header + Concat(data[..i]))
                         else old(c.msg).(footer := old(c.msg).footer + Concat(data[..i]))
    {
      ConcatNext(data, i);
      var r := c.Update(data[i]);
    }
    assert data[..|data|] == data;
  }

  /** Passes the pieces through ProcessData, each in place. */
  method FeedPieces<St(!new), Cs(!new)>(c: Cipher<St, Cs>, pieces: seq<seq<byte>>)
    returns (r: Outcome, output: seq<byte>)
    requires c.Valid() && c.state == IVSet && c.msg.input == [] && c.msg.output == [] && c.totalMessageLength == 0
    modifies c, c.buffer
    ensures c.Valid() && c.key == old(c.key)
    ensures r == if |Concat(pieces)| > c.scheme.maxMessage then InvalidArgument else Done
    ensures r == Done ==>
              && (if pieces == [] then c.state == IVSet else c.state == AuthUntransformed || c.state == AuthTransformed)
              && c.msg == old(c.msg).(input := Concat(pieces), output := output)
  {
    hide Absorb, Tail, Stream, Mac;
    output := [];
    for i := 0 to |pieces|
      invariant c.Valid() && c.key == old(c.key)
      invariant c.state == IVSet || c.state == AuthUntransformed || c.state == AuthTransformed
      invariant i > 0 <==> c.state != IVSet
      invariant c.totalMessageLength == |Concat(pieces[..i])| <= c.scheme.maxMessage
      invariant c.msg == old(c.msg).(input := Concat(pieces[..i]), output := output)
    {
      ConcatNext(pieces, i);
      var piece := pieces[i];
      var a := new byte[|piece|](k requires 0 <= k < |piece| => piece[k]);
      assert a[..|piece|] == piece;
      r := c.ProcessData(a, a, |piece|);
      if r != Done {
        ConcatMonotone(pieces, i + 1);
        return;
      }
      output := output + a[..|piece|];
    }
    assert pieces[..|pieces|] == pieces;
    r := Done;
  }

  /** Without a call of ProcessData, everything given to Update is header. */
  function HeaderOf(headers: seq<seq<byte>>, pieces: seq<seq<byte>>, footers: seq<seq<byte>>): seq<byte> {
    Concat(headers) + if pieces == [] then Concat(footers) else []
  }

  function FooterOf(pieces: seq<seq<byte>>, footers: seq<seq<byte>>): seq<byte> {
    if pieces == [] then [] else Concat(footers)
  }

  /** A whole message, in any pieces: Resynchronize, Update for the header,
      ProcessData, Update for the footer, TruncatedFinal. */
  method Run<St(!new), Cs(!new)>(
    c: Cipher<St, Cs>, iv: seq<byte>, headers: seq<seq<byte>>, pieces: seq<seq<byte>>, footers: seq<seq<byte>>,
    macSize: nat)
    returns (r: Outcome, output: seq<byte>, mac: seq<byte>)
    requires c.Valid()
    modifies c, c.buffer
    ensures c.Valid() && c.key == old(c.key)
    ensures r == Done <==>
              && old(c.state) != Start
              && |HeaderOf(headers, pieces, footers)| <= c.scheme.maxHeader
              && |Concat(pieces)| <= c.scheme.maxMessage
              && |FooterOf(pieces, footers)| <= c.scheme.maxFooter
    ensures r == Done ==>
              && output == Stream(c.scheme, c.forward, c.scheme.startCipher(c.key, iv), Concat(pieces)).1
              && mac == Mac(c.scheme, c.key, iv, HeaderOf(headers, pieces, footers),
                            if c.scheme.onPlaintext then (if c.forward then Concat(pieces) else output)
                            else if c.forward then output else Concat(pieces),
                            FooterOf(pieces, footers), macSize)
  {
    hide Absorb, Tail, Stream, Mac, Concat;
    output, mac := [], [];
    r := c.Resynchronize(iv);
    if r != Done {
      return;
    }
    FeedData(c, headers);
    r, output := FeedPieces(c, pieces);
    if r != Done {
      return;
    }
    FeedData(c, footers);
    assert c.msg.header == HeaderOf(headers, pieces, footers) && c.msg.footer == FooterOf(pieces, footers);
    r, mac := c.TruncatedFinal(macSize);
  }

  // ----- the calls of cryptlib.cpp for a whole message

  /** AuthenticatedSymmetricCipher::SpecifyDataLengths: only the limits are
      checked. */
  method SpecifyDataLengths<St(!new), Cs(!new)>(c: Cipher<St, Cs>, header: nat, message: nat, footer: nat)
    returns (r: Outcome)
    ensures r == if header > c.scheme.maxHeader || message > c.scheme.maxMessage || footer > c.scheme.maxFooter
                 then InvalidArgument else Done
  {
    if header > c.scheme.maxHeader || message > c.scheme.maxMessage || footer > c.scheme.maxFooter {
      return InvalidArgument;
    }
    return Done;
  }

  /** What EncryptAndAuthenticate and DecryptAndVerify share: one header, one
      piece, no footer.  An empty message is passed on like any other. */
  method WholeMessage<St(!new), Cs(!new)>(
    c: Cipher<St, Cs>, iv: seq<byte>, header: seq<byte>, input: seq<byte>, macSize: nat)
    returns (r: Outcome, output: seq<byte>, mac: seq<byte>)
    requires c.Valid()
    modifies c, c.buffer
    ensures c.Valid() && c.key == old(c.key)
    ensures r == if old(c.state) == Start then BadState
                 else if |header| > c.scheme.maxHeader || |input| > c.scheme.maxMessage then InvalidArgument else Done
    ensures r == Done ==>
              && output == Stream(c.scheme, c.forward, c.scheme.startCipher(c.key, iv), input).1
              && mac == Mac(c.scheme, c.key, iv, header,
                            if c.scheme.onPlaintext then (if c.forward then input else output)
                            else if c.forward then output else input,
                            [], macSize)
  {
    hide Absorb, Tail, Stream, Mac, Concat;
    output, mac := [], [];
    r := c.Resynchronize(iv);
    if r != Done {
      return;
    }
    r := SpecifyDataLengths(c, |header|, |input|, 0);
    if r != Done {
      return;
    }
    ConcatSnoc([], header);
    ConcatSnoc([], input);
    FeedData(c, [header]);
    assert c.msg.header == header;
    r, output := FeedPieces(c, [input]);
    r, mac := c.TruncatedFinal(macSize);
  }

  /** EncryptAndAuthenticate, then DecryptAndVerify by another object: the
      message comes back and its MAC is accepted.  Any other MAC is not. */
  method EncryptThenDecrypt<St(!new), Cs(!new)>(
    enc: Cipher<St, Cs>, dec: Cipher<St, Cs>, iv: seq<byte>, header: seq<byte>, message: seq<byte>, macSize: nat,
    other: seq<byte>)
    returns (r: Outcome, recovered: seq<byte>, accepted: bool, otherAccepted: bool)
    requires enc.Valid() && dec.Valid() && enc != dec && enc.buffer != dec.buffer
    requires enc.scheme == dec.scheme && enc.forward && !dec.forward && enc.key == dec.key && Invertible(enc.scheme)
    requires enc.state != Start && dec.state != Start
    modifies enc, enc.buffer, dec, dec.buffer
    ensures r == Done <==> |header| <= enc.scheme.maxHeader && |message| <= enc.scheme.maxMessage
    ensures r == Done ==> recovered == message && accepted
    ensures r == Done ==>
              var ciphertext := Stream(enc.scheme, true, enc.scheme.startCipher(enc.key, iv), message).1;
              otherAccepted <==> other == Mac(enc.scheme, enc.key, iv, header,
                                          if enc.scheme.onPlaintext then message else ciphertext, [], macSize)
  {
    hide Absorb, Tail, Stream, Mac, Invertible;
    var ciphertext, mac;
    recovered, accepted, otherAccepted := [], false, false;
    r, ciphertext, mac := WholeMessage(enc, iv, header, message, macSize);
    if r != Done {
      return;
    }
    StreamLength(enc.scheme, true, enc.scheme.startCipher(enc.key, iv), message);
    TranscriptsAgree(enc.scheme, enc.key, iv, header, message, [], macSize);
    var digest;
    r, recovered, digest := WholeMessage(dec, iv, header, ciphertext, macSize);
    accepted, otherAccepted := digest == mac, digest == other;
  }

  /** Both directions authenticate the same bytes, so the receiver recomputes
      the sender's MAC and recovers the message. */
  lemma TranscriptsAgree<St(!new), Cs(!new)>(
    s: Scheme<St, Cs>, key: seq<byte>, iv: seq<byte>, header: seq<byte>, message: seq<byte>, footer: seq<byte>,
    macSize: nat)
    requires Invertible(s) && s.blockSize >= 1
    ensures var cs := s.startCipher(key, iv);
      var ciphertext := Stream(s, true, cs, message).1;
      var recovered := Stream(s, false, cs, ciphertext).1;
      && recovered == message
      && Mac(s, key, iv, header, if s.onPlaintext then recovered else ciphertext, footer, macSize)
         == Mac(s, key, iv, header, if s.onPlaintext then message else ciphertext, footer, macSize)
  {
    StreamInverse(s, s.startCipher(key, iv), message);
  }

  /** One object encrypts in one set of pieces and another decrypts in another:
      the message comes back and the MAC is accepted.  cuts are the lengths of
      the pieces the ciphertext arrives in; without a call of ProcessData on one
      side there is none on the other. */
  method RoundTrip<St(!new), Cs(!new)>(
    enc: Cipher<St, Cs>, dec: Cipher<St, Cs>, iv: seq<byte>,
    headers: seq<seq<byte>>, pieces: seq<seq<byte>>, footers: seq<seq<byte>>,
    headers': seq<seq<byte>>, cuts: seq<nat>, footers': seq<seq<byte>>, macSize: nat)
    returns (r: Outcome, message: seq<byte>, accepted: bool)
    requires enc.Valid() && dec.Valid() && enc != dec && enc.buffer != dec.buffer
    requires enc.scheme == dec.scheme && enc.forward && !dec.forward && enc.key == dec.key && Invertible(enc.scheme)
    requires enc.state != Start && dec.state != Start
    requires Concat(headers') == Concat(headers) && Concat(footers') == Concat(footers)
    modifies enc, enc.buffer, dec, dec.buffer
    ensures r == Done <==>
              && |HeaderOf(headers, pieces, footers)| <= enc.scheme.maxHeader
              && |Concat(pieces)| <= enc.scheme.maxMessage
              && |FooterOf(pieces, footers)| <= enc.scheme.maxFooter
    ensures r == Done ==> message == Concat(pieces) && accepted
  {
    hide Absorb, Tail, Stream, Mac, Concat, Invertible;
    message, accepted := [], false;
    var ciphertext, mac, mac';
    r, ciphertext, mac := Run(enc, iv, headers, pieces, footers, macSize);
    if r != Done {
      return;
    }
    StreamLength(enc.scheme, true, enc.scheme.startCipher(enc.key, iv), Concat(pieces));
    ChopConcat(ciphertext, cuts);
    TranscriptsAgree(enc.scheme, enc.key, iv, HeaderOf(headers, pieces, footers), Concat(pieces),
      FooterOf(pieces, footers), macSize);
    var received := if pieces == [] then [] else Chop(ciphertext, cuts);
    if pieces == [] {
      NoPieces(ciphertext);
    }
    r, message, mac' := Run(dec, iv, headers', received, footers', macSize);
    accepted := mac' == mac;
  }

  lemma NoPieces(ciphertext: seq<byte>)
    ensures Concat<byte>([]) == [] && (|ciphertext| == 0 ==> ciphertext == [])
  {
  }

  /** Cuts data into pieces of the given lengths, as far as it goes, and a rest. */
  function Chop(data: seq<byte>, cuts: seq<nat>): seq<seq<byte>>
    decreases |cuts|
  {
    if cuts == [] then
      [data]
    else
      var n, last := Min(cuts[|cuts| - 1], |data|), |cuts| - 1;
      Chop(data[..|data| - n], cuts[..last]) + [data[|data| - n..]]
  }

  lemma {:induction false} ChopConcat(data: seq<byte>, cuts: seq<nat>)
    ensures Chop(data, cuts) != [] && Concat(Chop(data, cuts)) == data
    decreases |cuts|
  {
    hide Concat;
    if cuts == [] {
      ConcatSnoc([], data);
    } else {
      var n, last := Min(cuts[|cuts| - 1], |data|), |cuts| - 1;
      var front, back := data[..|data| - n], data[|data| - n..];
      ChopConcat(front, cuts[..last]);
      ConcatSnoc(Chop(front, cuts[..last]), back);
      assert front + back == data;
    }
  }
}

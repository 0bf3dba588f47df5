/** Byte streams, and big-endian and base-128 numbers: what the codecs of
    crypto++/asn.cpp read and write. */
module AsnBytes {
  import opened Powers

  /** n in exactly k bytes, most significant first. */
  function BigEndian(n: nat, k: nat): (s: seq<byte>)
    ensures |s| == k
  {
    if k == 0 then [] else BigEndian(n / 256, k - 1) + [n % 256]
  }

  /** The number that a byte string stands for. */
  function Value(s: seq<byte>): nat {
    if s == [] then 0 else 256 * Value(s[..|s| - 1]) + s[|s| - 1]
  }

  function Pow256(k: nat): (p: int)
    ensures p > 0
  {
    if k == 0 then 1 else 256 * Pow256(k - 1)
  }

  /** Bytes needed for n (BytePrecision in crypto++/misc.h). */
  function Precision(n: nat): (k: nat)
    ensures n < Pow256(k)
    ensures k > 0 ==> n >= Pow256(k - 1)
  {
    if n == 0 then 0 else Precision(n / 256) + 1
  }

  lemma {:induction false} Pow256Monotone(a: nat, b: nat)
    requires a <= b
    ensures Pow256(a) <= Pow256(b)
  {
    if a < b {
      Pow256Monotone(a, b - 1);
    }
  }

  /** A number below 256^j needs at most j bytes. */
  lemma {:induction false} PrecisionLeast(n: nat, j: nat)
    requires n < Pow256(j)
    ensures Precision(n) <= j
  {
    if j > 0 {
      PrecisionLeast(n / 256, j - 1);
    }
  }

  lemma {:induction false} ValueBigEndian(n: nat, k: nat)
    requires n < Pow256(k)
    ensures Value(BigEndian(n, k)) == n
  {
    if k > 0 {
      ValueBigEndian(n / 256, k - 1);
      var s := BigEndian(n, k);
      assert s[..k - 1] == BigEndian(n / 256, k - 1);
    }
  }

  lemma {:induction false} ValueBound(s: seq<byte>)
    ensures Value(s) < Pow256(|s|)
  {
    if s != [] {
      ValueBound(s[..|s| - 1]);
    }
  }

  lemma {:induction false} BigEndianValue(s: seq<byte>)
    ensures BigEndian(Value(s), |s|) == s
  {
    if s != [] {
      BigEndianValue(s[..|s| - 1]);
      assert s == s[..|s| - 1] + [s[|s| - 1]];
    }
  }

  lemma ValueSnoc(s: seq<byte>, b: byte)
    ensures Value(s + [b]) == 256 * Value(s) + b
  {
    assert (s + [b])[..|s|] == s;
  }

  /** Leading zeros do not count. */
  lemma {:induction false} ValueLeadingZero(s: seq<byte>)
    requires s != [] && s[0] == 0
    ensures Value(s) == Value(s[1..])
  {
    if |s| == 1 {
      assert s[..0] == [] && s[1..] == [];
    } else {
      ValueLeadingZero(s[..|s| - 1]);
      assert s[1..][..|s| - 2] == s[..|s| - 1][1..];
    }
  }

  /** Top byte: a string is at least its first byte times the weight below. */
  lemma {:induction false} ValueTop(s: seq<byte>)
    requires s != []
    ensures s[0] * Pow256(|s| - 1) <= Value(s) < (s[0] + 1) * Pow256(|s| - 1)
  {
    if |s| == 1 {
      assert s[..0] == [];
    } else {
      var front, last := s[..|s| - 1], s[|s| - 1];
      ValueTop(front);
      var p := Pow256(|s| - 2);
      assert s[0] * (256 * p) == 256 * (s[0] * p);
      assert (s[0] + 1) * (256 * p) == 256 * ((s[0] + 1) * p);
    }
  }

  /** A BufferedTransformation: the bytes still to come out, and what each
      enclosing definite-length decoder will still let through.  Taking bytes
      charges every one of them. */
  class Stream {
    var bytes: seq<byte>
    var limits: seq<nat>

    constructor (bytes: seq<byte>, limits: seq<nat>)
      ensures this.bytes == bytes && this.limits == limits
    {
      this.bytes, this.limits := bytes, limits;
    }

    /** The bytes that can be read. */
    function Visible(): seq<byte>
      reads this
    {
      bytes[..Room(limits, |bytes|)]
    }

    method Put(data: seq<byte>)
      modifies `bytes
      ensures bytes == old(bytes) + data
    {
      bytes := bytes + data;
    }

    /** TransferTo2 of up to n bytes out of this stream. */
    method Take(n: nat) returns (data: seq<byte>)
      modifies this
      ensures data == old(Visible())[..Min(n, |old(Visible())|)]
      ensures Charged(old(bytes), old(limits), bytes, limits, |data|)
      ensures Visible() == old(Visible())[|data|..]
    {
      RoomFits(limits, |bytes|);
      var k := Min(n, Room(limits, |bytes|));
      data := bytes[..k];
      RoomCharged(limits, |bytes|, k);
      bytes := bytes[k..];
      limits := Less(limits, k);
    }
  }

  /** The least of the limits and what there is. */
  function Room(limits: seq<nat>, n: nat): (r: nat)
    ensures r <= n
  {
    if limits == [] then n else Room(limits[1..], Min(n, limits[0]))
  }

  function Less(limits: seq<nat>, k: nat): (r: seq<nat>)
    requires forall i :: 0 <= i < |limits| ==> k <= limits[i]
    ensures |r| == |limits| && forall i :: 0 <= i < |r| ==> r[i] == limits[i] - k
  {
    seq(|limits|, i requires 0 <= i < |limits| => limits[i] - k)
  }

  /** What can be read is no more than any limit, and as much as one of them, or
      the data, allows. */
  lemma {:induction false} RoomFits(limits: seq<nat>, n: nat)
    ensures forall i :: 0 <= i < |limits| ==> Room(limits, n) <= limits[i]
    ensures Room(limits, n) == n || Room(limits, n) in limits
  {
    if limits != [] {
      RoomFits(limits[1..], Min(n, limits[0]));
      assert forall i :: 1 <= i < |limits| ==> limits[i] == limits[1..][i - 1];
    }
  }

  lemma {:induction false} RoomCharged(limits: seq<nat>, n: nat, k: nat)
    requires k <= Room(limits, n)
    requires forall i :: 0 <= i < |limits| ==> k <= limits[i]
    ensures k <= n
    ensures Room(Less(limits, k), n - k) == Room(limits, n) - k
  {
    if limits != [] {
      RoomCharged(limits[1..], Min(n, limits[0]), k);
      assert Less(limits, k)[1..] == Less(limits[1..], k);
    }
  }

  /** k bytes were taken, and every enclosing decoder was charged for them. */
  ghost predicate Charged(bytes: seq<byte>, limits: seq<nat>, bytes': seq<byte>, limits': seq<nat>, k: nat) {
    && k <= |bytes| && bytes' == bytes[k..]
    && |limits'| == |limits|
    && forall i :: 0 <= i < |limits| ==> limits'[i] == limits[i] - k
  }

  lemma ChargedTwice(
    b0: seq<byte>, l0: seq<nat>, b1: seq<byte>, l1: seq<nat>, b2: seq<byte>, l2: seq<nat>, j: nat, k: nat)
    requires Charged(b0, l0, b1, l1, j) && Charged(b1, l1, b2, l2, k)
    ensures Charged(b0, l0, b2, l2, j + k)
  {
  }
}

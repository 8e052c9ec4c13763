/** A TCP socket with an oracle for how recv and send split the stream, the blocking read and write
    loops over it, and the framing of the stream into packets. */
module Link {
  import opened Bytes
  import opened CrcTables
  import opened Fragments
  import Gf2
  import opened Packets
  import Words

  /** No entry of an oracle breaks the connection. */
  ghost predicate Orderly(plan: seq<int>) {
    0 !in plan
  }

  class Socket {
    var input: bytes       // what the peer still delivers before it closes
    var output: bytes      // what the peer has been sent
    var recvPlan: seq<int> // results of the coming recv calls: negative to retry, 0 for a broken connection
    var sendPlan: seq<int> // the same for send

    constructor (input: bytes, recvPlan: seq<int>, sendPlan: seq<int>)
      ensures this.input == input && output == [] && this.recvPlan == recvPlan && this.sendPlan == sendPlan
    {
      this.input, this.output, this.recvPlan, this.sendPlan := input, [], recvPlan, sendPlan;
    }

    method Recv(count: nat) returns (n: int, chunk: bytes)
      requires count > 0
      modifies this`input, this`recvPlan
      ensures n < 0 ==> chunk == [] && |recvPlan| < |old(recvPlan)|
      ensures n >= 0 ==> n == |chunk| <= count
      ensures chunk + input == old(input)
      ensures recvPlan <= old(recvPlan) || |recvPlan| < |old(recvPlan)|
      ensures Orderly(old(recvPlan)) ==> Orderly(recvPlan) && (n == 0 ==> input == [])
    {
      n := count;
      if recvPlan != [] {
        n, recvPlan := recvPlan[0], recvPlan[1..];
      }
      if n >= 0 {
        n := Min(n, Min(count, |input|));
        chunk, input := input[..n], input[n..];
      } else {
        chunk := [];
      }
    }

    /** Blocking ReadFrom: count bytes into buf at offset at, or 0 when the connection ended first. */
    method ReadFrom(buf: array<byte>, at: nat, count: nat) returns (r: int, ghost got: bytes)
      requires at + count <= buf.Length
      modifies this`input, this`recvPlan, buf
      ensures |got| <= count && got + input == old(input)
      ensures buf[..] == Splice(old(buf[..]), at, got)
      ensures r == (if |got| == count then count else 0)
      ensures Orderly(old(recvPlan)) ==> Orderly(recvPlan)
      ensures Orderly(old(recvPlan)) ==> |got| == Min(count, |old(input)|)
    {
      hide Splice, Orderly;
      var read := 0;
      got := [];
      SpliceNothing(buf[..], at);
      while read < count
        invariant read == |got| <= count && got + input == old(input)
        invariant buf[..] == Splice(old(buf[..]), at, got)
        invariant Orderly(old(recvPlan)) ==> Orderly(recvPlan)
        decreases count - read
      {
        var n, chunk := Recv(count - read);
        while n < 0
          invariant n < 0 ==> chunk == []
          invariant n >= 0 ==> n == |chunk| <= count - read
          invariant got + chunk + input == old(input)
          invariant buf[..] == Splice(old(buf[..]), at, got)
          invariant Orderly(old(recvPlan)) ==> Orderly(recvPlan) && (n == 0 ==> input == [])
          decreases if n < 0 then 1 else 0, |recvPlan|
        {
          n, chunk := Recv(count - read);
        }
        CopyNext(buf, at, read, chunk, old(buf[..]), got);
        got := got + chunk;
        read := read + n;
        if n == 0 {
          return 0, got;
        }
      }
      return count, got;
    }

    method Send(chunk: bytes) returns (n: int)
      requires chunk != []
      modifies this`output, this`sendPlan
      ensures n <= |chunk|
      ensures output == old(output) + (if n > 0 then chunk[..n] else [])
      ensures n < 0 ==> |sendPlan| < |old(sendPlan)|
      ensures |sendPlan| <= |old(sendPlan)|
      ensures Orderly(old(sendPlan)) ==> Orderly(sendPlan) && n != 0
    {
      n := |chunk|;
      if sendPlan != [] {
        n, sendPlan := Min(sendPlan[0], |chunk|), sendPlan[1..];
      }
      if n > 0 {
        output := output + chunk[..n];
      }
    }

    /** WriteTo over TCP: everything, or 0 when the connection broke part of the way. */
    method WriteTo(b: bytes) returns (r: int)
      modifies this`output, this`sendPlan
      ensures r == |b| ==> output == old(output) + b
      ensures r != |b| ==> r == 0 && exists k: nat :: k < |b| && output == old(output) + b[..k]
      ensures Orderly(old(sendPlan)) ==> Orderly(sendPlan) && r == |b|
    {
      var sent := 0;
      while sent < |b|
        invariant 0 <= sent <= |b| && output == old(output) + b[..sent]
        invariant Orderly(old(sendPlan)) ==> Orderly(sendPlan)
        decreases |b| - sent, |sendPlan|
      {
        var n := Send(b[sent..]);
        if n == 0 {
          return 0;
        } else if n > 0 {
          assert b[..sent] + b[sent..][..n] == b[..sent + n];
          sent := sent + n;
        }
      }
      return sent;
    }
  }

  /** memcpy from outside the buffer */
  method CopyIn(a: array<byte>, at: nat, chunk: bytes)
    requires at + |chunk| <= a.Length
    modifies a
    ensures a[..] == Splice(old(a[..]), at, chunk)
  {
    forall k | 0 <= k < |chunk| {
      a[at + k] := chunk[k];
    }
  }

  /** memcpy of the next bytes of a stream whose first bytes `got` already lie at `at`. */
  method CopyNext(a: array<byte>, at: nat, read: nat, chunk: bytes, ghost b: bytes, ghost got: bytes)
    requires read == |got| && at + read + |chunk| <= a.Length == |b| && a[..] == Splice(b, at, got)
    modifies a
    ensures a[..] == Splice(b, at, got + chunk)
  {
    hide Splice;
    SpliceJoin(b, at, got, chunk);
    CopyIn(a, at + read, chunk);
  }

  // ---- Framing --------------------------------------------------------------------------------

  ghost function EncodeAll(ps: seq<Packet>): (b: seq<bytes>)
    ensures |b| == |ps|
    ensures forall i :: 0 <= i < |b| ==> b[i] == Encode(ps[i])
  {
    seq(|ps|, i requires 0 <= i < |ps| => Encode(ps[i]))
  }

  /** A frame announces its own length. */
  predicate IsFrame(f: bytes) {
    SHORT_HEADER <= |f| && |f| == SHORT_HEADER + U32(f, 8)
  }

  lemma EncodedIsFrame(p: Packet)
    requires Encodable(p)
    ensures IsFrame(Encode(p))
  {
    ReadFields(Encode(p), p, PacketCrc(Covered(p)));
  }

  lemma {:induction false} FlattenFirst<T>(ss: seq<seq<T>>)
    requires ss != []
    ensures Flatten(ss) == ss[0] + Flatten(ss[1..])
  {
    FlattenAppend([ss[0]], ss[1..]);
    FlattenSingle(ss[0]);
    assert ss == [ss[0]] + ss[1..];
  }

  /** The receiver's check: the CRC of everything behind the header against the CRC field. */
  ghost predicate CrcMatches(frame: bytes)
    requires |frame| >= HEADER
  {
    PacketCrc(frame[HEADER..]) == U16(frame, 12)
  }

  /** A packet that the receiver takes passes the check. */
  lemma EncodedPasses(p: Packet)
    requires Encodable(p) && PacketSized(p)
    ensures CrcMatches(Encode(p))
  {
    var b := Encode(p);
    CoversAll(p);
    ReadFields(b, p, PacketCrc(Covered(p)));
    assert b[HEADER..] == Body(p.frags, p.tail);
  }

  /** A packet whose body was damaged by a burst of at most 16 bits, or in an odd number of bits, does not. */
  lemma DamagedFails(p: Packet, frame: bytes)
    requires Encodable(p) && PacketSized(p) && |frame| == |Encode(p)|
    requires frame[..HEADER] == Encode(p)[..HEADER]
    requires Corrupted(Gf2.Difference(Words.MessageBits(Encode(p)[HEADER..]), Words.MessageBits(frame[HEADER..])))
    ensures !CrcMatches(frame)
  {
    var b := Encode(p);
    EncodedPasses(p);
    assert frame[12] == frame[..HEADER][12] && frame[13] == frame[..HEADER][13];
    assert b[12] == b[..HEADER][12] && b[13] == b[..HEADER][13];
    PacketCrcDetects(b[HEADER..], frame[HEADER..]);
  }

}

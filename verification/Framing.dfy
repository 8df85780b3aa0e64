/** The byte streams fed to SHA-256: big-endian lengths and length-prefixed frames. */
module Framing {
  import opened Sequences

  type byte = x: int | 0 <= x < 256

  type Bytes = seq<byte>

  const TWO_TO_64: nat := 0x1_0000_0000_0000_0000

  /** The low `width` bytes of a number, most significant first. */
  function BigEndian(n: nat, width: nat): (r: Bytes)
    ensures |r| == width
  {
    if width == 0 then [] else BigEndian(n / 256, width - 1) + [n % 256]
  }

  function FromBigEndian(s: Bytes): nat {
    if s == [] then 0 else FromBigEndian(s[..|s| - 1]) * 256 + s[|s| - 1]
  }

  function Capacity(width: nat): nat {
    if width == 0 then 1 else Capacity(width - 1) * 256
  }

  lemma {:induction false} BigEndianRoundTrip(n: nat, width: nat)
    requires n < Capacity(width)
    ensures FromBigEndian(BigEndian(n, width)) == n
  {
    if width > 0 {
      BigEndianRoundTrip(n / 256, width - 1);
      assert BigEndian(n, width)[..width - 1] == BigEndian(n / 256, width - 1);
    }
  }

  /** A 64-bit length. */
  function U64(n: nat): Bytes {
    BigEndian(n, 8)
  }

  lemma U64Injective(m: nat, n: nat)
    requires m < TWO_TO_64 && n < TWO_TO_64 && U64(m) == U64(n)
    ensures m == n
  {
    assert Capacity(8) == TWO_TO_64 by {
      assert Capacity(4) == 0x1_0000_0000;
    }
    BigEndianRoundTrip(m, 8);
    BigEndianRoundTrip(n, 8);
  }

  function Frame(bytes: Bytes): Bytes {
    U64(|bytes|) + bytes
  }

  lemma U64Cancels(m: nat, n: nat, x: Bytes, y: Bytes)
    requires m < TWO_TO_64 && n < TWO_TO_64 && U64(m) + x == U64(n) + y
    ensures m == n && x == y
  {
    assert (U64(m) + x)[..8] == U64(m) && (U64(n) + y)[..8] == U64(n);
    U64Injective(m, n);
    assert (U64(m) + x)[8..] == x && (U64(n) + y)[8..] == y;
  }

  /** A frame at the head of a stream is determined by the stream. */
  lemma FrameCancels(a: Bytes, b: Bytes, x: Bytes, y: Bytes)
    requires |a| < TWO_TO_64 && |b| < TWO_TO_64 && Frame(a) + x == Frame(b) + y
    ensures a == b && x == y
  {
    assert Frame(a) + x == U64(|a|) + (a + x) && Frame(b) + y == U64(|b|) + (b + y);
    U64Cancels(|a|, |b|, a + x, b + y);
    assert (a + x)[..|a|] == a && (b + y)[..|b|] == b;
    assert (a + x)[|a|..] == x && (b + y)[|b|..] == y;
  }

  // ----- The hasher -----

  /** A hasher seen through its preimage. */
  class Hasher {
    var stream: Bytes

    constructor ()
      ensures stream == []
    {
      stream := [];
    }

    method Update(bytes: Bytes)
      modifies this
      ensures stream == old(stream) + bytes
    {
      stream := stream + bytes;
    }

    method HashU64(value: nat)
      modifies this
      ensures stream == old(stream) + U64(value)
    {
      Update(U64(value));
    }

    method HashFrame(bytes: Bytes)
      modifies this
      ensures stream == old(stream) + Frame(bytes)
    {
      HashU64(|bytes|);
      Update(bytes);
    }
  }

  // ----- Sequences of encoded items -----

  function Concat<T>(encode: T -> Bytes, items: seq<T>): Bytes {
    if items == [] then [] else encode(items[0]) + Concat(encode, items[1..])
  }

  lemma {:induction false} ConcatAppend<T>(encode: T -> Bytes, items: seq<T>, item: T)
    ensures Concat(encode, items + [item]) == Concat(encode, items) + encode(item)
  {
    if items == [] {
      assert items + [item] == [item] && [item][1..] == [];
    } else {
      ConcatAppend(encode, items[1..], item);
      assert (items + [item])[1..] == items[1..] + [item];
    }
  }

  /** An encoded item at the head of a stream is determined by the stream. */
  ghost predicate PrefixFree<T(!new)>(encode: T -> Bytes, valid: T -> bool) {
    forall a, b, x: Bytes, y: Bytes {:trigger encode(a) + x, encode(b) + y} ::
      valid(a) && valid(b) && encode(a) + x == encode(b) + y ==> a == b && x == y
  }

  lemma {:induction false} ConcatCancels<T(!new)>(encode: T -> Bytes, valid: T -> bool, a: seq<T>, b: seq<T>, x: Bytes,
        y: Bytes)
    requires PrefixFree(encode, valid)
    requires (forall i :: 0 <= i < |a| ==> valid(a[i])) && (forall i :: 0 <= i < |b| ==> valid(b[i]))
    requires |a| == |b| && Concat(encode, a) + x == Concat(encode, b) + y
    ensures a == b && x == y
  {
    if a != [] {
      var restA, restB := Concat(encode, a[1..]) + x, Concat(encode, b[1..]) + y;
      assert Concat(encode, a) + x == encode(a[0]) + restA;
      assert Concat(encode, b) + y == encode(b[0]) + restB;
      ConcatCancels(encode, valid, a[1..], b[1..], x, y);
      assert a == [a[0]] + a[1..] && b == [b[0]] + b[1..];
    } else {
      assert Concat(encode, a) + x == x && Concat(encode, b) + y == y;
    }
  }

  /** A list headed by its length. */
  function Counted<T>(encode: T -> Bytes, items: seq<T>): Bytes {
    U64(|items|) + Concat(encode, items)
  }

  lemma CountedCancels<T(!new)>(encode: T -> Bytes, valid: T -> bool, a: seq<T>, b: seq<T>, x: Bytes, y: Bytes)
    requires PrefixFree(encode, valid)
    requires (forall i :: 0 <= i < |a| ==> valid(a[i])) && (forall i :: 0 <= i < |b| ==> valid(b[i]))
    requires |a| < TWO_TO_64 && |b| < TWO_TO_64 && Counted(encode, a) + x == Counted(encode, b) + y
    ensures a == b && x == y
  {
    Regroup2(U64(|a|), Concat(encode, a), x);
    Regroup2(U64(|b|), Concat(encode, b), y);
    U64Cancels(|a|, |b|, Concat(encode, a) + x, Concat(encode, b) + y);
    ConcatCancels(encode, valid, a, b, x, y);
  }

  /** One more item hashed. */
  lemma ConcatStep<T>(encode: T -> Bytes, start: Bytes, items: seq<T>, n: nat)
    requires n < |items|
    ensures start + Concat(encode, items[..n]) + encode(items[n]) == start + Concat(encode, items[..n + 1])
  {
    assert items[..n + 1] == items[..n] + [items[n]];
    ConcatAppend(encode, items[..n], items[n]);
    Regroup2(start, Concat(encode, items[..n]), encode(items[n]));
  }

  // ----- Artifact sets -----

  datatype Member = Member(path: Bytes, bytes: Bytes)

  function MemberFrame(member: Member): Bytes {
    Frame(member.path) + Frame(member.bytes)
  }

  /** The preimage of an artifact set's aggregate digest; `domain` is the fixed prefix. */
  function ArtifactSetStream(domain: Bytes, members: seq<Member>): Bytes {
    domain + Counted(MemberFrame, members)
  }

  method HashMember(hasher: Hasher, member: Member)
    modifies hasher
    ensures hasher.stream == old(hasher.stream) + MemberFrame(member)
  {
    Regroup2(hasher.stream, Frame(member.path), Frame(member.bytes));
    hasher.HashFrame(member.path);
    hasher.HashFrame(member.bytes);
  }

  method HashArtifactSet(domain: Bytes, members: seq<Member>) returns (hasher: Hasher)
    ensures fresh(hasher) && hasher.stream == ArtifactSetStream(domain, members)
  {
    hasher := new Hasher();
    hasher.Update(domain);
    hasher.HashU64(|members|);
    ghost var start := hasher.stream;
    for i := 0 to |members|
      invariant fresh(hasher) && hasher.stream == start + Concat(MemberFrame, members[..i])
    {
      ConcatStep(MemberFrame, start, members, i);
      HashMember(hasher, members[i]);
    }
    assert members[..|members|] == members;
    Regroup2(domain, U64(|members|), Concat(MemberFrame, members));
  }

  /** Lengths fit the 64 bits they are written in. */
  predicate MemberFits(member: Member) {
    |member.path| < TWO_TO_64 && |member.bytes| < TWO_TO_64
  }

  lemma MemberFramePrefixFree()
    ensures PrefixFree(MemberFrame, MemberFits)
  {
    forall a, b, x: Bytes, y: Bytes | MemberFits(a) && MemberFits(b) && MemberFrame(a) + x == MemberFrame(b) + y
      ensures a == b && x == y
    {
      MemberCancels(a, b, x, y);
    }
  }

  lemma MemberCancels(a: Member, b: Member, x: Bytes, y: Bytes)
    requires MemberFits(a) && MemberFits(b) && MemberFrame(a) + x == MemberFrame(b) + y
    ensures a == b && x == y
  {
    Regroup2(Frame(a.path), Frame(a.bytes), x);
    Regroup2(Frame(b.path), Frame(b.bytes), y);
    FrameCancels(a.path, b.path, Frame(a.bytes) + x, Frame(b.bytes) + y);
    FrameCancels(a.bytes, b.bytes, x, y);
  }

  /** Two sequences of members share a stream, or a stream with something appended, only if
      they are the same sequence. */
  lemma ArtifactSetInjective(domain: Bytes, a: seq<Member>, b: seq<Member>, x: Bytes, y: Bytes)
    requires |a| < TWO_TO_64 && |b| < TWO_TO_64
    requires (forall i :: 0 <= i < |a| ==> MemberFits(a[i])) && (forall i :: 0 <= i < |b| ==> MemberFits(b[i]))
    ensures ArtifactSetStream(domain, a) + x == ArtifactSetStream(domain, b) + y <==> a == b && x == y
  {
    if ArtifactSetStream(domain, a) + x == ArtifactSetStream(domain, b) + y {
      Regroup2(domain, Counted(MemberFrame, a), x);
      Regroup2(domain, Counted(MemberFrame, b), y);
      SamePrefix(domain, Counted(MemberFrame, a) + x, Counted(MemberFrame, b) + y);
      MemberFramePrefixFree();
      CountedCancels(MemberFrame, MemberFits, a, b, x, y);
    }
  }

  lemma SamePrefix(prefix: Bytes, x: Bytes, y: Bytes)
    requires prefix + x == prefix + y
    ensures x == y
  {
    assert (prefix + x)[|prefix|..] == x && (prefix + y)[|prefix|..] == y;
  }
}
